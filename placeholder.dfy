/** The normaliser as the repository writes it: each quote is first replaced
    by a placeholder token, the text is split on the token, and the pieces
    are joined back with alternating curly marks; once for double quotes,
    then once for single quotes. */
module Placeholder {
  import opened QuoteChars
  import QuoteNormalize

  const Section: char := '\U{00A7}'

  /** The placeholder token of each class: "§DQUOTE§" and "§SQUOTE§". */
  function Token(cls: QuoteClass): (t: seq<char>)
    ensures |t| == 8 && t[0] == Section && t[7] == Section
  {
    match cls
    case Double => [Section] + "DQUOTE" + [Section]
    case Single => [Section] + "SQUOTE" + [Section]
  }

  /** Regular-expression substitution of the three-character class `cls`:
      each of its characters becomes the class's token. */
  function Substitute(s: seq<char>, cls: QuoteClass): (r: seq<char>)
    ensures |r| == |s| + 7 * Slots(s, cls)
  {
    if s == [] then []
    else (if IsQuote(s[0], cls) then Token(cls) else [s[0]]) + Substitute(s[1..], cls)
  }

  /** The parts glued back with the separator between neighbours. */
  function JoinWith(parts: seq<seq<char>>, sep: seq<char>): seq<char>
    requires |parts| >= 1
  {
    if |parts| == 1 then parts[0] else parts[0] + sep + JoinWith(parts[1..], sep)
  }

  /** String splitting on a non-empty separator: scanning from the left, each
      occurrence of `sep` ends the current part and is dropped. */
  function Split(s: seq<char>, sep: seq<char>): (parts: seq<seq<char>>)
    requires |sep| > 0
    ensures |parts| >= 1
    decreases |s|
  {
    if s == [] then [[]]
    else if sep <= s then [[]] + Split(s[|sep|..], sep)
    else
      var rest := Split(s[1..], sep);
      [[s[0]] + rest[0]] + rest[1..]
  }

  /** Splitting loses nothing: putting the separator back between the parts
      restores the text. */
  lemma {:induction false} SplitRoundTrip(s: seq<char>, sep: seq<char>)
    requires |sep| > 0
    ensures JoinWith(Split(s, sep), sep) == s
    decreases |s|
  {
    if s == [] {
    } else if sep <= s {
      SplitRoundTrip(s[|sep|..], sep);
      RoundTripAtSeparator(s, sep);
    } else {
      SplitRoundTrip(s[1..], sep);
      RoundTripAtChar(s, sep);
    }
  }

  /** The step of `SplitRoundTrip` when the text starts with the separator. */
  lemma RoundTripAtSeparator(s: seq<char>, sep: seq<char>)
    requires |sep| > 0 && sep <= s
    requires JoinWith(Split(s[|sep|..], sep), sep) == s[|sep|..]
    ensures JoinWith(Split(s, sep), sep) == s
  {
    var tail := s[|sep|..];
    var rest := Split(tail, sep);
    assert s == sep + tail;
    assert Split(s, sep) == [[]] + rest;
    JoinWithCons([], rest, sep);
    assert JoinWith(Split(s, sep), sep) == [] + sep + tail;
    assert [] + sep + tail == s;
  }

  /** The step of `SplitRoundTrip` when the text starts with anything else. */
  lemma RoundTripAtChar(s: seq<char>, sep: seq<char>)
    requires |sep| > 0 && s != [] && !(sep <= s)
    requires JoinWith(Split(s[1..], sep), sep) == s[1..]
    ensures JoinWith(Split(s, sep), sep) == s
  {
    var rest := Split(s[1..], sep);
    JoinWithPrepend([s[0]], rest, sep);
    assert JoinWith(Split(s, sep), sep) == [s[0]] + s[1..];
    assert [s[0]] + s[1..] == s;
  }

  lemma JoinWithCons(a: seq<char>, parts: seq<seq<char>>, sep: seq<char>)
    requires |parts| >= 1
    ensures JoinWith([a] + parts, sep) == a + sep + JoinWith(parts, sep)
  {
    assert ([a] + parts)[1..] == parts;
  }

  lemma JoinWithPrepend(a: seq<char>, parts: seq<seq<char>>, sep: seq<char>)
    requires |parts| >= 1
    ensures JoinWith([a + parts[0]] + parts[1..], sep) == a + JoinWith(parts, sep)
  {
    var q := [a + parts[0]] + parts[1..];
    if |parts| > 1 {
      assert q[1..] == parts[1..];
    }
  }

  /** An occurrence of `sep` starts at position `k` of `t`. */
  predicate MatchAt(t: seq<char>, k: nat, sep: seq<char>)
    requires k <= |t|
  {
    sep <= t[k..]
  }

  /** No occurrence of `sep` starts inside `x` when `x` is followed by `y`. */
  predicate NoMatchIn(x: seq<char>, y: seq<char>, sep: seq<char>) {
    forall k :: 0 <= k < |x| ==> !MatchAt(x + y, k, sep)
  }

  /** What follows part `i` in the text: the separator, except after the
      last part. */
  function Follow(parts: seq<seq<char>>, i: nat, sep: seq<char>): seq<char> {
    if i + 1 < |parts| then sep else []
  }

  /** Splitting takes the leftmost match each time: no occurrence of the
      separator starts inside a part, even one that runs on into the
      separator dropped after it. */
  lemma {:induction false} SplitLeftmost(s: seq<char>, sep: seq<char>)
    requires |sep| > 0
    ensures forall i :: 0 <= i < |Split(s, sep)| ==>
              NoMatchIn(Split(s, sep)[i], Follow(Split(s, sep), i, sep), sep)
    decreases |s|
  {
    var parts := Split(s, sep);
    if s == [] {
    } else if sep <= s {
      var rest := Split(s[|sep|..], sep);
      SplitLeftmost(s[|sep|..], sep);
      assert parts == [[]] + rest;
      forall i | 1 <= i < |parts| ensures NoMatchIn(parts[i], Follow(parts, i, sep), sep) {
        assert NoMatchIn(rest[i - 1], Follow(rest, i - 1, sep), sep);
        assert parts[i] == rest[i - 1] && Follow(parts, i, sep) == Follow(rest, i - 1, sep);
      }
    } else {
      var rest := Split(s[1..], sep);
      SplitLeftmost(s[1..], sep);
      assert parts == [[s[0]] + rest[0]] + rest[1..];
      forall i | 1 <= i < |parts| ensures NoMatchIn(parts[i], Follow(parts, i, sep), sep) {
        assert NoMatchIn(rest[i], Follow(rest, i, sep), sep);
        assert parts[i] == rest[i] && Follow(parts, i, sep) == Follow(rest, i, sep);
      }
      FirstPartNoMatch(s, sep);
    }
  }

  /** The inductive step of `SplitLeftmost` for the first part, when the
      text does not start with the separator. */
  lemma FirstPartNoMatch(s: seq<char>, sep: seq<char>)
    requires |sep| > 0 && s != [] && !(sep <= s)
    requires NoMatchIn(Split(s[1..], sep)[0], Follow(Split(s[1..], sep), 0, sep), sep)
    ensures NoMatchIn(Split(s, sep)[0], Follow(Split(s, sep), 0, sep), sep)
  {
    var rest, parts := Split(s[1..], sep), Split(s, sep);
    var x, f := rest[0], Follow(rest, 0, sep);
    assert parts[0] == [s[0]] + x && |parts| == |rest|;
    assert Follow(parts, 0, sep) == f;
    FirstPartPrefix(s, sep);
    ConsNoMatch(s[0], x, f, s, sep);
  }

  /** Putting a character in front of a part adds no match, as long as the
      text it begins does not start with the separator. */
  lemma ConsNoMatch(c: char, x: seq<char>, f: seq<char>, s: seq<char>, sep: seq<char>)
    requires NoMatchIn(x, f, sep)
    requires [c] + x + f <= s && !(sep <= s)
    ensures NoMatchIn([c] + x, f, sep)
  {
    var w := [c] + x + f;
    forall k | 0 <= k < |[c] + x| ensures !MatchAt(w, k, sep) {
      if k == 0 {
        assert w[0..] == w;
        if sep <= w {
          PrefixOfPrefix(sep, w, s);
        }
      } else {
        assert !MatchAt(x + f, k - 1, sep);
        assert w[k..] == (x + f)[k - 1..];
      }
    }
  }

  lemma PrefixOfPrefix(a: seq<char>, b: seq<char>, c: seq<char>)
    requires a <= b && b <= c
    ensures a <= c
  {
    assert a == c[..|a|];
  }

  /** The first part, with the separator after it if more parts follow,
      begins the text. */
  lemma FirstPartPrefix(t: seq<char>, sep: seq<char>)
    requires |sep| > 0
    ensures Split(t, sep)[0] + Follow(Split(t, sep), 0, sep) <= t
  {
    var parts := Split(t, sep);
    var w := parts[0] + Follow(parts, 0, sep);
    SplitRoundTrip(t, sep);
    if |parts| > 1 {
      assert t == w + JoinWith(parts[1..], sep);
    } else {
      assert t == w + [];
    }
    assert w == t[..|w|];
  }

  /** No part of a split contains the separator. */
  lemma SplitPartsSeparatorFree(s: seq<char>, sep: seq<char>)
    requires |sep| > 0
    ensures forall i :: 0 <= i < |Split(s, sep)| ==> NoMatchIn(Split(s, sep)[i], [], sep)
  {
    var parts := Split(s, sep);
    SplitLeftmost(s, sep);
    forall i | 0 <= i < |parts| ensures NoMatchIn(parts[i], [], sep) {
      var x, f := parts[i], Follow(parts, i, sep);
      assert NoMatchIn(x, f, sep);
      forall k | 0 <= k < |x| ensures !MatchAt(x + [], k, sep) {
        assert !MatchAt(x + f, k, sep);
        assert x + [] == x;
      }
    }
  }

  /** The parts from index `k` on, each followed by the mark for its index
      except the last one. */
  function Interleave(parts: seq<seq<char>>, cls: QuoteClass, k: nat): seq<char>
    decreases |parts|
  {
    if parts == [] then []
    else parts[0] + (if |parts| > 1 then [Mark(cls, k)] else []) + Interleave(parts[1..], cls, k + 1)
  }

  /** Interleaving from part `i` on: part `i`, its mark unless it is the
      last part, then the parts after it. */
  lemma InterleaveFrom(parts: seq<seq<char>>, cls: QuoteClass, i: nat)
    requires i < |parts|
    ensures Interleave(parts[i..], cls, i)
              == parts[i] + (if i < |parts| - 1 then [Mark(cls, i)] else [])
                 + Interleave(parts[i + 1..], cls, i + 1)
  {
    assert parts[i..][1..] == parts[i + 1..];
  }

  lemma ConcatAssoc(a: seq<char>, b: seq<char>, c: seq<char>, d: seq<char>)
    ensures a + b + c + d == a + (b + c + d)
  {
  }

  /** The join loop: append each part and, after every part but the last,
      the opening mark at even indices and the closing mark at odd ones. */
  method JoinAlternating(parts: seq<seq<char>>, cls: QuoteClass) returns (text: seq<char>)
    ensures text == Interleave(parts, cls, 0)
  {
    text := [];
    for i := 0 to |parts|
      invariant text + Interleave(parts[i..], cls, i) == Interleave(parts, cls, 0)
    {
      ghost var before := text;
      ghost var mark: seq<char> := if i < |parts| - 1 then [Mark(cls, i)] else [];
      ghost var later := Interleave(parts[i + 1..], cls, i + 1);
      InterleaveFrom(parts, cls, i);
      ConcatAssoc(before, parts[i], mark, later);
      text := text + parts[i];
      if i < |parts| - 1 {
        text := text + [Mark(cls, i)];
      } else {
        assert text == text + [];
      }
    }
    assert Interleave(parts[|parts|..], cls, |parts|) == [];
    assert text + [] == text;
  }

  /** One split/join pass: split on the class's token, then join the parts
      with alternating marks of that class. */
  function SplitJoin(t: seq<char>, cls: QuoteClass): seq<char> {
    Interleave(Split(t, Token(cls)), cls, 0)
  }

  /** The whole normaliser as written: two substitutions, then a split/join
      for double quotes, then one for single quotes. On inputs without a
      placeholder clash it produces the two-pass normalisation. */
  function AsWritten(text: seq<char>): (r: seq<char>)
    ensures NoPlaceholderClash(text) ==> r == QuoteNormalize.Normalized(text)
  {
    var r := SplitJoin(SplitJoin(Substitute(Substitute(text, Double), Single), Double), Single);
    if NoPlaceholderClash(text) then AsWrittenMatchesNormalized(text); r else r
  }

  method NormalizeQuotesAsWritten(text: seq<char>) returns (r: seq<char>)
    ensures r == AsWritten(text)
    ensures NoPlaceholderClash(text) ==> r == QuoteNormalize.Normalized(text)
  {
    var t := Substitute(text, Double);
    t := Substitute(t, Single);
    var parts := Split(t, Token(Double));
    t := JoinAlternating(parts, Double);
    parts := Split(t, Token(Single));
    r := JoinAlternating(parts, Single);
  }

  /** Inputs on which the placeholder tokens cannot be mistaken for one
      another: no '§' at all, and no single quote followed directly by the
      letters DQUOTE and another quote character (whose tokens would put a
      "§DQUOTE§" across the end of a "§SQUOTE§"). */
  predicate NoPlaceholderClash(text: seq<char>) {
    Section !in text &&
    forall i :: 0 <= i && i + 7 < |text| && IsQuote(text[i], Single) ==>
      !(text[i + 1..i + 7] == "DQUOTE" && IsAnyQuote(text[i + 7]))
  }

  // ---------------------------------------------------------------------
  // Proof that, on such inputs, the text as written equals the two passes.

  /** Both substitutions at once: the composition of the two `Substitute`
      calls, taken one character at a time, which is the form the proofs
      below induct over (`SubstitutedTwice` shows the two agree). */
  function Tokenized(s: seq<char>): seq<char> {
    if s == [] then []
    else Image(s[0]) + Tokenized(s[1..])
  }

  /** What one character becomes after both substitutions: a quote of
      either class turns into that class's token, anything else stays. */
  function Image(c: char): seq<char> {
    if IsQuote(c, Double) then Token(Double)
    else if IsQuote(c, Single) then Token(Single)
    else [c]
  }

  lemma {:induction false} SubstituteAppend(a: seq<char>, b: seq<char>, cls: QuoteClass)
    ensures Substitute(a + b, cls) == Substitute(a, cls) + Substitute(b, cls)
  {
    if a == [] {
      assert a + b == b;
    } else {
      assert (a + b)[1..] == a[1..] + b;
      SubstituteAppend(a[1..], b, cls);
    }
  }

  lemma {:induction false} SubstituteNoQuotes(s: seq<char>, cls: QuoteClass)
    requires forall i :: 0 <= i < |s| ==> !IsQuote(s[i], cls)
    ensures Substitute(s, cls) == s
  {
    if s != [] {
      SubstituteNoQuotes(s[1..], cls);
    }
  }

  lemma {:induction false} SubstitutedTwice(s: seq<char>)
    ensures Substitute(Substitute(s, Double), Single) == Tokenized(s)
  {
    if s != [] {
      var head := if IsQuote(s[0], Double) then Token(Double) else [s[0]];
      var tail := Substitute(s[1..], Double);
      assert Substitute(head, Single) == Image(s[0]) by {
        if IsQuote(s[0], Double) {
          SubstituteNoQuotes(Token(Double), Single);
        } else {
          assert Substitute([s[0]], Single)
              == (if IsQuote(s[0], Single) then Token(Single) else [s[0]]) + Substitute([], Single);
        }
      }
      assert Substitute(Substitute(s, Double), Single) == Image(s[0]) + Substitute(tail, Single) by {
        assert Substitute(s, Double) == head + tail;
        SubstituteAppend(head, tail, Single);
      }
      SubstitutedTwice(s[1..]);
    }
  }

  /** Splitting a text whose first `|x|` positions start no separator. */
  lemma {:induction false} SplitPeel(x: seq<char>, y: seq<char>, sep: seq<char>)
    requires |sep| > 0
    requires forall k :: 0 <= k < |x| ==> !(sep <= (x + y)[k..])
    ensures Split(x + y, sep) == [x + Split(y, sep)[0]] + Split(y, sep)[1..]
  {
    if x == [] {
      var r := Split(y, sep);
      assert x + y == y && x + r[0] == r[0];
      assert r == [r[0]] + r[1..];
    } else {
      assert (x + y)[0..] == x + y;
      assert (x + y)[1..] == x[1..] + y;
      forall k | 0 <= k < |x[1..]| ensures !(sep <= (x[1..] + y)[k..]) {
        assert (x[1..] + y)[k..] == (x + y)[k + 1..];
      }
      SplitPeel(x[1..], y, sep);
      var r, rest := Split(x[1..] + y, sep), Split(y, sep);
      assert Split(x + y, sep) == [[x[0]] + r[0]] + r[1..];
      assert r[0] == x[1..] + rest[0] && r[1..] == rest[1..];
      assert [x[0]] + (x[1..] + rest[0]) == x + rest[0];
    }
  }

  lemma InterleavePrepend(a: seq<char>, parts: seq<seq<char>>, cls: QuoteClass, k: nat)
    requires |parts| >= 1
    ensures Interleave([a + parts[0]] + parts[1..], cls, k) == a + Interleave(parts, cls, k)
  {
    assert ([a + parts[0]] + parts[1..])[1..] == parts[1..];
  }

  /** A tokenized text can begin with the letters of `w` and then a '§' only
      if the source text begins with `w` and then a quote. */
  lemma {:induction false} TokenizedPrefix(rest: seq<char>, w: seq<char>)
    requires Section !in rest
    requires forall j :: 0 <= j < |w| ==> w[j] != Section && !IsAnyQuote(w[j])
    ensures w + [Section] <= Tokenized(rest) ==>
              |rest| > |w| && rest[..|w|] == w && IsAnyQuote(rest[|w|])
  {
    if rest != [] {
      var img, more := Image(rest[0]), Tokenized(rest[1..]);
      assert Tokenized(rest) == img + more;
      if w == [] {
        assert Tokenized(rest)[0] == img[0];
      } else if img == [w[0]] {
        assert (w + [Section])[1..] == w[1..] + [Section];
        assert Tokenized(rest) == [w[0]] + more;
        TokenizedPrefix(rest[1..], w[1..]);
        if |rest| > |w| {
          assert rest[..|w|] == [rest[0]] + rest[1..][..|w| - 1];
        }
      } else {
        assert Tokenized(rest)[0] == img[0];
        assert (w + [Section])[0] == w[0];
      }
    }
  }

  lemma PrefixTail(a: char, u: seq<char>, v: seq<char>)
    ensures [a] + u <= [a] + v <==> u <= v
  {
    if [a] + u <= [a] + v {
      assert u == ([a] + u)[1..] && ([a] + u)[1..] == ([a] + v)[1..|u| + 1];
    }
    if u <= v {
      assert [a] + u == ([a] + v)[..|u| + 1];
    }
  }

  lemma NoClashTail(text: seq<char>)
    requires text != [] && NoPlaceholderClash(text)
    ensures NoPlaceholderClash(text[1..])
  {
    var rest := text[1..];
    forall i | 0 <= i && i + 7 < |rest| && IsQuote(rest[i], Single)
      ensures !(rest[i + 1..i + 7] == "DQUOTE" && IsAnyQuote(rest[i + 7]))
    {
      assert rest[i + 1..i + 7] == text[i + 2..i + 8];
      assert text[i + 1] == rest[i];
    }
  }

  /** No "§DQUOTE§" starts inside the image of a character other than a
      double quote, given that the text has no placeholder clash. */
  lemma NoSeparatorInImage(text: seq<char>)
    requires text != [] && NoPlaceholderClash(text) && !IsQuote(text[0], Double)
    ensures forall i :: 0 <= i < |Image(text[0])| ==>
              !(Token(Double) <= (Image(text[0]) + Tokenized(text[1..]))[i..])
  {
    var sep, x, y := Token(Double), Image(text[0]), Tokenized(text[1..]);
    forall i | 0 <= i < |x| ensures !(sep <= (x + y)[i..]) {
      var z := (x + y)[i..];
      if x[i] != Section {
        assert z[0] == x[i];
      } else if i == 0 {
        assert x == Token(Single);
        assert z[1] == 'S';
      } else {
        assert x == Token(Single) && i == 7;
        assert z == [Section] + y;
        NoSeparatorAfterSingle(text);
      }
    }
  }

  /** After the token of a single quote, the tokenized rest of a clash-free
      text cannot complete a "§DQUOTE§". */
  lemma NoSeparatorAfterSingle(text: seq<char>)
    requires text != [] && NoPlaceholderClash(text) && IsQuote(text[0], Single)
    ensures !(Token(Double) <= [Section] + Tokenized(text[1..]))
  {
    var y, w := Tokenized(text[1..]), "DQUOTE";
    assert !(w + [Section] <= y) by {
      TokenizedPrefix(text[1..], w);
      if |text| > 7 {
        assert text[1..][..6] == text[1..7] && text[1..][6] == text[7];
      }
    }
    PrefixTail(Section, w + [Section], y);
    assert Token(Double) == [Section] + (w + [Section]);
  }

  /** The double-quote split/join over the tokenized text gives the
      double-quote pass with single quotes still as tokens. */
  lemma {:induction false} DoublePassAsWritten(text: seq<char>, k: nat)
    requires NoPlaceholderClash(text)
    ensures Interleave(Split(Tokenized(text), Token(Double)), Double, k)
              == Substitute(QuoteNormalize.Pass(Double, text, k), Single)
  {
    if text != [] {
      NoClashTail(text);
      if IsQuote(text[0], Double) {
        DoublePassAsWritten(text[1..], k + 1);
        DoubleQuoteStep(text, k);
      } else {
        DoublePassAsWritten(text[1..], k);
        DoubleOtherStep(text, k);
      }
    }
  }

  /** The inductive step of `DoublePassAsWritten` at a double quote. */
  lemma DoubleQuoteStep(text: seq<char>, k: nat)
    requires text != [] && IsQuote(text[0], Double)
    requires Interleave(Split(Tokenized(text[1..]), Token(Double)), Double, k + 1)
               == Substitute(QuoteNormalize.Pass(Double, text[1..], k + 1), Single)
    ensures Interleave(Split(Tokenized(text), Token(Double)), Double, k)
              == Substitute(QuoteNormalize.Pass(Double, text, k), Single)
  {
    var sep, y := Token(Double), Tokenized(text[1..]);
    var m := Mark(Double, k);
    assert Tokenized(text) == sep + y;
    assert (sep + y)[|sep|..] == y;
    var parts := Split(y, sep);
    assert Split(sep + y, sep) == [[]] + parts;
    assert ([[]] + parts)[1..] == parts;
    assert Interleave([[]] + parts, Double, k) == [m] + Interleave(parts, Double, k + 1);
    var p := QuoteNormalize.Pass(Double, text[1..], k + 1);
    assert QuoteNormalize.Pass(Double, text, k) == [m] + p;
    assert ([m] + p)[1..] == p;
    assert Substitute([m] + p, Single) == [m] + Substitute(p, Single);
  }

  /** The inductive step of `DoublePassAsWritten` at any other character. */
  lemma DoubleOtherStep(text: seq<char>, k: nat)
    requires text != [] && !IsQuote(text[0], Double) && NoPlaceholderClash(text)
    requires Interleave(Split(Tokenized(text[1..]), Token(Double)), Double, k)
               == Substitute(QuoteNormalize.Pass(Double, text[1..], k), Single)
    ensures Interleave(Split(Tokenized(text), Token(Double)), Double, k)
              == Substitute(QuoteNormalize.Pass(Double, text, k), Single)
  {
    var sep, x, y := Token(Double), Image(text[0]), Tokenized(text[1..]);
    assert Tokenized(text) == x + y;
    NoSeparatorInImage(text);
    SplitPeel(x, y, sep);
    InterleavePrepend(x, Split(y, sep), Double, k);
    var p := QuoteNormalize.Pass(Double, text[1..], k);
    assert QuoteNormalize.Pass(Double, text, k) == [text[0]] + p;
    SubstituteAppend([text[0]], p, Single);
    assert Substitute([text[0]], Single) == x;
  }

  /** The single-quote split/join over a text whose only '§' characters are
      the single-quote tokens gives the single-quote pass. */
  lemma {:induction false} SinglePassAsWritten(v: seq<char>, k: nat)
    requires Section !in v
    ensures Interleave(Split(Substitute(v, Single), Token(Single)), Single, k)
              == QuoteNormalize.Pass(Single, v, k)
  {
    var sep := Token(Single);
    if v != [] {
      var c, rest := v[0], v[1..];
      var y := Substitute(rest, Single);
      if IsQuote(c, Single) {
        assert Substitute(v, Single) == sep + y;
        assert (sep + y)[|sep|..] == y;
        SinglePassAsWritten(rest, k + 1);
      } else {
        assert Substitute(v, Single) == [c] + y;
        assert ([c] + y)[0..] == [c] + y;
        SplitPeel([c], y, sep);
        InterleavePrepend([c], Split(y, sep), Single, k);
        SinglePassAsWritten(rest, k);
      }
    }
  }

  /** On inputs without a placeholder clash, the normaliser as written
      produces the two-pass normalisation. */
  lemma AsWrittenMatchesNormalized(text: seq<char>)
    requires NoPlaceholderClash(text)
    ensures SplitJoin(SplitJoin(Substitute(Substitute(text, Double), Single), Double), Single)
              == QuoteNormalize.Normalized(text)
  {
    var t := Substitute(Substitute(text, Double), Single);
    var v := QuoteNormalize.Pass(Double, text, 0);
    var u := SplitJoin(t, Double);
    assert u == Substitute(v, Single) by {
      SubstitutedTwice(text);
      DoublePassAsWritten(text, 0);
    }
    PassAddsNoSection(text);
    SinglePassAsWritten(v, 0);
  }

  /** The double pass writes only curly marks, so it adds no '§'. */
  lemma PassAddsNoSection(text: seq<char>)
    requires Section !in text
    ensures Section !in QuoteNormalize.Pass(Double, text, 0)
  {
    var v := QuoteNormalize.Pass(Double, text, 0);
    forall i | 0 <= i < |v| ensures v[i] != Section {
      QuoteNormalize.PassAt(Double, text, 0, i);
    }
  }

  lemma {:induction false} TokenizedAppend(a: seq<char>, b: seq<char>)
    ensures Tokenized(a + b) == Tokenized(a) + Tokenized(b)
  {
    if a == [] {
      assert a + b == b;
    } else {
      assert (a + b)[1..] == a[1..] + b;
      TokenizedAppend(a[1..], b);
    }
  }

  lemma {:induction false} TokenizedPlain(w: seq<char>)
    requires forall j :: 0 <= j < |w| ==> !IsAnyQuote(w[j])
    ensures Tokenized(w) == w
  {
    if w != [] {
      TokenizedPlain(w[1..]);
    }
  }

  lemma SplitShort(s: seq<char>, sep: seq<char>)
    requires 0 < |sep|
    requires forall k :: 0 <= k < |s| ==> !(sep <= s[k..])
    ensures Split(s, sep) == [s]
  {
    forall k | 0 <= k < |s| ensures !(sep <= (s + [])[k..]) {
      assert (s + [])[k..] == s[k..];
    }
    SplitPeel(s, [], sep);
    assert s + [] == s;
  }

  /** A plain-ASCII input containing neither placeholder on which the
      tokens clash. */
  const ClashingText: seq<char> := [StraightSingle] + "DQUOTE" + [StraightSingle]

  lemma ClashingTokens()
    ensures Substitute(Substitute(ClashingText, Double), Single)
              == Token(Single) + "DQUOTE" + Token(Single)
  {
    SubstitutedTwice(ClashingText);
    TokenizedBetweenSingles("DQUOTE");
  }

  /** Quote-free text between two straight single quotes keeps its letters
      between two single-quote tokens. */
  lemma TokenizedBetweenSingles(w: seq<char>)
    requires forall j :: 0 <= j < |w| ==> !IsAnyQuote(w[j])
    ensures Tokenized([StraightSingle] + w + [StraightSingle]) == Token(Single) + w + Token(Single)
  {
    var q, t := [StraightSingle], Token(Single);
    assert Tokenized(q) == t by {
      assert Tokenized(q) == Image(StraightSingle) + Tokenized([]);
    }
    assert Tokenized(q + w) == t + w by {
      TokenizedAppend(q, w);
      TokenizedPlain(w);
    }
    TokenizedAppend(q + w, q);
  }

  lemma ClashingDoubleSplit()
    ensures Split(Token(Single) + "DQUOTE" + Token(Single), Token(Double))
              == [Token(Single)[..7], "SQUOTE" + [Section]]
  {
    var dq := Token(Double);
    var x, y := Token(Single)[..7], [Section] + "DQUOTE" + Token(Single);
    assert Token(Single) + "DQUOTE" + Token(Single) == x + y;
    forall k | 0 <= k < |x| ensures !(dq <= (x + y)[k..]) {
      if k == 0 {
        assert (x + y)[k..][1] == 'S';
      } else {
        assert (x + y)[k..][0] == x[k];
      }
    }
    SplitPeel(x, y, dq);
    var tail := "SQUOTE" + [Section];
    assert dq <= y && y[|dq|..] == tail;
    forall k | 0 <= k < |tail| ensures !(dq <= tail[k..]) {
      assert |tail[k..]| < |dq|;
    }
    SplitShort(tail, dq);
    var r := Split(y, dq);
    assert r == [[]] + Split(tail, dq) == [[], tail];
    assert x + r[0] == x && r[1..] == [tail];
  }

  /** The double-quote split/join of the clashing text's tokens. */
  lemma ClashingDoublePass()
    ensures SplitJoin(Substitute(Substitute(ClashingText, Double), Single), Double)
              == Token(Single)[..7] + [OpenDouble] + "SQUOTE" + [Section]
  {
    var x, tail := Token(Single)[..7], "SQUOTE" + [Section];
    ClashingTokens();
    ClashingDoubleSplit();
    assert Interleave([tail], Double, 1) == tail;
    assert [x, tail][1..] == [tail];
    assert Interleave([x, tail], Double, 0) == x + [OpenDouble] + tail;
  }

  /** What is left after the double pass holds no whole "§SQUOTE§", so the
      single-quote split/join returns it unchanged. */
  lemma ClashingSinglePass()
    ensures var t := Token(Single)[..7] + [OpenDouble] + "SQUOTE" + [Section];
            SplitJoin(t, Single) == t
  {
    var t := Token(Single)[..7] + [OpenDouble] + "SQUOTE" + [Section];
    var sq := Token(Single);
    forall k | 0 <= k < |t| ensures !(sq <= t[k..]) {
      if k == 0 {
        assert t[k..][7] == OpenDouble;
      } else if k < 14 {
        assert t[k..][0] == t[k];
      } else {
        assert |t[k..]| < |sq|;
      }
    }
    SplitShort(t, sq);
    assert Interleave([t], Single, 0) == t;
  }

  /** The intended result on the clashing text curls its two single quotes. */
  lemma ClashingIntended()
    ensures QuoteNormalize.Normalized(ClashingText) == [OpenSingle] + "DQUOTE" + [CloseSingle]
  {
    var text := ClashingText;
    var n := QuoteNormalize.Normalized(text);
    QuoteNormalize.NormalizedAt(text, 0);
    QuoteNormalize.NormalizedAt(text, 7);
    assert Slots(text[..7], Single) == 1 by {
      SlotsAppend([StraightSingle], "DQUOTE", Single);
      assert text[..7] == [StraightSingle] + "DQUOTE";
    }
    forall i | 1 <= i < 7 ensures n[i] == text[i] {
      QuoteNormalize.NormalizedAt(text, i);
    }
  }

  /** On that input the "§DQUOTE§" split matches across the end of the first
      "§SQUOTE§" token: the output keeps placeholder debris, is longer than
      the input, and has an opening double quote where the input has none,
      while the intended result curls the two single quotes. */
  lemma PlaceholderCollision()
    ensures Section !in ClashingText
    ensures AsWritten(ClashingText)
              == [Section] + "SQUOTE" + [OpenDouble] + "SQUOTE" + [Section]
    ensures QuoteNormalize.Normalized(ClashingText) == [OpenSingle] + "DQUOTE" + [CloseSingle]
  {
    ClashingDoublePass();
    ClashingSinglePass();
    ClashingIntended();
    assert Token(Single)[..7] == [Section] + "SQUOTE";
  }
}
