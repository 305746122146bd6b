/** Quote-direction normalisation: every quote of a class becomes an
    alternating open/close curly mark of that class, by position. */
module QuoteNormalize {
  import opened QuoteChars
  import opened QuoteCount

  /** One pass over `s` for class `cls`, with `k` slots of that class already
      seen: each quote of the class is replaced by the mark for its slot
      index, every other character is kept. */
  function Pass(cls: QuoteClass, s: seq<char>, k: nat): (r: seq<char>)
    ensures |r| == |s|
  {
    if s == [] then []
    else if IsQuote(s[0], cls) then [Mark(cls, k)] + Pass(cls, s[1..], k + 1)
    else [s[0]] + Pass(cls, s[1..], k)
  }

  /** The normalised text: the double-quote pass, then the single-quote pass,
      each counting its slots from zero over the whole text. */
  function Normalized(s: seq<char>): (r: seq<char>)
    ensures |r| == |s|
  {
    Pass(Single, Pass(Double, s, 0), 0)
  }

  /** What position `i` of the normalised text must hold: the mark for the
      slot index of `s[i]` within its class, or `s[i]` itself. */
  function NormalizedChar(s: seq<char>, i: nat): char
    requires i < |s|
  {
    if IsQuote(s[i], Double) then Mark(Double, Slots(s[..i], Double))
    else if IsQuote(s[i], Single) then Mark(Single, Slots(s[..i], Single))
    else s[i]
  }

  lemma {:induction false} PassAt(cls: QuoteClass, s: seq<char>, k: nat, i: nat)
    requires i < |s|
    ensures Pass(cls, s, k)[i] ==
              if IsQuote(s[i], cls) then Mark(cls, k + Slots(s[..i], cls)) else s[i]
  {
    if i > 0 {
      var k' := if IsQuote(s[0], cls) then k + 1 else k;
      PassAt(cls, s[1..], k', i - 1);
      assert s[..i][1..] == s[1..][..i - 1];
    }
  }

  /** The k-th double slot (0-based) becomes U+201C when k is even and U+201D
      when odd; likewise for single slots with U+2018/U+2019; any other
      character is left where it is. */
  lemma NormalizedAt(s: seq<char>, i: nat)
    requires i < |s|
    ensures Normalized(s)[i] == NormalizedChar(s, i)
  {
    var v := Pass(Double, s, 0);
    PassAt(Double, s, 0, i);
    PassAt(Single, v, 0, i);
    forall j | 0 <= j < i
      ensures IsQuote(v[..i][j], Single) <==> IsQuote(s[..i][j], Single)
    {
      PassAt(Double, s, 0, j);
    }
    SlotsCongruent(v[..i], s[..i], Single);
  }

  /** Every position keeps its quote class: a double slot stays a double
      slot, a single slot a single slot, anything else is untouched. */
  lemma NormalizedKeepsClasses(s: seq<char>, i: nat)
    requires i < |s|
    ensures IsQuote(Normalized(s)[i], Double) <==> IsQuote(s[i], Double)
    ensures IsQuote(Normalized(s)[i], Single) <==> IsQuote(s[i], Single)
    ensures !IsAnyQuote(s[i]) ==> Normalized(s)[i] == s[i]
  {
    NormalizedAt(s, i);
  }

  /** Text without any of the six quote characters, the empty text
      included, comes back unchanged. */
  lemma NoQuotesUnchanged(s: seq<char>)
    requires forall i :: 0 <= i < |s| ==> !IsAnyQuote(s[i])
    ensures Normalized(s) == s
  {
    forall i | 0 <= i < |s| ensures Normalized(s)[i] == s[i] {
      NormalizedKeepsClasses(s, i);
    }
  }

  /** Normalising twice is the same as normalising once. */
  lemma Idempotent(s: seq<char>)
    ensures Normalized(Normalized(s)) == Normalized(s)
  {
    var n := Normalized(s);
    forall i | 0 <= i < |s| ensures Normalized(n)[i] == n[i] {
      forall j | 0 <= j < i
        ensures (IsQuote(n[..i][j], Double) <==> IsQuote(s[..i][j], Double))
             && (IsQuote(n[..i][j], Single) <==> IsQuote(s[..i][j], Single))
      {
        NormalizedKeepsClasses(s, j);
      }
      SlotsCongruent(n[..i], s[..i], Double);
      SlotsCongruent(n[..i], s[..i], Single);
      NormalizedKeepsClasses(s, i);
      NormalizedAt(n, i);
      NormalizedAt(s, i);
    }
  }

  /** The texts normalisation leaves unchanged are exactly those in which
      every quote already is the curly mark its slot index calls for. */
  lemma FixpointIff(s: seq<char>)
    ensures Normalized(s) == s <==> forall i :: 0 <= i < |s| ==> s[i] == NormalizedChar(s, i)
  {
    forall i | 0 <= i < |s| ensures Normalized(s)[i] == NormalizedChar(s, i) {
      NormalizedAt(s, i);
    }
  }

  /** With an odd number of slots in a class, the last one has an even
      index and so becomes an opening mark, although nothing closes it. */
  lemma LastOfOddCountOpens(s: seq<char>, cls: QuoteClass, i: nat)
    requires i < |s| && IsQuote(s[i], cls)
    requires Slots(s[i + 1..], cls) == 0
    requires Slots(s, cls) % 2 == 1
    ensures Normalized(s)[i] == Open(cls)
  {
    assert s == s[..i] + ([s[i]] + s[i + 1..]);
    SlotsAppend(s[..i], [s[i]] + s[i + 1..], cls);
    NormalizedAt(s, i);
  }

  /** The text with all six quote characters removed. */
  function StripQuotes(s: seq<char>): (r: seq<char>)
    ensures |r| <= |s|
  {
    if s == [] then []
    else (if IsAnyQuote(s[0]) then [] else [s[0]]) + StripQuotes(s[1..])
  }

  lemma {:induction false} PassKeepsText(cls: QuoteClass, s: seq<char>, k: nat)
    ensures StripQuotes(Pass(cls, s, k)) == StripQuotes(s)
  {
    if s != [] {
      var k' := if IsQuote(s[0], cls) then k + 1 else k;
      PassKeepsText(cls, s[1..], k');
      assert Pass(cls, s, k)[1..] == Pass(cls, s[1..], k');
    }
  }

  /** Removing every quote from the input and from the output gives the
      same text: non-quote characters and their order are untouched. */
  lemma OrderPreserved(s: seq<char>)
    ensures StripQuotes(Normalized(s)) == StripQuotes(s)
  {
    PassKeepsText(Double, s, 0);
    PassKeepsText(Single, Pass(Double, s, 0), 0);
  }

  lemma {:induction false} PassOccurrences(cls: QuoteClass, s: seq<char>, k: nat, c: char)
    ensures c == Straight(cls) ==> Occurrences(Pass(cls, s, k), c) == 0
    ensures !IsQuote(c, cls) ==> Occurrences(Pass(cls, s, k), c) == Occurrences(s, c)
  {
    if s != [] {
      var k' := if IsQuote(s[0], cls) then k + 1 else k;
      PassOccurrences(cls, s[1..], k', c);
      assert Pass(cls, s, k)[1..] == Pass(cls, s[1..], k');
    }
  }

  lemma {:induction false} PassKeepsSlots(cls: QuoteClass, s: seq<char>, k: nat, other: QuoteClass)
    ensures Slots(Pass(cls, s, k), other) == Slots(s, other)
  {
    if s != [] {
      var k' := if IsQuote(s[0], cls) then k + 1 else k;
      PassKeepsSlots(cls, s[1..], k', other);
      assert Pass(cls, s, k)[1..] == Pass(cls, s[1..], k');
    }
  }

  /** Conservation of quote marks: the normalised text has no straight
      quotes left, and each curly count equals the input's straight plus
      curly count of the same class. */
  lemma Conservation(s: seq<char>)
    ensures CountQuotes(Normalized(s)).straightDouble == 0
    ensures CountQuotes(Normalized(s)).straightSingle == 0
    ensures CountQuotes(Normalized(s)).curlyDouble
              == CountQuotes(s).straightDouble + CountQuotes(s).curlyDouble
    ensures CountQuotes(Normalized(s)).curlySingle
              == CountQuotes(s).straightSingle + CountQuotes(s).curlySingle
  {
    var v := Pass(Double, s, 0);
    var n := Pass(Single, v, 0);
    PassOccurrences(Double, s, 0, StraightDouble);
    PassOccurrences(Single, v, 0, StraightDouble);
    PassOccurrences(Single, v, 0, StraightSingle);
    OccurrencesIsMultiplicity(n, StraightDouble);
    OccurrencesIsMultiplicity(n, StraightSingle);
    PassKeepsSlots(Double, s, 0, Double);
    PassKeepsSlots(Double, s, 0, Single);
    PassKeepsSlots(Single, v, 0, Double);
    PassKeepsSlots(Single, v, 0, Single);
    SlotsAreTallied(s);
    SlotsAreTallied(n);
  }

  /** The normaliser as one left-to-right scan with one slot counter per
      quote class. */
  method NormalizeQuotes(text: seq<char>) returns (r: seq<char>)
    ensures r == Normalized(text)
  {
    r := [];
    var doubles, singles := 0, 0;
    for i := 0 to |text|
      invariant |r| == i
      invariant doubles == Slots(text[..i], Double)
      invariant singles == Slots(text[..i], Single)
      invariant forall j :: 0 <= j < i ==> r[j] == NormalizedChar(text, j)
    {
      var c := text[i];
      assert text[..i + 1] == text[..i] + [c];
      SlotsAppend(text[..i], [c], Double);
      SlotsAppend(text[..i], [c], Single);
      if IsQuote(c, Double) {
        r := r + [Mark(Double, doubles)];
        doubles := doubles + 1;
      } else if IsQuote(c, Single) {
        r := r + [Mark(Single, singles)];
        singles := singles + 1;
      } else {
        r := r + [c];
      }
    }
    forall j | 0 <= j < |text| ensures r[j] == Normalized(text)[j] {
      NormalizedAt(text, j);
    }
  }
}
