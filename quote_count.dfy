/** The quote tally reported before conversion: four category counts. */
module QuoteCount {
  import opened QuoteChars

  /** One count per category; the curly categories add up their open and
      close variants rather than reporting them apart. */
  datatype QuoteTally = QuoteTally(
    straightDouble: nat,
    straightSingle: nat,
    curlyDouble: nat,
    curlySingle: nat)

  /** How many times `c` occurs in `s` (the string `count` of one character). */
  function Occurrences(s: seq<char>, c: char): (n: nat)
    ensures n <= |s|
    ensures n == 0 <==> c !in s
  {
    if s == [] then 0
    else (if s[0] == c then 1 else 0) + Occurrences(s[1..], c)
  }

  /** The recursive count agrees with the multiplicity of `c` in the
      multiset of the text's characters. */
  lemma {:induction false} OccurrencesIsMultiplicity(s: seq<char>, c: char)
    ensures Occurrences(s, c) == multiset(s)[c]
  {
    if s != [] {
      assert s == [s[0]] + s[1..];
      OccurrencesIsMultiplicity(s[1..], c);
    }
  }

  /** Tally the four quote categories of `text`. */
  function CountQuotes(text: seq<char>): (t: QuoteTally)
    ensures t.straightDouble == multiset(text)[StraightDouble]
    ensures t.straightSingle == multiset(text)[StraightSingle]
    ensures t.curlyDouble == multiset(text)[OpenDouble] + multiset(text)[CloseDouble]
    ensures t.curlySingle == multiset(text)[OpenSingle] + multiset(text)[CloseSingle]
    ensures text == [] ==> t == QuoteTally(0, 0, 0, 0)
  {
    OccurrencesIsMultiplicity(text, StraightDouble);
    OccurrencesIsMultiplicity(text, StraightSingle);
    OccurrencesIsMultiplicity(text, OpenDouble);
    OccurrencesIsMultiplicity(text, CloseDouble);
    OccurrencesIsMultiplicity(text, OpenSingle);
    OccurrencesIsMultiplicity(text, CloseSingle);
    QuoteTally(
      Occurrences(text, StraightDouble),
      Occurrences(text, StraightSingle),
      Occurrences(text, OpenDouble) + Occurrences(text, CloseDouble),
      Occurrences(text, OpenSingle) + Occurrences(text, CloseSingle))
  }

  /** The tally depends only on which characters occur how often, not on
      their order. */
  lemma TallyIgnoresOrder(a: seq<char>, b: seq<char>)
    requires multiset(a) == multiset(b)
    ensures CountQuotes(a) == CountQuotes(b)
  {
  }

  /** The slots of each class are exactly the straight plus the curly
      tally of that class. */
  lemma SlotsAreTallied(s: seq<char>)
    ensures Slots(s, Double) == CountQuotes(s).straightDouble + CountQuotes(s).curlyDouble
    ensures Slots(s, Single) == CountQuotes(s).straightSingle + CountQuotes(s).curlySingle
  {
    SlotsAsOccurrences(s, Double);
    SlotsAsOccurrences(s, Single);
  }

  lemma {:induction false} SlotsAsOccurrences(s: seq<char>, cls: QuoteClass)
    ensures Slots(s, cls)
              == Occurrences(s, Straight(cls)) + Occurrences(s, Open(cls)) + Occurrences(s, Close(cls))
  {
    if s != [] {
      SlotsAsOccurrences(s[1..], cls);
    }
  }
}
