/** The six quote characters the tool recognises, grouped into two classes,
    and the curly marks it writes for each class. */
module QuoteChars {

  /** Double-quote-like characters and single-quote-like characters. */
  datatype QuoteClass = Double | Single

  const StraightDouble: char := '"'
  const OpenDouble: char := '\U{201C}'
  const CloseDouble: char := '\U{201D}'
  const StraightSingle: char := '\''
  const OpenSingle: char := '\U{2018}'
  const CloseSingle: char := '\U{2019}'

  /** True when `c` is one of the three characters of class `cls`
      (the straight mark and both curly marks). */
  predicate IsQuote(c: char, cls: QuoteClass) {
    match cls
    case Double => c == StraightDouble || c == OpenDouble || c == CloseDouble
    case Single => c == StraightSingle || c == OpenSingle || c == CloseSingle
  }

  predicate IsAnyQuote(c: char) {
    IsQuote(c, Double) || IsQuote(c, Single)
  }

  function Straight(cls: QuoteClass): char {
    match cls
    case Double => StraightDouble
    case Single => StraightSingle
  }

  function Open(cls: QuoteClass): char {
    match cls
    case Double => OpenDouble
    case Single => OpenSingle
  }

  function Close(cls: QuoteClass): char {
    match cls
    case Double => CloseDouble
    case Single => CloseSingle
  }

  /** The curly mark written for the slot with 0-based index `k` of class `cls`:
      even slots open, odd slots close. */
  function Mark(cls: QuoteClass, k: nat): (c: char)
    ensures IsQuote(c, cls) && !IsQuote(c, if cls == Double then Single else Double)
    ensures c != Straight(cls)
  {
    if k % 2 == 0 then Open(cls) else Close(cls)
  }

  /** The number of quote slots of class `cls` in `s`. */
  function Slots(s: seq<char>, cls: QuoteClass): (n: nat)
    ensures n <= |s|
  {
    if s == [] then 0
    else (if IsQuote(s[0], cls) then 1 else 0) + Slots(s[1..], cls)
  }

  lemma {:induction false} SlotsAppend(a: seq<char>, b: seq<char>, cls: QuoteClass)
    ensures Slots(a + b, cls) == Slots(a, cls) + Slots(b, cls)
  {
    if a == [] {
      assert a + b == b;
    } else {
      assert (a + b)[1..] == a[1..] + b;
      SlotsAppend(a[1..], b, cls);
    }
  }

  /** Two texts whose quotes of class `cls` sit at the same positions have
      the same number of slots of that class. */
  lemma {:induction false} SlotsCongruent(x: seq<char>, y: seq<char>, cls: QuoteClass)
    requires |x| == |y|
    requires forall j :: 0 <= j < |x| ==> (IsQuote(x[j], cls) <==> IsQuote(y[j], cls))
    ensures Slots(x, cls) == Slots(y, cls)
  {
    if x != [] {
      SlotsCongruent(x[1..], y[1..], cls);
    }
  }
}
