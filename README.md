# quotefix — quote normalisation, modelled in Dafny

quotefix is a small document tool. It turns the quotation marks of a text into
curly quotes and reports how many quotes of each kind the text holds. This
project models its two text functions in `app.py` and proves properties of them:

- `normalize_quotes` treats every double-quote-like character (`"`, U+201C,
  U+201D) as one "slot". Counting slots from 0, it rewrites even slots to the
  opening mark U+201C and odd slots to the closing mark U+201D. It then does
  the same, separately, for single-quote-like characters (`'`, U+2018, U+2019),
  giving U+2018 / U+2019. The tool does this by putting a placeholder token
  (`§DQUOTE§`, `§SQUOTE§`) in place of every quote, splitting the text on the
  token, and joining the pieces back with alternating marks.
- `count_quotes` counts four categories: straight `"`, straight `'`, curly double
  (U+201C plus U+201D) and curly single (U+2018 plus U+2019).

Modules:

- `QuoteChars` (`quote_chars.dfy`) holds the six characters, the two quote
  classes, the mark for slot index k (`Mark`) and the slot count of a class
  (`Slots`).
- `QuoteCount` (`quote_count.dfy`) defines `count_quotes` as `CountQuotes`,
  which returns a four-field `QuoteTally`. It is specified against the
  multiset of the text's characters.
- `QuoteNormalize` (`quote_normalize.dfy`) gives the intended behaviour in
  three forms:
  - `Normalized` applies the double pass, then the single pass.
  - `NormalizedChar` states position by position what the output must hold.
  - `NormalizeQuotes` is a method: one left-to-right scan with one slot
    counter per class, proved equal to `Normalized`.
  The module also proves length, position, conservation, idempotence and
  order properties.
- `Placeholder` (`placeholder.dfy`) models `normalize_quotes` as written:
  - the two regular-expression substitutions (`Substitute`);
  - string splitting (`Split`);
  - the `enumerate` join loop, as the method `JoinAlternating`;
  - the whole function, as the method `NormalizeQuotesAsWritten`.
  It proves this pipeline equal to `Normalized` on every input without a
  placeholder clash. It also exhibits a plain-ASCII input on which the two
  differ (see Findings).

The code's comments (app.py:14, 26) count quotes from 1: odd-numbered quotes
open and even-numbered quotes close. In the 0-based slot index used here,
even slots open. So when a class has an odd number of quotes, the last one
opens, although nothing closes it (`QuoteNormalize.LastOfOddCountOpens`).

## Model

| member | source | states |
|---|---|---|
| `QuoteCount.CountQuotes` | app.py:40-53 | each field is the exact frequency of its character(s): straight `"` and straight `'` alone, curly double as U+201C plus U+201D, curly single as U+2018 plus U+2019; the empty text gives four zeros |
| `QuoteCount.Occurrences` | app.py:42-45 | the count of one character is at most the text's length, and it is zero exactly when the character does not occur |
| `QuoteCount.OccurrencesIsMultiplicity` | app.py:42-45 | counting one character equals its multiplicity in the multiset of the text |
| `QuoteCount.TallyIgnoresOrder` | app.py:42-45 | two texts with the same characters, in any order, get the same tally |
| `QuoteCount.SlotsAsOccurrences` | app.py:42-45 | the slots of a class are the occurrences of its straight, opening and closing characters added up |
| `QuoteCount.SlotsAreTallied` | app.py:42-45 | the slots of each class are the straight count plus the curly count of that class |
| `QuoteNormalize.Normalized` | app.py:6-38 | the output is exactly as long as the input: each quote becomes one mark, nothing is added or removed |
| `QuoteNormalize.Pass` | app.py:15-24 | one pass for a class keeps the text's length: each quote of the class is replaced by exactly one mark |
| `QuoteNormalize.PassAt` | app.py:15-24 | in one pass, a quote of the class at position i gets the mark of its slot index (slots before it plus the starting count); other characters are kept |
| `QuoteNormalize.NormalizedAt` | app.py:11-36 | the k-th double slot becomes U+201C when k is even and U+201D when odd; the k-th single slot becomes U+2018 or U+2019 the same way; every other character stays at its position |
| `QuoteNormalize.NormalizedKeepsClasses` | app.py:15-36 | each position keeps its quote class (double stays double, single stays single), and non-quote characters are unchanged |
| `QuoteNormalize.NoQuotesUnchanged` | app.py:11-38 | a text with none of the six quote characters, the empty text included, comes back unchanged |
| `QuoteNormalize.Idempotent` | app.py:11-36 | normalising twice gives the same text as normalising once |
| `QuoteNormalize.FixpointIff` | app.py:11-36 | normalisation leaves a text unchanged if and only if every quote in it already is the mark its slot index calls for |
| `QuoteNormalize.LastOfOddCountOpens` | app.py:19-23 | when a class has an odd number of slots, the last one becomes the opening mark |
| `QuoteNormalize.OrderPreserved` | app.py:15-36 | removing all quote characters from the input and from the output gives the same text |
| `QuoteNormalize.Conservation` | app.py:11-45 | the normalised text has no straight `"` or `'`; its curly-double count equals the input's straight plus curly double count, and likewise for singles |
| `QuoteNormalize.NormalizeQuotes` | app.py:6-38 | a single scan with one slot counter per class returns exactly the normalised text, for every input |
| `Placeholder.Substitute` | app.py:11-12 | replacing each quote of a class by its 8-character token lengthens the text by 7 per slot of that class |
| `Placeholder.Split` | app.py:15 | splitting on a separator always yields at least one part (an empty text gives one empty part); its contents are fixed by the three lemmas below |
| `Placeholder.SplitLeftmost` | app.py:15 | no occurrence of the separator starts inside any part, not even one that runs on into the separator dropped after that part: every cut is made at the leftmost remaining match |
| `Placeholder.SplitPartsSeparatorFree` | app.py:15 | no part contains the separator |
| `Placeholder.SplitRoundTrip` | app.py:15 | joining the split parts with the separator gives back the text |
| `Placeholder.JoinAlternating` | app.py:16-24 | the join loop appends every part, with a mark after each part but the last: the opening mark after even-indexed parts, the closing mark after odd ones |
| `Placeholder.AsWritten` | app.py:6-38 | the two substitutions and the two split/join passes, in the code's order; on every input without a placeholder clash the result is exactly the normalised text |
| `Placeholder.NormalizeQuotesAsWritten` | app.py:6-38 | the substitute/split/join pipeline; on inputs without a placeholder clash, its result is exactly the normalised text |
| `Placeholder.AsWrittenMatchesNormalized` | app.py:11-36 | on inputs without `§` and without a single quote directly followed by `DQUOTE` and another quote, the pipeline equals the two-pass normalisation |
| `Placeholder.PlaceholderCollision` | app.py:11-27 | on `'DQUOTE'`, which contains no `§`, the pipeline returns `§SQUOTE“SQUOTE§`; the intended result is `‘DQUOTE’` |

## Findings

| source | as written | input that shows it | evidently intended | confidence | as-written member | corrected member |
|---|---|---|---|---|---|---|
| app.py:11-27 | quotes become `§DQUOTE§` / `§SQUOTE§`, then the text is split on `§DQUOTE§` wherever it occurs, also across the end of a `§SQUOTE§` token and the letters that follow it | `'DQUOTE'` (plain ASCII, no placeholder in it) gives `§SQUOTE“SQUOTE§`: longer than the input, with token debris and a double mark that has no source quote | `‘DQUOTE’`: split only at the tokens the function itself inserted | high; not executed | `Placeholder.PlaceholderCollision` | `QuoteNormalize.NormalizeQuotes` |

Keeping input free of the placeholder strings is not enough to avoid this.
`Placeholder.NoPlaceholderClash` gives a condition that is enough: no `§`
anywhere, and no single quote directly followed by `DQUOTE` and another quote.
The model does not prove that this condition is also necessary.

## Left out

- `main` (app.py:55-174): the page layout, upload widget, buttons, text areas and messages. This is user interface with no logic to state.
- Reading the upload (app.py:82-103): UTF-8 decoding with a cp949 fallback, and paragraph extraction from .docx files. These are byte decoding and foreign-library I/O.
- Writing the .docx download (app.py:133-168): the document object, page margins, one paragraph per line, and the in-memory save. These are opaque library calls and I/O.
- The regular-expression engine: each `re.sub` over a three-character class is modelled by its effect, a per-character substitution (`Placeholder.Substitute`).
- Placeholder.AsWrittenMatchesNormalized: texts that contain `§` fall outside the proved equivalence, although some of them, such as `§` followed by `"`, also come out as intended. The condition is sufficient but not necessary.
- String splitting is modelled only for the non-empty separators the code uses (`Placeholder.Split`).
- Characters are Dafny `char`s, which are Unicode scalar values. Python strings can also hold lone surrogate code points, and the model does not cover them.
- The returned dictionary's Korean labels are not modelled. The four counts are the fields of `QuoteTally`, in the dictionary's order.
