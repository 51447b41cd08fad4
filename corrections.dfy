/** Grammar-check matches and the meaning of splicing them into a text.

    A match names a span of the text by `offset` and `length` and carries a
    ranked list of replacement candidates. Splicing walks the list from the
    last match to the first and replaces each span with its first candidate,
    wrapped in a `**` marker on both sides. */
module Corrections {
  import opened PySlice

  datatype Option<T> = None | Some(value: T)

  /** One replacement candidate; only its `value` text is used. */
  datatype Replacement = Replacement(value: string)

  /** One grammar-check match: a span of the text and its candidates. */
  datatype Match = Match(offset: int, length: int, replacements: seq<Replacement>)

  /** The decoded grammar-check response; its `matches` key may be absent. */
  datatype GrammarData = GrammarData(matches: Option<seq<Match>>)

  /** The one failure splicing can raise: a match without candidates makes
      `replacements[0]` an index out of range. */
  datatype SpliceError = IndexError

  datatype Result<T> = Success(value: T) | Failure(error: SpliceError)

  const Marker: string := "**"

  /** The matches of a response; an absent key stands for no matches. */
  function MatchesOf(data: GrammarData): seq<Match>
  {
    match data.matches
    case None => []
    case Some(ms) => ms
  }

  /** A corrected piece as the reader sees it: the replacement between markers. */
  function Wrap(r: string): (w: string)
    ensures |w| == |r| + 4
  {
    Marker + r + Marker
  }

  /** The position just past a match's span. */
  function End(m: Match): int
  {
    m.offset + m.length
  }

  /** The span of `m` lies inside a text of length `n`. */
  predicate InBounds(m: Match, n: int)
  {
    0 <= m.offset && 0 <= m.length && End(m) <= n
  }

  /** Every span lies inside a text of length `n`, and the spans are sorted by
      offset and pairwise disjoint (each ends no later than the next begins). */
  predicate Layout(ms: seq<Match>, n: int)
  {
    && (forall k :: 0 <= k < |ms| ==> InBounds(ms[k], n))
    && (forall j, k :: 0 <= j < k < |ms| ==> End(ms[j]) <= ms[k].offset)
  }

  /** The same layout read one span at a time: starting at position `from`,
      each span begins no earlier than where the previous one ended, and the
      last one ends no later than `n`. */
  predicate Fits(ms: seq<Match>, from: int, n: int)
    ensures Fits(ms, from, n) ==> from <= n
    ensures Fits(ms, from, n) && ms != [] ==> from <= ms[0].offset <= End(ms[|ms| - 1]) <= n
    decreases |ms|
  {
    if ms == [] then from <= n
    else from <= ms[0].offset && 0 <= ms[0].length && Fits(ms[1..], End(ms[0]), n)
  }

  /** Every match offers at least one replacement candidate. */
  predicate Suggested(ms: seq<Match>)
  {
    forall k :: 0 <= k < |ms| ==> ms[k].replacements != []
  }

  /** The conditions under which the right-to-left pass is meant to work. */
  predicate WellFormed(text: string, ms: seq<Match>)
  {
    Fits(ms, 0, |text|) && Suggested(ms)
  }

  /** The corrected piece that replaces the span of `m`. */
  function Wrapped(m: Match): string
    requires m.replacements != []
  {
    Wrap(m.replacements[0].value)
  }

  /** How much replacing the span of `m` grows (or shrinks) the text. */
  function Delta(m: Match): int
    requires m.replacements != []
  {
    |Wrapped(m)| - m.length
  }

  /** The total growth of the text over all matches. */
  function SumDelta(ms: seq<Match>): int
    requires Suggested(ms)
  {
    if ms == [] then 0 else Delta(ms[0]) + SumDelta(ms[1..])
  }

  /** One step of the pass: replace `text[offset : offset+length]` (with
      Python's clamping) by the first candidate between markers. */
  function ApplyMatch(text: string, m: Match): (r: Result<string>)
    ensures r.Failure? <==> m.replacements == []
  {
    if m.replacements == [] then Failure(IndexError)
    else Success(Take(text, m.offset) + Wrap(m.replacements[0].value) + Drop(text, End(m)))
  }

  /** The whole pass: apply the last match first, then the others on the
      text it produced, stopping at the first failure. */
  function SpliceAll(text: string, ms: seq<Match>): (r: Result<string>)
    ensures r.Failure? <==> exists k :: 0 <= k < |ms| && ms[k].replacements == []
    decreases |ms|
  {
    if ms == [] then Success(text)
    else
      match ApplyMatch(text, ms[|ms| - 1])
      case Failure(e) => Failure(e)
      case Success(t) => SpliceAll(t, ms[..|ms| - 1])
  }

  /** The intended result, assembled left to right from position `from`:
      the untouched gap before each span, then that span's corrected piece,
      and finally the rest of the text after the last span. */
  function Pieces(text: string, ms: seq<Match>, from: int): (r: string)
    requires Fits(ms, from, |text|) && Suggested(ms) && 0 <= from
    ensures |r| == |text| - from + SumDelta(ms)
    decreases |ms|
  {
    if ms == [] then text[from..]
    else text[from..ms[0].offset] + Wrapped(ms[0]) + Pieces(text, ms[1..], End(ms[0]))
  }

  /** Two matches that the pass cannot tell apart: same span, and the same
      first candidate (or both without candidates). */
  predicate SameChoice(m: Match, m': Match)
  {
    && m.offset == m'.offset
    && m.length == m'.length
    && (m.replacements == [] <==> m'.replacements == [])
    && (m.replacements != [] ==> m.replacements[0] == m'.replacements[0])
  }
}
