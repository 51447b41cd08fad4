/** The request path of the summarise-and-correct endpoint, with the
    summariser's output and the grammar service's decoded response taken as
    inputs. The splice loop is the part with logic of its own. */
module App {
  import opened PySlice
  import opened Corrections
  import opened CorrectionProofs

  /** What the endpoint sends back: the original text with its corrected
      summary, or a server error carrying the exception's message. */
  datatype Reply =
    | Ok(originalText: string, summarizedTextWithCorrection: string)
    | ServerError(error: string)

  /** The message of the exception raised by `replacements[0]` on an empty list. */
  const IndexErrorMessage: string := "list index out of range"

  /** The message of the exception raised by `data['text']` when the key is missing. */
  const MissingTextMessage: string := "'text'"

  /** The splice loop: walk the matches from last to first, each time
      replacing the match's span of the current text by its first candidate
      between markers. */
  method Splice(text: string, matches: seq<Match>) returns (r: Result<string>)
    ensures r == SpliceAll(text, matches)
    ensures r.Failure? <==> exists k :: 0 <= k < |matches| && matches[k].replacements == []
    ensures matches == [] ==> r == Success(text)
    ensures WellFormed(text, matches) ==> r == Success(Pieces(text, matches, 0))
  {
    var current := text;
    var i := |matches|;
    assert matches[..i] == matches;
    while i > 0
      invariant 0 <= i <= |matches|
      invariant SpliceAll(text, matches) == SpliceAll(current, matches[..i])
    {
      var m := matches[i - 1];
      assert matches[..i][..i - 1] == matches[..i - 1];
      if m.replacements == [] {
        return Failure(IndexError);
      }
      var incorrectStart := m.offset;
      var incorrectEnd := m.offset + m.length;
      var replacement := m.replacements[0].value;
      current := Take(current, incorrectStart) + Wrap(replacement) + Drop(current, incorrectEnd);
      i := i - 1;
    }
    r := Success(current);
    if WellFormed(text, matches) {
      ReverseSpliceIsInterleave(text, matches);
    }
  }

  /** Correct a text with the grammar service's decoded response `data`:
      a response without a `matches` key leaves the text as it is. */
  method GrammarCorrect(text: string, data: GrammarData) returns (r: Result<string>)
    ensures data.matches.None? ==> r == Success(text)
    ensures data.matches.Some? ==> r == SpliceAll(text, data.matches.value)
    ensures r == SpliceAll(text, MatchesOf(data))
  {
    var grammarMatches := MatchesOf(data);
    r := Splice(text, grammarMatches);
  }

  /** The endpoint: `text` is the request's `text` field (None when the key is
      missing), `summary` what the summariser returned for it, and `data`
      the grammar service's response for the summary. Any exception becomes
      a server error carrying its message. */
  method SummarizeAndCorrect(text: Option<string>, summary: string, data: GrammarData)
    returns (reply: Reply)
    ensures text.None? ==> reply == ServerError(MissingTextMessage)
    ensures text.Some? ==>
      (reply.Ok? <==> forall k :: 0 <= k < |MatchesOf(data)| ==> MatchesOf(data)[k].replacements != [])
    ensures text.Some? && reply.ServerError? ==> reply.error == IndexErrorMessage
    ensures reply.Ok? ==>
      && text == Some(reply.originalText)
      && SpliceAll(summary, MatchesOf(data)) == Success(reply.summarizedTextWithCorrection)
  {
    if text.None? {
      return ServerError(MissingTextMessage);
    }
    var corrected := GrammarCorrect(summary, data);
    match corrected {
      case Success(c) => reply := Ok(text.value, c);
      case Failure(_) => reply := ServerError(IndexErrorMessage);
    }
  }
}
