# Grammar-correction splicing, modelled in Dafny

The service summarises a text with a pretrained model, sends the summary to
the LanguageTool grammar checker, and splices the checker's corrections back
into the summary. Each correction ("match") names a span of the text by
`offset` and `length` and carries a ranked list of `replacements`. The splice
pass walks the matches from the last to the first. For each one it replaces
`text[offset : offset+length]` by the first replacement's `value` wrapped in
`**` on both sides.

This project models that pass and proves why it runs right to left. When the
spans lie inside the text, are sorted by offset and do not overlap, each edit
happens to the right of every span still waiting. So the waiting offsets
still point into the original text. The result is then the left-to-right
interleaving of the untouched gaps and the wrapped replacements.

Files:

- `pyslice.dfy` (module `PySlice`): Python's slice bounds `s[:i]` and `s[j:]`.
  Out-of-range bounds are clamped and negative bounds count from the end.
- `corrections.dfy` (module `Corrections`): the match and response datatypes.
  It defines one step of the pass (`ApplyMatch`) and the whole pass as a
  recursive function (`SpliceAll`). It also defines the reference result
  assembled left to right (`Pieces`) and the layout condition (`Fits`, and its
  pairwise form `Layout`).
- `correction_proofs.dfy` (module `CorrectionProofs`): the lemmas. The pass
  equals the interleaving; the result length; the untouched ends; where each
  piece lands; that only the first candidate matters; two worked examples.
- `app.dfy` (module `App`): the loop itself (`Splice`), `grammar_correct`
  with its absent-`matches` default (`GrammarCorrect`), and the endpoint's
  error handling (`SummarizeAndCorrect`).

The summariser's output and the grammar service's decoded JSON are inputs to
the model (`summary: string`, `data: GrammarData`). Text is `seq<char>` and
offsets index into it.

The code and the design intent differ in two places. This model follows the
code:

- A match with an empty `replacements` list raises `IndexError` in the code,
  and the endpoint turns that into an HTTP 500 reply. The intent is to skip
  such a match. Here it is `Failure(IndexError)` and then
  `ServerError("list index out of range")`.
- The code neither sorts the matches nor checks them for overlap; it trusts
  the order it receives. The model does the same. The sorted, non-overlapping
  condition (`WellFormed`) appears only as the hypothesis of the lemmas.

## Model

| member | source | states |
|---|---|---|
| `PySlice.Clamp` | app.py:27 | A slice bound lands in `[0, len(text)]`. An in-range bound is kept, a bound past the end becomes the length, and a negative bound counts from the end. A bound below `-len(text)` becomes 0. |
| `PySlice.Take` | app.py:27 | `text[:start]` is always a prefix of the text. It is exactly the first `start` characters when `0 <= start <= len(text)`, and the whole text when `start` is past the end. |
| `PySlice.Drop` | app.py:27 | `text[end:]` is always a suffix of the text. It is exactly the characters from `end` on when `end` is in range, and empty when `end` is past the end. |
| `Corrections.Wrap` | app.py:27 | The marked-up replacement `**{replacement}**` is four characters longer than the replacement. |
| `Corrections.ApplyMatch` | app.py:24-27 | One loop step fails (`IndexError`) exactly when the match has no replacement candidate. |
| `CorrectionProofs.ApplyMatchInBounds` | app.py:24-27 | For an in-bounds span, one loop step keeps the text before `offset` and puts the wrapped first candidate at `offset`. The text after `offset+length` follows it, so the length changes by `len(replacement) + 4 - length`. |
| `Corrections.SpliceAll` | app.py:23-27 | The right-to-left pass fails exactly when some match, anywhere in the list, has an empty `replacements` list. |
| `Corrections.Pieces` | app.py:23-27 | The intended left-to-right result (gap, wrapped piece, gap, …, tail) has the length of the text plus, for each match, `len(replacement) + 4 - length`. |
| `CorrectionProofs.FitsPairwise` | app.py:23 | The span-by-span layout condition holds exactly when every span is in bounds and starts at or after `from`, and every span ends no later than any later span begins. Both directions are proved. |
| `CorrectionProofs.LayoutIsFits` | app.py:23 | For any text length, "all spans in bounds, sorted and pairwise disjoint" is equivalent to the span-by-span layout used by the proofs. |
| `CorrectionProofs.ReverseSpliceIsInterleave` | app.py:23-27 | For in-bounds, sorted, non-overlapping matches that all have a candidate, the reverse-order pass succeeds. Its result is the left-to-right concatenation of the untouched gaps and the `**r_i**` pieces. |
| `CorrectionProofs.SpliceLength` | app.py:23-27 | Under the same condition the pass succeeds, and the result has length `len(text) + Σ(len(r_i) + 4 − length_i)`. |
| `CorrectionProofs.SpliceKeepsEnds` | app.py:23-27 | Under the same condition, the characters before the first match's offset and after the last match's end come back unchanged. |
| `CorrectionProofs.PieceAt` | app.py:23-27 | In the left-to-right assembly, the k-th wrapped piece occurs at its original offset shifted by the growth of the pieces before it. |
| `CorrectionProofs.SpliceWrappedAt` | app.py:23-27 | In the spliced text, the k-th wrapped replacement sits at `offset_k + Σ_{i<k}(len(r_i) + 4 − length_i)`. In particular, the first one sits at its original offset. |
| `CorrectionProofs.OnlyFirstReplacementMatters` | app.py:26 | Two match lists that agree on every span and on every first candidate, and have their empty candidate lists in the same places, splice any text to the same outcome. Later candidates have no effect. |
| `CorrectionProofs.MarkerWrappingExample` | app.py:27 | `"Ths is a test"` with the match (0, 3, ["This"]) becomes `"**This** is a test"`. |
| `CorrectionProofs.TwoCorrectionsExample` | app.py:23-27 | In any 30-character text, the matches (5, 3, ["foo"]) and (20, 2, ["bar"]) give `text[:5] + "**foo**" + text[8:20] + "**bar**" + text[22:]`. The later, longer edit does not move the earlier one. |
| `App.Splice` | app.py:23-29 | The loop returns the result of the right-to-left pass. It fails exactly when some match has no candidate. An empty match list returns the text unchanged. For in-bounds, sorted, non-overlapping matches that all have a candidate, it returns the left-to-right interleaving of gaps and wrapped pieces. |
| `App.GrammarCorrect` | app.py:17-29 | A response without a `matches` key leaves the text unchanged. Otherwise the result is the splice of the response's matches. |
| `App.SummarizeAndCorrect` | app.py:31-54 | A request without `text` gets a server error with message `'text'`. Otherwise the reply is a success exactly when every match has a candidate. A failed reply carries `list index out of range`. A successful reply echoes the original text and carries the spliced summary. |

## Left out

- The HTTP call to LanguageTool and the `.json()` decoding (app.py:18-20) are network I/O. The model takes their result as the input `data: GrammarData`.
- `load_summarizer` and the summariser call (app.py:14-15, app.py:41) are an opaque pretrained model. Its output is the input `summary`, and a failure inside it is not modelled.
- Flask routing, `request.get_json()` and `jsonify` (app.py:31-54) are reduced to the request's optional `text` field and a two-case `Reply`. Malformed JSON, a body that is not an object, and a `text` that is not a string are not modelled.
- Other malformed matches are not modelled: a missing `offset`, `length`, `replacements` or `value` key, and non-integer values. Nor is a `matches` key that is present but `null` or not a list (app.py:21-23): `reversed` then raises `TypeError` and the endpoint replies with a server error. The datatypes make each of these present and well typed.
- Process start-up and the `PORT` variable (app.py:56-58) are configuration and I/O.
- Whether LanguageTool counts offsets in UTF-16 units or code points is not modelled. Offsets index the `seq<char>` directly.
- `App.SummarizeAndCorrect`: the summary is an independent input rather than a function of the request text, so the contract does not relate the summary to the original text.
