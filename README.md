# Extractive QA answer selection

A Dafny model of the answer-span selection and answer extraction in
`performQAInference` (app/qa-inference.ts). Extractive question answering
works on two logit vectors: a start logit and an end logit for every token
position. The function first applies softmax to each vector. It then picks a
start and an end token:

- primarily, the first-occurrence argmax of each probability vector;
- if that pair is invalid, a top-5 fallback pairs the best in-range start
  with the best in-range end after it.

It then slices the token ids from start to end inclusive and decodes them.
The score is the mean of the two raw logits at the span's ends. A missing
span or a blank answer gives the fixed result
`"回答を抽出できませんでした"` ("could not extract an answer") with score 0.

Modules:

- `CandidateRanking` (ranking.dfy): `Math.max` and `indexOf`, the argmax,
  and the stable descending sort by probability with its top-k prefix. A
  candidate `{prob, index}` is represented by its index alone.
- `SpanSelection` (span_selection.dfy):
  - the validity check;
  - the two candidate filters;
  - the fallback pairing;
  - the whole selection `SelectSpan`.
- `JsString` (js_string.dfy): `String.prototype.trim` over the ECMAScript
  WhiteSpace and LineTerminator code points.
- `Materialization` (qa_inference.dfy): the clamping `Array.prototype.slice`,
  the result record, the fixed failure result and the answer extraction.
  Both the function `Materialize` and the method `ExtractAnswer` are there.
- `QAInference` (qa_inference.dfy): the result of the whole inference,
  `AnswerFor`, as a function of the token ids, logits, probabilities and
  decoder.
- `PerformQA` (perform_qa.dfy): the method `PerformQAInference`. It
  reassigns the local positions and returns early, as the source does, and
  is proved to compute `AnswerFor`.

The tokenizer's `decode` is a parameter (`seq<nat> -> string`). The softmax
probability vectors are inputs next to the logits they come from.
`SelectSpanSameOrder` shows that selection depends only on how values
compare. Softmax preserves that order, so selecting on the probabilities
picks the same span as selecting on the logits.

## Model

| member | source | states |
|---|---|---|
| CandidateRanking.MaxOf | app/qa-inference.ts:74-77 | `Math.max(...s)` of a non-empty vector is at least every entry and equals one of them |
| CandidateRanking.IndexOf | app/qa-inference.ts:74-77 | `indexOf` gives -1 exactly when the value is absent; otherwise the first position holding it |
| CandidateRanking.ArgmaxFirst | app/qa-inference.ts:74-77 | -1 exactly for an empty vector; otherwise a position holding the maximum, with every earlier entry strictly smaller (the lowest such position) |
| CandidateRanking.Before | app/qa-inference.ts:101 | the order the comparator `b.prob - a.prob` and the sort's stability leave candidates in: never a lower probability first, and equal probabilities in ascending index (mapped-array) order |
| CandidateRanking.BeforeStrictTotal | app/qa-inference.ts:101 | of two distinct positions exactly one comes first, so the sorted order is determined |
| CandidateRanking.Insert | app/qa-inference.ts:99-107 | inserting a position into a ranked list adds exactly that position and keeps all entries valid positions |
| CandidateRanking.RankPrefix | app/qa-inference.ts:99-107 | ranking the first m positions lists each of them exactly once, m in all |
| CandidateRanking.InsertSorted | app/qa-inference.ts:99-107 | insertion keeps a list in the sort order: higher probability first, ties by lower index |
| CandidateRanking.RankPrefixSorted | app/qa-inference.ts:99-107 | every ranked prefix is in the sort order |
| CandidateRanking.RankingIsStableDescendingSort | app/qa-inference.ts:99-107 | the ranking is a permutation of all positions, in descending order of probability, equal probabilities in ascending index order (a stable sort of the mapped array) |
| CandidateRanking.Ranking | app/qa-inference.ts:99-101 | the mapped and sorted array lists every position exactly once; its order is stated by RankingIsStableDescendingSort |
| CandidateRanking.TopK | app/qa-inference.ts:99-107 | `.slice(0, 5)` of the sorted array keeps min(5, n) valid positions; TopKProperties states their order, distinctness and that no unlisted position beats them |
| CandidateRanking.SortedUnique | app/qa-inference.ts:101 | two lists in that order with the same entries are equal, so every stable descending sort gives the same ranking |
| CandidateRanking.TopKProperties | app/qa-inference.ts:99-107 | a top-k list has length min(k, n) and distinct valid positions, ordered by non-increasing probability with ties in ascending index; every listed value is at least every unlisted one, a tie going to the lower index |
| CandidateRanking.ArgmaxFirstSameOrder | app/qa-inference.ts:64-77 | the argmax is the same for two vectors whose entries compare alike (a logit vector and its softmax) |
| CandidateRanking.RankingSameOrder | app/qa-inference.ts:64-69 | the ranking is the same for two vectors whose entries compare alike |
| SpanSelection.PrimaryValid | app/qa-inference.ts:80-86 | for positions an `indexOf` can return (at least -1), the guard holds exactly when 0 <= start < end < n; PrimaryAcceptedIff states it for the argmaxes |
| SpanSelection.InRange | app/qa-inference.ts:113-115 | the start filter keeps exactly the candidates below n and is empty exactly when none is; its head is the highest-ranked such candidate |
| SpanSelection.AfterStart | app/qa-inference.ts:116-120 | the end filter keeps exactly the candidates below n and after the first valid start, and none when there is no valid start; its head is the highest-ranked such candidate |
| SpanSelection.PickPair | app/qa-inference.ts:113-130 | a pair picked from two candidate lists has start < end < n and takes both ends from the lists |
| SpanSelection.Fallback | app/qa-inference.ts:99-130 | a fallback span has start < end < n and indexes both probability vectors |
| SpanSelection.SelectSpan | app/qa-inference.ts:74-130 | a selected span has start < end < n and indexes both vectors; when the argmaxes satisfy 0 <= s < e < n the span is exactly (s, e) |
| SpanSelection.PrimaryAcceptedIff | app/qa-inference.ts:74-86 | the argmax pair is kept exactly when both vectors are non-empty and start < end < n; otherwise, and always when start == end, the fallback decides |
| SpanSelection.PickPairHighestRanked | app/qa-inference.ts:113-124 | the fallback start is the highest-ranked candidate below n; the fallback end is the highest-ranked candidate below n and after that start |
| SpanSelection.PickPairNoneIff | app/qa-inference.ts:113-130 | the fallback finds nothing exactly when no start is below n, or when no end qualifies for the highest-ranked in-range start |
| SpanSelection.LowerRankedStartNeverTried | app/qa-inference.ts:113-130 | with start probabilities (0.4, 0.6), end probabilities (0.6, 0.4) and two tokens, nothing is selected although start 0 and end 1 are both top-5 candidates |
| SpanSelection.SelectSpanSameOrder | app/qa-inference.ts:64-130 | selecting on the probabilities gives the same span as selecting on vectors ordered alike, such as the logits |
| JsString.SkipForward | app/qa-inference.ts:169 | the position reached by skipping leading white space lies between the start and the end of the string |
| JsString.SkipForwardStops | app/qa-inference.ts:169 | skipping forward passes only white space and stops at the first other character |
| JsString.SkipBackward | app/qa-inference.ts:169 | the position reached by skipping trailing white space is not beyond the starting point |
| JsString.SkipBackwardStops | app/qa-inference.ts:169 | skipping backward passes only white space and stops after the last other character |
| JsString.Trim | app/qa-inference.ts:169 | `trim()` never lengthens a string |
| JsString.TrimSpec | app/qa-inference.ts:169 | `trim()` is empty exactly for a blank string; otherwise it is the stretch of the string from its first to its last non-white-space character, and everything outside it is white space |
| Materialization.Slice | app/qa-inference.ts:134 | `slice(begin, end)` is empty exactly when begin >= end or begin >= length; otherwise it is the clamped subsequence |
| Materialization.Materialize | app/qa-inference.ts:134-143 | a span that is reversed or starts past the token ids gives the failure result |
| Materialization.ExtractAnswer | app/qa-inference.ts:134-179 | the statement sequence (slice, empty check, decode, score, blank check) computes `Materialize` |
| Materialization.MaterializeAnswer | app/qa-inference.ts:134-179 | for a span inside the token ids, the result is the failure result exactly when the decoding of the ids from start to end inclusive is blank; otherwise it is that decoding with score (startLogit[start] + endLogit[end]) / 2 |
| QAInference.AnswerFor | app/qa-inference.ts:74-179 | without a selected span, and always with at most one token id, the result is the failure result with score 0 |
| QAInference.AnswerForSelected | app/qa-inference.ts:134-179 | once a span is selected, on the primary or the fallback path, the result is its non-blank decoding scored with the raw logits (startLogit[start] + endLogit[end]) / 2, or the failure result when the decoding is blank |
| QAInference.SelectedSliceNonEmpty | app/qa-inference.ts:134-143 | a selected span's slice is the ids from start to end inclusive and holds at least two ids, so the empty-slice check never fires |
| PerformQA.PerformQAInference | app/qa-inference.ts:74-179 | the imperative orchestration returns exactly `AnswerFor` of its inputs |

## Left out

- Tokenizer loading, encoding and `decode` (app/qa-inference.ts:30-38, 145):
  a foreign library. `decode` is a function parameter and the token ids are
  an input.
- The ONNX session, tensor packing and `session.run`
  (app/qa-inference.ts:45-61): a foreign runtime. The logits are inputs.
- The floating-point body of `softmax` (app/qa-inference.ts:64-69). The
  probability vectors are inputs of the same lengths as the logits. IEEE
  effects are not modelled: underflow ties, NaN, and `Math.max` of a vector
  holding NaN.
- The floating-point score (app/qa-inference.ts:166): the source adds two
  float32 logits in double precision and halves the sum; the model computes
  the mean of two exact reals, so rounding and overflow to Infinity are not
  captured.
- `console.log` diagnostics (app/qa-inference.ts:88-110, 138, 158-163) and the
  catch-and-rethrow (app/qa-inference.ts:180-183): they do not affect the
  result.
- The `async`/`await` plumbing. The model is a synchronous computation of
  the returned object.
- app/page.tsx and app/api/tokenize/route.ts: UI state and an HTTP wrapper
  around the tokenizer, not part of this model.
- Candidate objects `{prob, index}`: represented by their index only, since
  `prob` is always the probability vector at that index.
- Materialization.Materialize: its own contract states only the
  reversed/out-of-range case. The full answer-and-score statement is the
  lemma `MaterializeAnswer`, kept apart so that callers do not pay for the
  white-space reasoning.
- CandidateRanking.TopK: its own contract states only the length and that
  the entries are positions. Their order, their distinctness and that no
  unlisted position beats them are the lemma `TopKProperties`, so that
  callers do not carry the ordering quantifiers.
- CandidateRanking.Ranking: its own contract states only that every
  position appears exactly once. The sort order is the lemma
  `RankingIsStableDescendingSort`, for the same reason.
- JsString.Trim: its own contract states only that the result is no
  longer than the input. What `trim` keeps and removes is the lemma
  `TrimSpec`, for the same reason.
- The comment at app/qa-inference.ts:165 calls the score an average of
  probabilities. The code averages the raw logits, and the model follows the
  code.
- A one-token answer (start == end) is never accepted: both the validity
  check and the end filter compare strictly (app/qa-inference.ts:85, 119).
  The model keeps the strict comparisons.
