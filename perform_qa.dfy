/**
 * The orchestration of performQAInference (app/qa-inference.ts) as the
 * source writes it, proved to compute the result `QAInference.AnswerFor`
 * specifies.
 */
module PerformQA {
  import opened Wrappers
  import opened CandidateRanking
  import opened SpanSelection
  import opened Materialization
  import opened QAInference

  /**
   * performQAInference after `session.run`, as the source writes it: the
   * positions are local variables that the fallback overwrites, a fallback
   * that finds no pair returns `NoAnswer` at once, and lines 134-179 are
   * `ExtractAnswer`.
   */
  method PerformQAInference(inputIds: seq<nat>, startLogits: seq<real>, endLogits: seq<real>,
                            startProbs: seq<real>, endProbs: seq<real>, decode: seq<nat> -> string)
    returns (result: AnswerResult)
    requires |startProbs| == |startLogits| && |endProbs| == |endLogits|
    ensures result == AnswerFor(inputIds, startLogits, endLogits, startProbs, endProbs, decode)
  {
    var startPosition := ArgmaxFirst(startProbs);
    var endPosition := ArgmaxFirst(endProbs);

    if startPosition == -1 || endPosition == -1 || startPosition >= |inputIds| ||
       endPosition >= |inputIds| || startPosition >= endPosition
    {
      var topStartPositions := TopK(startProbs, TopCandidates);
      var topEndPositions := TopK(endProbs, TopCandidates);

      var validStartPositions := InRange(topStartPositions, |inputIds|);
      var firstStart := if |validStartPositions| > 0 then Some(validStartPositions[0]) else None;
      var validEndPositions := AfterStart(topEndPositions, |inputIds|, firstStart);

      assert SelectSpan(startProbs, endProbs, |inputIds|) == PickPair(topStartPositions, topEndPositions, |inputIds|);
      if |validStartPositions| > 0 && |validEndPositions| > 0 {
        startPosition := validStartPositions[0];
        endPosition := validEndPositions[0];
      } else {
        return NoAnswer;
      }
    }
    ghost var span := Span(startPosition, endPosition);
    assert SelectSpan(startProbs, endProbs, |inputIds|) == Some(span);
    AnswerForMaterializes(inputIds, startLogits, endLogits, startProbs, endProbs, decode, span);

    result := ExtractAnswer(inputIds, startPosition, endPosition, startLogits, endLogits, decode);
  }
}
