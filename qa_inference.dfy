/**
 * From a chosen span to the answer performQAInference returns
 * (app/qa-inference.ts): slicing the token ids, decoding them, the score and
 * the fixed "no answer" result. The tokenizer's `decode` is a parameter.
 */
module Materialization {
  import opened SpanSelection
  import opened JsString

  /** The `{answer, score}` object the inference returns. */
  datatype AnswerResult = AnswerResult(answer: string, score: real)

  /** "Could not extract an answer", the text of every failure result. */
  const NoAnswerText: string := "回答を抽出できませんでした"

  /** The failure result: the fixed text with score 0. */
  const NoAnswer: AnswerResult := AnswerResult(NoAnswerText, 0.0)

  /**
   * `a.slice(begin, end)` for non-negative arguments: both bounds are
   * clamped to the length, and a reversed or out-of-range pair gives the
   * empty array.
   */
  function Slice(a: seq<nat>, begin: nat, end: nat): (r: seq<nat>)
    ensures r == [] <==> begin >= end || begin >= |a|
    ensures end <= |a| && begin <= end ==> r == a[begin..end]
    ensures end > |a| && begin <= |a| ==> r == a[begin..]
  {
    var lo := if begin < |a| then begin else |a|;
    var hi := if end < |a| then end else |a|;
    if lo < hi then a[lo..hi] else []
  }

  /**
   * Lines 134-179 for a span whose positions index the logit vectors: the
   * tokens `start..end` inclusive are decoded; an empty slice or a blank
   * decoded answer gives `NoAnswer`, and otherwise the answer is paired with
   * the mean of the start logit at `start` and the end logit at `end`.
   */
  function Materialize(inputIds: seq<nat>, span: Span, startLogits: seq<real>, endLogits: seq<real>,
                       decode: seq<nat> -> string): (r: AnswerResult)
    requires span.start < |startLogits| && span.end < |endLogits|
    ensures span.start > span.end || span.start >= |inputIds| ==> r == NoAnswer
  {
    var answerTokens := Slice(inputIds, span.start, span.end + 1);
    if |answerTokens| == 0 then NoAnswer
    else
      var answer := decode(answerTokens);
      var score := (startLogits[span.start] + endLogits[span.end]) / 2.0;
      if answer == "" || Trim(answer) == "" then NoAnswer
      else AnswerResult(answer, score)
  }

  /**
   * Lines 134-179 as the source writes them, with early returns: slice,
   * decode, score, and the blank-answer check. It computes what `Materialize`
   * defines; it is a method of its own only so that `PerformQAInference`
   * reaches it through this one postcondition, which keeps that method's
   * proof obligation small.
   */
  method ExtractAnswer(inputIds: seq<nat>, startPosition: nat, endPosition: nat,
                       startLogits: seq<real>, endLogits: seq<real>, decode: seq<nat> -> string)
    returns (result: AnswerResult)
    requires startPosition < |startLogits| && endPosition < |endLogits|
    ensures result == Materialize(inputIds, Span(startPosition, endPosition), startLogits, endLogits, decode)
  {
    var answerTokens := Slice(inputIds, startPosition, endPosition + 1);
    if |answerTokens| == 0 {
      return NoAnswer;
    }

    var answer := decode(answerTokens);
    var score := (startLogits[startPosition] + endLogits[endPosition]) / 2.0;

    if answer == "" || Trim(answer) == "" {
      return NoAnswer;
    }
    return AnswerResult(answer, score);
  }

  /**
   * For a span inside the token ids, the answer is the decoding of the ids
   * from `start` to `end` inclusive unless that decoding is blank, and its
   * score is the mean of the two raw logits at the span's ends.
   */
  lemma MaterializeAnswer(inputIds: seq<nat>, span: Span, startLogits: seq<real>, endLogits: seq<real>,
                          decode: seq<nat> -> string)
    requires span.start < |startLogits| && span.end < |endLogits|
    requires span.start <= span.end < |inputIds|
    ensures var answer := decode(inputIds[span.start..span.end + 1]);
      Materialize(inputIds, span, startLogits, endLogits, decode) ==
        if Blank(answer) then NoAnswer
        else AnswerResult(answer, (startLogits[span.start] + endLogits[span.end]) / 2.0)
  {
    TrimSpec(decode(inputIds[span.start..span.end + 1]));
  }
}

/**
 * performQAInference from the point where the logits exist: span selection
 * on the softmax probabilities, then materialisation with the raw logits.
 * `inputIds` is what the tokenizer produced; `startProbs` and `endProbs` are
 * the softmax of `startLogits` and `endLogits`, one value per logit.
 */
module QAInference {
  import opened Wrappers
  import opened SpanSelection
  import opened JsString
  import opened Materialization

  /**
   * The result of the inference. An answer other than `NoAnswer` is the
   * non-blank decoding of the selected tokens, scored with the raw logits on
   * the primary and on the fallback path alike.
   */
  function AnswerFor(inputIds: seq<nat>, startLogits: seq<real>, endLogits: seq<real>,
                     startProbs: seq<real>, endProbs: seq<real>, decode: seq<nat> -> string): (r: AnswerResult)
    requires |startProbs| == |startLogits| && |endProbs| == |endLogits|
    ensures SelectSpan(startProbs, endProbs, |inputIds|).None? ==> r == NoAnswer
    ensures |inputIds| <= 1 ==> r == NoAnswer
  {
    var selected := SelectSpan(startProbs, endProbs, |inputIds|);
    if selected.None? then NoAnswer
    else
      var span := selected.value;
      Materialize(inputIds, span, startLogits, endLogits, decode)
  }

  /**
   * Once a span is selected, the answer is its non-blank decoding scored
   * with the raw logits at its two ends, on the primary and on the fallback
   * path alike; a blank decoding gives `NoAnswer`.
   */
  lemma AnswerForSelected(inputIds: seq<nat>, startLogits: seq<real>, endLogits: seq<real>,
                          startProbs: seq<real>, endProbs: seq<real>, decode: seq<nat> -> string, span: Span)
    requires |startProbs| == |startLogits| && |endProbs| == |endLogits|
    requires SelectSpan(startProbs, endProbs, |inputIds|) == Some(span)
    ensures span.start < span.end < |inputIds| && span.start < |startLogits| && span.end < |endLogits|
    ensures var answer := decode(inputIds[span.start..span.end + 1]);
      AnswerFor(inputIds, startLogits, endLogits, startProbs, endProbs, decode) ==
        if Blank(answer) then NoAnswer
        else AnswerResult(answer, (startLogits[span.start] + endLogits[span.end]) / 2.0)
  {
    AnswerForMaterializes(inputIds, startLogits, endLogits, startProbs, endProbs, decode, span);
    MaterializeAnswer(inputIds, span, startLogits, endLogits, decode);
  }

  /** With a span selected, the inference result is the materialisation of that span. */
  lemma AnswerForMaterializes(inputIds: seq<nat>, startLogits: seq<real>, endLogits: seq<real>,
                              startProbs: seq<real>, endProbs: seq<real>, decode: seq<nat> -> string, span: Span)
    requires |startProbs| == |startLogits| && |endProbs| == |endLogits|
    requires SelectSpan(startProbs, endProbs, |inputIds|) == Some(span)
    ensures span.start < |startLogits| && span.end < |endLogits|
    ensures AnswerFor(inputIds, startLogits, endLogits, startProbs, endProbs, decode) ==
      Materialize(inputIds, span, startLogits, endLogits, decode)
  {
  }

  /**
   * Every span that reaches the slice satisfies 0 <= start < end < n, so the
   * slice holds end - start + 1 >= 2 token ids and the empty-slice check
   * never fires.
   */
  lemma SelectedSliceNonEmpty(inputIds: seq<nat>, startProbs: seq<real>, endProbs: seq<real>)
    ensures SelectSpan(startProbs, endProbs, |inputIds|).Some? ==>
      var span := SelectSpan(startProbs, endProbs, |inputIds|).value;
      var tokens := Slice(inputIds, span.start, span.end + 1);
      tokens == inputIds[span.start..span.end + 1] && |tokens| == span.end - span.start + 1 >= 2
  {
  }
}
