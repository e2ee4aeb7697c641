/**
 * Choice of the answer span in performQAInference (app/qa-inference.ts): the
 * primary pick from the two argmaxes, its validity check, and the top-5
 * fallback that pairs the best in-range start with the best in-range end
 * after it. Everything here works on the probability vectors and on the
 * number `n` of token ids (`inputIds.length`).
 */
module SpanSelection {
  import opened Wrappers
  import opened CandidateRanking

  /** Token positions of the answer: tokens `start` to `end`, both included. */
  datatype Span = Span(start: nat, end: nat)

  /** Length of each candidate list (`.slice(0, 5)`). */
  const TopCandidates: nat := 5

  /**
   * The guard of the primary pick: neither position is -1 (not found), both
   * are below `n`, and the start lies strictly before the end.
   */
  predicate PrimaryValid(startPos: int, endPos: int, n: nat)
    ensures startPos >= -1 ==> (PrimaryValid(startPos, endPos, n) <==> 0 <= startPos < endPos < n)
  {
    !(startPos == -1 || endPos == -1 || startPos >= n || endPos >= n || startPos >= endPos)
  }

  /** The candidates an end position is filtered by, given the first valid start. */
  predicate EndQualifies(x: nat, n: nat, firstStart: Option<nat>)
  {
    x < n && firstStart.Some? && x > firstStart.value
  }

  /** `top[k]` is the highest-ranked entry of `top` below `n`. */
  predicate FirstInRangeAt(top: seq<nat>, n: nat, k: nat)
  {
    k < |top| && top[k] < n && forall j :: 0 <= j < k ==> top[j] >= n
  }

  /** `top[k]` is the highest-ranked entry of `top` that qualifies as an end. */
  predicate FirstQualifyingAt(top: seq<nat>, n: nat, firstStart: Option<nat>, k: nat)
  {
    k < |top| && EndQualifies(top[k], n, firstStart) &&
    forall j :: 0 <= j < k ==> !EndQualifies(top[j], n, firstStart)
  }

  /** `top.filter(pos => pos.index < inputIds.length)`. */
  function InRange(top: seq<nat>, n: nat): (r: seq<nat>)
    ensures forall x :: x in r <==> x in top && x < n
    ensures r == [] <==> forall k :: 0 <= k < |top| ==> top[k] >= n
    ensures r != [] ==> exists k: nat :: FirstInRangeAt(top, n, k) && top[k] == r[0]
  {
    if top == [] then []
    else
      var rest := InRange(top[1..], n);
      assert forall x :: x in top <==> x == top[0] || x in top[1..];
      assert forall k :: 1 <= k < |top| ==> top[k] == top[1..][k - 1];
      if top[0] < n then
        assert FirstInRangeAt(top, n, 0);
        [top[0]] + rest
      else
        assert rest != [] ==> exists k: nat :: FirstInRangeAt(top, n, k) && top[k] == rest[0] by {
          if rest != [] {
            var k: nat :| FirstInRangeAt(top[1..], n, k) && top[1..][k] == rest[0];
            assert FirstInRangeAt(top, n, k + 1);
          }
        }
        rest
  }

  /**
   * `top.filter(pos => pos.index < inputIds.length && pos.index > validStartPositions[0]?.index)`.
   * With no valid start, `validStartPositions[0]?.index` is undefined and
   * every comparison with it is false: `firstStart` is then `None`.
   */
  function AfterStart(top: seq<nat>, n: nat, firstStart: Option<nat>): (r: seq<nat>)
    ensures forall x :: x in r <==> x in top && EndQualifies(x, n, firstStart)
    ensures r == [] <==> forall k :: 0 <= k < |top| ==> !EndQualifies(top[k], n, firstStart)
    ensures r != [] ==> exists k: nat :: FirstQualifyingAt(top, n, firstStart, k) && top[k] == r[0]
  {
    if top == [] then []
    else
      var rest := AfterStart(top[1..], n, firstStart);
      assert forall x :: x in top <==> x == top[0] || x in top[1..];
      assert forall k :: 1 <= k < |top| ==> top[k] == top[1..][k - 1];
      if EndQualifies(top[0], n, firstStart) then
        assert FirstQualifyingAt(top, n, firstStart, 0);
        [top[0]] + rest
      else
        assert rest != [] ==> exists k: nat :: FirstQualifyingAt(top, n, firstStart, k) && top[k] == rest[0] by {
          if rest != [] {
            var k: nat :| FirstQualifyingAt(top[1..], n, firstStart, k) && top[1..][k] == rest[0];
            assert FirstQualifyingAt(top, n, firstStart, k + 1);
          }
        }
        rest
  }

  /**
   * Lines 113-130 on given candidate lists: the first in-range start and the
   * first in-range end after it, or `None` when either is missing.
   */
  function PickPair(topStart: seq<nat>, topEnd: seq<nat>, n: nat): (r: Option<Span>)
    ensures r.Some? ==> r.value.start < r.value.end < n
    ensures r.Some? ==> r.value.start in topStart && r.value.end in topEnd
  {
    var validStarts := InRange(topStart, n);
    var firstStart := if validStarts == [] then None else Some(validStarts[0]);
    var validEnds := AfterStart(topEnd, n, firstStart);
    if |validStarts| > 0 && |validEnds| > 0 then
      assert validStarts[0] in validStarts;
      assert validEnds[0] in validEnds;
      Some(Span(validStarts[0], validEnds[0]))
    else
      None
  }

  /**
   * The fallback: rank both vectors, keep the top five of each and pair them
   * as `PickPair` does.
   */
  function Fallback(startProbs: seq<real>, endProbs: seq<real>, n: nat): (r: Option<Span>)
    ensures r.Some? ==> r.value.start < r.value.end < n
    ensures r.Some? ==> r.value.start < |startProbs| && r.value.end < |endProbs|
  {
    var topStart := TopK(startProbs, TopCandidates);
    var topEnd := TopK(endProbs, TopCandidates);
    TopKProperties(startProbs, TopCandidates);
    TopKProperties(endProbs, TopCandidates);
    PickPair(topStart, topEnd, n)
  }

  /**
   * The whole selection: the argmax pair when it passes the validity check,
   * the fallback otherwise. A span it returns is always in range and ordered.
   */
  function SelectSpan(startProbs: seq<real>, endProbs: seq<real>, n: nat): (r: Option<Span>)
    ensures r.Some? ==> r.value.start < r.value.end < n
    ensures r.Some? ==> r.value.start < |startProbs| && r.value.end < |endProbs|
    ensures var s, e := ArgmaxFirst(startProbs), ArgmaxFirst(endProbs);
      0 <= s < e < n ==> r == Some(Span(s, e))
  {
    var startPos := ArgmaxFirst(startProbs);
    var endPos := ArgmaxFirst(endProbs);
    if PrimaryValid(startPos, endPos, n) then Some(Span(startPos, endPos))
    else Fallback(startProbs, endProbs, n)
  }

  /**
   * The primary pick is kept, and the fallback skipped, exactly when both
   * argmaxes exist, both are below `n` and the start is strictly before the
   * end; in particular a single-token pick (start == end) always falls back.
   */
  lemma PrimaryAcceptedIff(startProbs: seq<real>, endProbs: seq<real>, n: nat)
    ensures var s, e := ArgmaxFirst(startProbs), ArgmaxFirst(endProbs);
      PrimaryValid(s, e, n) <==> (startProbs != [] && endProbs != [] && s < e < n)
    ensures var s, e := ArgmaxFirst(startProbs), ArgmaxFirst(endProbs);
      !PrimaryValid(s, e, n) ==> SelectSpan(startProbs, endProbs, n) == Fallback(startProbs, endProbs, n)
    ensures ArgmaxFirst(startProbs) == ArgmaxFirst(endProbs) ==>
      SelectSpan(startProbs, endProbs, n) == Fallback(startProbs, endProbs, n)
  {
  }

  /** `te[b]` is the highest-ranked entry of `te` below `n` and after `x`. */
  predicate FirstEndAfterAt(te: seq<nat>, n: nat, x: nat, b: nat)
  {
    b < |te| && x < te[b] < n && forall j :: 0 <= j < b ==> te[j] >= n || te[j] <= x
  }

  /** No entry of `te` is both below `n` and after `x`. */
  predicate NoEndAfter(te: seq<nat>, n: nat, x: nat)
  {
    forall b :: 0 <= b < |te| ==> te[b] >= n || te[b] <= x
  }

  /**
   * What the fallback picks from the candidate lists `ts` and `te` (the top-5
   * lists in `Fallback`): its start is the highest-ranked start below `n`, and
   * its end is the highest-ranked end below `n` and after that start.
   */
  lemma PickPairHighestRanked(ts: seq<nat>, te: seq<nat>, n: nat)
    ensures var r := PickPair(ts, te, n);
      r.Some? ==>
        exists a: nat, b: nat :: FirstInRangeAt(ts, n, a) && FirstEndAfterAt(te, n, ts[a], b) &&
          r.value == Span(ts[a], te[b])
  {
  }

  /**
   * The fallback gives `None` exactly when no candidate start is below `n`,
   * or when no candidate end qualifies for the highest-ranked such start:
   * lower-ranked starts are never tried.
   */
  lemma PickPairNoneIff(ts: seq<nat>, te: seq<nat>, n: nat)
    ensures PickPair(ts, te, n).None? <==>
        (forall a :: 0 <= a < |ts| ==> ts[a] >= n) ||
        (exists a: nat :: FirstInRangeAt(ts, n, a) && NoEndAfter(te, n, ts[a]))
  {
  }

  /**
   * The fallback does not search the whole top-5 by top-5 grid. With two
   * tokens, start probabilities (0.4, 0.6) and end probabilities (0.6, 0.4),
   * the argmax pair (1, 0) is crossed, the top start 1 has no end after it,
   * and nothing is selected although start 0 with end 1 are both top-5
   * candidates and would form a valid span.
   */
  lemma LowerRankedStartNeverTried()
    ensures 0 in TopK([0.4, 0.6], TopCandidates) && 1 in TopK([0.6, 0.4], TopCandidates)
    ensures SelectSpan([0.4, 0.6], [0.6, 0.4], 2) == None
  {
    var sp: seq<real>, ep: seq<real> := [0.4, 0.6], [0.6, 0.4];
    assert ArgmaxFirst(sp) == 1 by {
      assert MaxOf(sp) == 0.6 by { assert sp[1..] == [0.6]; }
      assert IndexOf(sp, 0.6) == 1 by { assert sp[1..] == [0.6]; }
    }
    assert RankPrefix(sp, 1) == [0];
    assert Before(sp, 1, 0);
    assert Ranking(sp) == [1, 0];
    assert RankPrefix(ep, 1) == [0];
    assert !Before(ep, 1, 0);
    assert Insert(ep, 1, [0]) == [0] + Insert(ep, 1, []);
    assert Ranking(ep) == [0, 1];
    assert TopK(sp, TopCandidates) == [1, 0];
    assert TopK(ep, TopCandidates) == [0, 1];
    assert InRange([1, 0], 2) == [1, 0] by {
      assert [1, 0][1..] == [0];
      assert InRange([0], 2) == [0] by { assert [0][1..] == []; }
    }
    assert AfterStart([0, 1], 2, Some(1)) == [] by {
      assert [0, 1][1..] == [1];
      assert AfterStart([1], 2, Some(1)) == [] by { assert [1][1..] == []; }
    }
  }

  /**
   * Selection depends only on how the values of each vector compare, so
   * running it on the softmax probabilities chooses the same span as running
   * it on the raw logits would.
   */
  lemma SelectSpanSameOrder(startProbs: seq<real>, endProbs: seq<real>,
                            startLogits: seq<real>, endLogits: seq<real>, n: nat)
    requires SameOrder(startProbs, startLogits) && SameOrder(endProbs, endLogits)
    ensures SelectSpan(startProbs, endProbs, n) == SelectSpan(startLogits, endLogits, n)
  {
    ArgmaxFirstSameOrder(startProbs, startLogits);
    ArgmaxFirstSameOrder(endProbs, endLogits);
    RankingSameOrder(startProbs, startLogits);
    RankingSameOrder(endProbs, endLogits);
  }
}
