/**
 * Ranking of positions in a probability vector, as performQAInference does it
 * in app/qa-inference.ts: the first-occurrence argmax
 * (`indexOf(Math.max(...s))`) and the top-k list obtained by mapping every
 * value to `{prob, index}`, sorting stably by descending `prob` and keeping a
 * prefix. A candidate `{prob, index}` is represented by its index alone: its
 * `prob` is always `s[index]`.
 */
module CandidateRanking {

  /** `Math.max(...s)` for a non-empty vector. */
  function MaxOf(s: seq<real>): (m: real)
    requires |s| > 0
    ensures forall j :: 0 <= j < |s| ==> s[j] <= m
    ensures exists j :: 0 <= j < |s| && s[j] == m
  {
    if |s| == 1 then s[0]
    else
      var rest := MaxOf(s[1..]);
      assert forall j :: 1 <= j < |s| ==> s[j] == s[1..][j - 1];
      if s[0] >= rest then s[0] else rest
  }

  /** `Array.prototype.indexOf`: the first position holding `x`, or -1. */
  function IndexOf(s: seq<real>, x: real): (r: int)
    ensures -1 <= r < |s|
    ensures r == -1 <==> (forall j :: 0 <= j < |s| ==> s[j] != x)
    ensures r >= 0 ==> s[r] == x && forall j :: 0 <= j < r ==> s[j] != x
  {
    if |s| == 0 then -1
    else if s[0] == x then 0
    else
      var k := IndexOf(s[1..], x);
      assert forall j :: 1 <= j < |s| ==> s[j] == s[1..][j - 1];
      if k == -1 then -1 else k + 1
  }

  /**
   * `s.indexOf(Math.max(...s))`. For an empty vector `Math.max()` is
   * -Infinity, which `indexOf` does not find, so the result is -1.
   */
  function ArgmaxFirst(s: seq<real>): (r: int)
    ensures r == -1 <==> |s| == 0
    ensures r >= 0 ==> r < |s|
    ensures r >= 0 ==> forall j :: 0 <= j < |s| ==> s[j] <= s[r]
    ensures r >= 0 ==> forall j :: 0 <= j < r ==> s[j] < s[r]
  {
    if |s| == 0 then -1 else IndexOf(s, MaxOf(s))
  }

  /**
   * The order the stable sort `(a, b) => b.prob - a.prob` leaves the mapped
   * array in: a higher value comes first, and of two equal values the one
   * with the lower index (it was earlier in the mapped array) comes first.
   * It never puts a lower value first, and it keeps equal values in their
   * mapped-array order; `BeforeStrictTotal` shows it is a strict total order,
   * so the sorted order is fixed.
   */
  predicate Before(s: seq<real>, i: nat, j: nat)
    requires i < |s| && j < |s|
    ensures Before(s, i, j) ==> i != j && s[i] >= s[j]
    ensures s[i] == s[j] ==> (Before(s, i, j) <==> i < j)
  {
    s[i] > s[j] || (s[i] == s[j] && i < j)
  }

  /** Every entry of `r` is a position of `s`. */
  predicate Positions(s: seq<real>, r: seq<nat>)
  {
    forall k :: 0 <= k < |r| ==> r[k] < |s|
  }

  /** `r` lists positions of `s` in the order of `Before`. */
  predicate SortedBy(s: seq<real>, r: seq<nat>)
  {
    Positions(s, r) &&
    forall a, b :: 0 <= a < b < |r| ==> Before(s, r[a], r[b])
  }

  /** Puts position `i` into the sorted list `r` at its place under `Before`. */
  function Insert(s: seq<real>, i: nat, r: seq<nat>): (r': seq<nat>)
    requires i < |s| && Positions(s, r)
    ensures |r'| == |r| + 1
    ensures Positions(s, r')
    ensures forall x :: x in r' <==> x == i || x in r
  {
    if r == [] then [i]
    else if Before(s, i, r[0]) then [i] + r
    else
      var rest := Insert(s, i, r[1..]);
      assert forall x :: x in r <==> x == r[0] || x in r[1..];
      [r[0]] + rest
  }

  /** The positions `0 .. m-1` of `s`, sorted under `Before`. */
  function RankPrefix(s: seq<real>, m: nat): (r: seq<nat>)
    requires m <= |s|
    ensures |r| == m
    ensures Positions(s, r)
    ensures forall x: nat :: x in r <==> x < m
  {
    if m == 0 then [] else Insert(s, m - 1, RankPrefix(s, m - 1))
  }

  /**
   * The mapped array of line 100, after the stable descending sort of line
   * 101: every position exactly once (its order is `RankingIsStableDescendingSort`).
   */
  function Ranking(s: seq<real>): (r: seq<nat>)
    ensures |r| == |s|
    ensures forall x: nat :: x in r <==> x < |s|
  {
    RankPrefix(s, |s|)
  }

  /**
   * `.sort((a, b) => b.prob - a.prob).slice(0, k)`: min(k, |s|) positions of
   * `s` (`TopKProperties` states their order and that they are the best ones).
   */
  function TopK(s: seq<real>, k: nat): (r: seq<nat>)
    ensures |r| == if k < |s| then k else |s|
    ensures Positions(s, r)
  {
    var r := Ranking(s);
    if k < |r| then r[..k] else r
  }

  /** Of two distinct positions exactly one comes first. */
  lemma BeforeStrictTotal(s: seq<real>, i: nat, j: nat)
    requires i < |s| && j < |s|
    ensures Before(s, i, j) ==> !Before(s, j, i)
    ensures i != j ==> Before(s, i, j) || Before(s, j, i)
  {
  }

  lemma BeforeTransitive(s: seq<real>, i: nat, j: nat, k: nat)
    requires i < |s| && j < |s| && k < |s|
    requires Before(s, i, j) && Before(s, j, k)
    ensures Before(s, i, k)
  {
  }

  /** Inserting a new position into a sorted list keeps it sorted. */
  lemma {:induction false} InsertSorted(s: seq<real>, i: nat, r: seq<nat>)
    requires i < |s| && SortedBy(s, r) && i !in r
    ensures SortedBy(s, Insert(s, i, r))
  {
    if r == [] {
    } else if Before(s, i, r[0]) {
      var r' := [i] + r;
      forall a, b | 0 <= a < b < |r'| ensures Before(s, r'[a], r'[b]) {
        if a == 0 && b > 1 {
          BeforeTransitive(s, i, r[0], r[b - 1]);
        }
      }
    } else {
      SortedTail(s, r);
      InsertSorted(s, i, r[1..]);
      var rest := Insert(s, i, r[1..]);
      var r' := [r[0]] + rest;
      assert Before(s, r[0], i);
      forall a, b | 0 <= a < b < |r'| ensures Before(s, r'[a], r'[b]) {
        if a == 0 {
          var x := r'[b];
          assert x == rest[b - 1];
          assert x in rest;
          if x != i {
            assert x in r[1..];
          }
        } else {
          assert r'[a] == rest[a - 1] && r'[b] == rest[b - 1];
        }
      }
    }
  }

  lemma {:induction false} RankPrefixSorted(s: seq<real>, m: nat)
    requires m <= |s|
    ensures SortedBy(s, RankPrefix(s, m))
  {
    if m > 0 {
      RankPrefixSorted(s, m - 1);
      InsertSorted(s, m - 1, RankPrefix(s, m - 1));
    }
  }

  /**
   * The ranking lists every position of `s` exactly once, in descending order
   * of value, equal values in ascending order of position.
   */
  lemma RankingIsStableDescendingSort(s: seq<real>)
    ensures |Ranking(s)| == |s|
    ensures forall x: nat :: x in Ranking(s) <==> x < |s|
    ensures SortedBy(s, Ranking(s))
  {
    RankPrefixSorted(s, |s|);
  }

  /** The tail of a sorted list is sorted, and its head comes before every later entry. */
  lemma SortedTail(s: seq<real>, p: seq<nat>)
    requires SortedBy(s, p) && p != []
    ensures SortedBy(s, p[1..])
    ensures forall x :: x in p <==> x == p[0] || x in p[1..]
    ensures forall x :: x in p[1..] ==> x < |s| && Before(s, p[0], x)
  {
    forall i, j | 0 <= i < j < |p[1..]| ensures Before(s, p[1..][i], p[1..][j]) {
      assert p[1..][i] == p[i + 1] && p[1..][j] == p[j + 1];
    }
    forall x | x in p[1..] ensures x < |s| && Before(s, p[0], x) {
      var k :| 0 <= k < |p[1..]| && p[1..][k] == x;
      assert p[k + 1] == x;
    }
  }

  /** The head of a sorted list comes before every other entry of it. */
  lemma HeadFirst(s: seq<real>, p: seq<nat>, x: nat)
    requires SortedBy(s, p) && x in p
    ensures p[0] < |s| && x < |s|
    ensures x == p[0] || Before(s, p[0], x)
  {
    SortedTail(s, p);
  }

  /**
   * A list sorted under `Before` is fixed by its set of entries, so every
   * stable descending sort of the mapped array yields `Ranking(s)`, whatever
   * sorting algorithm the JavaScript engine uses.
   */
  lemma {:induction false} SortedUnique(s: seq<real>, p: seq<nat>, q: seq<nat>)
    requires SortedBy(s, p) && SortedBy(s, q)
    requires forall x :: x in p <==> x in q
    ensures p == q
  {
    assert p != [] ==> p[0] in q;
    assert q != [] ==> q[0] in p;
    if p != [] && q != [] {
      HeadFirst(s, p, q[0]);
      HeadFirst(s, q, p[0]);
      assert p[0] == q[0];
      SortedTail(s, p);
      SortedTail(s, q);
      assert forall x :: x in p[1..] <==> x in q[1..];
      SortedUnique(s, p[1..], q[1..]);
      assert p == [p[0]] + p[1..];
      assert q == [q[0]] + q[1..];
    }
  }

  /**
   * A top-k candidate list holds min(k, |s|) distinct positions of `s`, in
   * non-increasing order of value with ties in ascending position order, and
   * every listed value is at least every unlisted one (a tie with an unlisted
   * position is won by the lower position).
   */
  lemma TopKProperties(s: seq<real>, k: nat)
    ensures |TopK(s, k)| == if k < |s| then k else |s|
    ensures Positions(s, TopK(s, k))
    ensures forall a, b :: 0 <= a < b < |TopK(s, k)| ==> TopK(s, k)[a] != TopK(s, k)[b]
    ensures forall a, b :: 0 <= a < b < |TopK(s, k)| ==>
      s[TopK(s, k)[a]] >= s[TopK(s, k)[b]] &&
      (s[TopK(s, k)[a]] == s[TopK(s, k)[b]] ==> TopK(s, k)[a] < TopK(s, k)[b])
    ensures forall a, j :: 0 <= a < |TopK(s, k)| && 0 <= j < |s| && j !in TopK(s, k) ==>
      s[TopK(s, k)[a]] >= s[j] && (s[TopK(s, k)[a]] == s[j] ==> TopK(s, k)[a] < j)
  {
    RankingIsStableDescendingSort(s);
    var r := Ranking(s);
    var t := TopK(s, k);
    assert forall a :: 0 <= a < |t| ==> t[a] == r[a];
    forall a, b | 0 <= a < b < |t| ensures t[a] != t[b] {
      assert Before(s, r[a], r[b]);
    }
    forall a, j | 0 <= a < |t| && 0 <= j < |s| && j !in t
      ensures s[t[a]] >= s[j] && (s[t[a]] == s[j] ==> t[a] < j)
    {
      assert j in r;
      var c :| 0 <= c < |r| && r[c] == j;
      if c < |t| {
        assert false;
      }
      assert Before(s, r[a], r[c]);
    }
  }

  /**
   * `q` orders its positions exactly as `p` does. Softmax is strictly
   * increasing within one vector, so a logit vector and its probabilities
   * stand in this relation (in exact arithmetic).
   */
  predicate SameOrder(p: seq<real>, q: seq<real>)
  {
    |p| == |q| &&
    forall i, j :: 0 <= i < |p| && 0 <= j < |p| ==> (p[i] <= p[j] <==> q[i] <= q[j])
  }

  /** The argmax depends only on how the values compare. */
  lemma ArgmaxFirstSameOrder(p: seq<real>, q: seq<real>)
    requires SameOrder(p, q)
    ensures ArgmaxFirst(p) == ArgmaxFirst(q)
  {
  }

  /** The ranking depends only on how the values compare. */
  lemma RankingSameOrder(p: seq<real>, q: seq<real>)
    requires SameOrder(p, q)
    ensures Ranking(p) == Ranking(q)
  {
    RankingIsStableDescendingSort(p);
    RankingIsStableDescendingSort(q);
    var r := Ranking(p);
    forall a, b | 0 <= a < b < |r| ensures Before(q, r[a], r[b]) {
      assert Before(p, r[a], r[b]);
    }
    SortedUnique(q, r, Ranking(q));
  }
}
