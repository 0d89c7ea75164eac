/** The frontier of the search: nodes carrying a position and the probability
    that it arises, selection of the most probable node, and expansion of a
    node into its continuations. */
module Frontier {
  import opened Results
  import opened Explorer

  /** A position and its cumulative probability of arising in a game. */
  datatype PositionNode<P> = PositionNode(board: P, probability: real)

  /** The outcome of a selection: the chosen index, the node found there and
      the frontier left once it is removed. */
  datatype Selection<P> = Selection(index: nat, node: PositionNode<P>, rest: seq<PositionNode<P>>)

  /** Errors raised during the search: no node has a positive probability, or
      the oracle reported no games for a position with listed moves. */
  datatype SearchError<P> = NoPositiveProbability | NoGamesRecorded(board: P)

  /** Some node of `s` has a positive probability. */
  predicate AnyPositive<P>(s: seq<PositionNode<P>>) {
    exists i :: 0 <= i < |s| && s[i].probability > 0.0
  }

  /** Among the first `n` nodes of `s`, `j` holds a positive probability that
      is at least every other one and greater than every one before it. */
  predicate FirstMaxBefore<P>(s: seq<PositionNode<P>>, j: int, n: int) {
    && 0 <= j < n <= |s|
    && s[j].probability > 0.0
    && (forall i :: 0 <= i < n ==> s[i].probability <= s[j].probability)
    && (forall i :: 0 <= i < j ==> s[i].probability < s[j].probability)
  }

  /** `j` is the first node of greatest probability, and that probability is positive. */
  predicate IsFirstMax<P>(s: seq<PositionNode<P>>, j: int) {
    FirstMaxBefore(s, j, |s|)
  }

  /** The frontier with the node at `i` taken out. */
  function RemoveAt<T>(s: seq<T>, i: nat): seq<T>
    requires i < |s|
  {
    s[..i] + s[i + 1..]
  }

  // ---------------------------------------------------------------------------
  // Selection

  /** The scan over the frontier from index `idx`, with the best index and
      probability seen so far; the threshold starts at zero and only a
      strictly greater probability replaces the best. */
  function ScanMax<P>(s: seq<PositionNode<P>>, idx: nat, maxIdx: Option<nat>, maxProb: real): (r: Option<nat>)
    requires idx <= |s|
    requires maxIdx.None? ==> maxProb == 0.0 && forall i :: 0 <= i < idx ==> s[i].probability <= 0.0
    requires maxIdx.Some? ==> FirstMaxBefore(s, maxIdx.value, idx) && maxProb == s[maxIdx.value].probability
    ensures r.None? <==> !AnyPositive(s)
    ensures r.Some? ==> IsFirstMax(s, r.value)
    decreases |s| - idx
  {
    if idx == |s| then maxIdx
    else if s[idx].probability > maxProb then ScanMax(s, idx + 1, Some(idx), s[idx].probability)
    else ScanMax(s, idx + 1, maxIdx, maxProb)
  }

  /** The index of the first most probable node, or `None` when no node has a
      positive probability (in particular for an empty frontier). */
  function MostProbableIndex<P>(s: seq<PositionNode<P>>): (r: Option<nat>)
    ensures r.None? <==> !AnyPositive(s)
    ensures r.Some? ==> IsFirstMax(s, r.value)
  {
    ScanMax(s, 0, None, 0.0)
  }

  /** Removes and returns the first most probable node. */
  function PopMostProbable<P>(s: seq<PositionNode<P>>): (r: Result<Selection<P>, SearchError<P>>)
    ensures r.Err? <==> !AnyPositive(s)
    ensures r.Err? ==> r.error == NoPositiveProbability
    ensures r.Ok? ==> IsFirstMax(s, r.value.index) && r.value.node == s[r.value.index]
    ensures r.Ok? ==> |r.value.rest| == |s| - 1
    ensures r.Ok? ==> forall k :: 0 <= k < r.value.index ==> r.value.rest[k] == s[k]
    ensures r.Ok? ==> forall k :: r.value.index <= k < |r.value.rest| ==> r.value.rest[k] == s[k + 1]
    ensures r.Ok? ==> multiset(r.value.rest) + multiset{r.value.node} == multiset(s)
  {
    match MostProbableIndex(s)
    case None => Err(NoPositiveProbability)
    case Some(j) =>
      assert s == s[..j] + [s[j]] + s[j + 1..];
      Ok(Selection(j, s[j], RemoveAt(s, j)))
  }

  // ---------------------------------------------------------------------------
  // Probability mass

  function SumProb<P>(s: seq<PositionNode<P>>): real
    decreases |s|
  {
    if |s| == 0 then 0.0 else SumProb(s[..|s| - 1]) + s[|s| - 1].probability
  }

  predicate AllNonNegative<P>(s: seq<PositionNode<P>>) {
    forall i :: 0 <= i < |s| ==> s[i].probability >= 0.0
  }

  lemma {:induction false} SumProbAppend<P>(a: seq<PositionNode<P>>, b: seq<PositionNode<P>>)
    ensures SumProb(a + b) == SumProb(a) + SumProb(b)
    decreases |b|
  {
    if |b| == 0 {
      assert a + b == a;
    } else {
      var b' := b[..|b| - 1];
      assert (a + b)[..|a + b| - 1] == a + b';
      assert (a + b)[|a + b| - 1] == b[|b| - 1];
      SumProbAppend(a, b');
    }
  }

  lemma SumProbSingleton<P>(n: PositionNode<P>)
    ensures SumProb([n]) == n.probability
  {
    assert [n][..0] == [];
  }

  /** Removing a node removes exactly its probability from the mass. */
  lemma {:induction false} SumProbRemoveAt<P>(s: seq<PositionNode<P>>, i: nat)
    requires i < |s|
    ensures SumProb(RemoveAt(s, i)) == SumProb(s) - s[i].probability
    decreases |s|
  {
    var init := s[..|s| - 1];
    if i == |s| - 1 {
      assert RemoveAt(s, i) == init;
    } else {
      var shorter := RemoveAt(init, i);
      assert RemoveAt(s, i) == shorter + [s[|s| - 1]];
      assert (shorter + [s[|s| - 1]])[..|shorter|] == shorter;
      SumProbRemoveAt(init, i);
    }
  }

  /** A node of a non-negative frontier carries no more than the whole mass. */
  lemma {:induction false} ProbAtMostSum<P>(s: seq<PositionNode<P>>, i: nat)
    requires AllNonNegative(s)
    requires i < |s|
    ensures 0.0 <= s[i].probability <= SumProb(s)
    decreases |s|
  {
    if i < |s| - 1 {
      ProbAtMostSum(s[..|s| - 1], i);
    } else {
      assert SumProb(s[..|s| - 1]) >= 0.0 by { SumProbNonNegative(s[..|s| - 1]); }
    }
  }

  lemma {:induction false} SumProbNonNegative<P>(s: seq<PositionNode<P>>)
    requires AllNonNegative(s)
    ensures SumProb(s) >= 0.0
    decreases |s|
  {
    if |s| != 0 {
      SumProbNonNegative(s[..|s| - 1]);
    }
  }

  // ---------------------------------------------------------------------------
  // Expansion

  /** The child of `node` for one candidate: the candidate's move played, the
      parent's probability scaled by its share. */
  function Child<P, M>(node: PositionNode<P>, c: Candidate<M>, apply: (P, M) -> P): PositionNode<P> {
    PositionNode(apply(node.board, c.move), node.probability * c.share)
  }

  /** The children of `node`: one per candidate, in candidate order, reached by
      playing the candidate's move, with the parent's probability scaled by the
      candidate's share. */
  function ExpandWith<P, M>(node: PositionNode<P>, cands: seq<Candidate<M>>, apply: (P, M) -> P): (r: seq<PositionNode<P>>)
    ensures |r| == |cands|
    ensures forall i :: 0 <= i < |cands| ==> r[i] == Child(node, cands[i], apply)
    decreases |cands|
  {
    if |cands| == 0 then []
    else ExpandWith(node, cands[..|cands| - 1], apply) + [Child(node, cands[|cands| - 1], apply)]
  }

  /** The shares of `cands`, each scaled by `p`, added up. */
  function ScaledShares<M>(p: real, cands: seq<Candidate<M>>): real
    decreases |cands|
  {
    if |cands| == 0 then 0.0 else ScaledShares(p, cands[..|cands| - 1]) + p * cands[|cands| - 1].share
  }

  /** Scaling distributes over a sum. */
  lemma ScaleSum(p: real, a: real, b: real)
    ensures p * a + p * b == p * (a + b)
  {
  }

  lemma {:induction false} ScaledSharesFactor<M>(p: real, cands: seq<Candidate<M>>)
    ensures ScaledShares(p, cands) == p * SumShares(cands)
    decreases |cands|
  {
    if |cands| != 0 {
      var init := cands[..|cands| - 1];
      ScaledSharesFactor(p, init);
      ScaleSum(p, SumShares(init), cands[|cands| - 1].share);
    }
  }

  lemma {:induction false} ExpandWithScaled<P, M>(node: PositionNode<P>, cands: seq<Candidate<M>>, apply: (P, M) -> P)
    ensures SumProb(ExpandWith(node, cands, apply)) == ScaledShares(node.probability, cands)
    decreases |cands|
  {
    if |cands| != 0 {
      var init := cands[..|cands| - 1];
      var r := ExpandWith(node, cands, apply);
      assert r[..|r| - 1] == ExpandWith(node, init, apply);
      assert SumProb(r) == SumProb(r[..|r| - 1]) + r[|r| - 1].probability;
      ExpandWithScaled(node, init, apply);
    }
  }

  /** The children carry the parent's probability times the total share.
      The proof goes through `ExpandWithScaled` and `ScaledSharesFactor`, so
      Dafny's automatic induction on `cands` is switched off. */
  lemma {:induction false} ExpandWithMass<P, M>(node: PositionNode<P>, cands: seq<Candidate<M>>, apply: (P, M) -> P)
    ensures SumProb(ExpandWith(node, cands, apply)) == node.probability * SumShares(cands)
  {
    ExpandWithScaled(node, cands, apply);
    ScaledSharesFactor(node.probability, cands);
  }

  /** With non-negative shares, none exceeds their total. */
  lemma {:induction false} ShareAtMostSum<M>(cands: seq<Candidate<M>>, i: nat)
    requires forall k :: 0 <= k < |cands| ==> cands[k].share >= 0.0
    requires i < |cands|
    ensures cands[i].share <= SumShares(cands)
    decreases |cands|
  {
    if i < |cands| - 1 {
      ShareAtMostSum(cands[..|cands| - 1], i);
    } else {
      SharesNonNegative(cands[..|cands| - 1]);
    }
  }

  /** Non-negative shares have a non-negative sum. */
  lemma {:induction false} SharesNonNegative<M>(cands: seq<Candidate<M>>)
    requires forall k :: 0 <= k < |cands| ==> cands[k].share >= 0.0
    ensures SumShares(cands) >= 0.0
    decreases |cands|
  {
    if |cands| != 0 {
      SharesNonNegative(cands[..|cands| - 1]);
    }
  }

  /** Multiplying a non-negative probability by a factor in [0, 1] cannot increase it. */
  lemma ScaleDown(p: real, f: real, x: real)
    requires p >= 0.0 && 0.0 <= f <= 1.0
    requires x == p * f
    ensures 0.0 <= x <= p
  {
    assert p * (1.0 - f) >= 0.0;
  }

  /** A child of a non-negative node under a share in [0, 1] is no more
      probable than its parent. */
  lemma ChildBounded<P, M>(node: PositionNode<P>, c: Candidate<M>, apply: (P, M) -> P)
    requires node.probability >= 0.0 && 0.0 <= c.share <= 1.0
    ensures 0.0 <= Child(node, c, apply).probability <= node.probability
  {
    ScaleDown(node.probability, c.share, Child(node, c, apply).probability);
  }

  /** Expanding by a sub-distribution never creates probability: every child
      is at most as probable as its parent, and together they are at most as
      probable as the parent. */
  lemma ExpandWithBounded<P, M>(node: PositionNode<P>, cands: seq<Candidate<M>>, apply: (P, M) -> P)
    requires node.probability >= 0.0
    requires SubStochastic(cands)
    ensures AllNonNegative(ExpandWith(node, cands, apply))
    ensures forall i :: 0 <= i < |cands| ==> ExpandWith(node, cands, apply)[i].probability <= node.probability
    ensures SumProb(ExpandWith(node, cands, apply)) <= node.probability
  {
    forall i | 0 <= i < |cands|
      ensures 0.0 <= Child(node, cands[i], apply).probability <= node.probability
    {
      ShareAtMostSum(cands, i);
      ChildBounded(node, cands[i], apply);
    }
    ExpandWithMassBounded(node, cands, apply);
  }

  /** The children of a non-negative node under a sub-distribution are
      together at most as probable as the node. As in `ExpandWithMass`, the
      proof is by the named lemmas, not by automatic induction on `cands`. */
  lemma {:induction false} ExpandWithMassBounded<P, M>(node: PositionNode<P>, cands: seq<Candidate<M>>, apply: (P, M) -> P)
    requires node.probability >= 0.0
    requires SubStochastic(cands)
    ensures SumProb(ExpandWith(node, cands, apply)) <= node.probability
  {
    ExpandWithMass(node, cands, apply);
    SharesNonNegative(cands);
    ScaleDown(node.probability, SumShares(cands), SumProb(ExpandWith(node, cands, apply)));
  }

  /** The continuations of `node` as the oracle reports them; the oracle's
      division fails for a position with listed moves but no recorded games. */
  function Expand<P, M>(node: PositionNode<P>, apply: (P, M) -> P, explorer: P -> ExplorerResponse<M>): (r: Result<seq<PositionNode<P>>, SearchError<P>>)
    ensures r.Err? <==> TotalGames(explorer(node.board)) == 0 && |explorer(node.board).moves| > 0
    ensures r.Err? ==> r.error == NoGamesRecorded(node.board)
    ensures r.Ok? ==> |r.value| == |explorer(node.board).moves|
    ensures r.Ok? ==> forall i :: 0 <= i < |r.value| ==>
              r.value[i].board == apply(node.board, explorer(node.board).moves[i].uci)
    ensures r.Ok? ==> forall i :: 0 <= i < |r.value| ==>
              r.value[i].probability ==
                node.probability * Share(MoveGames(explorer(node.board).moves[i]), TotalGames(explorer(node.board)))
  {
    match Candidates(explorer(node.board))
    case None => Err(NoGamesRecorded(node.board))
    case Some(c) => Ok(ExpandWith(node, c, apply))
  }

  /** Expansion of a non-negative node against a consistent oracle response
      yields only non-negative children. */
  lemma ExpandNonNegative<P, M>(node: PositionNode<P>, apply: (P, M) -> P, explorer: P -> ExplorerResponse<M>)
    requires node.probability >= 0.0
    requires Consistent(explorer(node.board))
    requires Expand(node, apply, explorer).Ok?
    ensures AllNonNegative(Expand(node, apply, explorer).value)
  {
    var c := Candidates(explorer(node.board)).value;
    ConsistentIsSubStochastic(explorer(node.board));
    ExpandWithBounded(node, c, apply);
  }

  /** Against a consistent oracle response no child is more probable than
      its parent. */
  lemma ExpandChildBounded<P, M>(node: PositionNode<P>, apply: (P, M) -> P, explorer: P -> ExplorerResponse<M>)
    requires node.probability >= 0.0
    requires Consistent(explorer(node.board))
    requires Expand(node, apply, explorer).Ok?
    ensures forall i :: 0 <= i < |Expand(node, apply, explorer).value| ==>
              Expand(node, apply, explorer).value[i].probability <= node.probability
  {
    var c := Candidates(explorer(node.board)).value;
    ConsistentIsSubStochastic(explorer(node.board));
    ExpandWithBounded(node, c, apply);
  }

  /** Expansion against a consistent oracle response conserves probability:
      the children together are at most as probable as their parent. */
  lemma ExpandConserves<P, M>(node: PositionNode<P>, apply: (P, M) -> P, explorer: P -> ExplorerResponse<M>)
    requires node.probability >= 0.0
    requires Consistent(explorer(node.board))
    requires Expand(node, apply, explorer).Ok?
    ensures SumProb(Expand(node, apply, explorer).value) <= node.probability
  {
    var c := Candidates(explorer(node.board)).value;
    ConsistentIsSubStochastic(explorer(node.board));
    ExpandWithMassBounded(node, c, apply);
  }
}
