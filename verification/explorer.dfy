/** The move-frequency oracle's answer for one position, and the per-move
    shares derived from its game counts. The network request itself is not
    modelled: the oracle is a function from positions to responses. */
module Explorer {
  import opened Results

  /** Outcome counts of the games that continued with one move. */
  datatype MoveStats<M> = MoveStats(uci: M, white: nat, draws: nat, black: nat)

  /** Outcome counts of all games through a position, and the per-move counts. */
  datatype ExplorerResponse<M> = ExplorerResponse(white: nat, draws: nat, black: nat, moves: seq<MoveStats<M>>)

  /** A candidate continuation and its share of the position's games. */
  datatype Candidate<M> = Candidate(move: M, share: real)

  function TotalGames<M>(r: ExplorerResponse<M>): nat {
    r.white + r.draws + r.black
  }

  function MoveGames<M>(s: MoveStats<M>): nat {
    s.white + s.draws + s.black
  }

  /** Games over all listed moves. */
  function SumMoveGames<M>(moves: seq<MoveStats<M>>): nat
    decreases |moves|
  {
    if |moves| == 0 then 0 else SumMoveGames(moves[..|moves| - 1]) + MoveGames(moves[|moves| - 1])
  }

  /** A response whose listed moves account for no more games than the position. */
  predicate Consistent<M>(r: ExplorerResponse<M>) {
    SumMoveGames(r.moves) <= TotalGames(r)
  }

  /** The fraction of a position's games that continued with a move. */
  function Share(variationGames: nat, totalGames: nat): (r: real)
    requires totalGames > 0
    ensures r >= 0.0
    ensures r * totalGames as real == variationGames as real
    ensures r <= 1.0 <==> variationGames <= totalGames
  {
    var r := variationGames as real / totalGames as real;
    var t := totalGames as real;
    assert r * t == variationGames as real;
    assert (1.0 - r) * t == t - variationGames as real;
    ScaleSign(1.0 - r, t);
    r
  }

  /** Scaling by a positive factor keeps the sign. */
  lemma ScaleSign(x: real, t: real)
    requires t > 0.0
    ensures x >= 0.0 <==> x * t >= 0.0
  {
  }

  /** The candidates for `moves`, in response order, each with its share of `total`. */
  function Shares<M>(moves: seq<MoveStats<M>>, total: nat): (r: seq<Candidate<M>>)
    requires total > 0
    ensures |r| == |moves|
    ensures forall i :: 0 <= i < |moves| ==>
              r[i] == Candidate(moves[i].uci, Share(MoveGames(moves[i]), total))
    decreases |moves|
  {
    if |moves| == 0 then []
    else
      var last := moves[|moves| - 1];
      Shares(moves[..|moves| - 1], total) + [Candidate(last.uci, Share(MoveGames(last), total))]
  }

  /** The candidates of a response. The division is unguarded in the source, so
      a position with no recorded games fails, unless it lists no moves (then
      no division happens and the list is empty). */
  function Candidates<M>(r: ExplorerResponse<M>): (c: Option<seq<Candidate<M>>>)
    ensures c.None? <==> TotalGames(r) == 0 && |r.moves| > 0
    ensures c.Some? ==> |c.value| == |r.moves|
    ensures c.Some? ==> forall i :: 0 <= i < |r.moves| ==>
              c.value[i] == Candidate(r.moves[i].uci, Share(MoveGames(r.moves[i]), TotalGames(r)))
  {
    if |r.moves| == 0 then Some([])
    else if TotalGames(r) == 0 then None
    else Some(Shares(r.moves, TotalGames(r)))
  }

  /** Sum of the shares of a candidate list. */
  function SumShares<M>(c: seq<Candidate<M>>): real
    decreases |c|
  {
    if |c| == 0 then 0.0 else SumShares(c[..|c| - 1]) + c[|c| - 1].share
  }

  /** Shares that are non-negative and add up to at most one. */
  predicate SubStochastic<M>(c: seq<Candidate<M>>) {
    && (forall i :: 0 <= i < |c| ==> c[i].share >= 0.0)
    && SumShares(c) <= 1.0
  }

  /** Division by the same positive total distributes over a sum. */
  lemma DivideSum(x: real, y: real, t: real)
    requires t > 0.0
    ensures x / t + y / t == (x + y) / t
  {
  }

  /** The shares add up to the listed moves' games over the position's games. */
  lemma {:induction false} SharesSum<M>(moves: seq<MoveStats<M>>, total: nat)
    requires total > 0
    ensures SumShares(Shares(moves, total)) == SumMoveGames(moves) as real / total as real
    decreases |moves|
  {
    if |moves| != 0 {
      var init := moves[..|moves| - 1];
      var last := moves[|moves| - 1];
      var c := Shares(moves, total);
      assert c[..|c| - 1] == Shares(init, total);
      SharesSum(init, total);
      assert c[|c| - 1].share == MoveGames(last) as real / total as real;
      DivideSum(SumMoveGames(init) as real, MoveGames(last) as real, total as real);
    }
  }

  /** The candidates of a consistent response form a sub-distribution: each
      share is non-negative and together they add up to at most one. */
  lemma ConsistentIsSubStochastic<M>(r: ExplorerResponse<M>)
    requires Consistent(r)
    requires Candidates(r).Some?
    ensures SubStochastic(Candidates(r).value)
  {
    if |r.moves| > 0 {
      var total := TotalGames(r);
      var c := Shares(r.moves, total);
      assert Candidates(r).value == c;
      SharesSum(r.moves, total);
      var whole := Share(SumMoveGames(r.moves), total);
      assert SumShares(c) == whole;
      assert whole <= 1.0;
      forall i | 0 <= i < |c| ensures c[i].share >= 0.0 {
        assert c[i].share == Share(MoveGames(r.moves[i]), total);
      }
    }
  }
}
