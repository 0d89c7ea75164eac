/** The best-first search for the most probable positions the repertoire does
    not cover: repeatedly take the most probable frontier node; if the
    repertoire answers it, play the answer and add the oracle's continuations
    to the frontier, otherwise report the node, until enough nodes are
    reported or the frontier is empty. */
module Search {
  import opened Results
  import opened Explorer
  import opened Frontier
  import opened Repertoire

  /** The loop's state: the frontier and the uncovered nodes found so far. */
  datatype SearchState<P> = SearchState(frontier: seq<PositionNode<P>>, found: seq<PositionNode<P>>)

  /** The result of one iteration: the state to continue from, the final
      result (`exhausted` when the frontier ran empty rather than the count
      being reached), or the error that ends the search. */
  datatype StepResult<P> =
    | Next(state: SearchState<P>)
    | Done(found: seq<PositionNode<P>>, exhausted: bool)
    | Failed(error: SearchError<P>)

  /** The result of a whole search. `OutOfFuel` is the model's step bound
      running out; the source loop has no such bound. */
  datatype Outcome<P> =
    | Finished(found: seq<PositionNode<P>>, exhausted: bool)
    | BuildFailed(conflict: BuildError<P>)
    | Aborted(error: SearchError<P>)
    | OutOfFuel(state: SearchState<P>)

  /** One iteration of the main loop, with `count` the requested number of
      positions. */
  function Step<P(==), M>(s: SearchState<P>, count: int, index: map<P, M>,
                          apply: (P, M) -> P, explorer: P -> ExplorerResponse<M>): StepResult<P>
  {
    if |s.frontier| == 0 then Done(s.found, true)
    else
      match PopMostProbable(s.frontier)
      case Err(e) => Failed(e)
      case Ok(sel) =>
        var (hit, board) := PlayRepertoireMove(index, sel.node.board, apply);
        if hit then
          match Expand(PositionNode(board, sel.node.probability), apply, explorer)
          case Err(e) => Failed(e)
          case Ok(children) => Next(SearchState(sel.rest + children, s.found))
        else
          var found := s.found + [sel.node];
          if |found| == count then Done(found, false) else Next(SearchState(sel.rest, found))
  }

  /** At most `fuel` iterations of the loop from `s`, `step` being one iteration. */
  function Run<P>(s: SearchState<P>, step: SearchState<P> -> StepResult<P>, fuel: nat): Outcome<P>
    decreases fuel
  {
    if fuel == 0 then OutOfFuel(s)
    else
      match step(s)
      case Next(s') => Run(s', step, fuel - 1)
      case Done(found, exhausted) => Finished(found, exhausted)
      case Failed(e) => Aborted(e)
  }

  /** The first frontier: the start position with probability one for White;
      for Black, the oracle's continuations of the start position. */
  function InitialFrontier<P, M>(isBlack: bool, start: P, apply: (P, M) -> P,
                                 explorer: P -> ExplorerResponse<M>): Result<seq<PositionNode<P>>, SearchError<P>>
  {
    var root := PositionNode(start, 1.0);
    if isBlack then Expand(root, apply, explorer) else Ok([root])
  }

  /** Builds the repertoire index from the chapters, then searches from the
      initial frontier for `count` uncovered positions, within `fuel` iterations. */
  function MostCommonUnknownPositions<P(==), M>(games: seq<GameNode<P, M>>, isBlack: bool, count: int, start: P,
                                                apply: (P, M) -> P, explorer: P -> ExplorerResponse<M>, fuel: nat): Outcome<P>
  {
    match Build(games, isBlack)
    case Err(e) => BuildFailed(e)
    case Ok(index) =>
      match InitialFrontier(isBlack, start, apply, explorer)
      case Err(e) => Aborted(e)
      case Ok(frontier) => Run(SearchState(frontier, []), t => Step(t, count, index, apply, explorer), fuel)
  }

  // ---------------------------------------------------------------------------
  // Invariants

  /** Every reported node arose with positive probability and its position
      has no repertoire move. */
  ghost predicate Reported<P, M>(found: seq<PositionNode<P>>, index: map<P, M>) {
    forall i :: 0 <= i < |found| ==> found[i].board !in index && found[i].probability > 0.0
  }

  /** The loop's invariant: the reported nodes are uncovered and the count has
      not been reached (the loop returns as soon as it is). */
  ghost predicate Running<P, M>(s: SearchState<P>, count: int, index: map<P, M>) {
    && Reported(s.found, index)
    && (count >= 1 ==> |s.found| < count)
  }

  /** An iteration from `s` with result `r` keeps the loop invariant; it
      stops with the results unchanged when the frontier ran empty and with
      exactly `count` results when it returns early. */
  ghost predicate KeepsRunning<P, M>(s: SearchState<P>, r: StepResult<P>, count: int, index: map<P, M>) {
    && (r.Next? ==> Running(r.state, count, index) && s.found <= r.state.found)
    && (r.Done? ==> Reported(r.found, index) && s.found <= r.found)
    && (r.Done? && r.exhausted ==> r.found == s.found && (count >= 1 ==> |r.found| < count))
    && (r.Done? && !r.exhausted ==> |r.found| == count)
  }

  /** All probabilities in the state are non-negative. */
  predicate NonNegative<P>(s: SearchState<P>) {
    AllNonNegative(s.frontier) && AllNonNegative(s.found)
  }

  lemma AllNonNegativeAppend<P>(a: seq<PositionNode<P>>, b: seq<PositionNode<P>>)
    requires AllNonNegative(a) && AllNonNegative(b)
    ensures AllNonNegative(a + b)
  {
  }

  /** The probability carried by the frontier and the reported nodes together. */
  function Mass<P>(s: SearchState<P>): real {
    SumProb(s.frontier) + SumProb(s.found)
  }

  /** An iteration from `s` with result `r` keeps probabilities non-negative
      and does not increase the mass. */
  ghost predicate KeepsMass<P>(s: SearchState<P>, r: StepResult<P>) {
    && (r.Next? ==> NonNegative(r.state) && Mass(r.state) <= Mass(s))
    && (r.Done? ==> AllNonNegative(r.found) && SumProb(r.found) <= Mass(s))
  }

  /** The oracle's listed moves never account for more games than the position. */
  ghost predicate ConsistentOracle<P(!new), M>(explorer: P -> ExplorerResponse<M>) {
    forall p :: Consistent(explorer(p))
  }

  /** Reported nodes in order of non-increasing probability. */
  predicate Descending<P>(found: seq<PositionNode<P>>) {
    forall i, j :: 0 <= i < j < |found| ==> found[j].probability <= found[i].probability
  }

  /** The best-first invariant: the results are in non-increasing order and
      nothing left on the frontier is more probable than any of them. */
  predicate BestFirst<P>(s: SearchState<P>) {
    && Descending(s.found)
    && (forall i, k :: 0 <= i < |s.frontier| && 0 <= k < |s.found| ==>
          s.frontier[i].probability <= s.found[k].probability)
  }

  /** An iteration from `s` with result `r` keeps the best-first invariant. */
  predicate KeepsOrder<P>(s: SearchState<P>, r: StepResult<P>) {
    && (r.Next? ==> BestFirst(r.state))
    && (r.Done? ==> Descending(r.found))
  }

  // ---------------------------------------------------------------------------
  // One iteration

  /** An iteration takes the first most probable node (failing only when no
      node has a positive probability), then either reports it — when the
      repertoire has no move at its position — or replaces it by the
      continuations after the repertoire move. */
  lemma StepSelects<P, M>(s: SearchState<P>, count: int, index: map<P, M>,
                          apply: (P, M) -> P, explorer: P -> ExplorerResponse<M>)
    requires |s.frontier| > 0
    ensures !AnyPositive(s.frontier) <==> Step(s, count, index, apply, explorer) == Failed(NoPositiveProbability)
    ensures AnyPositive(s.frontier) ==>
              exists j :: IsFirstMax(s.frontier, j) && StepFrom(s, count, index, apply, explorer, j)
  {
  }

  /** What an iteration does once node `j` is selected. */
  ghost predicate StepFrom<P, M>(s: SearchState<P>, count: int, index: map<P, M>,
                                 apply: (P, M) -> P, explorer: P -> ExplorerResponse<M>, j: int)
    requires 0 <= j < |s.frontier|
  {
    var node := s.frontier[j];
    var rest := RemoveAt(s.frontier, j);
    var r := Step(s, count, index, apply, explorer);
    if node.board in index then
      var played := PositionNode(apply(node.board, index[node.board]), node.probability);
      match Expand(played, apply, explorer)
      case Err(e) => r == Failed(e)
      case Ok(children) => r == Next(SearchState(rest + children, s.found))
    else
      var found := s.found + [node];
      r == (if |found| == count then Done(found, false) else Next(SearchState(rest, found)))
  }

  /** An iteration keeps the loop invariant, and it stops exactly when the
      frontier is empty (with the results unchanged) or when the count is
      reached. */
  lemma StepSound<P, M>(s: SearchState<P>, count: int, index: map<P, M>,
                        apply: (P, M) -> P, explorer: P -> ExplorerResponse<M>)
    requires Running(s, count, index)
    ensures KeepsRunning(s, Step(s, count, index, apply, explorer), count, index)
    ensures Step(s, count, index, apply, explorer).Done? && Step(s, count, index, apply, explorer).exhausted <==>
              |s.frontier| == 0
  {
  }

  /** An iteration against a consistent oracle keeps probabilities
      non-negative and never increases the total mass of the frontier and the
      reported nodes. */
  lemma StepConservesMass<P(!new), M>(s: SearchState<P>, count: int, index: map<P, M>,
                                      apply: (P, M) -> P, explorer: P -> ExplorerResponse<M>)
    requires NonNegative(s)
    requires ConsistentOracle(explorer)
    ensures KeepsMass(s, Step(s, count, index, apply, explorer))
  {
    if |s.frontier| == 0 {
      assert SumProb(s.frontier) == 0.0;
    } else if AnyPositive(s.frontier) {
      StepSelects(s, count, index, apply, explorer);
      var j :| IsFirstMax(s.frontier, j) && StepFrom(s, count, index, apply, explorer, j);
      var node := s.frontier[j];
      SumProbRemoveAt(s.frontier, j);
      var rest := RemoveAt(s.frontier, j);
      assert AllNonNegative(rest) by {
        forall k | 0 <= k < |rest| ensures rest[k].probability >= 0.0 {
          if k < j { assert rest[k] == s.frontier[k]; } else { assert rest[k] == s.frontier[k + 1]; }
        }
      }
      SumProbNonNegative(rest);
      if node.board in index {
        var played := PositionNode(apply(node.board, index[node.board]), node.probability);
        if Expand(played, apply, explorer).Ok? {
          var children := Expand(played, apply, explorer).value;
          ExpandNonNegative(played, apply, explorer);
          ExpandConserves(played, apply, explorer);
          SumProbAppend(rest, children);
          AllNonNegativeAppend(rest, children);
        }
      } else {
        var found := s.found + [node];
        SumProbAppend(s.found, [node]);
        SumProbSingleton(node);
        AllNonNegativeAppend(s.found, [node]);
      }
    } else {
      StepSelects(s, count, index, apply, explorer);
    }
  }

  /** Replacing the first most probable node by children no more probable
      than it keeps the search best-first. */
  lemma ExpandKeepsBestFirst<P>(s: SearchState<P>, j: int, children: seq<PositionNode<P>>)
    requires BestFirst(s) && IsFirstMax(s.frontier, j)
    requires forall i :: 0 <= i < |children| ==> children[i].probability <= s.frontier[j].probability
    ensures BestFirst(SearchState(RemoveAt(s.frontier, j) + children, s.found))
  {
  }

  /** Reporting the first most probable node keeps the search best-first: it
      is no more probable than the earlier results and no less probable than
      anything left on the frontier. */
  lemma ReportKeepsBestFirst<P>(s: SearchState<P>, j: int)
    requires BestFirst(s) && IsFirstMax(s.frontier, j)
    ensures BestFirst(SearchState(RemoveAt(s.frontier, j), s.found + [s.frontier[j]]))
  {
  }

  /** Against a consistent oracle an iteration keeps the search best-first:
      the node it reports is no more probable than those reported before it,
      and nothing it leaves on the frontier is more probable than any result. */
  lemma StepKeepsBestFirst<P(!new), M>(s: SearchState<P>, count: int, index: map<P, M>,
                                       apply: (P, M) -> P, explorer: P -> ExplorerResponse<M>)
    requires BestFirst(s)
    requires ConsistentOracle(explorer)
    ensures KeepsOrder(s, Step(s, count, index, apply, explorer))
  {
    if |s.frontier| > 0 && AnyPositive(s.frontier) {
      StepSelects(s, count, index, apply, explorer);
      var j :| IsFirstMax(s.frontier, j) && StepFrom(s, count, index, apply, explorer, j);
      var node := s.frontier[j];
      if node.board in index {
        var played := PositionNode(apply(node.board, index[node.board]), node.probability);
        if Expand(played, apply, explorer).Ok? {
          ExpandChildBounded(played, apply, explorer);
          ExpandKeepsBestFirst(s, j, Expand(played, apply, explorer).value);
        }
      } else {
        ReportKeepsBestFirst(s, j);
      }
    }
  }

  // ---------------------------------------------------------------------------
  // The whole loop

  /** The loop's results, for any iteration that keeps the loop invariant:
      every reported node is uncovered and arose with positive probability,
      the results only grow, there are never more than `count` of them,
      exactly `count` when the loop returned early and fewer when it stopped
      because the frontier ran empty. */
  lemma {:induction false} RunSound<P, M>(s: SearchState<P>, step: SearchState<P> -> StepResult<P>, fuel: nat,
                                          count: int, index: map<P, M>)
    requires Running(s, count, index)
    requires forall t :: Running(t, count, index) ==> KeepsRunning(t, step(t), count, index)
    ensures Run(s, step, fuel).Finished? ==> Reported(Run(s, step, fuel).found, index) && s.found <= Run(s, step, fuel).found
    ensures Run(s, step, fuel).Finished? && count >= 1 ==> |Run(s, step, fuel).found| <= count
    ensures Run(s, step, fuel).Finished? && !Run(s, step, fuel).exhausted ==> |Run(s, step, fuel).found| == count
    ensures Run(s, step, fuel).Finished? && Run(s, step, fuel).exhausted && count >= 1 ==> |Run(s, step, fuel).found| < count
    ensures Run(s, step, fuel).OutOfFuel? ==>
              Running(Run(s, step, fuel).state, count, index) && s.found <= Run(s, step, fuel).state.found
    decreases fuel
  {
    if fuel > 0 {
      assert KeepsRunning(s, step(s), count, index);
      if step(s).Next? {
        RunSound(step(s).state, step, fuel - 1, count, index);
      }
    }
  }

  /** For any iteration that conserves mass, the loop never creates
      probability: the reported nodes together carry at most the mass of the
      state it started from. */
  lemma {:induction false} RunConservesMass<P>(s: SearchState<P>, step: SearchState<P> -> StepResult<P>, fuel: nat)
    requires NonNegative(s)
    requires forall t :: NonNegative(t) ==> KeepsMass(t, step(t))
    ensures Run(s, step, fuel).Finished? ==>
              AllNonNegative(Run(s, step, fuel).found) && SumProb(Run(s, step, fuel).found) <= Mass(s)
    ensures Run(s, step, fuel).OutOfFuel? ==>
              NonNegative(Run(s, step, fuel).state) && Mass(Run(s, step, fuel).state) <= Mass(s)
    decreases fuel
  {
    if fuel > 0 {
      assert KeepsMass(s, step(s));
      if step(s).Next? {
        RunConservesMass(step(s).state, step, fuel - 1);
      }
    }
  }

  /** For any iteration that keeps the search best-first, the loop reports
      nodes in order of non-increasing probability. */
  lemma {:induction false} RunSorted<P>(s: SearchState<P>, step: SearchState<P> -> StepResult<P>, fuel: nat)
    requires BestFirst(s)
    requires forall t :: BestFirst(t) ==> KeepsOrder(t, step(t))
    ensures Run(s, step, fuel).Finished? ==> Descending(Run(s, step, fuel).found)
    ensures Run(s, step, fuel).OutOfFuel? ==> BestFirst(Run(s, step, fuel).state)
    decreases fuel
  {
    if fuel > 0 {
      assert KeepsOrder(s, step(s));
      if step(s).Next? {
        RunSorted(step(s).state, step, fuel - 1);
      }
    }
  }

  /** The first frontier against a consistent oracle has no negative
      probability. */
  lemma InitialFrontierNonNegative<P, M>(isBlack: bool, start: P, apply: (P, M) -> P, explorer: P -> ExplorerResponse<M>)
    requires Consistent(explorer(start))
    requires InitialFrontier(isBlack, start, apply, explorer).Ok?
    ensures AllNonNegative(InitialFrontier(isBlack, start, apply, explorer).value)
  {
    if isBlack {
      ExpandNonNegative(PositionNode(start, 1.0), apply, explorer);
    }
  }

  /** The first frontier against a consistent oracle carries at most the
      whole probability. */
  lemma InitialFrontierBounded<P, M>(isBlack: bool, start: P, apply: (P, M) -> P, explorer: P -> ExplorerResponse<M>)
    requires Consistent(explorer(start))
    requires InitialFrontier(isBlack, start, apply, explorer).Ok?
    ensures SumProb(InitialFrontier(isBlack, start, apply, explorer).value) <= 1.0
  {
    var root := PositionNode(start, 1.0);
    if isBlack {
      ExpandConserves(root, apply, explorer);
    } else {
      SumProbSingleton(root);
    }
  }

  /** The loop itself never reports a build failure: that outcome belongs to
      the index construction before it. */
  lemma {:induction false} RunNotBuildFailed<P>(s: SearchState<P>, step: SearchState<P> -> StepResult<P>, fuel: nat)
    ensures !Run(s, step, fuel).BuildFailed?
    decreases fuel
  {
    if fuel > 0 && step(s).Next? {
      RunNotBuildFailed(step(s).state, step, fuel - 1);
    }
  }

  /** `StepSound` for every state at once, as `RunSound` needs it. */
  lemma StepKeepsRunning<P, M>(count: int, index: map<P, M>, apply: (P, M) -> P, explorer: P -> ExplorerResponse<M>)
    ensures forall t :: Running(t, count, index) ==> KeepsRunning(t, Step(t, count, index, apply, explorer), count, index)
  {
    forall t | Running(t, count, index) ensures KeepsRunning(t, Step(t, count, index, apply, explorer), count, index) {
      StepSound(t, count, index, apply, explorer);
    }
  }

  /** The search as a whole: it fails at build time exactly when the index
      cannot be built; a completed search reports only positions the index has
      no move for, each with positive probability, never more than `count` of
      them, and exactly `count` unless the frontier ran empty. */
  lemma MostCommonUnknownPositionsSound<P(!new), M>(games: seq<GameNode<P, M>>, isBlack: bool, count: int, start: P,
                                                    apply: (P, M) -> P, explorer: P -> ExplorerResponse<M>, fuel: nat)
    ensures var r := MostCommonUnknownPositions(games, isBlack, count, start, apply, explorer, fuel);
            && (r.BuildFailed? <==> Build(games, isBlack).Err?)
            && (r.Finished? ==> Build(games, isBlack).Ok? && Reported(r.found, Build(games, isBlack).value))
            && (r.Finished? && count >= 1 ==> |r.found| <= count)
            && (r.Finished? && !r.exhausted ==> |r.found| == count)
            && (r.Finished? && r.exhausted && count >= 1 ==> |r.found| < count)
  {
    if Build(games, isBlack).Ok? {
      var index := Build(games, isBlack).value;
      if InitialFrontier(isBlack, start, apply, explorer).Ok? {
        var s := SearchState(InitialFrontier(isBlack, start, apply, explorer).value, []);
        var step := t => Step(t, count, index, apply, explorer);
        StepKeepsRunning(count, index, apply, explorer);
        RunSound(s, step, fuel, count, index);
        RunNotBuildFailed(s, step, fuel);
      }
    }
  }

  /** Against a consistent oracle a completed search never creates
      probability: each reported probability is at most one and together they
      add up to at most one. */
  lemma MostCommonUnknownPositionsBounded<P(!new), M>(games: seq<GameNode<P, M>>, isBlack: bool, count: int, start: P,
                                                      apply: (P, M) -> P, explorer: P -> ExplorerResponse<M>, fuel: nat)
    requires ConsistentOracle(explorer)
    ensures var r := MostCommonUnknownPositions(games, isBlack, count, start, apply, explorer, fuel);
            r.Finished? ==> SumProb(r.found) <= 1.0 && forall i :: 0 <= i < |r.found| ==> r.found[i].probability <= 1.0
  {
    if Build(games, isBlack).Ok? {
      var index := Build(games, isBlack).value;
      if InitialFrontier(isBlack, start, apply, explorer).Ok? {
        var s := SearchState(InitialFrontier(isBlack, start, apply, explorer).value, []);
        var step := t => Step(t, count, index, apply, explorer);
        forall t | NonNegative(t) ensures KeepsMass(t, step(t)) {
          StepConservesMass(t, count, index, apply, explorer);
        }
        InitialFrontierNonNegative(isBlack, start, apply, explorer);
        InitialFrontierBounded(isBlack, start, apply, explorer);
        RunConservesMass(s, step, fuel);
        var r := Run(s, step, fuel);
        if r.Finished? {
          forall i | 0 <= i < |r.found| ensures r.found[i].probability <= 1.0 {
            ProbAtMostSum(r.found, i);
          }
        }
      }
    }
  }

  /** Against a consistent oracle a completed search surfaces the gaps most
      likely to be met first: the reported nodes come in order of
      non-increasing probability. */
  lemma MostCommonUnknownPositionsSorted<P(!new), M>(games: seq<GameNode<P, M>>, isBlack: bool, count: int, start: P,
                                                     apply: (P, M) -> P, explorer: P -> ExplorerResponse<M>, fuel: nat)
    requires ConsistentOracle(explorer)
    ensures var r := MostCommonUnknownPositions(games, isBlack, count, start, apply, explorer, fuel);
            r.Finished? ==> forall i, j :: 0 <= i < j < |r.found| ==> r.found[j].probability <= r.found[i].probability
  {
    if Build(games, isBlack).Ok? {
      var index := Build(games, isBlack).value;
      if InitialFrontier(isBlack, start, apply, explorer).Ok? {
        var s := SearchState(InitialFrontier(isBlack, start, apply, explorer).value, []);
        var step := t => Step(t, count, index, apply, explorer);
        forall t | BestFirst(t) ensures KeepsOrder(t, step(t)) {
          StepKeepsBestFirst(t, count, index, apply, explorer);
        }
        RunSorted(s, step, fuel);
      }
    }
  }
}
