/** The repertoire index: a map from a position to the one move the repertoire
    plays there, built by walking the move tree of every chapter of the opening
    file, and the play-time lookup into it. */
module Repertoire {
  import opened Results

  /** A node of a chapter's move tree: the position `board` at this node, the
      `move` that led to it (never read at a chapter's root) and the
      continuations `variations`, main line first. */
  datatype GameNode<P, M> = GameNode(board: P, move: M, variations: seq<GameNode<P, M>>)

  /** Raised when a visited node defines more than one continuation. */
  datatype BuildError<P> = MultipleMoves(board: P)

  /** A node the walk would stop at with an error. */
  predicate Branching<P, M>(n: GameNode<P, M>) {
    |n.variations| > 1
  }

  /** A node that prescribes exactly one move, and so contributes an index entry. */
  predicate Prescribes<P, M>(n: GameNode<P, M>) {
    |n.variations| == 1
  }

  // ---------------------------------------------------------------------------
  // Sizes, used to show the stack walk terminates

  function Size<P, M>(n: GameNode<P, M>): nat
    decreases n
  {
    1 + ForestSize(n.variations)
  }

  function ForestSize<P, M>(s: seq<GameNode<P, M>>): nat
    decreases s
  {
    if |s| == 0 then 0 else ForestSize(s[..|s| - 1]) + Size(s[|s| - 1])
  }

  lemma {:induction false} ForestSizeAppend<P, M>(a: seq<GameNode<P, M>>, b: seq<GameNode<P, M>>)
    ensures ForestSize(a + b) == ForestSize(a) + ForestSize(b)
    decreases |b|
  {
    if |b| == 0 {
      assert a + b == a;
    } else {
      var b' := b[..|b| - 1];
      assert (a + b)[..|a + b| - 1] == a + b';
      assert (a + b)[|a + b| - 1] == b[|b| - 1];
      ForestSizeAppend(a, b');
    }
  }

  // ---------------------------------------------------------------------------
  // The walk as the source performs it

  /** The worklist loop over one chapter: pop the last node of `stack`; a node
      with several continuations is an error, one with none is skipped, and one
      with a single continuation writes its position and that move into `index`
      (overwriting any earlier entry) and pushes the continuation's own
      continuations, so that only every other ply is indexed. */
  function Walk<P(==), M>(stack: seq<GameNode<P, M>>, index: map<P, M>): Result<map<P, M>, BuildError<P>>
    decreases ForestSize(stack)
  {
    if |stack| == 0 then Ok(index)
    else
      var node := stack[|stack| - 1];
      var rest := stack[..|stack| - 1];
      assert ForestSize(stack) == ForestSize(rest) + Size(node);
      if |node.variations| > 1 then Err(MultipleMoves(node.board))
      else if |node.variations| == 0 then Walk(rest, index)
      else
        var next := node.variations[0];
        assert node.variations[..0] == [];
        assert ForestSize(node.variations) == Size(next);
        ForestSizeAppend(rest, next.variations);
        Walk(rest + next.variations, index[node.board := next.move])
  }

  /** The stack a chapter's walk starts from: the root itself for White, the
      root's continuations for Black. */
  function InitialStack<P, M>(game: GameNode<P, M>, isBlack: bool): seq<GameNode<P, M>> {
    if isBlack then game.variations else [game]
  }

  /** All chapters in file order, into one index; the first error aborts. */
  function BuildFrom<P(==), M>(games: seq<GameNode<P, M>>, isBlack: bool, index: map<P, M>): Result<map<P, M>, BuildError<P>>
    decreases |games|
  {
    if |games| == 0 then Ok(index)
    else
      match Walk(InitialStack(games[0], isBlack), index)
      case Err(e) => Err(e)
      case Ok(index') => BuildFrom(games[1..], isBlack, index')
  }

  /** The repertoire index of an opening file given as its chapters. */
  function Build<P(==), M>(games: seq<GameNode<P, M>>, isBlack: bool): Result<map<P, M>, BuildError<P>> {
    BuildFrom(games, isBlack, map[])
  }

  // ---------------------------------------------------------------------------
  // Reference definition: which nodes are visited, in which order

  /** The nodes visited from `n`: `n` itself, then (if it prescribes a single
      move) everything visited from that move's continuations. */
  function VisitOrder<P, M>(n: GameNode<P, M>): seq<GameNode<P, M>>
    decreases n
  {
    [n] + (if Prescribes(n) then ForestVisitOrder(n.variations[0].variations) else [])
  }

  /** The nodes visited from a stack; the last entry of the stack goes first. */
  function ForestVisitOrder<P, M>(s: seq<GameNode<P, M>>): seq<GameNode<P, M>>
    decreases s
  {
    if |s| == 0 then [] else VisitOrder(s[|s| - 1]) + ForestVisitOrder(s[..|s| - 1])
  }

  /** The nodes visited over all chapters, chapter by chapter. */
  function ChaptersVisitOrder<P, M>(games: seq<GameNode<P, M>>, isBlack: bool): seq<GameNode<P, M>>
    decreases |games|
  {
    if |games| == 0 then []
    else ForestVisitOrder(InitialStack(games[0], isBlack)) + ChaptersVisitOrder(games[1..], isBlack)
  }

  /** The map obtained from `index` by writing, in visit order, the entry of
      every visited node that prescribes a single move. */
  function IndexOf<P(==), M>(index: map<P, M>, order: seq<GameNode<P, M>>): map<P, M>
    decreases |order|
  {
    if |order| == 0 then index
    else
      var earlier := IndexOf(index, order[..|order| - 1]);
      var n := order[|order| - 1];
      if Prescribes(n) then earlier[n.board := n.variations[0].move] else earlier
  }

  /** Some node of `order` branches. */
  predicate HasBranching<P, M>(order: seq<GameNode<P, M>>) {
    exists i :: 0 <= i < |order| && Branching(order[i])
  }

  /** `i` is the first position in `order` holding a branching node. */
  predicate FirstBranching<P, M>(order: seq<GameNode<P, M>>, i: int) {
    && 0 <= i < |order|
    && Branching(order[i])
    && forall j :: 0 <= j < i ==> !Branching(order[j])
  }

  // ---------------------------------------------------------------------------
  // Lemmas

  lemma {:induction false} ForestVisitOrderAppend<P, M>(a: seq<GameNode<P, M>>, b: seq<GameNode<P, M>>)
    ensures ForestVisitOrder(a + b) == ForestVisitOrder(b) + ForestVisitOrder(a)
    decreases |b|
  {
    if |b| == 0 {
      assert a + b == a;
    } else {
      var b' := b[..|b| - 1];
      assert (a + b)[..|a + b| - 1] == a + b';
      assert (a + b)[|a + b| - 1] == b[|b| - 1];
      ForestVisitOrderAppend(a, b');
    }
  }

  /** Writing a first entry and then the rest is the same as starting from an
      index that already holds that entry. */
  lemma {:induction false} IndexOfCons<P, M>(index: map<P, M>, n: GameNode<P, M>, rest: seq<GameNode<P, M>>)
    requires Prescribes(n)
    ensures IndexOf(index, [n] + rest) == IndexOf(index[n.board := n.variations[0].move], rest)
    decreases |rest|
  {
    if |rest| == 0 {
      assert ([n] + rest)[..0] == [];
    } else {
      var rest' := rest[..|rest| - 1];
      assert ([n] + rest)[..|[n] + rest| - 1] == [n] + rest';
      IndexOfCons(index, n, rest');
    }
  }

  lemma {:induction false} IndexOfSkip<P, M>(index: map<P, M>, n: GameNode<P, M>, rest: seq<GameNode<P, M>>)
    requires !Prescribes(n)
    ensures IndexOf(index, [n] + rest) == IndexOf(index, rest)
    decreases |rest|
  {
    if |rest| == 0 {
      assert ([n] + rest)[..0] == [];
    } else {
      var rest' := rest[..|rest| - 1];
      assert ([n] + rest)[..|[n] + rest| - 1] == [n] + rest';
      IndexOfSkip(index, n, rest');
    }
  }

  lemma {:induction false} IndexOfAppend<P, M>(index: map<P, M>, a: seq<GameNode<P, M>>, b: seq<GameNode<P, M>>)
    ensures IndexOf(index, a + b) == IndexOf(IndexOf(index, a), b)
    decreases |b|
  {
    if |b| == 0 {
      assert a + b == a;
    } else {
      var b' := b[..|b| - 1];
      assert (a + b)[..|a + b| - 1] == a + b';
      assert (a + b)[|a + b| - 1] == b[|b| - 1];
      IndexOfAppend(index, a, b');
    }
  }

  /** Putting a non-branching node in front of a visit order changes neither
      whether it branches nor (up to the shift) where it first does. */
  lemma ConsNonBranching<P, M>(node: GameNode<P, M>, tail: seq<GameNode<P, M>>)
    requires !Branching(node)
    ensures HasBranching([node] + tail) <==> HasBranching(tail)
    ensures forall i :: FirstBranching(tail, i) ==> FirstBranching([node] + tail, i + 1)
  {
    var order := [node] + tail;
    forall i | 0 <= i < |tail| ensures order[i + 1] == tail[i] { }
    if HasBranching(order) {
      var i :| 0 <= i < |order| && Branching(order[i]);
      assert i > 0 && Branching(tail[i - 1]);
    }
  }

  /** The stack walk agrees with the reference: it fails exactly when some
      visited node branches, naming the first such node in visit order, and
      otherwise writes the entries of the visited nodes in visit order. */
  lemma {:induction false} WalkMatchesVisitOrder<P, M>(stack: seq<GameNode<P, M>>, index: map<P, M>)
    ensures Walk(stack, index).Err? <==> HasBranching(ForestVisitOrder(stack))
    ensures Walk(stack, index).Err? ==>
              exists i :: FirstBranching(ForestVisitOrder(stack), i) &&
                          Walk(stack, index).error == MultipleMoves(ForestVisitOrder(stack)[i].board)
    ensures Walk(stack, index).Ok? ==> Walk(stack, index).value == IndexOf(index, ForestVisitOrder(stack))
    decreases ForestSize(stack), 1
  {
    if |stack| != 0 {
      var node := stack[|stack| - 1];
      var rest := stack[..|stack| - 1];
      var order := ForestVisitOrder(stack);
      assert order == VisitOrder(node) + ForestVisitOrder(rest);
      assert ForestSize(stack) == ForestSize(rest) + Size(node);
      if |node.variations| > 1 {
        assert VisitOrder(node) == [node];
        assert Walk(stack, index) == Err(MultipleMoves(node.board));
        assert order[0] == node;
        assert FirstBranching(order, 0);
      } else if |node.variations| == 0 {
        WalkSkip(stack, index);
      } else {
        WalkWrite(stack, index);
      }
    }
  }

  /** The step of the walk over a node without continuations. */
  lemma {:induction false} WalkSkip<P, M>(stack: seq<GameNode<P, M>>, index: map<P, M>)
    requires |stack| > 0 && |stack[|stack| - 1].variations| == 0
    ensures Walk(stack, index).Err? <==> HasBranching(ForestVisitOrder(stack))
    ensures Walk(stack, index).Err? ==>
              exists i :: FirstBranching(ForestVisitOrder(stack), i) &&
                          Walk(stack, index).error == MultipleMoves(ForestVisitOrder(stack)[i].board)
    ensures Walk(stack, index).Ok? ==> Walk(stack, index).value == IndexOf(index, ForestVisitOrder(stack))
    decreases ForestSize(stack), 0
  {
    var node := stack[|stack| - 1];
    var rest := stack[..|stack| - 1];
    assert ForestSize(stack) == ForestSize(rest) + Size(node);
    var tail := ForestVisitOrder(rest);
    assert VisitOrder(node) == [node];
    assert ForestVisitOrder(stack) == [node] + tail;
    assert Walk(stack, index) == Walk(rest, index);
    WalkMatchesVisitOrder(rest, index);
    ConsNonBranching(node, tail);
    if Walk(rest, index).Ok? {
      IndexOfSkip(index, node, tail);
    }
  }

  /** The step of the walk over a node with exactly one continuation. */
  lemma {:induction false} WalkWrite<P, M>(stack: seq<GameNode<P, M>>, index: map<P, M>)
    requires |stack| > 0 && |stack[|stack| - 1].variations| == 1
    ensures Walk(stack, index).Err? <==> HasBranching(ForestVisitOrder(stack))
    ensures Walk(stack, index).Err? ==>
              exists i :: FirstBranching(ForestVisitOrder(stack), i) &&
                          Walk(stack, index).error == MultipleMoves(ForestVisitOrder(stack)[i].board)
    ensures Walk(stack, index).Ok? ==> Walk(stack, index).value == IndexOf(index, ForestVisitOrder(stack))
    decreases ForestSize(stack), 0
  {
    var node := stack[|stack| - 1];
    var rest := stack[..|stack| - 1];
    var next := node.variations[0];
    var index' := index[node.board := next.move];
    assert ForestSize(stack) == ForestSize(rest) + Size(node);
    assert node.variations[..0] == [];
    assert ForestSize(node.variations) == Size(next);
    ForestSizeAppend(rest, next.variations);
    var stack' := rest + next.variations;
    assert Walk(stack, index) == Walk(stack', index');
    WalkMatchesVisitOrder(stack', index');
    ForestVisitOrderAppend(rest, next.variations);
    var tail := ForestVisitOrder(stack');
    assert ForestVisitOrder(stack) == [node] + tail;
    ConsNonBranching(node, tail);
    if Walk(stack', index').Ok? {
      IndexOfCons(index, node, tail);
    }
  }

  /** Building over all chapters agrees with the reference visit order: it
      fails exactly when a visited node of some chapter branches (reporting the
      first), and otherwise is the map of the visited entries, later writes
      overwriting earlier ones. */
  lemma {:induction false} BuildMatchesVisitOrder<P, M>(games: seq<GameNode<P, M>>, isBlack: bool, index: map<P, M>)
    ensures BuildFrom(games, isBlack, index).Err? <==> HasBranching(ChaptersVisitOrder(games, isBlack))
    ensures BuildFrom(games, isBlack, index).Err? ==>
              exists i :: FirstBranching(ChaptersVisitOrder(games, isBlack), i) &&
                          BuildFrom(games, isBlack, index).error == MultipleMoves(ChaptersVisitOrder(games, isBlack)[i].board)
    ensures BuildFrom(games, isBlack, index).Ok? ==>
              BuildFrom(games, isBlack, index).value == IndexOf(index, ChaptersVisitOrder(games, isBlack))
    decreases |games|
  {
    if |games| != 0 {
      var first := ForestVisitOrder(InitialStack(games[0], isBlack));
      var tail := ChaptersVisitOrder(games[1..], isBlack);
      var order := ChaptersVisitOrder(games, isBlack);
      assert order == first + tail;
      WalkMatchesVisitOrder(InitialStack(games[0], isBlack), index);
      match Walk(InitialStack(games[0], isBlack), index)
      case Err(e) =>
        var i :| FirstBranching(first, i) && e == MultipleMoves(first[i].board);
        assert order[i] == first[i];
        assert FirstBranching(order, i);
      case Ok(index') =>
        BuildMatchesVisitOrder(games[1..], isBlack, index');
        assert forall i :: 0 <= i < |first| ==> !Branching(first[i]);
        forall i | 0 <= i < |tail| ensures order[|first| + i] == tail[i] { }
        if BuildFrom(games[1..], isBlack, index').Err? {
          var i :| FirstBranching(tail, i) && BuildFrom(games[1..], isBlack, index').error == MultipleMoves(tail[i].board);
          assert FirstBranching(order, |first| + i);
        } else {
          IndexOfAppend(index, first, tail);
        }
    }
  }

  /** Some visited node at position `key` prescribes a single move. */
  ghost predicate WritesKey<P, M>(order: seq<GameNode<P, M>>, key: P) {
    exists i :: 0 <= i < |order| && Prescribes(order[i]) && order[i].board == key
  }

  /** `i` is the last visited node at position `key` that prescribes a single move. */
  ghost predicate LastWriteOf<P, M>(order: seq<GameNode<P, M>>, key: P, i: int) {
    && 0 <= i < |order| && Prescribes(order[i]) && order[i].board == key
    && forall j :: i < j < |order| ==> !(Prescribes(order[j]) && order[j].board == key)
  }

  /** A key is in the index exactly when it was there before or some visited
      node at that position prescribes a single move; nodes without
      continuations contribute nothing. */
  lemma {:induction false} IndexOfKeys<P, M>(index: map<P, M>, order: seq<GameNode<P, M>>, key: P)
    ensures key in IndexOf(index, order) <==> key in index || WritesKey(order, key)
    decreases |order|
  {
    if |order| != 0 {
      var init := order[..|order| - 1];
      IndexOfKeys(index, init, key);
      if WritesKey(init, key) {
        var i :| 0 <= i < |init| && Prescribes(init[i]) && init[i].board == key;
        assert order[i] == init[i];
      }
      forall i | 0 <= i < |init| ensures init[i] == order[i] { }
    }
  }

  /** A key's move is the one prescribed by the LAST visited node at that
      position: a later duplicate position silently overwrites an earlier one. */
  lemma {:induction false} IndexOfLastWrite<P, M>(index: map<P, M>, order: seq<GameNode<P, M>>, key: P, i: int)
    requires LastWriteOf(order, key, i)
    ensures key in IndexOf(index, order)
    ensures IndexOf(index, order)[key] == order[i].variations[0].move
    decreases |order|
  {
    var init := order[..|order| - 1];
    if i < |order| - 1 {
      assert LastWriteOf(init, key, i);
      IndexOfLastWrite(index, init, key, i);
    }
  }

  /** A key no visited node writes keeps the value it had before. */
  lemma {:induction false} IndexOfUntouched<P, M>(index: map<P, M>, order: seq<GameNode<P, M>>, key: P)
    requires !WritesKey(order, key)
    requires key in index
    ensures key in IndexOf(index, order) && IndexOf(index, order)[key] == index[key]
    decreases |order|
  {
    if |order| != 0 {
      var init := order[..|order| - 1];
      assert !WritesKey(init, key) by {
        forall i | 0 <= i < |init| ensures init[i] == order[i] { }
      }
      IndexOfUntouched(index, init, key);
    }
  }

  /** The whole index after a successful build, in terms of the visited nodes. */
  lemma BuildContents<P, M>(games: seq<GameNode<P, M>>, isBlack: bool, key: P)
    requires Build(games, isBlack).Ok?
    ensures var order := ChaptersVisitOrder(games, isBlack);
            var index := Build(games, isBlack).value;
            && (key in index <==> WritesKey(order, key))
            && forall i :: LastWriteOf(order, key, i) ==> index[key] == order[i].variations[0].move
  {
    var order := ChaptersVisitOrder(games, isBlack);
    BuildMatchesVisitOrder(games, isBlack, map[]);
    IndexOfKeys(map[], order, key);
    forall i | LastWriteOf(order, key, i)
      ensures IndexOf(map[], order)[key] == order[i].variations[0].move
    {
      IndexOfLastWrite(map[], order, key, i);
    }
  }

  // ---------------------------------------------------------------------------
  // Lookup at play time

  /** The repertoire move at `board`: on a hit the board advanced by that move
      and `true`, on a miss `false` and the board untouched. */
  function PlayRepertoireMove<P(==), M>(index: map<P, M>, board: P, apply: (P, M) -> P): (r: (bool, P))
    ensures r.0 <==> board in index
    ensures r.0 ==> r.1 == apply(board, index[board])
    ensures !r.0 ==> r.1 == board
  {
    if board in index then (true, apply(board, index[board])) else (false, board)
  }

  /** Lookup against a built index: a hit exactly at the positions of visited
      nodes prescribing a single move, and then the board advances by the move
      of the last such node. */
  lemma LookupAfterBuild<P, M>(games: seq<GameNode<P, M>>, isBlack: bool, board: P, apply: (P, M) -> P)
    requires Build(games, isBlack).Ok?
    ensures var order := ChaptersVisitOrder(games, isBlack);
            var r := PlayRepertoireMove(Build(games, isBlack).value, board, apply);
            && (r.0 <==> WritesKey(order, board))
            && (!r.0 ==> r.1 == board)
            && forall i :: LastWriteOf(order, board, i) ==> r.1 == apply(board, order[i].variations[0].move)
  {
    BuildContents(games, isBlack, board);
  }
}
