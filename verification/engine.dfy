/** The search of engine.rs: depth-limited negamax with alpha-beta pruning
    over whole turns, scored by `Evaluate` from the point of view of the
    player to move.

    The search is stated on the game tree of whole turns cut at the search
    depth. A leaf is a position at the horizon or after the end of the game,
    carrying its evaluation; an inner node carries its end-of-turn states in
    the order `MoveSequenceResults` lists them. Every node keeps the turn
    record of its state, which is what the search reports as its moves.
    Since generating the end-of-turn states has no effects, searching the
    tree examines the same positions in the same order as searching the
    states directly.
 */
module Engine {
  import opened Wrappers
  import opened Board
  import opened Game
  import opened Turns

  /** The i32 range a score or a window bound stays in, symmetric so that
      negating it never overflows. */
  type Score = x: int | -MaxScore <= x <= MaxScore

  function Max(a: Score, b: Score): Score {
    if a >= b then a else b
  }

  datatype Tree =
    | Leaf(record: seq<nat>, score: Score)
    | Node(record: seq<nat>, children: seq<Tree>)

  /** The children a search at `depth` may examine: consistent states whose
      turn counter leaves room for `depth - 1` further turns. */
  predicate Searchable(cs: seq<KalahaState>, depth: nat) {
    forall k :: 0 <= k < |cs| ==> Consistent(cs[k]) && cs[k].turnsPlayed + depth <= 256
  }

  lemma ChildrenSearchable(s: KalahaState, depth: nat)
    requires Consistent(s) && 0 < depth && s.turnsPlayed + depth <= 255
    ensures Searchable(MoveSequenceResults(s), depth)
  {
    var cs := MoveSequenceResults(s);
    forall k | 0 <= k < |cs|
      ensures Consistent(cs[k]) && cs[k].turnsPlayed + depth <= 256
    {
      assert EndOfTurn(s, cs[k]);
    }
  }

  /** The game tree of `s` cut at `depth` whole turns. */
  function GameTree(s: KalahaState, depth: nat): (t: Tree)
    requires Consistent(s) && s.turnsPlayed + depth <= 255
    ensures t.record == s.lastMoves
    ensures depth == 0 || s.gameState.GameOver? <==> t.Leaf?
    ensures t.Leaf? ==> t.score == Evaluate(s)
    ensures t.Node? ==>
              var cs := MoveSequenceResults(s);
              && |t.children| == |cs|
              && forall k :: 0 <= k < |cs| ==> t.children[k].record == cs[k].lastMoves
    decreases depth, 1
  {
    if depth == 0 || s.gameState.GameOver? then Leaf(s.lastMoves, Evaluate(s))
    else
      var cs := MoveSequenceResults(s);
      ChildrenSearchable(s, depth);
      Node(s.lastMoves, Grow(cs, depth))
  }

  /** The subtrees of the given end-of-turn states, one turn shallower. */
  function Grow(cs: seq<KalahaState>, depth: nat): (ts: seq<Tree>)
    requires 0 < depth && Searchable(cs, depth)
    ensures |ts| == |cs|
    ensures forall k :: 0 <= k < |cs| ==> ts[k].record == cs[k].lastMoves
    ensures forall k :: 0 <= k < |cs| ==> ts[k] == GameTree(cs[k], depth - 1)
    decreases depth, 0, |cs|
  {
    if |cs| == 0 then []
    else
      [GameTree(cs[0], depth - 1)] + Grow(cs[1..], depth)
  }

  /** Plain minimax in negamax form, without pruning: a leaf is worth its
      score, and an inner node the best negated value of its children, never
      below -i32::MAX. */
  function TreeValue(t: Tree): Score
    decreases t, 1
  {
    match t
    case Leaf(_, score) => score
    case Node(_, children) => BestValue(t, 0, -MaxScore)
  }

  /** `acc` combined by maximum with the negated values of the children of
      `t` from i on. */
  function BestValue(t: Tree, i: nat, acc: Score): (v: Score)
    requires t.Node? && i <= |t.children|
    ensures acc <= v
    decreases t, 0, |t.children| - i
  {
    if i == |t.children| then acc
    else BestValue(t, i + 1, Max(acc, -TreeValue(t.children[i])))
  }

  /** The minimax value of a node is at least the negated value of every
      child, and, when it has children, equals that of one of them. */
  lemma NodeValueIsBestChild(t: Tree)
    requires t.Node? && |t.children| > 0
    ensures forall k :: 0 <= k < |t.children| ==> -TreeValue(t.children[k]) <= TreeValue(t)
    ensures exists k :: 0 <= k < |t.children| && -TreeValue(t.children[k]) == TreeValue(t)
  {
    BestValueBounds(t, 0, -MaxScore);
    if TreeValue(t) == -MaxScore {
      assert -TreeValue(t.children[0]) == TreeValue(t);
    }
  }

  lemma {:induction false} BestValueBounds(t: Tree, i: nat, acc: Score)
    requires t.Node? && i <= |t.children|
    ensures forall k :: i <= k < |t.children| ==> -TreeValue(t.children[k]) <= BestValue(t, i, acc)
    ensures BestValue(t, i, acc) == acc ||
            exists k :: i <= k < |t.children| && -TreeValue(t.children[k]) == BestValue(t, i, acc)
    decreases |t.children| - i
  {
    if i < |t.children| {
      BestValueBounds(t, i + 1, Max(acc, -TreeValue(t.children[i])));
    }
  }

  /** The turn records of the given trees, in order. */
  function Records(ts: seq<Tree>): (rs: seq<seq<nat>>)
    ensures |rs| == |ts| && forall k :: 0 <= k < |ts| ==> rs[k] == ts[k].record
  {
    seq(|ts|, k requires 0 <= k < |ts| => ts[k].record)
  }

  /** What a search returns: the score, the turn record of the chosen
      continuation, and the caller's alpha as the search left it. */
  datatype Search = Search(score: Score, moves: Option<seq<nat>>, alpha: Score)

  /** Which child a node keeps when a child's score ties the best so far.
      `LastMaximal` is engine.rs as written (`eval >= best_eval`): a child
      scoring at least the best so far replaces it. `FirstMaximal` replaces
      only on a strictly better score, or when nothing has been kept yet. */
  datatype TieRule = LastMaximal | FirstMaximal

  /** Whether a child scoring `eval` replaces the kept `best` and `moves`. */
  predicate Replaces(rule: TieRule, eval: int, best: int, moves: Option<seq<nat>>) {
    match rule
    case LastMaximal => eval >= best
    case FirstMaximal => eval > best || (moves.None? && eval == best)
  }

  /** Negamax with alpha-beta pruning on a game tree. A leaf returns its
      score and no moves; an inner node examines its children in order, each
      with the negated and swapped window, raising alpha, keeping the best
      score and, by the tie rule, the child it came from, and stopping once
      alpha reaches beta. */
  function TreeSearch(rule: TieRule, t: Tree, alpha: Score, beta: Score): (r: Search)
    ensures t.Leaf? ==> r == Search(t.score, None, alpha)
    ensures t.Node? && |t.children| > 0 ==>
              && r.moves.Some? && r.moves.value in Records(t.children)
              && r.alpha == Max(alpha, r.score)
    decreases t, 1
  {
    match t
    case Leaf(_, score) => Search(score, None, alpha)
    case Node(_, children) => Scan(rule, t, 0, alpha, beta, -MaxScore, None)
  }

  /** The loop over the children of `t` from child i on, with the current
      alpha, the best score so far and its moves. */
  function Scan(rule: TieRule, t: Tree, i: nat, alpha: Score, beta: Score, best: Score, moves: Option<seq<nat>>): (r: Search)
    requires t.Node? && i <= |t.children|
    ensures best <= r.score
    ensures r.moves == moves || (r.moves.Some? && r.moves.value in Records(t.children))
    ensures moves.Some? ==> r.moves.Some?
    ensures i < |t.children| && best == -MaxScore ==> r.moves.Some?
    ensures best <= alpha ==> r.alpha == Max(alpha, r.score)
    decreases t, 0, |t.children| - i, 1
  {
    if i == |t.children| then Search(best, moves, alpha)
    else
      var e := Examine(rule, t, i, alpha, beta, best, moves);
      if e.alpha >= beta then e
      else Scan(rule, t, i + 1, e.alpha, beta, e.score, e.moves)
  }

  /** One pass of the loop body: child i is searched with the negated and
      swapped window; its negated score raises alpha and the best score, and
      the tie rule decides whether its record replaces the kept moves. */
  function Examine(rule: TieRule, t: Tree, i: nat, alpha: Score, beta: Score, best: Score, moves: Option<seq<nat>>): (e: Search)
    requires t.Node? && i < |t.children|
    ensures best <= e.score && alpha <= e.alpha
    ensures e.moves == moves || e.moves == Some(t.children[i].record)
    ensures moves.Some? || best == -MaxScore ==> e.moves.Some?
    ensures best <= alpha ==> e.alpha == Max(alpha, e.score)
    decreases t, 0, |t.children| - i, 0
  {
    var child := t.children[i];
    var eval := -TreeSearch(rule, child, -beta, -alpha).score;
    var moves' := if Replaces(rule, eval, best, moves) then Some(child.record) else moves;
    Search(Max(best, eval), moves', Max(alpha, eval))
  }

  /** One examined child: the alpha it was searched under and its negated
      score. */
  datatype Probe = Probe(alpha: Score, eval: Score) {
    /** Alpha after the child. */
    function Raised(): Score {
      Max(alpha, eval)
    }
  }

  /** The children the loop examines from child i on, in order, up to and
      including the child that cuts off. Which children are examined, and
      under which alpha, does not depend on the best score or moves kept. */
  function Examined(rule: TieRule, t: Tree, i: nat, alpha: Score, beta: Score): (ps: seq<Probe>)
    requires t.Node? && i <= |t.children|
    ensures |ps| <= |t.children| - i
    ensures i < |t.children| ==> |ps| > 0
    decreases |t.children| - i
  {
    if i == |t.children| then []
    else
      var p := Probe(alpha, -TreeSearch(rule, t.children[i], -beta, -alpha).score);
      if p.Raised() >= beta then [p]
      else [p] + Examined(rule, t, i + 1, p.Raised(), beta)
  }

  /** Each probe, the k-th from child i on, is the negated score of that
      child searched with the window negated and swapped around the probe's
      alpha. */
  predicate SearchedUnder(rule: TieRule, t: Tree, i: nat, beta: Score, ps: seq<Probe>)
    requires t.Node? && i + |ps| <= |t.children|
  {
    forall k :: 0 <= k < |ps| ==> ps[k].eval == -TreeSearch(rule, t.children[i + k], -beta, -ps[k].alpha).score
  }

  /** The first probe is under `alpha`, each next one under the alpha its
      predecessor raised, and all but the first under an alpha below beta. */
  predicate AlphaChain(alpha: Score, beta: Score, ps: seq<Probe>) {
    && (|ps| > 0 ==> ps[0].alpha == alpha)
    && (forall k :: 0 < k < |ps| ==> ps[k].alpha < beta)
    && (forall k :: 0 <= k < |ps| - 1 ==> ps[k + 1].alpha == ps[k].Raised())
  }

  /** `score` is the maximum of `best` and the negated scores of the probes. */
  predicate IsMaxOf(score: Score, best: Score, ps: seq<Probe>) {
    && best <= score
    && (forall k :: 0 <= k < |ps| ==> ps[k].eval <= score)
    && (score == best || exists k :: 0 <= k < |ps| && ps[k].eval == score)
  }

  /** Each examined child is searched with the window negated and swapped
      around the alpha it was examined under. */
  lemma {:induction false} ExaminedSearches(rule: TieRule, t: Tree, i: nat, alpha: Score, beta: Score)
    requires t.Node? && i <= |t.children|
    ensures SearchedUnder(rule, t, i, beta, Examined(rule, t, i, alpha, beta))
    decreases |t.children| - i
  {
    if i < |t.children| {
      ExaminedStep(rule, t, i, alpha, beta);
      var p := Probe(alpha, -TreeSearch(rule, t.children[i], -beta, -alpha).score);
      var rest := if p.Raised() >= beta then [] else Examined(rule, t, i + 1, p.Raised(), beta);
      if p.Raised() < beta {
        ExaminedSearches(rule, t, i + 1, p.Raised(), beta);
      }
      ConsSearched(rule, t, i, beta, p, rest, Examined(rule, t, i, alpha, beta));
    }
  }

  lemma ConsSearched(rule: TieRule, t: Tree, i: nat, beta: Score, p: Probe, rest: seq<Probe>, ps: seq<Probe>)
    requires ps == [p] + rest
    requires t.Node? && i + 1 + |rest| <= |t.children|
    requires p.eval == -TreeSearch(rule, t.children[i], -beta, -p.alpha).score
    requires SearchedUnder(rule, t, i + 1, beta, rest)
    ensures SearchedUnder(rule, t, i, beta, ps)
  {
    forall k | 0 < k < |ps|
      ensures ps[k].eval == -TreeSearch(rule, t.children[i + k], -beta, -ps[k].alpha).score
    {
      assert ps[k] == rest[k - 1];
      assert i + 1 + (k - 1) == i + k;
    }
  }

  /** The loop starts from the caller's alpha, raises it with every child,
      goes on while it stays below beta, and stops before the last child only
      once it has reached beta. */
  lemma ExaminedUntilCutoff(rule: TieRule, t: Tree, i: nat, alpha: Score, beta: Score)
    requires t.Node? && i <= |t.children|
    ensures var ps := Examined(rule, t, i, alpha, beta);
            && AlphaChain(alpha, beta, ps)
            && (|ps| < |t.children| - i ==> ps[|ps| - 1].Raised() >= beta)
  {
    ExaminedAlphaChain(rule, t, i, alpha, beta);
    ExaminedStopsAtCutoff(rule, t, i, alpha, beta);
  }

  lemma {:induction false} ExaminedAlphaChain(rule: TieRule, t: Tree, i: nat, alpha: Score, beta: Score)
    requires t.Node? && i <= |t.children|
    ensures AlphaChain(alpha, beta, Examined(rule, t, i, alpha, beta))
    decreases |t.children| - i
  {
    if i < |t.children| {
      ExaminedHead(rule, t, i, alpha, beta);
      var ps := Examined(rule, t, i, alpha, beta);
      var p := ps[0];
      if p.Raised() < beta {
        ExaminedAlphaChain(rule, t, i + 1, p.Raised(), beta);
        ConsChain(alpha, beta, p, Examined(rule, t, i + 1, p.Raised(), beta), ps);
      } else {
        ConsChain(alpha, beta, p, [], ps);
      }
    }
  }

  lemma {:induction false} ExaminedStopsAtCutoff(rule: TieRule, t: Tree, i: nat, alpha: Score, beta: Score)
    requires t.Node? && i <= |t.children|
    ensures var ps := Examined(rule, t, i, alpha, beta);
            |ps| < |t.children| - i ==> ps[|ps| - 1].Raised() >= beta
    decreases |t.children| - i
  {
    if i < |t.children| {
      var p := Examined(rule, t, i, alpha, beta)[0];
      if p.Raised() < beta {
        ExaminedStopsAtCutoff(rule, t, i + 1, p.Raised(), beta);
        CutoffLater(rule, t, i, alpha, beta);
      } else {
        CutoffHere(rule, t, i, alpha, beta);
      }
    }
  }

  /** A first child lifting alpha to beta is the only one examined. */
  lemma CutoffHere(rule: TieRule, t: Tree, i: nat, alpha: Score, beta: Score)
    requires t.Node? && i < |t.children|
    requires Examined(rule, t, i, alpha, beta)[0].Raised() >= beta
    ensures Examined(rule, t, i, alpha, beta) == [Examined(rule, t, i, alpha, beta)[0]]
  {
    ExaminedHead(rule, t, i, alpha, beta);
  }

  /** Below beta after the first child, the loop stops where the rest of it
      stops. */
  lemma CutoffLater(rule: TieRule, t: Tree, i: nat, alpha: Score, beta: Score)
    requires t.Node? && i < |t.children|
    requires var a := Examined(rule, t, i, alpha, beta)[0].Raised();
             var rest := Examined(rule, t, i + 1, a, beta);
             && a < beta
             && (|rest| < |t.children| - (i + 1) ==> rest[|rest| - 1].Raised() >= beta)
    ensures var ps := Examined(rule, t, i, alpha, beta);
            |ps| < |t.children| - i ==> ps[|ps| - 1].Raised() >= beta
  {
    ExaminedHead(rule, t, i, alpha, beta);
    var ps := Examined(rule, t, i, alpha, beta);
    var rest := Examined(rule, t, i + 1, ps[0].Raised(), beta);
    ConsCutoff(beta, ps[0], rest, |t.children| - i, ps);
  }

  /** The cutoff carried from the rest of the loop to the loop with one more
      child in front, out of `remaining`. */
  lemma ConsCutoff(beta: Score, p: Probe, rest: seq<Probe>, remaining: nat, ps: seq<Probe>)
    requires ps == [p] + rest
    requires 0 < remaining
    requires p.Raised() < beta && 1 < remaining ==> |rest| > 0
    requires |rest| < remaining - 1 && |rest| > 0 ==> rest[|rest| - 1].Raised() >= beta
    ensures |ps| < remaining ==> ps[|ps| - 1].Raised() >= beta
  {
    if |rest| > 0 {
      assert ps[|ps| - 1] == rest[|rest| - 1];
    }
  }

  /** The first examined child is searched under the given alpha, and the
      list goes on from the next child unless that child cut off. */
  lemma ExaminedHead(rule: TieRule, t: Tree, i: nat, alpha: Score, beta: Score)
    requires t.Node? && i < |t.children|
    ensures var ps := Examined(rule, t, i, alpha, beta);
            && |ps| > 0 && ps[0].alpha == alpha
            && ps == [ps[0]] + (if ps[0].Raised() >= beta then [] else Examined(rule, t, i + 1, ps[0].Raised(), beta))
  {
    ExaminedStep(rule, t, i, alpha, beta);
  }

  /** One step of the list of examined children. */
  lemma ExaminedStep(rule: TieRule, t: Tree, i: nat, alpha: Score, beta: Score)
    requires t.Node? && i < |t.children|
    ensures var p := Probe(alpha, -TreeSearch(rule, t.children[i], -beta, -alpha).score);
            Examined(rule, t, i, alpha, beta)
              == [p] + (if p.Raised() >= beta then [] else Examined(rule, t, i + 1, p.Raised(), beta))
  {
    var p := Probe(alpha, -TreeSearch(rule, t.children[i], -beta, -alpha).score);
    assert p.Raised() >= beta ==> [p] + [] == [p];
  }

  /** The chain of alphas carried from the rest of the loop to the loop with
      one more child in front. */
  lemma ConsChain(alpha: Score, beta: Score, p: Probe, rest: seq<Probe>, ps: seq<Probe>)
    requires ps == [p] + rest
    requires p.alpha == alpha
    requires |rest| > 0 ==> p.Raised() < beta
    requires AlphaChain(p.Raised(), beta, rest)
    ensures AlphaChain(alpha, beta, ps)
  {
    forall k | 0 < k < |ps|
      ensures ps[k] == rest[k - 1]
    {}
  }

  /** The loop returns the maximum of the best score it started from and the
      negated scores of the children it examined. */
  lemma {:induction false} ScanIsMaxOfExamined(rule: TieRule, t: Tree, i: nat, alpha: Score, beta: Score, best: Score, moves: Option<seq<nat>>)
    requires t.Node? && i <= |t.children|
    ensures IsMaxOf(Scan(rule, t, i, alpha, beta, best, moves).score, best, Examined(rule, t, i, alpha, beta))
    decreases |t.children| - i
  {
    if i < |t.children| {
      ScanStep(rule, t, i, alpha, beta, best, moves);
      var e := Examine(rule, t, i, alpha, beta, best, moves);
      var p := Examined(rule, t, i, alpha, beta)[0];
      if e.alpha < beta {
        var r := Scan(rule, t, i + 1, e.alpha, beta, e.score, e.moves);
        var rest := Examined(rule, t, i + 1, e.alpha, beta);
        ScanIsMaxOfExamined(rule, t, i + 1, e.alpha, beta, e.score, e.moves);
        ConsMax(r.score, best, p, rest, Examined(rule, t, i, alpha, beta));
      } else {
        ConsMax(e.score, best, p, [], Examined(rule, t, i, alpha, beta));
      }
    }
  }

  /** One pass of the loop body, seen both by the loop and by the list of
      examined children. */
  lemma ScanStep(rule: TieRule, t: Tree, i: nat, alpha: Score, beta: Score, best: Score, moves: Option<seq<nat>>)
    requires t.Node? && i < |t.children|
    ensures var e := Examine(rule, t, i, alpha, beta, best, moves);
            var p := Examined(rule, t, i, alpha, beta)[0];
            && e.score == Max(best, p.eval) && e.alpha == p.Raised()
            && e.moves == (if Replaces(rule, p.eval, best, moves) then Some(t.children[i].record) else moves)
            && (e.alpha >= beta ==> Scan(rule, t, i, alpha, beta, best, moves) == e
                                    && Examined(rule, t, i, alpha, beta) == [p])
            && (e.alpha < beta ==> Scan(rule, t, i, alpha, beta, best, moves) == Scan(rule, t, i + 1, e.alpha, beta, e.score, e.moves)
                                   && Examined(rule, t, i, alpha, beta) == [p] + Examined(rule, t, i + 1, e.alpha, beta))
  {
    var e := Examine(rule, t, i, alpha, beta, best, moves);
    var p := Probe(alpha, -TreeSearch(rule, t.children[i], -beta, -alpha).score);
    assert e.score == Max(best, p.eval) && e.alpha == p.Raised();
  }

  /** The maximum, and the final alpha, carried from the rest of the loop
      to the loop with one more child in front. */
  lemma ConsMax(score: Score, best: Score, p: Probe, rest: seq<Probe>, ps: seq<Probe>)
    requires ps == [p] + rest
    requires IsMaxOf(score, Max(best, p.eval), rest)
    ensures IsMaxOf(score, best, ps)
  {
    forall k | 0 < k < |ps|
      ensures ps[k] == rest[k - 1]
    {}
    if score == Max(best, p.eval) {
      if score != best {
        assert ps[0].eval == score;
      }
    } else {
      ConsWitness(score, p, rest);
    }
  }

  lemma ConsWitness(score: Score, p: Probe, rest: seq<Probe>)
    requires exists k :: 0 <= k < |rest| && rest[k].eval == score
    ensures exists k :: 0 <= k < |[p] + rest| && ([p] + rest)[k].eval == score
  {
    var k :| 0 <= k < |rest| && rest[k].eval == score;
    assert ([p] + rest)[k + 1] == rest[k];
  }

  /** Probe j scores `score` and no later probe reaches it. */
  predicate LastAt(ps: seq<Probe>, j: nat, score: Score) {
    && j < |ps|
    && ps[j].eval == score
    && forall k :: j < k < |ps| ==> ps[k].eval < score
  }

  /** What engine.rs's `>=` keeps after the probes `ps` from child i on:
      either the incoming `best` and `moves`, every probe scoring below
      `best`, or the record of the probe j whose score is returned, when no
      later probe reaches that score. */
  predicate KeptByLastMaximal(t: Tree, i: nat, best: Score, moves: Option<seq<nat>>, ps: seq<Probe>, r: Search)
    requires t.Node? && i + |ps| <= |t.children|
  {
    || (r.moves == moves && r.score == best && forall k :: 0 <= k < |ps| ==> ps[k].eval < best)
    || exists j: nat :: j < |ps| && LastAt(ps, j, r.score) && r.moves == Some(t.children[i + j].record)
  }

  /** Under engine.rs's tie rule the loop keeps the record of the last
      examined child scoring the maximum, unless no child reaches the
      incoming best score. */
  lemma {:induction false} ScanKeepsLastMaximal(t: Tree, i: nat, alpha: Score, beta: Score, best: Score, moves: Option<seq<nat>>)
    requires t.Node? && i <= |t.children|
    ensures KeptByLastMaximal(t, i, best, moves, Examined(LastMaximal, t, i, alpha, beta), Scan(LastMaximal, t, i, alpha, beta, best, moves))
    decreases |t.children| - i
  {
    if i < |t.children| {
      ScanStep(LastMaximal, t, i, alpha, beta, best, moves);
      var e := Examine(LastMaximal, t, i, alpha, beta, best, moves);
      var ps := Examined(LastMaximal, t, i, alpha, beta);
      var r := Scan(LastMaximal, t, i, alpha, beta, best, moves);
      if e.alpha < beta {
        ScanKeepsLastMaximal(t, i + 1, e.alpha, beta, e.score, e.moves);
        ConsKept(t, i, best, moves, ps[0], Examined(LastMaximal, t, i + 1, e.alpha, beta), ps, e, r);
      } else {
        ConsKept(t, i, best, moves, ps[0], [], ps, e, r);
      }
    }
  }

  /** What is kept, carried from the rest of the loop to the loop with one
      more child in front, whose pass left `e`. */
  lemma ConsKept(t: Tree, i: nat, best: Score, moves: Option<seq<nat>>, p: Probe, rest: seq<Probe>, ps: seq<Probe>, e: Search, r: Search)
    requires ps == [p] + rest
    requires t.Node? && i + 1 + |rest| <= |t.children|
    requires e.score == Max(best, p.eval)
    requires e.moves == (if p.eval >= best then Some(t.children[i].record) else moves)
    requires KeptByLastMaximal(t, i + 1, e.score, e.moves, rest, r)
    ensures KeptByLastMaximal(t, i, best, moves, ps, r)
  {
    forall k | 0 < k < |ps|
      ensures ps[k] == rest[k - 1]
    {}
    if r.moves == e.moves && r.score == e.score && forall k :: 0 <= k < |rest| ==> rest[k].eval < e.score {
      if p.eval >= best {
        assert LastAt(ps, 0, r.score) && r.moves == Some(t.children[i + 0].record);
      }
    } else {
      var j: nat :| j < |rest| && LastAt(rest, j, r.score) && r.moves == Some(t.children[i + 1 + j].record);
      forall k | j + 1 < k < |ps|
        ensures ps[k].eval < r.score
      {
        assert ps[k] == rest[k - 1];
      }
      assert LastAt(ps, j + 1, r.score) && r.moves == Some(t.children[i + (j + 1)].record);
    }
  }

  /** At a node with children, engine.rs's search returns the record of the
      last examined child scoring the returned score. */
  lemma TreeSearchKeepsLastMaximal(t: Tree, alpha: Score, beta: Score)
    requires t.Node? && |t.children| > 0
    ensures var ps := Examined(LastMaximal, t, 0, alpha, beta);
            var r := TreeSearch(LastMaximal, t, alpha, beta);
            exists j: nat :: j < |ps| && LastAt(ps, j, r.score) && r.moves == Some(t.children[j].record)
  {
    ScanKeepsLastMaximal(t, 0, alpha, beta, -MaxScore, None);
    var ps := Examined(LastMaximal, t, 0, alpha, beta);
    var r := TreeSearch(LastMaximal, t, alpha, beta);
    assert r == Scan(LastMaximal, t, 0, alpha, beta, -MaxScore, None);
    var j: nat :| j < |ps| && LastAt(ps, j, r.score) && r.moves == Some(t.children[0 + j].record);
    assert r.moves == Some(t.children[j].record);
  }

  /** What a fail-soft search with window (alpha, beta) promises of its
      score r against the value v: a score inside the window is the value, a
      score at or below alpha bounds the value from above, and a score at or
      above beta bounds it from below. */
  predicate FailSoftBounds(alpha: int, beta: int, r: int, v: int) {
    && (r <= alpha ==> v <= r)
    && (r >= beta ==> r <= v)
    && (alpha < r < beta ==> v == r)
  }

  /** Alpha-beta is fail-soft. */
  lemma {:induction false} FailSoft(rule: TieRule, t: Tree, alpha: Score, beta: Score)
    requires alpha < beta
    ensures FailSoftBounds(alpha, beta, TreeSearch(rule, t, alpha, beta).score, TreeValue(t))
    decreases t, 1
  {
    if t.Node? {
      ScanFailSoft(rule, t, 0, alpha, alpha, beta, -MaxScore, None, -MaxScore);
    }
  }

  /** The loop invariant behind FailSoft. `acc` is the best value among the
      children examined so far; while no child has raised alpha above its
      original value `alpha0` it is bounded by the best score, and once one
      has, it equals the best score. */
  lemma {:induction false} ScanFailSoft(rule: TieRule, t: Tree, i: nat, alpha0: Score, alpha: Score,
                                        beta: Score, best: Score, moves: Option<seq<nat>>, acc: Score)
    requires t.Node? && i <= |t.children|
    requires Invariant(alpha0, alpha, beta, best, acc)
    ensures FailSoftBounds(alpha0, beta, Scan(rule, t, i, alpha, beta, best, moves).score, BestValue(t, i, acc))
    decreases t, 0, |t.children| - i, 1
  {
    if i < |t.children| {
      var e := Examine(rule, t, i, alpha, beta, best, moves);
      var acc' := Max(acc, -TreeValue(t.children[i]));
      ExamineFailSoft(rule, t, i, alpha0, alpha, beta, best, moves, acc);
      if e.alpha < beta {
        ScanFailSoft(rule, t, i + 1, alpha0, e.alpha, beta, e.score, e.moves, acc');
      }
    }
  }

  /** One pass of the loop body keeps the invariant, or cuts off with a
      score that the value of the node reaches. */
  lemma {:induction false} ExamineFailSoft(rule: TieRule, t: Tree, i: nat, alpha0: Score, alpha: Score,
                                           beta: Score, best: Score, moves: Option<seq<nat>>, acc: Score)
    requires t.Node? && i < |t.children|
    requires Invariant(alpha0, alpha, beta, best, acc)
    ensures var e := Examine(rule, t, i, alpha, beta, best, moves);
            var acc' := Max(acc, -TreeValue(t.children[i]));
            && BestValue(t, i, acc) == BestValue(t, i + 1, acc')
            && (e.alpha < beta ==> Invariant(alpha0, e.alpha, beta, e.score, acc'))
            && (e.alpha >= beta ==> beta <= e.score <= BestValue(t, i, acc))
    decreases t, 0, |t.children| - i, 0
  {
    var child := t.children[i];
    var eval := -TreeSearch(rule, child, -beta, -alpha).score;
    var v := -TreeValue(child);
    assert FailSoftBounds(-beta, -alpha, -eval, -v) by {
      FailSoft(rule, child, -beta, -alpha);
    }
    StepKeepsInvariant(alpha0, alpha, beta, best, acc, eval, v);
    var e := Examine(rule, t, i, alpha, beta, best, moves);
    assert e.score == Max(best, eval) && e.alpha == Max(alpha, eval);
  }

  /** The invariant of the loop over the children: alpha is the original
      alpha `alpha0` raised to the best score and still below beta; `acc`,
      the best value among the children examined, is bounded by the best
      score while that is at most `alpha0`, and equals it once it is above. */
  predicate Invariant(alpha0: Score, alpha: Score, beta: Score, best: Score, acc: Score) {
    && alpha == Max(alpha0, best) && alpha < beta
    && (best <= alpha0 ==> acc <= best)
    && (best > alpha0 ==> acc == best)
  }

  /** One child examined: its fail-soft score against its value keeps the
      invariant of ScanFailSoft, or cuts off with a score the value reaches. */
  lemma StepKeepsInvariant(alpha0: Score, alpha: Score, beta: Score, best: Score, acc: Score, eval: Score, v: Score)
    requires Invariant(alpha0, alpha, beta, best, acc)
    requires FailSoftBounds(-beta, -alpha, -eval, -v)
    ensures var alpha' := Max(alpha, eval);
            var best' := Max(best, eval);
            var acc' := Max(acc, v);
            && (alpha' < beta ==> Invariant(alpha0, alpha', beta, best', acc'))
            && (alpha' >= beta ==> best' == eval && beta <= eval <= acc')
  {}

  /** Under the full window and the first-maximal rule, the kept child is
      worth exactly the best score: `k` is the kept child so far. */
  lemma {:induction false} ScanFirstMaximal(t: Tree, i: nat, best: Score, moves: Option<seq<nat>>, k: nat)
    requires t.Node? && i <= |t.children| && best < MaxScore
    requires moves.None? ==> best == -MaxScore
    requires moves.Some? ==>
               k < |t.children| && moves.value == t.children[k].record && -TreeValue(t.children[k]) == best
    ensures var r := Scan(FirstMaximal, t, i, best, MaxScore, best, moves);
            r.moves.Some? ==>
              exists j :: 0 <= j < |t.children| && r.moves.value == t.children[j].record
                          && -TreeValue(t.children[j]) == r.score
    decreases |t.children| - i
  {
    if i == |t.children| {
      if moves.Some? {
        assert 0 <= k < |t.children|;
      }
    } else {
      var e := Examine(FirstMaximal, t, i, best, MaxScore, best, moves);
      var eval := -TreeSearch(FirstMaximal, t.children[i], -MaxScore, -best).score;
      var k' := if Replaces(FirstMaximal, eval, best, moves) then i else k;
      ExamineFirstMaximal(t, i, best, moves);
      if e.alpha < MaxScore {
        ScanFirstMaximal(t, i + 1, e.score, e.moves, k');
      } else {
        assert 0 <= k' < |t.children|;
      }
    }
  }

  /** One pass of the loop body under the full window and the first-maximal
      rule: the best score stays alpha, nothing is kept only while the best
      score is -i32::MAX, and a newly kept child is worth the new best score. */
  lemma ExamineFirstMaximal(t: Tree, i: nat, best: Score, moves: Option<seq<nat>>)
    requires t.Node? && i < |t.children| && best < MaxScore
    requires moves.None? ==> best == -MaxScore
    ensures var e := Examine(FirstMaximal, t, i, best, MaxScore, best, moves);
            var eval := -TreeSearch(FirstMaximal, t.children[i], -MaxScore, -best).score;
            && e.alpha == e.score
            && (e.moves.None? ==> e.score == -MaxScore)
            && (Replaces(FirstMaximal, eval, best, moves) ==>
                  e.moves == Some(t.children[i].record) && -TreeValue(t.children[i]) == e.score)
            && (!Replaces(FirstMaximal, eval, best, moves) ==> e.moves == moves && e.score == best)
  {
    var child := t.children[i];
    FailSoft(FirstMaximal, child, -MaxScore, -best);
  }

  /** Some child of `t` has record `m` and is worth the value of `t` to the
      player choosing it. */
  predicate Achieves(t: Tree, m: seq<nat>)
    requires t.Node?
  {
    exists j :: 0 <= j < |t.children| && m == t.children[j].record && -TreeValue(t.children[j]) == TreeValue(t)
  }

  /** The evidently intended choice: searched with the full window, a node
      with children reports a continuation whose value is the node's value. */
  lemma FirstMaximalAchievesValue(t: Tree)
    requires t.Node? && |t.children| > 0
    ensures var r := TreeSearch(FirstMaximal, t, -MaxScore, MaxScore);
            r.moves.Some? && Achieves(t, r.moves.value)
  {
    FailSoft(FirstMaximal, t, -MaxScore, MaxScore);
    ScanFirstMaximal(t, 0, -MaxScore, None, 0);
  }

  /** A node whose first child is a leaf worth -5 to its opponent and whose
      second child answers with a leaf worth 5 and a leaf worth -10. */
  function TieExample(): Tree {
    Node([], [Leaf([0], -5), Node([1], [Leaf([1, 0], 5), Leaf([1, 1], -10)])])
  }

  /** As written, the search keeps the second child: its pruned search ties
      the first child's score 5, but its value to the mover is -10. */
  lemma LastMaximalKeepsFailedLowChild()
    ensures var t := TieExample();
            var r := TreeSearch(LastMaximal, t, -MaxScore, MaxScore);
            && r.score == 5 == TreeValue(t)
            && r.moves == Some([1])
            && -TreeValue(t.children[1]) == -10
            && -TreeValue(t.children[0]) == 5
            && TreeSearch(FirstMaximal, t, -MaxScore, MaxScore).moves == Some([0])
  {
    var t := TieExample();
    var b := t.children[1];
    assert TreeSearch(LastMaximal, b, -MaxScore, -5) == Search(-5, Some([1, 0]), -5);
    assert TreeValue(b) == 10 by {
      assert BestValue(b, 2, 10) == 10;
      assert BestValue(b, 1, -5) == 10;
    }
    assert TreeValue(t) == 5 by {
      assert BestValue(t, 2, 5) == 5;
      assert BestValue(t, 1, 5) == 5;
    }
  }

  /** The search of a position: alpha-beta negamax on its game tree. */
  function Negamax(s: KalahaState, alpha: Score, beta: Score, depth: nat): (r: Search)
    requires Consistent(s) && s.turnsPlayed + depth <= 255
    ensures depth == 0 || s.gameState.GameOver? ==> r == Search(Evaluate(s), None, alpha)
    ensures depth > 0 && s.gameState == Playing ==>
              && r.alpha == Max(alpha, r.score)
              && exists k :: 0 <= k < |MoveSequenceResults(s)|
                               && r.moves == Some(MoveSequenceResults(s)[k].lastMoves)
  {
    TreeSearch(LastMaximal, GameTree(s, depth), alpha, beta)
  }

  /** The loop of a search at a position: it examines at least one and at
      most all end-of-turn states, in order, each one turn shallower
      (GameTreeChild) with the window negated and swapped around the alpha
      then in force; alpha starts at the given one and each child
      raises it; the loop stops early only right after the child that lifts
      alpha to beta; and the score is the largest negated score seen, or
      -MaxScore. */
  lemma NegamaxExamines(s: KalahaState, alpha: Score, beta: Score, depth: nat)
    requires Consistent(s) && s.turnsPlayed + depth <= 255
    requires 0 < depth && s.gameState == Playing
    ensures var cs := MoveSequenceResults(s);
            var ps := Examined(LastMaximal, GameTree(s, depth), 0, alpha, beta);
            && 0 < |ps| <= |cs|
            && Searchable(cs, depth)
            && SearchedUnder(LastMaximal, GameTree(s, depth), 0, beta, ps)
            && AlphaChain(alpha, beta, ps)
            && (|ps| < |cs| ==> ps[|ps| - 1].Raised() >= beta)
            && IsMaxOf(Negamax(s, alpha, beta, depth).score, -MaxScore, ps)
  {
    var t := GameTree(s, depth);
    var cs := MoveSequenceResults(s);
    var ps := Examined(LastMaximal, t, 0, alpha, beta);
    ChildrenSearchable(s, depth);
    ExaminedSearches(LastMaximal, t, 0, alpha, beta);
    ExaminedUntilCutoff(LastMaximal, t, 0, alpha, beta);
    ScanIsMaxOfExamined(LastMaximal, t, 0, alpha, beta, -MaxScore, None);
  }

  /** engine.rs's `>=` at a position: the search returns the turn record of
      the last examined end-of-turn state whose negated score is the score
      returned; every later examined state scores strictly less. */
  lemma NegamaxKeepsLastMaximal(s: KalahaState, alpha: Score, beta: Score, depth: nat)
    requires Consistent(s) && s.turnsPlayed + depth <= 255
    requires 0 < depth && s.gameState == Playing
    ensures var cs := MoveSequenceResults(s);
            var ps := Examined(LastMaximal, GameTree(s, depth), 0, alpha, beta);
            var r := Negamax(s, alpha, beta, depth);
            && |ps| <= |cs|
            && exists j: nat :: j < |ps| && LastAt(ps, j, r.score) && r.moves == Some(cs[j].lastMoves)
  {
    var t := GameTree(s, depth);
    var cs := MoveSequenceResults(s);
    var ps := Examined(LastMaximal, t, 0, alpha, beta);
    var r := Negamax(s, alpha, beta, depth);
    TreeSearchKeepsLastMaximal(t, alpha, beta);
    var j: nat :| j < |ps| && LastAt(ps, j, r.score) && r.moves == Some(t.children[j].record);
    assert t.children[j].record == cs[j].lastMoves;
  }

  /** The minimax value of a position searched to `depth` whole turns. */
  function Value(s: KalahaState, depth: nat): (v: Score)
    requires Consistent(s) && s.turnsPlayed + depth <= 255
    ensures depth == 0 || s.gameState.GameOver? ==> v == Evaluate(s)
  {
    TreeValue(GameTree(s, depth))
  }

  /** The fail-soft bounds for the search of a position. */
  lemma NegamaxFailSoft(s: KalahaState, alpha: Score, beta: Score, depth: nat)
    requires Consistent(s) && s.turnsPlayed + depth <= 255
    requires alpha < beta
    ensures var r := Negamax(s, alpha, beta, depth).score;
            var v := Value(s, depth);
            && (r <= alpha ==> v <= r)
            && (r >= beta ==> r <= v)
            && (alpha < r < beta ==> v == r)
  {
    FailSoft(LastMaximal, GameTree(s, depth), alpha, beta);
  }

  /** Searched with the full window, as the game loop does, negamax returns
      exactly the minimax value. */
  lemma FullWindowIsExact(s: KalahaState, depth: nat)
    requires Consistent(s) && s.turnsPlayed + depth <= 255
    ensures Negamax(s, -MaxScore, MaxScore, depth).score == Value(s, depth)
  {
    NegamaxFailSoft(s, -MaxScore, MaxScore, depth);
  }

  /** One turn deep with the full window, the search returns the best
      negated evaluation over all end-of-turn states. */
  lemma DepthOneIsBestEvaluation(s: KalahaState)
    requires Consistent(s) && s.turnsPlayed < 255 && s.gameState == Playing
    ensures var r := Negamax(s, -MaxScore, MaxScore, 1).score;
            var cs := MoveSequenceResults(s);
            && Searchable(cs, 1)
            && (forall k :: 0 <= k < |cs| ==> -Evaluate(cs[k]) <= r)
            && (exists k :: 0 <= k < |cs| && -Evaluate(cs[k]) == r)
  {
    var t := GameTree(s, 1);
    var cs := MoveSequenceResults(s);
    FullWindowIsExact(s, 1);
    ChildrenSearchable(s, 1);
    NodeValueIsBestChild(t);
    forall k | 0 <= k < |cs|
      ensures TreeValue(t.children[k]) == Evaluate(cs[k])
    {
      GameTreeChild(s, 1, k);
    }
  }

  /** The search with the first-maximal tie rule in place of engine.rs's
      `>=`. */
  function CorrectedNegamax(s: KalahaState, alpha: Score, beta: Score, depth: nat): (r: Search)
    requires Consistent(s) && s.turnsPlayed + depth <= 255
    ensures depth == 0 || s.gameState.GameOver? ==> r == Search(Evaluate(s), None, alpha)
    ensures depth > 0 && s.gameState == Playing ==> r.moves.Some? && r.alpha == Max(alpha, r.score)
  {
    TreeSearch(FirstMaximal, GameTree(s, depth), alpha, beta)
  }

  /** Some state among `cs` has turn record `m` and is worth `v` to the
      player who reached it, searched one turn shallower. */
  predicate AchievedBy(cs: seq<KalahaState>, depth: nat, m: seq<nat>, v: int)
    requires 0 < depth && Searchable(cs, depth)
  {
    exists k :: 0 <= k < |cs| && m == cs[k].lastMoves && -Value(cs[k], depth - 1) == v
  }

  /** Searched with the full window, the corrected search returns the value
      of the position and the turn of an end-of-turn state achieving it. */
  lemma CorrectedNegamaxChoosesBestTurn(s: KalahaState, depth: nat)
    requires Consistent(s) && s.turnsPlayed + depth <= 255
    requires 0 < depth && s.gameState == Playing
    ensures var r := CorrectedNegamax(s, -MaxScore, MaxScore, depth);
            var cs := MoveSequenceResults(s);
            && r.score == Value(s, depth)
            && r.moves.Some?
            && Searchable(cs, depth)
            && AchievedBy(cs, depth, r.moves.value, Value(s, depth))
  {
    var t := GameTree(s, depth);
    FailSoft(FirstMaximal, t, -MaxScore, MaxScore);
    FirstMaximalAchievesValue(t);
    ChildAchievesValue(s, depth, TreeSearch(FirstMaximal, t, -MaxScore, MaxScore).moves.value);
  }

  /** A record of a child of the game tree worth the tree's value is the
      record of an end-of-turn state achieving the value of the position. */
  lemma ChildAchievesValue(s: KalahaState, depth: nat, m: seq<nat>)
    requires Consistent(s) && s.turnsPlayed + depth <= 255
    requires 0 < depth && s.gameState == Playing
    requires Achieves(GameTree(s, depth), m)
    ensures Searchable(MoveSequenceResults(s), depth)
    ensures AchievedBy(MoveSequenceResults(s), depth, m, Value(s, depth))
  {
    var t := GameTree(s, depth);
    var cs := MoveSequenceResults(s);
    var j :| 0 <= j < |t.children| && m == t.children[j].record && -TreeValue(t.children[j]) == TreeValue(t);
    GameTreeChild(s, depth, j);
    assert m == cs[j].lastMoves;
  }

  /** Below a position in play, the game tree holds the trees of its
      end-of-turn states one turn shallower. */
  lemma GameTreeChild(s: KalahaState, depth: nat, j: nat)
    requires Consistent(s) && s.turnsPlayed + depth <= 255
    requires 0 < depth && s.gameState == Playing
    requires j < |MoveSequenceResults(s)|
    ensures Searchable(MoveSequenceResults(s), depth)
    ensures var c := MoveSequenceResults(s)[j];
            && GameTree(s, depth).children[j] == GameTree(c, depth - 1)
            && GameTree(s, depth).children[j].record == c.lastMoves
            && TreeValue(GameTree(s, depth).children[j]) == Value(c, depth - 1)
  {
    ChildrenSearchable(s, depth);
    var cs := MoveSequenceResults(s);
    assert GameTree(s, depth).children == Grow(cs, depth);
  }

  /** A player who cannot move is searched through the single snatched
      state, which keeps the turn record of the state searched: the search
      returns that stale record rather than no moves. */
  lemma StuckSearchReturnsOldRecord(s: KalahaState, alpha: Score, beta: Score, depth: nat)
    requires Consistent(s) && s.turnsPlayed + depth <= 255
    requires 0 < depth && s.gameState == Playing
    requires forall i: nat :: IsFieldOf(i, s.toPlay) ==> s.board[i].value == 0
    ensures Negamax(s, alpha, beta, depth).moves == Some(s.lastMoves)
  {
    StuckPlayerSnatches(s);
  }
}
