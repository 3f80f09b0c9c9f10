/** Whole turns (game.rs, `generate_move_sequence_results`): every way the
    player to move can play until the turn passes, chaining extra turns.
 */
module Turns {
  import opened Wrappers
  import opened Board
  import opened Sowing
  import opened Game

  /** Seeds outside the mover's stash. An extra turn strictly lowers it. */
  function Measure(s: KalahaState): (m: nat)
    requires ValidBoard(s.board)
    ensures m + StashSeeds(s.board, s.toPlay) == Seeds(s.board)
  {
    PitAtMostSeeds(s.board, StashIndex(s.toPlay));
    Seeds(s.board) - StashSeeds(s.board, s.toPlay)
  }

  /** A legal selection that earns an extra turn keeps the mover, and moves
      at least one seed into the mover's stash while the total stays put. */
  lemma ExtraTurnShrinksMeasure(s: KalahaState, pit: nat)
    requires ValidBoard(s.board) && s.turnsPlayed < 255
    requires IsLegalMove(s, pit)
    ensures var t := PlayMove(s, pit);
            !t.switchedTurn ==> t.toPlay == s.toPlay && Measure(t) < Measure(s)
  {
    var d := DistributeSeeds(s.board, s.toPlay, pit);
  }

  /** The turn before the selection, as recorded in `lastMoves` after it. */
  function TurnSoFar(s: KalahaState): seq<nat> {
    if s.switchedTurn then [] else s.lastMoves
  }

  /** What holds of every state generated from `s`: the turn has passed to
      the other player or the game is over, the turn counter grew by at most
      one, and a consistent state leads to consistent states. */
  predicate EndOfTurn(s: KalahaState, c: KalahaState) {
    && ValidBoard(c.board)
    && (c.switchedTurn || c.gameState.GameOver?)
    && (c.toPlay == s.toPlay.Opposite() || c.gameState.GameOver?)
    && c.turnsPlayed <= s.turnsPlayed + 1
    && (Consistent(s) ==> Consistent(c))
  }

  /** Every state in which the turn of the player to move has ended: each
      legal selection in ascending order, followed, after an extra turn, by
      every continuation. A player with no legal selection yields the single
      state in which the game ended by snatching. */
  function MoveSequenceResults(s: KalahaState): (r: seq<KalahaState>)
    requires ValidBoard(s.board) && s.turnsPlayed < 255
    ensures |r| > 0
    ensures forall c :: c in r ==> EndOfTurn(s, c)
    decreases Measure(s), 1
  {
    var moves := ValidMoves(s);
    if |moves| == 0 then [SnatchSeeds(s)] else ExpandMoves(s, moves)
  }

  /** The end-of-turn states reached through each of the given selections. */
  function ExpandMoves(s: KalahaState, moves: seq<nat>): (r: seq<KalahaState>)
    requires ValidBoard(s.board) && s.turnsPlayed < 255
    requires forall j {:trigger moves[j]} :: 0 <= j < |moves| ==> IsLegalMove(s, moves[j])
    ensures |r| >= |moves|
    ensures forall c :: c in r ==> EndOfTurn(s, c)
    decreases Measure(s), 0, |moves|
  {
    if |moves| == 0 then []
    else
      assert IsLegalMove(s, moves[0]);
      ResultsOf(s, moves[0]) + ExpandMoves(s, moves[1..])
  }

  /** The end-of-turn states reached through one legal selection: the state
      after it when the turn passes, and every continuation after an extra
      turn. */
  function ResultsOf(s: KalahaState, pit: nat): (r: seq<KalahaState>)
    requires ValidBoard(s.board) && s.turnsPlayed < 255
    requires IsLegalMove(s, pit)
    ensures |r| > 0
    ensures forall c :: c in r ==> EndOfTurn(s, c)
    decreases Measure(s), 0, 0
  {
    var t := PlayMove(s, pit);
    ExtraTurnShrinksMeasure(s, pit);
    if t.switchedTurn then [t] else MoveSequenceResults(t)
  }

  /** The states reached through one legal selection are the state after it
      when the turn passes, and otherwise every state of the extra turn. */
  lemma ResultsOfContains(s: KalahaState, pit: nat)
    requires ValidBoard(s.board) && s.turnsPlayed < 255
    requires IsLegalMove(s, pit)
    ensures var t := PlayMove(s, pit);
            && (t.switchedTurn ==> t in ResultsOf(s, pit))
            && (!t.switchedTurn ==> forall c :: c in MoveSequenceResults(t) ==> c in ResultsOf(s, pit))
  {
  }

  /** A whole turn as the player to move may play it: no selection when
      every field is empty, and otherwise legal selections that keep the turn
      until the last one passes it, or until the player is left without a
      legal selection. */
  predicate IsTurn(s: KalahaState, moves: seq<nat>)
    requires ValidBoard(s.board) && s.turnsPlayed < 255
    decreases |moves|
  {
    if |moves| == 0 then ValidMoves(s) == []
    else
      && IsLegalMove(s, moves[0])
      && var t := PlayMove(s, moves[0]);
         if t.switchedTurn then |moves| == 1 else IsTurn(t, moves[1..])
  }

  /** The state a whole turn ends in: after the selection that passes the
      turn, or after the snatch of a player left without a selection. */
  function PlayTurn(s: KalahaState, moves: seq<nat>): (r: KalahaState)
    requires ValidBoard(s.board) && s.turnsPlayed < 255
    requires IsTurn(s, moves)
    ensures EndOfTurn(s, r)
    decreases |moves|
  {
    if |moves| == 0 then SnatchSeeds(s)
    else
      var t := PlayMove(s, moves[0]);
      if t.switchedTurn then t else PlayTurn(t, moves[1..])
  }

  /** Every way of playing a whole turn is among the generated states. */
  lemma {:induction false} TurnIsGenerated(s: KalahaState, moves: seq<nat>)
    requires ValidBoard(s.board) && s.turnsPlayed < 255
    requires IsTurn(s, moves)
    ensures PlayTurn(s, moves) in MoveSequenceResults(s)
    decreases |moves|
  {
    if |moves| > 0 {
      var t := PlayMove(s, moves[0]);
      if !t.switchedTurn {
        TurnIsGenerated(t, moves[1..]);
      }
      assert PlayTurn(s, moves) in ResultsOf(s, moves[0]);
      ExpandContains(s, ValidMoves(s), moves[0], PlayTurn(s, moves));
    }
  }

  /** Expanding a list of selections keeps the states of each of them. */
  lemma {:induction false} ExpandContains(s: KalahaState, moves: seq<nat>, pit: nat, c: KalahaState)
    requires ValidBoard(s.board) && s.turnsPlayed < 255
    requires forall j {:trigger moves[j]} :: 0 <= j < |moves| ==> IsLegalMove(s, moves[j])
    requires pit in moves && IsLegalMove(s, pit) && c in ResultsOf(s, pit)
    ensures c in ExpandMoves(s, moves)
    decreases |moves|
  {
    assert IsLegalMove(s, moves[0]);
    if moves[0] != pit {
      ExpandContains(s, moves[1..], pit, c);
    }
  }

  /** A player with no legal selection ends the game by snatching, and the
      resulting state keeps the turn record it had, which belongs to the
      previous turn when a new turn had begun. */
  lemma StuckPlayerSnatches(s: KalahaState)
    requires ValidBoard(s.board) && s.turnsPlayed < 255
    requires forall i: nat :: IsFieldOf(i, s.toPlay) ==> s.board[i].value == 0
    ensures var r := MoveSequenceResults(s);
            && |r| == 1
            && r[0].gameState.GameOver?
            && r[0].toPlay == s.toPlay
            && r[0].lastMoves == s.lastMoves
            && StashSeeds(r[0].board, s.toPlay) == StashSeeds(s.board, s.toPlay) + FieldSeeds(s.board, s.toPlay.Opposite())
  {
  }

  /** The selections recorded in `c` after the turn so far of `s`, played
      from `s`, lead to `c`. */
  predicate Replays(s: KalahaState, c: KalahaState)
    requires ValidBoard(s.board)
  {
    var pre := TurnSoFar(s);
    && |pre| < |c.lastMoves|
    && c.lastMoves[..|pre|] == pre
    && Playable(s, c.lastMoves[|pre|..])
    && PlaySequence(s, c.lastMoves[|pre|..]) == c
  }

  /** Replaying the selections recorded in a generated state, from the state
      it was generated from, reproduces it, for every state in which the turn
      passed to the other player. */
  lemma {:induction false} ReplayReproducesResult(s: KalahaState, c: KalahaState)
    requires ValidBoard(s.board) && s.turnsPlayed < 255
    requires c in MoveSequenceResults(s) && c.toPlay == s.toPlay.Opposite()
    ensures Replays(s, c)
    decreases Measure(s), 1
  {
    var moves := ValidMoves(s);
    if |moves| == 0 {
      assert false;
    } else {
      ReplayExpanded(s, moves, c);
    }
  }

  lemma {:induction false} ReplayExpanded(s: KalahaState, moves: seq<nat>, c: KalahaState)
    requires ValidBoard(s.board) && s.turnsPlayed < 255
    requires forall j {:trigger moves[j]} :: 0 <= j < |moves| ==> IsLegalMove(s, moves[j])
    requires c in ExpandMoves(s, moves) && c.toPlay == s.toPlay.Opposite()
    ensures Replays(s, c)
    decreases Measure(s), 0, |moves|
  {
    assert IsLegalMove(s, moves[0]);
    if c in ExpandMoves(s, moves[1..]) {
      ReplayExpanded(s, moves[1..], c);
    } else {
      ReplayResultOf(s, moves[0], c);
    }
  }

  lemma {:induction false} ReplayResultOf(s: KalahaState, pit: nat, c: KalahaState)
    requires ValidBoard(s.board) && s.turnsPlayed < 255
    requires IsLegalMove(s, pit)
    requires c in ResultsOf(s, pit) && c.toPlay == s.toPlay.Opposite()
    ensures Replays(s, c)
    decreases Measure(s), 0, 0
  {
    var t := PlayMove(s, pit);
    if t.switchedTurn {
      ReplayOne(s, pit);
    } else {
      assert t.toPlay == s.toPlay && Measure(t) < Measure(s) by {
        ExtraTurnShrinksMeasure(s, pit);
      }
      ReplayReproducesResult(t, c);
      ReplayAfterExtraTurn(s, pit, c);
    }
  }

  /** A selection that ends the turn is replayed by itself. */
  lemma ReplayOne(s: KalahaState, pit: nat)
    requires ValidBoard(s.board) && s.turnsPlayed < 255 && pit < PitCount
    requires PlayMove(s, pit).switchedTurn
    ensures Replays(s, PlayMove(s, pit))
  {
    var t := PlayMove(s, pit);
    var pre := TurnSoFar(s);
    assert t.lastMoves == pre + [pit];
    assert t.lastMoves[|pre|..] == [pit];
    assert t.lastMoves[..|pre|] == pre;
    assert PlaySequence(PlayMove(s, pit), []) == t;
  }

  /** A selection earning an extra turn, followed by a replayable rest of the
      turn, is replayable as a whole. */
  lemma ReplayAfterExtraTurn(s: KalahaState, pit: nat, c: KalahaState)
    requires ValidBoard(s.board) && s.turnsPlayed < 255 && pit < PitCount
    requires !PlayMove(s, pit).switchedTurn
    requires Replays(PlayMove(s, pit), c)
    ensures Replays(s, c)
  {
    var t := PlayMove(s, pit);
    var pre := TurnSoFar(s);
    assert TurnSoFar(t) == pre + [pit];
    PrefixExtends(pre, pit, c.lastMoves);
    assert t.turnsPlayed == s.turnsPlayed;
  }

  /** A record that extends `pre + [pit]` extends `pre`, and what follows
      `pre` in it is `pit` followed by what follows `pre + [pit]`. */
  lemma PrefixExtends(pre: seq<nat>, pit: nat, m: seq<nat>)
    requires |pre| + 1 < |m| && m[..|pre| + 1] == pre + [pit]
    ensures |pre| < |m| && m[..|pre|] == pre
    ensures m[|pre|..][0] == pit && m[|pre|..][1..] == m[|pre| + 1..]
  {
    assert m[..|pre|] == m[..|pre| + 1][..|pre|];
  }
}
