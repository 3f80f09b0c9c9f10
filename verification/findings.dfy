/** Three places where game.rs does something other than what the rules it
    implements evidently intend. Each is stated against the as-written model,
    in general and, where a position makes it plain, on a concrete one, next
    to a corrected definition with the intended property proved.
 */
module Findings {
  import opened Wrappers
  import opened Board
  import opened Sowing
  import opened Game

  /** The board with the given seed counts, pit kinds following the layout. */
  function BoardOf(vs: seq<int>): (b: Board)
    requires |vs| == PitCount && forall i :: 0 <= i < |vs| ==> vs[i] >= 0
    ensures ValidBoard(b)
    ensures forall i :: 0 <= i < PitCount ==> b[i].value == vs[i]
  {
    seq(PitCount, i requires 0 <= i < PitCount => Pit(vs[i], KindAt(i)))
  }

  /** The seeds of a run of six pits, pit by pit. */
  lemma SeedsOfSix(f: seq<Pit>)
    requires |f| == FieldsPerSide
    ensures Seeds(f) == f[0].value + f[1].value + f[2].value + f[3].value + f[4].value + f[5].value
  {
    SeedsFrom(f, 0); SeedsFrom(f, 1); SeedsFrom(f, 2);
    SeedsFrom(f, 3); SeedsFrom(f, 4); SeedsFrom(f, 5);
    assert f[0..] == f;
  }

  /** The seeds of a board: the two runs of fields and the two stashes. */
  lemma SeedsOfBoard(b: Board)
    requires ValidBoard(b)
    ensures FieldSeeds(b, Almuta) == b[0].value + b[1].value + b[2].value + b[3].value + b[4].value + b[5].value
    ensures FieldSeeds(b, Batal) == b[7].value + b[8].value + b[9].value + b[10].value + b[11].value + b[12].value
    ensures Seeds(b) == FieldSeeds(b, Almuta) + b[6].value + FieldSeeds(b, Batal) + b[13].value
  {
    SeedsOfSix(b[0..6]);
    SeedsOfSix(b[7..13]);
    SeedsSplit(b, 6);
    SeedsFrom(b, 6);
    SeedsSplit(b[7..], 6);
    assert b[7..][..6] == b[7..13];
    SeedsFrom(b[7..], 6);
    assert b[7..][7..] == [];
    assert b[..6] == b[0..6];
  }

  // ---------------------------------------------------------------------
  // resolve_game compares the stashes from the point of view of the player
  // to move but reports the result as if Almuta were always to move.

  /** Whenever Almuta's selection passes the turn with a majority in
      Almuta's stash, the game is given to Batal. */
  lemma AlmutaMajorityReportedForBatal(s: KalahaState, pit: nat)
    requires Consistent(s) && s.gameState == Playing && s.turnsPlayed < 255
    requires s.toPlay == Almuta && IsLegalMove(s, pit)
    requires PlayMove(s, pit).switchedTurn && StashSeeds(PlayMove(s, pit).board, Almuta) > MajoritySeeds
    ensures var r := PlayMove(s, pit);
            && StashSeeds(r.board, Almuta) > StashSeeds(r.board, Batal)
            && r.gameState == GameOver(Some(Batal))
  {
    var r := PlayMove(s, pit);
    MajorityDecides(r.board, Almuta);
  }

  /** The stashes after Almuta sows three seeds from pit 4 of fields
      0,0,0,0,3,0 (stash 36) into pit 5, the stash and Batal's pit 7 (fields
      1,0,0,0,0,0, stash 32): 37 against 32 with Batal to move, reported as a
      win for Batal. */
  lemma ResolveGameExample()
    ensures var s := KalahaState(Batal, BoardOf([0, 0, 0, 0, 0, 1, 37, 2, 0, 0, 0, 0, 0, 32]), Playing, [4], true, 11);
            && Consistent(s) && EndByMajoritySeeds(s.board)
            && ResolveGame(s) == GameOver(Some(Batal))
            && ResolveGameByStash(s.board) == GameOver(Some(Almuta))
  {
    SeedsOfBoard(BoardOf([0, 0, 0, 0, 0, 1, 37, 2, 0, 0, 0, 0, 0, 32]));
  }

  /** The game state the rules evidently intend: the player with more seeds
      in their stash wins, whoever is to move. */
  function ResolveGameByStash(b: Board): (g: GameState)
    requires ValidBoard(b)
    ensures g.GameOver?
    ensures forall p: Player :: g.winner == Some(p) <==> StashSeeds(b, p) > StashSeeds(b, p.Opposite())
    ensures g.winner.None? <==> StashSeeds(b, Almuta) == StashSeeds(b, Batal)
  {
    var almuta := StashSeeds(b, Almuta);
    var batal := StashSeeds(b, Batal);
    if almuta > batal then GameOver(Some(Almuta))
    else if almuta == batal then GameOver(None)
    else GameOver(Some(Batal))
  }

  /** The written resolution agrees with the intended one exactly when
      Almuta is to move or the stashes are level. */
  lemma ResolveGameAgreesOnlyForAlmuta(s: KalahaState)
    requires ValidBoard(s.board)
    ensures ResolveGame(s) == ResolveGameByStash(s.board) <==>
              s.toPlay == Almuta || StashSeeds(s.board, Almuta) == StashSeeds(s.board, Batal)
  {}

  // ---------------------------------------------------------------------
  // snatch_seeds adds the opponent's field seeds to the stuck player's
  // stash without taking them off the board.

  /** Batal, with no seeds in the fields, snatches Almuta's single field
      seed: 73 seeds end up on the board and Almuta, whose stash holds 35
      against 37, is declared the winner. */
  lemma StuckBatalSnatchCreatesSeed()
    ensures var s := KalahaState(Batal, BoardOf([1, 0, 0, 0, 0, 0, 35, 0, 0, 0, 0, 0, 0, 36]), Playing, [3], true, 40);
            var r := SnatchSeeds(s);
            && Consistent(s) && ValidMoves(s) == []
            && Seeds(r.board) == TotalSeeds + 1
            && StashSeeds(r.board, Batal) == 37 && StashSeeds(r.board, Almuta) == 35
            && r.gameState == GameOver(Some(Almuta))
  {
    var s := KalahaState(Batal, BoardOf([1, 0, 0, 0, 0, 0, 35, 0, 0, 0, 0, 0, 0, 36]), Playing, [3], true, 40);
    StuckBatalSeeds(s.board);
    var r := SnatchSeeds(s);
    assert Seeds(r.board) == TotalSeeds + 1;
    assert StashSeeds(r.board, Batal) == 37 && StashSeeds(r.board, Almuta) == 35;
  }

  /** The seed counts of the stuck position: 72 in all, one in Almuta's
      fields and none in Batal's. */
  lemma StuckBatalSeeds(b: Board)
    requires b == BoardOf([1, 0, 0, 0, 0, 0, 35, 0, 0, 0, 0, 0, 0, 36])
    ensures Seeds(b) == TotalSeeds && FieldSeeds(b, Almuta) == 1
    ensures StashSeeds(b, Almuta) == 35 && StashSeeds(b, Batal) == 36
    ensures forall i: nat :: IsFieldOf(i, Batal) ==> b[i].value == 0
  {
    SeedsOfBoard(b);
    EmptyFields(b, Batal);
  }

  /** A player whose fields hold no seeds in total has every field empty. */
  lemma EmptyFields(b: Board, p: Player)
    requires ValidBoard(b) && FieldSeeds(b, p) == 0
    ensures forall i: nat :: IsFieldOf(i, p) ==> b[i].value == 0
  {
    var lo := FieldStart(p);
    forall i: nat | IsFieldOf(i, p) ensures b[i].value == 0 {
      PitAtMostSeeds(b[lo..lo + FieldsPerSide], i - lo);
    }
  }

  /** Moves every seed of pit i into the stash of `owner`. */
  function MoveToStash(b: Board, i: nat, owner: Player): (r: Board)
    requires ValidBoard(b) && i < PitCount && i != StashIndex(owner)
    ensures ValidBoard(r) && Seeds(r) == Seeds(b)
    ensures r[i].value == 0
    ensures StashSeeds(r, owner) == StashSeeds(b, owner) + b[i].value
    ensures forall k :: 0 <= k < PitCount && k != i && k != StashIndex(owner) ==> r[k] == b[k]
  {
    var stash := StashIndex(owner);
    var emptied := b[i := Pit(0, b[i].kind)];
    SeedsUpdate(b, i, emptied[i]);
    var filled := Pit(emptied[stash].value + b[i].value, emptied[stash].kind);
    SeedsUpdate(emptied, stash, filled);
    emptied[stash := filled]
  }

  /** Moves the seeds of pits i .. hi - 1, all fields of `p`, into the
      stash of `p`. */
  function SweepFrom(b: Board, p: Player, i: nat, hi: nat): (r: Board)
    requires ValidBoard(b) && i <= hi == FieldStart(p) + FieldsPerSide && FieldStart(p) <= i
    ensures ValidBoard(r) && Seeds(r) == Seeds(b)
    ensures StashSeeds(r, p) == StashSeeds(b, p) + Seeds(b[i..hi])
    ensures forall k :: i <= k < hi ==> r[k].value == 0
    ensures forall k :: 0 <= k < PitCount && k != StashIndex(p) && !(i <= k < hi) ==> r[k] == b[k]
    decreases hi - i
  {
    if i == hi then b
    else
      var moved := MoveToStash(b, i, p);
      assert moved[i + 1..hi] == b[i + 1..hi];
      assert b[i..hi][1..] == b[i + 1..hi];
      SweepFrom(moved, p, i + 1, hi)
  }

  /** The end of the game the rules evidently intend for a player who cannot
      move: the opponent keeps the seeds left in their fields, which go to
      the opponent's stash, and the game is decided by the stashes. */
  function SweepSeeds(s: KalahaState): (r: KalahaState)
    requires ValidBoard(s.board)
    ensures ValidBoard(r.board) && Seeds(r.board) == Seeds(s.board)
    ensures StashSeeds(r.board, s.toPlay.Opposite()) ==
              StashSeeds(s.board, s.toPlay.Opposite()) + FieldSeeds(s.board, s.toPlay.Opposite())
    ensures forall i: nat :: IsFieldOf(i, s.toPlay.Opposite()) ==> r.board[i].value == 0
    ensures forall i: nat :: i < PitCount && !IsFieldOf(i, s.toPlay.Opposite()) && i != StashIndex(s.toPlay.Opposite())
                             ==> r.board[i] == s.board[i]
    ensures r.gameState == ResolveGameByStash(r.board)
    ensures r == s.(board := r.board, gameState := r.gameState)
  {
    var opponent := s.toPlay.Opposite();
    var lo := FieldStart(opponent);
    var b := SweepFrom(s.board, opponent, lo, lo + FieldsPerSide);
    s.(board := b, gameState := ResolveGameByStash(b))
  }

  /** Snatching as written and sweeping as intended differ by exactly the
      opponent's field seeds: counted twice on the board, credited to the
      stuck player instead of the opponent. */
  lemma SnatchCountsFieldSeedsTwice(s: KalahaState)
    requires ValidBoard(s.board)
    ensures var written := SnatchSeeds(s).board;
            var intended := SweepSeeds(s).board;
            var f := FieldSeeds(s.board, s.toPlay.Opposite());
            && Seeds(written) == Seeds(intended) + f
            && StashSeeds(written, s.toPlay) == StashSeeds(intended, s.toPlay) + f
            && StashSeeds(intended, s.toPlay.Opposite()) == StashSeeds(written, s.toPlay.Opposite()) + f
  {
    var written := SnatchSeeds(s).board;
    var intended := SweepSeeds(s).board;
    assert intended[StashIndex(s.toPlay)] == s.board[StashIndex(s.toPlay)];
  }

  /** On the position above, sweeping keeps the 72 seeds and ends level. */
  lemma StuckBatalSweepIsDraw()
    ensures var s := KalahaState(Batal, BoardOf([1, 0, 0, 0, 0, 0, 35, 0, 0, 0, 0, 0, 0, 36]), Playing, [3], true, 40);
            var r := SweepSeeds(s);
            && Seeds(r.board) == TotalSeeds
            && StashSeeds(r.board, Almuta) == 36 && StashSeeds(r.board, Batal) == 36
            && r.gameState == GameOver(None)
  {
    var s := KalahaState(Batal, BoardOf([1, 0, 0, 0, 0, 0, 35, 0, 0, 0, 0, 0, 0, 36]), Playing, [3], true, 40);
    StuckBatalSeeds(s.board);
    var r := SweepSeeds(s);
    assert StashSeeds(r.board, Almuta) == 36;
  }

  // ---------------------------------------------------------------------
  // steal_opposing_seeds leaves the capturing seed in its field.

  /** The capture the rules evidently intend: the capturing seed and the
      seeds of the opposite field all go to the mover's stash. */
  function CaptureIntended(b: Board, mover: Player, landing: nat): (r: Board)
    requires ValidBoard(b) && IsFieldOf(landing, mover)
    ensures ValidBoard(r) && Seeds(r) == Seeds(b)
    ensures r[landing].value == 0 && r[12 - landing].value == 0
    ensures StashSeeds(r, mover) == StashSeeds(b, mover) + b[landing].value + b[12 - landing].value
    ensures forall k :: 0 <= k < PitCount && k != landing && k != 12 - landing && k != StashIndex(mover) ==> r[k] == b[k]
  {
    OppositeField(landing, mover);
    MoveToStash(MoveToStash(b, 12 - landing, mover), landing, mover)
  }

  /** Against the written capture, the intended one differs on the landing
      field alone, whose single seed it moves on into the stash. */
  lemma CaptureIntendedTakesLandingSeed(b: Board, mover: Player, pit: nat)
    requires ValidBoard(b) && pit < PitCount
    requires Captures(SowFrom(b, mover, pit), mover)
    ensures var sown := SowFrom(b, mover, pit);
            var written := DistributeSeeds(b, mover, pit).board;
            && IsFieldOf(sown.last, mover)
            && var intended := CaptureIntended(sown.board, mover, sown.last);
            && written[sown.last].value == 1 && intended[sown.last].value == 0
            && StashSeeds(intended, mover) == StashSeeds(written, mover) + 1
            && forall k :: 0 <= k < PitCount && k != sown.last && k != StashIndex(mover) ==> intended[k] == written[k]
  {
    CaptureKeepsLandingSeed(b, mover, pit);
    var sown := SowFrom(b, mover, pit);
    PlayerPitIsField(sown.board, sown.last, mover);
  }
}
