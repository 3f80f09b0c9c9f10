/** The game state and the turn-level rules of game.rs: starting a game,
    playing a selection with its turn bookkeeping, listing the legal
    selections, ending the game and scoring a position.
 */
module Game {
  import opened Wrappers
  import opened Board
  import opened Sowing

  /** i32::MAX, the magnitude of a won or lost position. */
  const MaxScore: int := 0x7FFF_FFFF
  /** A stash holding more than this many seeds ends the game. */
  const MajoritySeeds: nat := 36

  /** `turns_played` is a u8. */
  type U8 = x: int | 0 <= x < 256

  datatype GameState = Playing | GameOver(winner: Option<Player>)

  /** `lastMoves` records the selections of the current turn; `switchedTurn`
      says the next selection starts a new turn record. */
  datatype KalahaState = KalahaState(
    toPlay: Player,
    board: Board,
    gameState: GameState,
    lastMoves: seq<nat>,
    switchedTurn: bool,
    turnsPlayed: U8)

  /** A state the rules can produce: a laid-out board, and while the game is
      on, every one of the 72 seeds still on it. */
  predicate Consistent(s: KalahaState) {
    ValidBoard(s.board) && (s.gameState == Playing ==> Seeds(s.board) == TotalSeeds)
  }

  /** The start of a game: Almuta to play on the initial board. */
  function NewGame(): (s: KalahaState)
    ensures Consistent(s) && Seeds(s.board) == TotalSeeds
    ensures forall i :: 0 <= i < PitCount && !IsStash(KindAt(i)) ==> s.board[i].value == InitialSeeds
    ensures StashSeeds(s.board, Almuta) == 0 && StashSeeds(s.board, Batal) == 0
    ensures s.toPlay == Almuta && s.gameState == Playing
    ensures s.lastMoves == [] && s.switchedTurn && s.turnsPlayed == 0
  {
    var b := NewBoard();
    assert b[StashIndex(Almuta)].value == 0 && b[StashIndex(Batal)].value == 0;
    KalahaState(Almuta, b, Playing, [], true, 0)
  }

  /** Whether either stash holds a majority of the seeds. */
  predicate EndByMajoritySeeds(b: Board)
    requires ValidBoard(b)
  {
    StashSeeds(b, Almuta) > MajoritySeeds || StashSeeds(b, Batal) > MajoritySeeds
  }

  /** With all 72 seeds on the board, a stash above 36 outweighs the other. */
  lemma MajorityDecides(b: Board, p: Player)
    requires ValidBoard(b) && Seeds(b) == TotalSeeds
    requires StashSeeds(b, p) > MajoritySeeds
    ensures StashSeeds(b, p) > StashSeeds(b, p.Opposite())
  {
    TwoPitsAtMostSeeds(b, StashIndex(p), StashIndex(p.Opposite()));
  }

  /** The final game state, from comparing the stash of the player to move
      with the other stash. A greater stash for the player to move is
      reported as a win for Almuta, a smaller one as a win for Batal,
      whichever player is to move. */
  function ResolveGame(s: KalahaState): (g: GameState)
    requires ValidBoard(s.board)
    ensures g.GameOver?
    ensures g.winner.None? <==> StashSeeds(s.board, Almuta) == StashSeeds(s.board, Batal)
    ensures s.toPlay == Almuta && g.winner.Some? ==>
              StashSeeds(s.board, g.winner.value) > StashSeeds(s.board, g.winner.value.Opposite())
    ensures s.toPlay == Batal && g.winner.Some? ==>
              StashSeeds(s.board, g.winner.value) < StashSeeds(s.board, g.winner.value.Opposite())
  {
    var mine := StashSeeds(s.board, s.toPlay);
    var theirs := StashSeeds(s.board, s.toPlay.Opposite());
    if mine > theirs then GameOver(Some(Almuta))
    else if mine == theirs then GameOver(None)
    else GameOver(Some(Batal))
  }

  /** One selection with its turn bookkeeping. The turn record is restarted
      when a new turn begins. The turn passes unless the last seed lands in a
      stash; when it passes, the turn counter grows and a majority in either
      stash resolves the game. */
  function PlayMove(s: KalahaState, pit: nat): (r: KalahaState)
    requires ValidBoard(s.board) && pit < PitCount && s.turnsPlayed < 255
    ensures ValidBoard(r.board) && Seeds(r.board) == Seeds(s.board)
    ensures r.board == DistributeSeeds(s.board, s.toPlay, pit).board
    ensures r.lastMoves == (if s.switchedTurn then [] else s.lastMoves) + [pit]
    ensures r.switchedTurn <==> r.toPlay == s.toPlay.Opposite()
    ensures r.switchedTurn ==> r.turnsPlayed == s.turnsPlayed + 1
    ensures !r.switchedTurn ==> r.toPlay == s.toPlay && r.turnsPlayed == s.turnsPlayed && r.gameState == s.gameState
    ensures r.switchedTurn && EndByMajoritySeeds(r.board) ==> r.gameState == ResolveGame(r)
    ensures r.switchedTurn && !EndByMajoritySeeds(r.board) ==> r.gameState == s.gameState
    ensures Consistent(s) ==> Consistent(r)
  {
    var record := if s.switchedTurn then [] else s.lastMoves;
    var d := DistributeSeeds(s.board, s.toPlay, pit);
    assert Seeds(d.board) == Seeds(s.board);
    var t := s.(board := d.board, lastMoves := record + [pit], switchedTurn := false);
    if d.sameMover then t
    else
      var u := t.(toPlay := s.toPlay.Opposite(), switchedTurn := true, turnsPlayed := s.turnsPlayed + 1);
      if EndByMajoritySeeds(u.board) then u.(gameState := ResolveGame(u)) else u
  }

  /** A selection from a non-empty pit earns an extra turn exactly when its
      last seed lands in the mover's own stash. */
  lemma ExtraTurnIffLastInOwnStash(s: KalahaState, pit: nat)
    requires ValidBoard(s.board) && pit < PitCount && s.turnsPlayed < 255
    requires s.board[pit].value > 0
    ensures !PlayMove(s, pit).switchedTurn <==> SowFrom(s.board, s.toPlay, pit).last == StashIndex(s.toPlay)
  {
    var d := DistributeSeeds(s.board, s.toPlay, pit);
  }

  /** The selections are pits of the board, and none of them is made with
      the `u8` turn counter at 255. Only selections that pass the turn
      advance the counter, so a long turn of extra moves stays playable. */
  predicate Playable(s: KalahaState, moves: seq<nat>)
    requires ValidBoard(s.board)
    decreases |moves|
  {
    |moves| == 0 || (moves[0] < PitCount && s.turnsPlayed < 255 && Playable(PlayMove(s, moves[0]), moves[1..]))
  }

  /** Selections of pits that number fewer than the turns left on the
      counter are always playable. */
  lemma {:induction false} FewMovesArePlayable(s: KalahaState, moves: seq<nat>)
    requires ValidBoard(s.board)
    requires forall j :: 0 <= j < |moves| ==> moves[j] < PitCount
    requires s.turnsPlayed + |moves| < 256
    ensures Playable(s, moves)
    decreases |moves|
  {
    if |moves| > 0 {
      FewMovesArePlayable(PlayMove(s, moves[0]), moves[1..]);
    }
  }

  /** Plays the selections one after another. */
  function PlaySequence(s: KalahaState, moves: seq<nat>): (r: KalahaState)
    requires ValidBoard(s.board)
    requires Playable(s, moves)
    ensures ValidBoard(r.board) && Seeds(r.board) == Seeds(s.board)
    ensures r.turnsPlayed <= s.turnsPlayed + |moves|
    ensures Consistent(s) ==> Consistent(r)
    decreases |moves|
  {
    if |moves| == 0 then s else PlaySequence(PlayMove(s, moves[0]), moves[1..])
  }

  /** Ends the game for a player who cannot move: the opponent's field seeds
      are added to the stuck player's stash, without emptying those fields,
      and the game is resolved. */
  function SnatchSeeds(s: KalahaState): (r: KalahaState)
    requires ValidBoard(s.board)
    ensures ValidBoard(r.board) && r.gameState.GameOver?
    ensures StashSeeds(r.board, s.toPlay) == StashSeeds(s.board, s.toPlay) + FieldSeeds(s.board, s.toPlay.Opposite())
    ensures forall k :: 0 <= k < PitCount && k != StashIndex(s.toPlay) ==> r.board[k] == s.board[k]
    ensures Seeds(r.board) == Seeds(s.board) + FieldSeeds(s.board, s.toPlay.Opposite())
    ensures r.gameState == ResolveGame(r)
    ensures r == s.(board := r.board, gameState := r.gameState)
  {
    var stash := StashIndex(s.toPlay);
    var snatched := FieldSeeds(s.board, s.toPlay.Opposite());
    var pit := Pit(s.board[stash].value + snatched, s.board[stash].kind);
    SeedsUpdate(s.board, stash, pit);
    var t := s.(board := s.board[stash := pit]);
    t.(gameState := ResolveGame(t))
  }

  /** Replays a recorded turn; an empty record means the player to move is
      stuck and the game ends by snatching. */
  function PlayMoves(s: KalahaState, moves: seq<nat>): (r: KalahaState)
    requires ValidBoard(s.board)
    requires Playable(s, moves)
    ensures ValidBoard(r.board)
    ensures |moves| == 0 ==> r.gameState.GameOver?
    ensures |moves| == 0 ==> StashSeeds(r.board, s.toPlay) == StashSeeds(s.board, s.toPlay) + FieldSeeds(s.board, s.toPlay.Opposite())
    ensures |moves| == 0 ==> forall k :: 0 <= k < PitCount && k != StashIndex(s.toPlay) ==> r.board[k] == s.board[k]
    ensures |moves| > 0 ==> Seeds(r.board) == Seeds(s.board) && r == PlaySequence(s, moves)
  {
    if |moves| == 0 then SnatchSeeds(s) else PlaySequence(s, moves)
  }

  /** The indices in lo .. hi whose pits hold seeds, in ascending order. */
  function NonEmptyPits(b: Board, lo: nat, hi: nat): (r: seq<nat>)
    requires lo <= hi <= |b|
    ensures forall j :: 0 <= j < |r| ==> lo <= r[j] < hi && b[r[j]].value != 0
    ensures forall i :: lo <= i < hi && b[i].value != 0 ==> i in r
    ensures forall j, k :: 0 <= j < k < |r| ==> r[j] < r[k]
    decreases hi - lo
  {
    if lo == hi then []
    else
      var rest := NonEmptyPits(b, lo + 1, hi);
      if b[lo].value != 0 then [lo] + rest
      else rest
  }

  /** A selection the player to move may make: one of their fields holding seeds. */
  predicate IsLegalMove(s: KalahaState, pit: nat)
    requires ValidBoard(s.board)
    ensures IsLegalMove(s, pit) ==> pit < PitCount
  {
    IsFieldOf(pit, s.toPlay) && s.board[pit].value != 0
  }

  /** The selections open to the player to move: their non-empty fields,
      in ascending order. */
  function ValidMoves(s: KalahaState): (r: seq<nat>)
    requires ValidBoard(s.board)
    ensures forall k: nat :: k in r <==> IsLegalMove(s, k)
    ensures forall j :: 0 <= j < |r| ==> IsLegalMove(s, r[j])
    ensures |r| == 0 <==> forall k: nat :: IsFieldOf(k, s.toPlay) ==> s.board[k].value == 0
    ensures forall j, k :: 0 <= j < k < |r| ==> (r[j] < r[k])
  {
    var r := NonEmptyPits(s.board, FieldStart(s.toPlay), FieldStart(s.toPlay) + FieldsPerSide);
    assert |r| > 0 ==> IsLegalMove(s, r[0]);
    r
  }

  /** The score of a position from the point of view of the player to move:
      the stash difference while playing, and near i32::MAX for a win, less
      the turns it took. */
  function Evaluate(s: KalahaState): (r: int)
    requires ValidBoard(s.board)
    ensures s.gameState == Playing ==>
              r == StashSeeds(s.board, s.toPlay) - StashSeeds(s.board, s.toPlay.Opposite())
    ensures s.gameState == GameOver(None) ==> r == 0
    ensures s.gameState == GameOver(Some(s.toPlay)) ==> r == MaxScore - s.turnsPlayed
    ensures s.gameState == GameOver(Some(s.toPlay.Opposite())) ==> r == -(MaxScore - s.turnsPlayed)
    ensures Consistent(s) ==> -MaxScore <= r <= MaxScore
  {
    var absolute := match s.gameState
      case Playing => StashSeeds(s.board, Almuta) - StashSeeds(s.board, Batal)
      case GameOver(None) => 0
      case GameOver(Some(Almuta)) => MaxScore - s.turnsPlayed
      case GameOver(Some(Batal)) => -MaxScore + s.turnsPlayed;
    TwoPitsAtMostSeeds(s.board, StashIndex(Almuta), StashIndex(Batal));
    // multiplication by the relative factor, which is 1 or -1
    if s.toPlay.RelativeFactor() == 1 then absolute else -absolute
  }

  /** The same position scored for the other player is exactly negated. */
  lemma EvaluateAntisymmetric(s: KalahaState)
    requires ValidBoard(s.board)
    ensures Evaluate(s.(toPlay := s.toPlay.Opposite())) == -Evaluate(s)
  {}

  /** A win in fewer turns scores higher, and a loss in fewer turns lower. */
  lemma EvaluatePrefersFasterWins(s: KalahaState, t: KalahaState)
    requires ValidBoard(s.board) && ValidBoard(t.board)
    requires s.toPlay == t.toPlay && s.gameState == t.gameState
    requires s.gameState.GameOver? && s.gameState.winner.Some?
    requires s.turnsPlayed < t.turnsPlayed
    ensures s.gameState.winner.value == s.toPlay ==> Evaluate(s) > Evaluate(t)
    ensures s.gameState.winner.value != s.toPlay ==> Evaluate(s) < Evaluate(t)
  {}
}
