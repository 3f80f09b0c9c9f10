/** Sowing and capturing: one pit selection on the board (game.rs,
    `distribute_seeds` and `steal_opposing_seeds`).
 */
module Sowing {
  import opened Board

  /** Whether the mover may drop a seed into this pit: every pit except the
      opponent's stash. */
  predicate CanDeposit(p: Pit, mover: Player) {
    match mover
    case Almuta => p.kind != BatalStash
    case Batal => p.kind != AlmutaStash
  }

  /** The board after sowing, and the index of the pit the last step reached. */
  datatype Sown = Sown(board: Board, last: nat)

  /** Sows `hand` seeds one per pit starting after index `at`, wrapping
      modulo 14. A step onto the opponent's stash drops nothing and keeps the
      seed in hand. */
  function Sow(b: Board, mover: Player, at: nat, hand: nat): (r: Sown)
    requires ValidBoard(b) && at < PitCount
    ensures ValidBoard(r.board) && r.last < PitCount
    ensures Seeds(r.board) == Seeds(b) + hand
    ensures r.board[StashIndex(mover.Opposite())] == b[StashIndex(mover.Opposite())]
    ensures forall k :: 0 <= k < PitCount ==> b[k].value <= r.board[k].value
    ensures hand == 0 ==> r == Sown(b, at)
    ensures hand > 0 ==> CanDeposit(r.board[r.last], mover) && b[r.last].value < r.board[r.last].value
    decreases hand, if CanDeposit(b[Succ(at)], mover) then 0 else 1
  {
    if hand == 0 then Sown(b, at)
    else
      var next := Succ(at);
      if CanDeposit(b[next], mover) then
        var (pit, rest) := AddSeed(b[next], hand);
        SeedsUpdate(b, next, pit);
        Sow(b[next := pit], mover, next, rest)
      else
        assert CanDeposit(b[Succ(next)], mover);
        Sow(b, mover, next, hand)
  }

  /** The index after `at` on the circular board: (at + 1) mod 14. */
  function Succ(at: nat): (n: nat)
    requires at < PitCount
    ensures n < PitCount && n == (at + 1) % PitCount
  {
    if at + 1 == PitCount then 0 else at + 1
  }

  /** The pit a seed goes to after index `at`: the next index modulo 14,
      passing over the opponent's stash. */
  function NextPit(mover: Player, at: nat): (n: nat)
    requires at < PitCount
    ensures n < PitCount && n != StashIndex(mover.Opposite()) && n != at
    ensures (at + 1) % PitCount != StashIndex(mover.Opposite()) ==> n == (at + 1) % PitCount
    ensures (at + 1) % PitCount == StashIndex(mover.Opposite()) ==> n == (at + 2) % PitCount
  {
    var n := Succ(at);
    if n == StashIndex(mover.Opposite()) then Succ(n) else n
  }

  /** The indices receiving the seeds of a hand, one seed each, in order:
      a reference description of sowing in which every step uses up a seed. */
  function Targets(mover: Player, at: nat, hand: nat): (ts: seq<nat>)
    requires at < PitCount
    ensures |ts| == hand
    ensures forall j :: 0 <= j < |ts| ==> ts[j] < PitCount && ts[j] != StashIndex(mover.Opposite())
    decreases hand
  {
    if hand == 0 then [] else
      var n := NextPit(mover, at);
      [n] + Targets(mover, n, hand - 1)
  }

  /** Adds one seed to each listed pit. */
  function Drop(b: Board, ts: seq<nat>): (r: Board)
    requires ValidBoard(b)
    requires forall j :: 0 <= j < |ts| ==> ts[j] < PitCount
    ensures ValidBoard(r)
    decreases |ts|
  {
    if |ts| == 0 then b
    else Drop(b[ts[0] := Pit(b[ts[0]].value + 1, b[ts[0]].kind)], ts[1..])
  }

  /** Sowing step by step, with its free pass over the opponent's stash, drops
      exactly one seed on each of the reference targets and ends on the last. */
  lemma {:induction false} SowDropsOnTargets(b: Board, mover: Player, at: nat, hand: nat)
    requires ValidBoard(b) && at < PitCount
    ensures Sow(b, mover, at, hand).board == Drop(b, Targets(mover, at, hand))
    ensures hand > 0 ==> Sow(b, mover, at, hand).last == Targets(mover, at, hand)[hand - 1]
    decreases hand
  {
    if hand > 0 {
      if CanDeposit(b[Succ(at)], mover) {
        FirstSeed(b, mover, at, hand);
      } else {
        SkipStep(b, mover, at, hand);
        FirstSeed(b, mover, Succ(at), hand);
      }
    }
  }

  /** The inductive step of SowDropsOnTargets when the next pit takes a seed. */
  lemma {:induction false} FirstSeed(b: Board, mover: Player, at: nat, hand: nat)
    requires ValidBoard(b) && at < PitCount && hand > 0
    requires CanDeposit(b[Succ(at)], mover)
    ensures Sow(b, mover, at, hand).board == Drop(b, Targets(mover, at, hand))
    ensures Sow(b, mover, at, hand).last == Targets(mover, at, hand)[hand - 1]
    decreases hand, 0
  {
    var next := Succ(at);
    var b' := b[next := Pit(b[next].value + 1, b[next].kind)];
    assert ValidBoard(b');
    DepositStep(b, mover, at, hand);
    DepositTargets(b, mover, at, hand);
    SowDropsOnTargets(b', mover, next, hand - 1);
  }

  /** One sowing step that drops a seed into the next pit. */
  lemma DepositStep(b: Board, mover: Player, at: nat, hand: nat)
    requires ValidBoard(b) && at < PitCount && hand > 0
    requires CanDeposit(b[Succ(at)], mover)
    ensures var next := Succ(at);
            var b' := b[next := Pit(b[next].value + 1, b[next].kind)];
            Sow(b, mover, at, hand) == Sow(b', mover, next, hand - 1)
  {
    var next := Succ(at);
    assert AddSeed(b[next], hand) == (Pit(b[next].value + 1, b[next].kind), hand - 1);
  }

  /** The reference targets of a hand whose first seed goes to the next pit. */
  lemma DepositTargets(b: Board, mover: Player, at: nat, hand: nat)
    requires ValidBoard(b) && at < PitCount && hand > 0
    requires CanDeposit(b[Succ(at)], mover)
    ensures var next := Succ(at);
            var b' := b[next := Pit(b[next].value + 1, b[next].kind)];
            && Targets(mover, at, hand) == [next] + Targets(mover, next, hand - 1)
            && Drop(b, Targets(mover, at, hand)) == Drop(b', Targets(mover, next, hand - 1))
  {
    var next := Succ(at);
    assert NextPit(mover, at) == next;
    var ts := Targets(mover, at, hand);
    assert ts[1..] == Targets(mover, next, hand - 1);
  }

  /** One sowing step that passes over the opponent's stash. */
  lemma SkipStep(b: Board, mover: Player, at: nat, hand: nat)
    requires ValidBoard(b) && at < PitCount && hand > 0
    requires !CanDeposit(b[Succ(at)], mover)
    ensures var next := Succ(at);
            && Sow(b, mover, at, hand) == Sow(b, mover, next, hand)
            && Targets(mover, at, hand) == Targets(mover, next, hand)
            && CanDeposit(b[Succ(next)], mover)
  {
    var next := Succ(at);
    assert NextPit(mover, at) == NextPit(mover, next);
  }

  /** Moves every seed of the field opposite `landing` (index 12 - landing)
      into the mover's stash. */
  function StealOpposingSeeds(b: Board, mover: Player, landing: nat): (r: Board)
    requires ValidBoard(b) && IsFieldOf(landing, mover)
    ensures ValidBoard(r)
    ensures r[12 - landing].value == 0
    ensures StashSeeds(r, mover) == StashSeeds(b, mover) + b[12 - landing].value
    ensures forall k :: 0 <= k < PitCount && k != 12 - landing && k != StashIndex(mover) ==> r[k] == b[k]
    ensures Seeds(r) == Seeds(b)
  {
    OppositeField(landing, mover);
    var opposite := 12 - landing;
    var stolen := b[opposite].value;
    var emptied := b[opposite := Pit(0, b[opposite].kind)];
    var stash := StashIndex(mover);
    SeedsUpdate(b, opposite, emptied[opposite]);
    SeedsUpdate(emptied, stash, Pit(emptied[stash].value + stolen, emptied[stash].kind));
    emptied[stash := Pit(emptied[stash].value + stolen, emptied[stash].kind)]
  }

  /** The board after the chosen pit is emptied and its seeds sown. */
  function SowFrom(b: Board, mover: Player, pit: nat): (r: Sown)
    requires ValidBoard(b) && pit < PitCount
    ensures ValidBoard(r.board) && r.last < PitCount
    ensures Seeds(r.board) == Seeds(b)
    ensures pit != StashIndex(mover.Opposite()) ==>
              r.board[StashIndex(mover.Opposite())] == b[StashIndex(mover.Opposite())]
    ensures forall k :: 0 <= k < PitCount && k != pit ==> b[k].value <= r.board[k].value
    ensures b[pit].value == 0 ==> r == Sown(b, pit)
    ensures b[pit].value > 0 ==> CanDeposit(r.board[r.last], mover)
    ensures b[pit].value > 0 && r.last != pit ==> b[r.last].value < r.board[r.last].value
  {
    SeedsUpdate(b, pit, Pit(0, b[pit].kind));
    Sow(b[pit := Pit(0, b[pit].kind)], mover, pit, b[pit].value)
  }

  /** Whether sowing ended with the last seed alone in one of the mover's fields. */
  predicate Captures(s: Sown, mover: Player)
    requires ValidBoard(s.board) && s.last < PitCount
  {
    s.board[s.last].value == 1 && IsPlayerPit(s.board[s.last], mover)
  }

  /** The outcome of one pit selection: the new board, and whether the same
      player moves again. */
  datatype Distribution = Distribution(board: Board, sameMover: bool)

  /** Empties the selected pit, sows its seeds, captures if the last seed
      landed alone in one of the mover's fields, and reports whether the last
      seed landed in a stash. */
  function DistributeSeeds(b: Board, mover: Player, pit: nat): (r: Distribution)
    requires ValidBoard(b) && pit < PitCount
    ensures ValidBoard(r.board)
    ensures Seeds(r.board) == Seeds(b)
    ensures pit != StashIndex(mover.Opposite()) ==>
              r.board[StashIndex(mover.Opposite())] == b[StashIndex(mover.Opposite())]
    ensures pit != StashIndex(mover) ==> StashSeeds(b, mover) <= StashSeeds(r.board, mover)
    ensures b[pit].value > 0 ==> (r.sameMover <==> SowFrom(b, mover, pit).last == StashIndex(mover))
    ensures b[pit].value > 0 && r.sameMover && pit != StashIndex(mover) ==>
              StashSeeds(b, mover) < StashSeeds(r.board, mover)
  {
    var sown := SowFrom(b, mover, pit);
    var board := if Captures(sown, mover) then
                   PlayerPitIsField(sown.board, sown.last, mover);
                   StealOpposingSeeds(sown.board, mover, sown.last)
                 else sown.board;
    Distribution(board, IsStash(board[sown.last].kind))
  }

  /** Capture as written: when the last seed lands alone in one of the mover's
      fields, the opposite field is emptied into the mover's stash, the
      landing field keeps its single seed, and nothing else changes. */
  lemma CaptureKeepsLandingSeed(b: Board, mover: Player, pit: nat)
    requires ValidBoard(b) && pit < PitCount
    requires Captures(SowFrom(b, mover, pit), mover)
    ensures var sown := SowFrom(b, mover, pit);
            var after := DistributeSeeds(b, mover, pit).board;
            && IsFieldOf(sown.last, mover)
            && after[12 - sown.last].value == 0
            && after[sown.last].value == 1
            && StashSeeds(after, mover) == StashSeeds(sown.board, mover) + sown.board[12 - sown.last].value
            && !DistributeSeeds(b, mover, pit).sameMover
  {
    var sown := SowFrom(b, mover, pit);
    PlayerPitIsField(sown.board, sown.last, mover);
    OppositeField(sown.last, mover);
  }

  /** Without a capture, the board after the selection is exactly the sown board. */
  lemma NoCaptureIsSowing(b: Board, mover: Player, pit: nat)
    requires ValidBoard(b) && pit < PitCount
    requires !Captures(SowFrom(b, mover, pit), mover)
    ensures DistributeSeeds(b, mover, pit).board == SowFrom(b, mover, pit).board
  {}
}
