/** Players, pits and the fixed 14-pit board layout of the Kalah rules engine.

    Indices 0..5 are Almuta's fields and 6 is Almuta's stash; 7..12 are
    Batal's fields and 13 is Batal's stash.
 */
module Board {

  /** Number of pits on the board. */
  const PitCount: nat := 14
  /** Number of fields per side. */
  const FieldsPerSide: nat := 6
  /** Seeds placed in every field at the start of a game. */
  const InitialSeeds: nat := 6
  /** Seeds in play: twelve fields of six seeds each. */
  const TotalSeeds: nat := 72

  datatype Player = Almuta | Batal {

    /** The other player. */
    function Opposite(): (q: Player)
      ensures q != this
    {
      match this
      case Almuta => Batal
      case Batal => Almuta
    }

    /** The sign with which an Almuta-relative score is seen by this player. */
    function RelativeFactor(): (f: int)
      ensures f == 1 || f == -1
      ensures f == 1 <==> this == Almuta
    {
      match this
      case Almuta => 1
      case Batal => -1
    }
  }

  lemma OppositeInvolution(p: Player)
    ensures p.Opposite().Opposite() == p
    ensures p.Opposite().RelativeFactor() == -p.RelativeFactor()
  {}

  datatype PitKind = AlmutaStash | AlmutaPit | BatalStash | BatalPit

  predicate IsStash(k: PitKind) {
    k == AlmutaStash || k == BatalStash
  }

  datatype Pit = Pit(value: nat, kind: PitKind)

  type Board = seq<Pit>

  /** A freshly created pit: fields start with six seeds, stashes empty. */
  function NewPit(kind: PitKind): (p: Pit)
    ensures p.kind == kind
    ensures IsStash(kind) ==> p.value == 0
    ensures !IsStash(kind) ==> p.value == InitialSeeds
  {
    match kind
    case AlmutaPit => Pit(InitialSeeds, kind)
    case BatalPit => Pit(InitialSeeds, kind)
    case AlmutaStash => Pit(0, kind)
    case BatalStash => Pit(0, kind)
  }

  /** Drops one seed from the hand into the pit: the hand shrinks by one. */
  function AddSeed(p: Pit, hand: nat): (r: (Pit, nat))
    requires hand > 0
    ensures r.0.kind == p.kind
    ensures r.0.value > p.value && r.1 < hand
    ensures r.0.value + r.1 == p.value + hand
    ensures r.0.value == p.value + 1 && r.1 == hand - 1
  {
    (Pit(p.value + 1, p.kind), hand - 1)
  }

  /** Whether the pit is one of the player's own fields (never a stash). */
  predicate IsPlayerPit(p: Pit, player: Player) {
    match player
    case Almuta => p.kind == AlmutaPit
    case Batal => p.kind == BatalPit
  }

  /** The kind of the pit at index i in the fixed layout. */
  function KindAt(i: nat): PitKind
    requires i < PitCount
  {
    if i < 6 then AlmutaPit
    else if i == 6 then AlmutaStash
    else if i < 13 then BatalPit
    else BatalStash
  }

  /** First index of the player's fields; they span FieldStart .. FieldStart + 6. */
  function FieldStart(player: Player): (lo: nat)
    ensures lo + FieldsPerSide < PitCount
  {
    match player
    case Almuta => 0
    case Batal => 7
  }

  /** Index of the player's stash. */
  function StashIndex(player: Player): (i: nat)
    ensures i < PitCount
  {
    match player
    case Almuta => 6
    case Batal => 13
  }

  /** Whether index i is one of the player's six fields. */
  predicate IsFieldOf(i: nat, player: Player)
    ensures IsFieldOf(i, player) ==> i < PitCount
  {
    match player
    case Almuta => i < 6
    case Batal => 7 <= i < 13
  }

  /** A board is 14 pits whose kinds follow the fixed layout. */
  predicate ValidBoard(b: Board) {
    |b| == PitCount && forall i :: 0 <= i < PitCount ==> b[i].kind == KindAt(i)
  }

  /** Total number of seeds in a run of pits. */
  function Seeds(b: seq<Pit>): nat {
    if |b| == 0 then 0 else b[0].value + Seeds(b[1..])
  }

  function StashSeeds(b: Board, player: Player): nat
    requires ValidBoard(b)
  {
    b[StashIndex(player)].value
  }

  /** Seeds lying in the player's six fields. */
  function FieldSeeds(b: Board, player: Player): nat
    requires ValidBoard(b)
  {
    Seeds(b[FieldStart(player)..FieldStart(player) + FieldsPerSide])
  }

  /** The starting board: six seeds in each field, both stashes empty. */
  function NewBoard(): (b: Board)
    ensures ValidBoard(b)
    ensures forall i :: 0 <= i < PitCount ==> b[i].value == (if IsStash(KindAt(i)) then 0 else InitialSeeds)
    ensures Seeds(b) == TotalSeeds
  {
    var b := seq(PitCount, i requires 0 <= i < PitCount => NewPit(KindAt(i)));
    NewBoardSeeds(b);
    b
  }

  /** The total of a run is its first pit plus the total of the rest. */
  lemma SeedsFrom(b: seq<Pit>, k: nat)
    requires k < |b|
    ensures Seeds(b[k..]) == b[k].value + Seeds(b[k + 1..])
  {
    assert b[k..][1..] == b[k + 1..];
  }

  lemma NewBoardSeeds(b: Board)
    requires |b| == PitCount
    requires forall i :: 0 <= i < PitCount ==> b[i].value == (if IsStash(KindAt(i)) then 0 else InitialSeeds)
    ensures Seeds(b) == TotalSeeds
  {
    var k := PitCount;
    while k > 0
      invariant 0 <= k <= PitCount
      invariant Seeds(b[k..]) == InitialSeeds * (if k <= 6 then 12 - k else if k < PitCount then 13 - k else 0)
    {
      k := k - 1;
      SeedsFrom(b, k);
    }
    assert b[0..] == b;
  }

  /** Replacing one pit changes the total by exactly the difference in its value. */
  lemma {:induction false} SeedsUpdate(b: seq<Pit>, j: nat, p: Pit)
    requires j < |b|
    ensures Seeds(b[j := p]) == Seeds(b) - b[j].value + p.value
    decreases |b|
  {
    if j == 0 {
      assert b[j := p][1..] == b[1..];
    } else {
      assert b[j := p][1..] == b[1..][j - 1 := p];
      SeedsUpdate(b[1..], j - 1, p);
    }
  }

  /** No single pit holds more seeds than the whole run. */
  lemma {:induction false} PitAtMostSeeds(b: seq<Pit>, j: nat)
    requires j < |b|
    ensures b[j].value <= Seeds(b)
    decreases |b|
  {
    if j > 0 {
      PitAtMostSeeds(b[1..], j - 1);
    }
  }

  /** Two distinct pits together hold no more seeds than the whole run. */
  lemma {:induction false} TwoPitsAtMostSeeds(b: seq<Pit>, i: nat, j: nat)
    requires i < |b| && j < |b| && i != j
    ensures b[i].value + b[j].value <= Seeds(b)
    decreases |b|
  {
    if i == 0 {
      PitAtMostSeeds(b[1..], j - 1);
    } else if j == 0 {
      PitAtMostSeeds(b[1..], i - 1);
    } else {
      TwoPitsAtMostSeeds(b[1..], i - 1, j - 1);
    }
  }

  /** The total of a run is the total of its two halves. */
  lemma {:induction false} SeedsSplit(b: seq<Pit>, k: nat)
    requires k <= |b|
    ensures Seeds(b) == Seeds(b[..k]) + Seeds(b[k..])
    decreases k
  {
    if k > 0 {
      assert b[1..][..k - 1] == b[..k][1..];
      assert b[1..][k - 1..] == b[k..];
      SeedsSplit(b[1..], k - 1);
    }
  }

  /** On a valid board, IsPlayerPit picks out exactly the player's six field indices. */
  lemma PlayerPitIsField(b: Board, i: nat, player: Player)
    requires ValidBoard(b) && i < PitCount
    ensures IsPlayerPit(b[i], player) <==> IsFieldOf(i, player)
  {}

  /** The field opposite a field of one player, 12 - i, is a field of the other. */
  lemma OppositeField(i: nat, player: Player)
    requires IsFieldOf(i, player)
    ensures 0 <= 12 - i && IsFieldOf(12 - i, player.Opposite())
  {}
}
