# Kalah rules engine and negamax search, in Dafny

This project models two parts of a small Rust Kalah player:

- the rules engine of `src/game.rs`;
- the depth-limited alpha-beta negamax search of `src/engine.rs`.

The board has 14 pits. Pits 0 to 5 are Almuta's fields and pit 6 is Almuta's stash. Pits 7 to 12 are Batal's fields and pit 13 is Batal's stash. Every field starts with six seeds, so 72 seeds are in play. A stash holding more than 36 seeds ends the game.

The modules follow the source:

- `Board` (board.dfy): players, pits, the fixed layout, seed totals and the starting board.
- `Sowing` (sowing.dfy): `distribute_seeds` and `steal_opposing_seeds`. Sowing is a recursive function on the seeds left in hand. The opponent's stash is passed over without using up a seed. `Targets` and `Drop` give a reference description in which every step drops a seed, and `SowDropsOnTargets` proves that the two agree.
- `Game` (game.dfy): the state record, `new_game`, `play_move` with its turn bookkeeping, `play_moves`, `valid_moves`, `end_by_majority_seeds`, `snatch_seeds`, `resolve_game` and `evaluate`.
- `Turns` (turns.dfy): `generate_move_sequence_results`. It expands a whole turn, chaining extra turns. It terminates on the number of seeds outside the mover's stash. Replaying the turn record of a generated state in which the turn passed to the other player reproduces that state. Conversely, every legal way of playing a whole turn ends in a generated state.
- `Engine` (engine.dfy): `negamax`. The search is stated on the game tree of whole turns cut at the search depth. It is compared with plain minimax (`TreeValue`). The tie rule is a parameter: `LastMaximal` is the `>=` the code uses, and `FirstMaximal` is the corrected rule.
- `Findings` (findings.dfy): three places in the rules engine where the code does something other than what the game's rules evidently intend. Each is shown against the as-written model, next to a corrected definition with its intended property proved. The fourth, the search's tie rule, sits in engine.dfy as the `LastMaximal` and `FirstMaximal` rules.

The operations that model the code (`ResolveGame`, `SnatchSeeds`, `DistributeSeeds`, `Negamax`) keep the behaviour as written. Each corrected definition sits beside them and is related to them by a lemma.

Where the documented rules and the code disagree, the model follows the code:

- 72 seeds are in play, not 48.
- A capture leaves the capturing seed in its field.
- A stuck player is credited with the opponent's field seeds.
- Ties keep the last maximal continuation.
- At a position where the player to move is stuck, the search reports the stale turn record of that position, not "no moves" (`Engine.StuckSearchReturnsOldRecord`).

## Model

| member | source | states |
|---|---|---|
| Board.OppositeInvolution | src/game.rs:327-339 | the opposite of the opposite player is the player, and the two players' relative factors are negatives of each other |
| Board.NewPit | src/game.rs:293-298 | a new field holds 6 seeds and a new stash holds none; the kind is kept |
| Board.Player.Opposite | src/game.rs:328-333 | the opposite of a player is the other of the two players |
| Board.Player.RelativeFactor | src/game.rs:334-339 | the factor is 1 for Almuta and -1 for Batal |
| Board.AddSeed | src/game.rs:299-302 | dropping a seed raises the pit by exactly one and lowers the hand by exactly one, and the pit keeps its kind |
| Board.PlayerPitIsField | src/game.rs:303-308 | on a laid-out board, `is_player_pit` holds exactly at the player's six field indices, never at a stash |
| Board.NewBoard | src/game.rs:252-269 | the starting board follows the layout, has 6 seeds per field and empty stashes, 72 seeds in all |
| Board.OppositeField | src/game.rs:126-127 | the pit opposite one player's field, `12 - i`, is a field of the other player |
| Sowing.Sow | src/game.rs:83-94 | sowing a hand adds exactly that many seeds to the board, leaves the opponent's stash as it was and lowers no pit; with seeds in hand it ends on a pit the mover may sow into, which gained a seed, and with none it changes nothing |
| Sowing.NextPit | src/game.rs:84-93 | the next pit is `(at + 1) % 14`, or `(at + 2) % 14` when the former is the opponent's stash; it is never the opponent's stash |
| Sowing.Targets | src/game.rs:83-94 | the reference sowing gives one target per seed, and none of them is the opponent's stash |
| Sowing.SowDropsOnTargets | src/game.rs:83-94 | sowing with the free pass over the opponent's stash drops exactly one seed on each reference target and ends on the last one |
| Sowing.StealOpposingSeeds | src/game.rs:126-130 | a capture empties field `12 - i` into the mover's stash, changes nothing else and conserves seeds |
| Sowing.SowFrom | src/game.rs:79-94 | emptying the chosen pit and sowing conserves seeds, leaves the opponent's stash alone, and with no seeds changes nothing |
| Sowing.DistributeSeeds | src/game.rs:78-107 | a selection with any capture conserves seeds and leaves the opponent's stash alone; an extra turn happens exactly when the last seed lands in the mover's stash, which then grows |
| Sowing.CaptureKeepsLandingSeed | src/game.rs:95-101 | when the last seed lands alone in a mover's field, the opposite field is emptied into the mover's stash, the landing field keeps its seed, and the turn passes |
| Sowing.NoCaptureIsSowing | src/game.rs:95-101 | without a capture, the board after the selection is the sown board |
| Game.NewGame | src/game.rs:20-30 | a new game has 6 seeds in every field, empty stashes, 72 seeds, Almuta to play, game in play, empty record, `switched_turn` set and no turns played |
| Game.MajorityDecides | src/game.rs:55-57 | with all 72 seeds on the board, a stash above 36 is larger than the other stash |
| Game.ResolveGame | src/game.rs:151-161 | the game is over; it is drawn exactly when the stashes are level; the reported winner holds more seeds when Almuta is to move and fewer when Batal is |
| Game.PlayMove | src/game.rs:39-54 | the board is the distributed board; the record restarts on a new turn and gets the pit; the turn passes exactly when `to_play` flips; a pass counts a turn and resolves the game on a majority; seeds are conserved |
| Game.ExtraTurnIffLastInOwnStash | src/game.rs:45-53 | a selection keeps the turn exactly when its last seed lands in the mover's own stash |
| Game.FewMovesArePlayable | src/game.rs:35-49 | selections of pits fewer in number than the turns left on the `u8` counter never reach a selection with the counter at 255 |
| Game.PlaySequence | src/game.rs:35-37 | playing selections one after another conserves seeds and adds at most one turn per selection |
| Game.SnatchSeeds | src/game.rs:115-125 | the stuck player's stash grows by the opponent's field seeds, no other pit changes, the board gains that many seeds, and the game is resolved |
| Game.PlayMoves | src/game.rs:31-38 | an empty record ends the game, credits the stuck player's stash with the opponent's field seeds and changes no other pit; otherwise the selections are played one after another and seeds are conserved |
| Game.NonEmptyPits | src/game.rs:109-113 | exactly the indices in the range whose pits hold seeds, strictly ascending |
| Game.ValidMoves | src/game.rs:108-114 | a pit is listed exactly when it is a non-empty field of the player to move; the list is ascending, and empty exactly when all those fields are empty |
| Game.Evaluate | src/game.rs:162-176 | while in play, own stash minus the opponent's; 0 on a draw; `i32::MAX - turns` for a win of the player to move and its negation for a loss; always within `±i32::MAX` |
| Game.EvaluateAntisymmetric | src/game.rs:175 | flipping the player to move negates the evaluation |
| Game.EvaluatePrefersFasterWins | src/game.rs:169-173 | a win in fewer turns scores higher and a loss in fewer turns scores lower |
| Turns.ExtraTurnShrinksMeasure | src/game.rs:66-70 | a legal selection that keeps the turn keeps the mover and strictly lowers the seeds outside the mover's stash |
| Turns.MoveSequenceResults | src/game.rs:58-76 | the list is never empty; every state in it ends the turn (turn passed to the other player, or game over), adds at most one turn and stays consistent |
| Turns.ExpandMoves | src/game.rs:65-75 | each selection yields at least one end-of-turn state |
| Turns.ResultsOf | src/game.rs:67-73 | one legal selection yields at least one state, and each state it yields ends the turn |
| Turns.ResultsOfContains | src/game.rs:67-73 | a selection that passes the turn yields its state; one that keeps it yields every state of the continued turn |
| Turns.StuckPlayerSnatches | src/game.rs:59-64 | a player with empty fields yields exactly one state: the game is over, the same player is to move, the turn record is kept, and the stash is credited with the opponent's field seeds |
| Turns.ReplayReproducesResult | src/game.rs:58-76 | for every generated state in which the turn passed, the selections recorded in it after the current turn are playable from the current state, and replaying them reproduces it |
| Turns.PlayTurn | src/game.rs:58-76 | a whole turn ends with the turn passed to the other player or the game over, at most one turn counted, and consistency kept |
| Turns.TurnIsGenerated | src/game.rs:58-76 | every whole turn is among the generated states: legal selections that keep the turn until the last passes it, or until the player is left stuck and snatches |
| Engine.GameTree | src/engine.rs:8-13 | a position at the horizon or after the game is a leaf worth its evaluation; otherwise its children carry the end-of-turn states' records, in order |
| Engine.NodeValueIsBestChild | src/engine.rs:11-22 | minimax: a node's value is at least every child's negated value and equals one of them |
| Engine.TreeSearch | src/engine.rs:2-28 | a leaf gives its score and no moves; a node with children reports the record of one of them and leaves alpha raised to the score |
| Engine.Scan | src/engine.rs:13-26 | the loop never lowers the best score, keeps a record once it has one, reports a child's record, and leaves alpha as the maximum of alpha and the score |
| Engine.Examine | src/engine.rs:14-22 | one child raises alpha and the best score, and its record replaces the kept one or not |
| Engine.Examined | src/engine.rs:14-25 | the loop examines at least one child when there is one, and never more than remain |
| Engine.ExaminedSearches | src/engine.rs:15-16 | each examined child is searched with the window negated and swapped around the alpha then in force |
| Engine.ExaminedUntilCutoff | src/engine.rs:18-25 | alpha starts at the caller's alpha, each child raises it to the maximum with its score, it stays below beta before every child after the first, and the loop stops early only after the child that lifts alpha to beta |
| Engine.ScanKeepsLastMaximal | src/engine.rs:13-26 | under `>=`, the loop either returns the incoming best and moves, when every examined child scores below that best, or returns the record of an examined child whose negated score is the returned score and which no later examined child reaches |
| Engine.TreeSearchKeepsLastMaximal | src/engine.rs:2-28 | under `>=`, a node with children returns the record of the last examined child scoring the returned score |
| Engine.ScanIsMaxOfExamined | src/engine.rs:11-22 | the returned score is the maximum of the starting best and the negated scores of the examined children |
| Engine.FailSoft | src/engine.rs:2-28 | alpha-beta is fail-soft against minimax: a score inside the window is the value, one at or below alpha bounds it from above, one at or above beta from below |
| Engine.ScanFailSoft | src/engine.rs:13-26 | the loop invariant behind the fail-soft property holds to the end of the loop |
| Engine.StepKeepsInvariant | src/engine.rs:15-25 | one child's fail-soft score keeps the loop invariant, or cuts off with a score the node's value reaches |
| Engine.FirstMaximalAchievesValue | src/engine.rs:19-22 | with the first-maximal tie rule and the full window, the reported child is worth the node's value |
| Engine.LastMaximalKeepsFailedLowChild | src/engine.rs:19-22 | on a two-child tree, `>=` keeps the second child, whose pruned score ties at 5 but whose value is -10; first-maximal keeps the first |
| Engine.Negamax | src/engine.rs:2-28 | at depth 0 or after the game, the evaluation with no moves; otherwise the record of one of the end-of-turn states, with alpha raised to the score |
| Engine.NegamaxExamines | src/engine.rs:11-26 | at a position in play, the loop examines one to all end-of-turn states in order with the negated, swapped window; alpha chains upward; it stops early only after a cutoff; the score is the maximum of `-i32::MAX` and the negated scores seen |
| Engine.NegamaxKeepsLastMaximal | src/engine.rs:11-26 | at a position in play, the search returns the turn record of the last examined end-of-turn state whose negated score is the returned score; every later examined state scores strictly less |
| Engine.NegamaxFailSoft | src/engine.rs:2-28 | the search of a position is fail-soft against its minimax value |
| Engine.FullWindowIsExact | src/engine.rs:11-26 | with the full window `(-i32::MAX, i32::MAX)`, the score is the minimax value |
| Engine.DepthOneIsBestEvaluation | src/engine.rs:13-22 | at depth 1 with the full window, the score is the largest negated evaluation over all end-of-turn states |
| Engine.GameTreeChild | src/engine.rs:13-16 | the k-th child of the game tree is the tree of the k-th end-of-turn state one turn shallower, with its record and value |
| Engine.CorrectedNegamax | src/engine.rs:19-22 | with the first-maximal rule, a position in play always yields moves, and alpha is raised to the score |
| Engine.CorrectedNegamaxChoosesBestTurn | src/engine.rs:19-22 | with the full window, the corrected search returns the minimax value and the record of an end-of-turn state achieving it |
| Engine.StuckSearchReturnsOldRecord | src/engine.rs:13-21 | at a position where the player to move has empty fields, the search reports that position's own turn record |
| Findings.AlmutaMajorityReportedForBatal | src/game.rs:151-161 | when Almuta's selection passes the turn with more than 36 seeds in Almuta's stash, Almuta's stash is larger, yet the game is given to Batal |
| Findings.ResolveGameExample | src/game.rs:151-161 | stashes 37 and 32 with Batal to move: written resolution gives Batal, intended gives Almuta |
| Findings.ResolveGameByStash | src/game.rs:151-161 | the corrected resolution: a player wins exactly when their stash is larger, and it is a draw exactly when the stashes are level |
| Findings.ResolveGameAgreesOnlyForAlmuta | src/game.rs:151-161 | the written and corrected resolutions agree exactly when Almuta is to move or the stashes are level |
| Findings.StuckBatalSnatchCreatesSeed | src/game.rs:115-125 | a stuck Batal snatching Almuta's single field seed leaves 73 seeds on the board, and Almuta is declared the winner |
| Findings.SweepSeeds | src/game.rs:115-125 | the corrected end: the opponent's field seeds go to the opponent's stash, those fields empty, nothing else changes, seeds are conserved, and the stashes decide |
| Findings.SnatchCountsFieldSeedsTwice | src/game.rs:115-125 | against the corrected end, snatching has exactly the opponent's field seeds more on the board and more in the stuck player's stash, and that many fewer in the opponent's stash |
| Findings.StuckBatalSweepIsDraw | src/game.rs:115-125 | on the same position, the corrected end keeps 72 seeds and is a 36-36 draw |
| Findings.CaptureIntended | src/game.rs:126-130 | the corrected capture empties both the landing field and the opposite field into the mover's stash and conserves seeds |
| Findings.CaptureIntendedTakesLandingSeed | src/game.rs:95-101 | against the written capture, the corrected one differs only in the landing seed: that field is 0 instead of 1, and the stash has one seed more |

## Left out

- Console and driver code is not modelled: `src/main.rs`, `ai_vs_ai`, `player_vs_ai`, `get_player_move` and both `Display` implementations. They are standard input, standard output and printing.
- The calls to `negamax` at game.rs:187 and game.rs:216 pass the arguments in a different order and kind than engine.rs:2-7 declares. The model follows engine.rs. `Engine.FullWindowIsExact` covers the full window those calls evidently mean.
- `is_player_pit`, `end_by_majority_seeds` and the deposit test at game.rs:86-89 are the predicates `Board.IsPlayerPit`, `Game.EndByMajoritySeeds` and `Sowing.CanDeposit`. They carry no contract of their own. `Board.PlayerPitIsField`, `Game.PlayMove` with `Game.MajorityDecides`, and `Sowing.Sow` state what they decide.
- `game_is_over` is modelled as `gameState.GameOver?`. `player_pits_slice`, `stash_index` and `stash_seeds` are modelled as `Board.FieldStart`, `Board.StashIndex` and `Board.StashSeeds`.
- Pit values are `i32` in the source and `nat` here. No pit ever holds a negative count or more seeds than the board holds.
- Game.PlayMove: requires `turnsPlayed < 255`. The `u8` increment at game.rs:49 would overflow otherwise, and the model does not describe that overflow. `PlaySequence` and `PlayMoves` require the selections to be playable, meaning none is made with the counter at 255. `MoveSequenceResults` and `Negamax` carry the matching bound on the turns still to play.
- Game.Evaluate: the `±i32::MAX` bound is stated for consistent states, meaning all 72 seeds on the board while the game is in play. The `i32` subtraction cannot overflow for those.
- Engine.Negamax: requires a consistent state and `turnsPlayed + depth <= 255`, for the same `u8` reason. The depth is a `nat`, not a `u8`.
- Engine.Negamax: scores, alpha and beta range over `±i32::MAX`, so `i32::MIN` is left out. Negating it at engine.rs:15 would overflow. The game loop's window and every evaluation lie in that range.
- Engine.TreeSearch: its own contract says only that the kept record is one of the children's. `Engine.TreeSearchKeepsLastMaximal` states which child the `>=` rule keeps.
- Engine.Scan: its own contract says only that the kept record is the incoming one or a child's. `Engine.ScanKeepsLastMaximal` states which child the `>=` rule keeps.
- Engine.Examine: its own contract says only that the child's record replaces the kept one or not. The step lemma `Engine.ScanStep` states that it replaces it exactly when the tie rule says so.
- Engine.Negamax: alpha and beta are `&mut i32` in the source. Here alpha is returned in the result, and beta is only read, as in the source. The `&mut` temporaries of the recursive call are values.
- Engine.Negamax: it is modelled as a search over the game tree of the position rather than over the states directly. Generating the end-of-turn states is pure, so the same positions are searched in the same order.
- Sowing.Sow: its own contract does not say which pits receive the seeds. `Sowing.SowDropsOnTargets` states that against the reference targets.
- Turns.ResultsOf: its own contract does not list the states; `Turns.ResultsOfContains` and `Turns.TurnIsGenerated` state which states are generated.
- Sowing.DistributeSeeds: requires `pit < 14`. A larger index makes the source panic on an out-of-bounds access, and no legal selection is one.

## Findings

| source | as written | input that shows it | evidently intended | confidence | as-written member | corrected member |
|---|---|---|---|---|---|---|
| src/game.rs:151-161 | the stashes are compared from the point of view of the player to move, but `Greater` is always reported as Almuta winning | stashes 37 (Almuta) and 32 (Batal) with Batal to move, as after Almuta's majority-reaching selection: reported as a win for Batal | the player with the larger stash wins | high; not executed | Findings.AlmutaMajorityReportedForBatal | Findings.ResolveGameByStash |
| src/game.rs:115-125 | a stuck player's stash is credited with the opponent's field seeds, which stay on the board | Batal to move with empty fields, Almuta's fields 1,0,0,0,0,0, stashes 35 and 36: 73 seeds on the board and Almuta declared the winner | the opponent's field seeds go to the opponent's own stash, so it ends 36-36, a draw | high; not executed | Findings.StuckBatalSnatchCreatesSeed | Findings.SweepSeeds |
| src/game.rs:126-130 | a capture moves the opposite field's seeds into the stash but leaves the capturing seed in its field | Almuta sows one seed from pit 0 into an empty pit 1 while pit 11 holds seeds: pit 1 keeps 1 seed after the capture | the capturing seed goes into the stash with the captured ones | medium; not executed | Sowing.CaptureKeepsLandingSeed | Findings.CaptureIntended |
| src/engine.rs:19 | `eval >= best_eval` keeps the last child tying the best score, although a pruned child's score is only an upper bound on its value | a node whose first child is worth 5 and whose second child's pruned search also reports 5 though its value is -10: the second child is chosen | keep the first maximal child, which achieves the reported value | high; not executed | Engine.LastMaximalKeepsFailedLowChild | Engine.FirstMaximalAchievesValue |
