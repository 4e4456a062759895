# Acer challenge: the solver and the round state, in Dafny

This project models the verified core of a numbers game. In each round the
player gets six tiles, some *large* (drawn from 25, 50, 75 and 100) and the
rest *small* (drawn from 1 to 10, each present twice), and a three-digit
target. The player combines two face-up tiles at a time with `+ - * /` into
a result tile, and finally locks in one tile. The game then shows the best
answer its solver can find.

The project has six modules:

- `Bits` (`bits.dfy`) models bit masks as plain numbers, with `1 << i`, `&`,
  `|` and `^` defined digit by digit. It proves the sub-mask facts the
  solver's loop relies on: `(a - 1) & m` is the next lower sub-mask, and
  `m ^ a` is the complement `m - a`.
- `Options` (`options.dfy`) holds the optional-value datatype.
- `Expressions` (`expressions.dfy`) covers the solver's expressions. They are
  trees over tile positions, which `Eval` evaluates. `Legal` says what the
  solver promises of an expression: each tile is used at most once, every
  intermediate value lies in `(0, 50000]`, subtraction is larger minus
  smaller, and division is exact.
- `Solver` (`solver.dfy`) models `computeBestSolution`:
  - The memo is an `array` indexed by mask. Each element is the mask's
    entries in insertion order, which is the order the program's `Map`
    iterates them in.
  - The methods `InitMemo`, `ProcessMask` (the sub-mask split loop),
    `CombineInto`/`CombineRow` (the two entry loops) and `Scan` keep the
    program's loops.
  - They are proved against the reference definition `Reach`, which gives
    the values reachable from exactly the tiles of a mask. Every mask ends
    up holding exactly those values, once each, each with a sound
    expression. The answer is the first entry, in mask order then insertion
    order, that is closest to the target. No reachable value is closer.
  - `LegalReach` ties `Reach` back to expressions: the value of every legal
    expression is reachable from exactly the tiles it uses. So no legal
    expression over the tiles comes closer to the target than the answer,
    and when some subset of the tiles can make the target, the answer's
    distance is 0.
- `Round` (`round.dfy`) covers composing a round: the two pools, the draw of
  six tiles with a chosen number of large ones, and the target formed from
  three digits.
- `Game` (`game.dfy`):
  - The class `Game` holds the screen's state: tiles, starting tiles,
    selection, locked tile, work lines, undo stack, target, best answer and
    phase.
  - Its methods are the handlers: tile click, operation, undo, reset, lock
    in, and the state changes of a round's start.
  - The guards `canOperate`, `canLockIn`, `canUndo` and `canReset` are the
    predicates `CanOperate`, `CanLockIn`, `CanUndo` and `CanReset`.
  - The class invariant `Valid` says:
    - at most two distinct tiles are selected, and they are in play;
    - tile ids are distinct and already issued, in play and in every
      snapshot;
    - there is a snapshot to go back to whenever there is work.

Some parts of the program are not part of this model and are parameters
instead:

- The arithmetic rules `applyOperation` are a function parameter. It returns
  either a value with the line of work, or a refusal.
- The generator's `shuffle` is a function parameter, required to return a
  permutation of its input.
- `randInt` is modelled by digits passed in, each in the range the program
  asks for.
- Tile ids, which the program creates at random, come from a counter here.
  Every new id is therefore fresh.

Undo is modelled as the program is written. Each operation saves the state
*before* the step, and the first snapshot is the round's face-down draw.
Undo drops the top snapshot and restores the one beneath it. So undo
restores the state before the previous step, and undoing the first step
(like reset) puts back the tiles as first drawn, face down.

JavaScript's `%` truncates and Dafny's is Euclidean. Both are zero in exactly
the same cases, and an exact quotient is the same in both, so the solver's
division guard and quotient agree with the program for all integers.

## Model

| member | source | states |
|---|---|---|
| Bits.Pow2 | lib/solver.ts:25 | `1 << i` is a positive mask |
| Bits.And | lib/solver.ts:30 | `x & y` is no larger than either operand |
| Bits.Or | lib/solver.ts:31-33 | the bitwise or of `x` and `y` lies between the larger operand and the sum of both |
| Bits.Xor | lib/solver.ts:31-32 | `x ^ y` is at most the sum of the operands and is 0 exactly when they are equal, which is the `b === 0` skip |
| Bits.DisjointOr | lib/solver.ts:31-33 | the union of two disjoint masks is their sum |
| Bits.OrSubmask | lib/solver.ts:31-33 | each operand of a union is a sub-mask of it |
| Bits.OrBelow | lib/solver.ts:29 | the union of two masks below `1 << n` stays below it |
| Bits.NextSubmask | lib/solver.ts:30 | `(a - 1) & m` is the largest sub-mask of `m` below the sub-mask `a`, so the loop visits every sub-mask in decreasing order |
| Bits.Complement | lib/solver.ts:31 | for a sub-mask `a` of `m`, `m ^ a` is `m - a`, a sub-mask of `m` disjoint from `a`, and the two together make up `m` |
| Bits.AndIsSubmask | lib/solver.ts:30 | `x & m` is a sub-mask of `m` |
| Bits.Pow2NoProperSubmask | lib/solver.ts:30 | on a single tile's mask the split loop starts at 0 and does nothing |
| Solver.AbsDiff | lib/solver.ts:59 | the distance is `target - value` or `value - target`, it is never negative, and it is 0 exactly at the target |
| Solver.SingletonIndex | lib/solver.ts:25 | recognises a mask `1 << i` with `i < n` and returns `i`; any other mask is no single tile's |
| Solver.SingletonIndexOfPow2 | lib/solver.ts:25 | the mask `1 << i` is recognised as tile `i` |
| Solver.OutSet | lib/solver.ts:17-22 | a value is added exactly when it lies in `(0, 50000]` and is not yet present; earlier entries and their expressions stay; at most one entry per value |
| Solver.OutSetAll | lib/solver.ts:42-49 | successive guarded `outSet` calls add exactly the admitted values |
| Solver.OutSetAllKeeps | lib/solver.ts:42-49 | successive `outSet` calls keep the existing entries, in order |
| Solver.OutSetAllAdds | lib/solver.ts:42-49 | every entry added comes from a call whose guard held and whose value is in range |
| Solver.OutSetAllDistinct | lib/solver.ts:42-49 | successive `outSet` calls keep one entry per value |
| Solver.OpCandidate | lib/solver.ts:42-49 | each in-range sum, product, positive difference or exact quotient of two values is admitted by one of the six calls |
| Solver.CandidateOp | lib/solver.ts:42-49 | each value the six calls admit is an in-range sum, product, positive difference or exact quotient of the two values |
| Solver.PairValues | lib/solver.ts:42-49 | the six calls admit exactly the values one step produces from the two values |
| Solver.CombinePair | lib/solver.ts:42-49 | the six guarded calls for two values add exactly their in-range sum, product, larger-minus-smaller difference and exact quotients; earlier entries stay |
| Solver.CandidateSound | lib/solver.ts:42-49 | each value those calls admit, from sound entries of two disjoint masks, has a legal expression over exactly the union of the masks that evaluates to it |
| Solver.CombinePairSound | lib/solver.ts:42-49 | the pair step keeps every entry of the mask sound |
| Solver.CombineSymmetric | lib/solver.ts:33 | combining is symmetric in the two halves, so skipping `a > b` loses no value |
| Solver.CombineRow | lib/solver.ts:41-50 | the inner entry loop adds exactly the combinations of one value with every value of the other half, keeping entries, distinctness and soundness |
| Solver.CombineInto | lib/solver.ts:40-51 | both entry loops add exactly the combinations of every value of one half with every value of the other, keeping entries, distinctness and soundness |
| Solver.SplitHalves | lib/solver.ts:30-33 | a split the loop does not skip has disjoint non-empty halves `a < b` that together make the mask, both smaller than it |
| Solver.SplitSymmetric | lib/solver.ts:31-33 | a split and its complement produce the same values |
| Solver.DoneStart | lib/solver.ts:30 | no split has been visited when the loop starts at `(m - 1) & m` |
| Solver.DoneStep | lib/solver.ts:30-37 | visiting sub-mask `a` adds its split's values exactly when `a <= b`, and nothing else is skipped between two visited sub-masks |
| Solver.DoneAll | lib/solver.ts:29-33 | once the loop reaches 0, the visited splits yield every value reachable from the mask's tiles |
| Solver.InitialCell | lib/solver.ts:24-27 | after the first loop a mask holds at most one entry |
| Solver.InitialCellFacts | lib/solver.ts:24-27 | a single tile's cell holds just that tile's own value, unfiltered, which is final; every other cell starts empty |
| Solver.InitMemo | lib/solver.ts:24-27 | builds one cell per mask below `1 << n`, with `tiles[i]` under `1 << i` and every other cell empty |
| Solver.VisitSplit | lib/solver.ts:31-51 | visiting one sub-mask adds that split's values when it is not skipped, and moves the visited range down to the next sub-mask, keeping entries, distinctness and soundness |
| Solver.SplitLoopEntry | lib/solver.ts:24-30 | before the split loop nothing is visited, the first sub-mask is proper, and a single tile's mask has none |
| Solver.SplitLoopExit | lib/solver.ts:29-52 | when the loop ends every split has been visited, so the cell is final |
| Solver.ProcessMask | lib/solver.ts:30-52 | with all smaller masks final, the split loop leaves the mask holding exactly its reachable values, once each, each with a sound expression, extending its initial cell |
| Solver.FillMemo | lib/solver.ts:29-53 | masks processed in increasing order end final; a single tile's cell keeps its initial entry |
| Solver.FlattenHas | lib/solver.ts:56-58 | the scan visits every entry of every mask |
| Solver.FlattenFrom | lib/solver.ts:56-58 | every entry the scan visits belongs to some mask |
| Solver.FlattenPrefix | lib/solver.ts:56-63 | what the scan has visited at any point is a prefix of the full visit |
| Solver.ScanStep | lib/solver.ts:60-62 | an entry replaces the best exactly when there is none or it is strictly closer, which keeps "first closest so far" |
| Solver.ScanExact | lib/solver.ts:63 | an exact hit is first closest whatever entries follow, so returning at once is right |
| Solver.ScanCell | lib/solver.ts:58-64 | the scan over one mask's entries keeps the first closest entry so far, and stops only on an exact hit |
| Solver.Scan | lib/solver.ts:55-67 | returns none for no entries, otherwise the first entry (mask order, then insertion order) at least distance from the target |
| Solver.BestIsClosest | lib/solver.ts:55-67 | the scan's answer is no farther from the target than any entry of any non-empty mask |
| Solver.BestIsOptimal | lib/solver.ts:55-67 | on a finished memo, no reachable value is closer to the target than the answer |
| Solver.BestIsSound | lib/solver.ts:55-67 | on a finished memo, the answer is a reachable value with a sound expression and its distance to the target |
| Solver.LegalStepInOps | lib/solver.ts:42-49 | a legal step's value is among the values the six calls try for its operands |
| Solver.SplitNotSingleton | lib/solver.ts:24-31 | a mask with a proper non-empty sub-mask is no single tile's mask |
| Solver.LegalReach | lib/solver.ts:29-51 | every legal expression uses a non-empty set of the tiles, and its value is reachable from exactly those tiles, so the recurrence misses no expression |
| Solver.BestBeatsLegal | lib/solver.ts:55-67 | on a finished memo, no legal expression over the tiles is closer to the target than the answer |
| Solver.ComputeBestSolution | lib/solver.ts:8-68 | the memo ends with every non-empty mask holding exactly its reachable values, each soundly, and singletons holding their tile. The answer is none exactly when there are no tiles; otherwise it is the first closest entry, no reachable value is closer, and no legal expression over the tiles is closer |
| Round.Doubled | components/AcerChallengeGame.tsx:16 | the small pool has 20 numbers: each of `1 .. 10` exactly twice and nothing else |
| Round.KindValues | components/AcerChallengeGame.tsx:177-180 | the values of one kind in a list are no more than the list |
| Round.KindValuesAppend | components/AcerChallengeGame.tsx:177-180 | the values of a kind in a concatenation are those of the parts |
| Round.KindValuesRemove | components/AcerChallengeGame.tsx:177-180 | taking one element out takes its value, if of that kind, out of the kind's values |
| Round.KindValuesPermutation | components/AcerChallengeGame.tsx:177-180 | shuffling the combined list keeps which values of each kind it holds |
| Round.Tag | components/AcerChallengeGame.tsx:178-179 | every tagged number has the kind; under that kind the list holds exactly the numbers, in order, and under every other kind none |
| Round.Number | components/AcerChallengeGame.tsx:180-185 | each drawn number becomes a face-down tile with the next id; taking the values and kinds back gives the drawn list |
| Round.PrefixMultiset | components/AcerChallengeGame.tsx:174-175 | a `slice(0, k)` of a shuffled pool holds nothing the pool does not |
| Round.DrawnMakeUp | components/AcerChallengeGame.tsx:173-180 | whatever the shuffles return, the draw holds `lc` values of the large pool, `sc` of the small one, and no result |
| Round.DrawFrom | components/AcerChallengeGame.tsx:171-188 | the draw has `lc + sc` tiles, face down, with consecutive ids |
| Round.DrawFromMakeUp | components/AcerChallengeGame.tsx:171-188 | the draw holds no result tile, exactly `lc` large values taken from the large pool and exactly `sc` small values taken from the small pool |
| Round.DrawTiles | components/AcerChallengeGame.tsx:171-188 | `drawTiles(L)` yields six face-down tiles with consecutive fresh ids |
| Round.DrawTilesMakeUp | components/AcerChallengeGame.tsx:171-188 | for `0 <= L <= 4` exactly `L` tiles are large, with values from `{25, 50, 75, 100}`, and `6 - L` are small, from the doubled pool `1 .. 10`; none is a result |
| Round.Target | components/AcerChallengeGame.tsx:337-340 | the target lies in `[100, 999]` and its decimal digits are the three digits |
| Round.TargetOnto | components/AcerChallengeGame.tsx:337-340 | every three-digit number is the target of its own digits |
| Game.Without | components/AcerChallengeGame.tsx:200 | removing an id keeps exactly the other ids and keeps them distinct |
| Game.NextSelection | components/AcerChallengeGame.tsx:198-205 | a selected id is removed; any other is appended, dropping the oldest when two are selected; at most two distinct ids stay so |
| Game.FindTile | components/AcerChallengeGame.tsx:196 | finds a tile in play with that id, or reports that there is none |
| Game.RemovePair | components/AcerChallengeGame.tsx:220 | keeps exactly the tiles whose id is neither operand's |
| Game.RemovePairDistinct | components/AcerChallengeGame.tsx:220 | filtering keeps tile ids distinct |
| Game.RemovePairCount | components/AcerChallengeGame.tsx:220 | with distinct ids, removing two distinct ids in play removes exactly two tiles |
| Game.RemovePairAppend | components/AcerChallengeGame.tsx:220 | filtering distributes over concatenation, keeping a tile exactly when its id is neither operand's, so the kept tiles stay in order |
| Game.AfterStep | components/AcerChallengeGame.tsx:220-221 | the tiles after a step are the filtered tiles followed by one face-up result tile; everything else is dropped |
| Game.FreshId | components/AcerChallengeGame.tsx:221 | a result tile with a fresh id keeps ids distinct and issued |
| Game.StepFacts | components/AcerChallengeGame.tsx:219-221 | a step on two distinct tiles in play leaves one tile fewer, with distinct ids all issued before the next counter value |
| Game.PushSnapshot | components/AcerChallengeGame.tsx:217 | pushing a snapshot of distinct issued ids keeps every snapshot so |
| Game.ConsecutiveIds | components/AcerChallengeGame.tsx:180-185 | tiles numbered from the counter have distinct, issued ids |
| Game.RevealAt | components/AcerChallengeGame.tsx:424-426 | only tile `i` turns face up; ids, values and kinds stay |
| Game.SameIds | components/AcerChallengeGame.tsx:424-426 | a list with the same ids, position by position, keeps the id facts |
| Game.SelectedPair | components/AcerChallengeGame.tsx:211-214 | yields the two selected tiles exactly when both are in play and face up |
| Game.Game.constructor | components/AcerChallengeGame.tsx:39-54 | the initial state: idle, with no tiles, selection, work, snapshots, target or answer |
| Game.Game.RoundActive | components/AcerChallengeGame.tsx:65 | a round is active from the tile reveal until it ends |
| Game.Game.Interactive | components/AcerChallengeGame.tsx:63-67 | the round is interactive exactly in the ready and running phases |
| Game.Game.CanOperate | components/AcerChallengeGame.tsx:67 | a step is allowed exactly when interactive with two tiles selected |
| Game.Game.CanLockIn | components/AcerChallengeGame.tsx:68 | locking in is allowed exactly when interactive with one tile selected, so never together with a step |
| Game.Game.CanUndo | components/AcerChallengeGame.tsx:69 | undo is allowed exactly when interactive with at least two snapshots |
| Game.Game.CanReset | components/AcerChallengeGame.tsx:70 | reset is allowed exactly when interactive with two snapshots or some work, so whenever undo is |
| Game.Game.StartRound | components/AcerChallengeGame.tsx:396-420 | unless tiles or target are being revealed: the round is cleared, the drawn tiles are put down and kept as the starting tiles and as the only snapshot, and the phase is tile reveal; otherwise nothing changes |
| Game.Game.RevealTile | components/AcerChallengeGame.tsx:422-427 | one reveal step turns tile `i` face up and keeps the invariant |
| Game.Game.BeginTargetRoll | components/AcerChallengeGame.tsx:429 | the phase becomes target rolling |
| Game.Game.FixTarget | components/AcerChallengeGame.tsx:383-384 | the target becomes the three-digit number of the digits, and the round is ready |
| Game.Game.TileClick | components/AcerChallengeGame.tsx:194-207 | when interactive and the tile is in play and face up, the selection toggles and another locked tile is unlocked; otherwise nothing changes |
| Game.Game.ApplyStep | components/AcerChallengeGame.tsx:217-224 | the state change of an allowed step: the old state is pushed, the two operands' tiles are replaced by one result tile with the next id, the selection and lock are cleared and the line of work appended, keeping the invariant |
| Game.Game.Operation | components/AcerChallengeGame.tsx:209-231 | succeeds exactly when the guard holds, both selected tiles are face up in play and the step is allowed. Then the previous state is pushed, the two tiles are replaced by one result tile (one tile fewer), the selection and lock are cleared and the line of work is appended. Otherwise nothing changes |
| Game.Game.Undo | components/AcerChallengeGame.tsx:233-245 | with more than one snapshot, the top one is dropped and the one beneath it is restored, with the selection cleared; otherwise nothing changes |
| Game.Game.Reset | components/AcerChallengeGame.tsx:247-258 | when there is anything to reset, the stack collapses to its bottom snapshot, whose tiles are restored, and the work, lock and selection are cleared; otherwise nothing changes |
| Game.Game.ComputeBest | components/AcerChallengeGame.tsx:260-267 | the solver is given the tiles' values in order; the shown answer is the first closest entry of its finished memo and meets `BestFor` |
| Game.Game.LockIn | components/AcerChallengeGame.tsx:269-298 | with one tile selected, in play, and a target set: the tile is locked, the round ends, the reported distance is the tile's distance to the target, and the shown answer is the first closest entry of the finished memo for the starting tiles' values (or the current ones when there are none), meeting `BestFor`; otherwise nothing changes |

## Left out

- Game.Game.StartRound: it is given the six drawn tiles instead of calling `drawTiles` itself. Its requires are the facts `Round.DrawTiles` ensures (six tiles numbered from the id counter). `Round.DrawTilesMakeUp` states what they hold.
- Timers and the countdown (`startTimer`, `stopTimer`, `handleTimeUp`), the digit-rolling animation and its flicker digits, and the waits of the reveal sequence are left out: they are wall-clock and asynchronous behaviour. The reveal sequence is modelled as its state steps `RevealTile`, `BeginTargetRoll` and `FixTarget`, without the abort flag.
- Speech, history storage (`saveHistory`, `loadHistory`), feedback messages, hints and `scoreForDiff` points are left out: they are browser I/O or presentation, or their source is not part of this model.
- The internals of `applyOperation`, `shuffle` and `randInt` are not part of this model; they are parameters. Game.Game.Operation does not assume that an allowed step's value is positive, which no property here needs.
- Tile ids from `crypto.getRandomValues` are left out; ids are issued by a counter, which gives the freshness the program relies on.
- Expressions are trees, not strings. `Expressions.Render` builds the program's text for them, but no property of the text is proved.
- `1 << n` for `n >= 31` wraps in JavaScript; masks here are unbounded, which matches the program for any realistic number of tiles (six in the game).
- JavaScript numbers are modelled as unbounded integers. With integer tiles, `Number.isInteger` never refuses a value; non-integer tile values are not modelled.
- The memo's lazily created maps (`getMap`) are modelled as an array whose cells all start empty, which is observationally the same.
- The React state updates of one handler are modelled as applied together, at once; rendering and the view components are left out.
