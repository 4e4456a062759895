/**
 * The state of one game screen: the tiles in play, the player's selection,
 * the work lines, the undo stack, the target and the round's phase, with the
 * handlers that change them.
 *
 * `applyOperation` (the arithmetic rules) is not part of this model; it is a
 * parameter that either returns a value and the line of work to record, or
 * rejects the step with a message. Tile ids, which the program draws at
 * random, are issued here by a counter, so every new id is fresh.
 */
module Game {
  import opened Options
  import opened Round
  import Expressions
  import Solver

  datatype Phase = Idle | RevealingTiles | TargetRolling | Ready | Running | Ended

  /** What the undo stack records: the tiles, the work lines and the locked tile. */
  datatype Snapshot = Snapshot(tiles: seq<Tile>, workLines: seq<string>, lockedId: Option<nat>)

  /** What `applyOperation` produces: a value and the line of work that shows it, or the reason it refuses. */
  datatype Outcome = Applied(value: int, expression: string) | Rejected(message: string)

  predicate NoDup(s: seq<nat>)
  {
    forall i, j | 0 <= i < j < |s| :: s[i] != s[j]
  }

  /** The ids of `s` other than `x`, in order. */
  function Without(s: seq<nat>, x: nat): (r: seq<nat>)
    ensures forall y :: y in r <==> y in s && y != x
    ensures |r| <= |s|
    ensures NoDup(s) ==> NoDup(r)
  {
    if s == [] then []
    else if s[0] == x then Without(s[1..], x)
    else
      assert forall y | y in s :: y == s[0] || y in s[1..];
      assert NoDup(s) ==> s[0] !in s[1..] && NoDup(s[1..]) by {
        if NoDup(s) {
          assert forall j | 0 < j < |s| :: s[0] != s[j];
          assert forall y | y in s[1..] :: exists j | 0 < j < |s| :: s[j] == y;
        }
      }
      [s[0]] + Without(s[1..], x)
  }

  /**
   * The selection after clicking tile `id`: a selected id is deselected;
   * any other is appended, after dropping the oldest when two are already
   * selected. A selection of at most two distinct ids stays so.
   */
  function NextSelection(sel: seq<nat>, id: nat): (r: seq<nat>)
    ensures id in r <==> id !in sel
    ensures forall x | x != id :: x in r ==> x in sel
    ensures id in sel ==> forall x | x != id && x in sel :: x in r
    ensures id !in sel ==> r[|r| - 1] == id
    ensures id !in sel && |sel| < 2 ==> r[..|r| - 1] == sel
    ensures id !in sel && |sel| == 2 ==> r == [sel[1], id]
    ensures |sel| <= 2 && NoDup(sel) ==> |r| <= 2 && NoDup(r)
  {
    if id in sel then Without(sel, id)
    else
      var kept := if |sel| >= 2 then sel[1..] else sel;
      assert id !in kept;
      assert |sel| <= 2 && NoDup(sel) ==> NoDup(kept);
      kept + [id]
  }

  /** The first tile with the given id, if any. */
  function FindTile(tiles: seq<Tile>, id: nat): (r: Option<Tile>)
    ensures r.Some? ==> r.value in tiles && r.value.id == id
    ensures r.None? ==> forall t | t in tiles :: t.id != id
  {
    if tiles == [] then None
    else if tiles[0].id == id then Some(tiles[0])
    else FindTile(tiles[1..], id)
  }

  ghost function Ids(tiles: seq<Tile>): set<nat>
  {
    set t | t in tiles :: t.id
  }

  ghost predicate DistinctIds(tiles: seq<Tile>)
  {
    forall i, j | 0 <= i < j < |tiles| :: tiles[i].id != tiles[j].id
  }

  /** Every id was issued before the counter reached `n`. */
  ghost predicate IdsBelow(tiles: seq<Tile>, n: nat)
  {
    forall t | t in tiles :: t.id < n
  }

  /** The tiles whose id is neither `a` nor `b`, in order. */
  function RemovePair(tiles: seq<Tile>, a: nat, b: nat): (r: seq<Tile>)
    ensures forall t :: t in r <==> t in tiles && t.id != a && t.id != b
    ensures |r| <= |tiles|
  {
    if tiles == [] then []
    else
      assert forall t | t in tiles :: t == tiles[0] || t in tiles[1..];
      var rest := RemovePair(tiles[1..], a, b);
      if tiles[0].id == a || tiles[0].id == b then rest else [tiles[0]] + rest
  }

  /**
   * Filtering works element by element and keeps the order: the tiles kept
   * from a concatenation are those kept from its first part followed by
   * those kept from its second.
   */
  lemma {:induction false} RemovePairAppend(x: seq<Tile>, y: seq<Tile>, a: nat, b: nat)
    ensures RemovePair(x + y, a, b) == RemovePair(x, a, b) + RemovePair(y, a, b)
    ensures forall t: Tile | t.id != a && t.id != b :: RemovePair([t], a, b) == [t]
    ensures forall t: Tile | t.id == a || t.id == b :: RemovePair([t], a, b) == []
  {
    if x == [] {
      assert x + y == y;
    } else {
      assert (x + y)[0] == x[0] && (x + y)[1..] == x[1..] + y;
      RemovePairAppend(x[1..], y, a, b);
    }
    forall t: Tile ensures RemovePair([t], a, b) == if t.id != a && t.id != b then [t] else [] {
      assert [t][1..] == [];
    }
  }

  /** Filtering keeps distinct ids distinct. */
  lemma {:induction false} RemovePairDistinct(tiles: seq<Tile>, a: nat, b: nat)
    requires DistinctIds(tiles)
    ensures DistinctIds(RemovePair(tiles, a, b))
  {
    if tiles != [] {
      var rest := tiles[1..];
      assert DistinctIds(rest);
      RemovePairDistinct(rest, a, b);
      var r := RemovePair(rest, a, b);
      if tiles[0].id != a && tiles[0].id != b {
        assert RemovePair(tiles, a, b) == [tiles[0]] + r;
        forall t | t in r ensures t.id != tiles[0].id {
          var j :| 0 <= j < |rest| && rest[j] == t;
          assert tiles[j + 1] == t;
        }
      }
    }
  }

  /** Removing two distinct present ids from a list of distinct ids removes exactly two tiles. */
  lemma {:induction false} RemovePairCount(tiles: seq<Tile>, a: nat, b: nat)
    requires DistinctIds(tiles) && a != b
    ensures |RemovePair(tiles, a, b)| == |tiles| - (if a in Ids(tiles) then 1 else 0) - (if b in Ids(tiles) then 1 else 0)
  {
    if tiles != [] {
      var rest := tiles[1..];
      assert DistinctIds(rest);
      RemovePairCount(rest, a, b);
      assert Ids(tiles) == {tiles[0].id} + Ids(rest) by {
        assert forall t | t in tiles :: t == tiles[0] || t in rest;
      }
      assert tiles[0].id !in Ids(rest) by {
        forall t | t in rest ensures t.id != tiles[0].id {
          var j :| 0 <= j < |rest| && rest[j] == t;
          assert tiles[j + 1] == t;
        }
      }
    }
  }

  /** The tile list after a step: the two operands' tiles removed, a revealed result tile appended. */
  function AfterStep(tiles: seq<Tile>, a: nat, b: nat, id: nat, value: int): (r: seq<Tile>)
    ensures |r| == |RemovePair(tiles, a, b)| + 1
    ensures r[..|r| - 1] == RemovePair(tiles, a, b)
    ensures r[|r| - 1] == Tile(id, value, Result, true)
    ensures forall t | t in r :: t == Tile(id, value, Result, true) || (t in tiles && t.id != a && t.id != b)
    ensures forall t | t in tiles && t.id != a && t.id != b :: t in r
  {
    RemovePair(tiles, a, b) + [Tile(id, value, Result, true)]
  }

  /** A fresh id keeps the ids distinct. */
  lemma FreshId(tiles: seq<Tile>, n: nat, t: Tile)
    requires DistinctIds(tiles) && IdsBelow(tiles, n) && t.id == n
    ensures DistinctIds(tiles + [t]) && IdsBelow(tiles + [t], n + 1)
  {
    var s := tiles + [t];
    forall i | 0 <= i < |tiles| ensures s[i].id != t.id {
      assert s[i] == tiles[i] && tiles[i] in tiles;
    }
  }

  /** A step on two distinct tiles in play leaves one tile fewer, with the new id fresh. */
  lemma StepFacts(tiles: seq<Tile>, a: nat, b: nat, n: nat, value: int)
    requires DistinctIds(tiles) && IdsBelow(tiles, n)
    requires a != b && a in Ids(tiles) && b in Ids(tiles)
    ensures var r := AfterStep(tiles, a, b, n, value);
      |r| == |tiles| - 1 && DistinctIds(r) && IdsBelow(r, n + 1)
  {
    RemovePairCount(tiles, a, b);
    RemovePairDistinct(tiles, a, b);
    FreshId(RemovePair(tiles, a, b), n, Tile(n, value, Result, true));
  }

  /** Pushing a snapshot of distinct issued ids keeps the stack so, as the counter moves on. */
  lemma PushSnapshot(stack: seq<Snapshot>, sn: Snapshot, n: nat)
    requires forall s | s in stack :: DistinctIds(s.tiles) && IdsBelow(s.tiles, n)
    requires DistinctIds(sn.tiles) && IdsBelow(sn.tiles, n)
    ensures forall s | s in stack + [sn] :: DistinctIds(s.tiles) && IdsBelow(s.tiles, n + 1)
  {
  }

  /** Two lists holding the same ids position by position have the same id facts. */
  lemma SameIds(tiles: seq<Tile>, r: seq<Tile>, n: nat)
    requires |r| == |tiles| && forall j | 0 <= j < |r| :: r[j].id == tiles[j].id
    ensures Ids(r) == Ids(tiles)
    ensures DistinctIds(tiles) ==> DistinctIds(r)
    ensures IdsBelow(tiles, n) ==> IdsBelow(r, n)
  {
    forall id | id in Ids(tiles) ensures id in Ids(r) {
      var t :| t in tiles && t.id == id;
      var j :| 0 <= j < |tiles| && tiles[j] == t;
      assert r[j] in r;
    }
    forall id | id in Ids(r) ensures id in Ids(tiles) {
      var t :| t in r && t.id == id;
      var j :| 0 <= j < |r| && r[j] == t;
      assert tiles[j] in tiles;
    }
    if IdsBelow(tiles, n) {
      forall t | t in r ensures t.id < n {
        var j :| 0 <= j < |r| && r[j] == t;
        assert tiles[j] in tiles;
      }
    }
  }

  /** Consecutive ids from the counter are distinct and below its next value. */
  lemma ConsecutiveIds(r: seq<Tile>, firstId: nat)
    requires forall i | 0 <= i < |r| :: r[i].id == firstId + i
    ensures DistinctIds(r) && IdsBelow(r, firstId + |r|)
  {
    forall t | t in r ensures t.id < firstId + |r| {
      var j :| 0 <= j < |r| && r[j] == t;
    }
  }

  /** Turning tile `i` face up: only that tile changes. */
  function RevealAt(tiles: seq<Tile>, i: nat): (r: seq<Tile>)
    ensures |r| == |tiles|
    ensures Unnumber(r) == Unnumber(tiles)
    ensures forall j | 0 <= j < |r| :: r[j].id == tiles[j].id && (r[j].revealed <==> tiles[j].revealed || j == i)
  {
    seq(|tiles|, j requires 0 <= j < |tiles| => if j == i then tiles[j].(revealed := true) else tiles[j])
  }

  /** The two selected tiles, when both exist and are face up (the early return of `handleOperation`). */
  function SelectedPair(tiles: seq<Tile>, sel: seq<nat>): (r: Option<(Tile, Tile)>)
    ensures r.Some? <==> |sel| == 2 && FindTile(tiles, sel[0]).Some? && FindTile(tiles, sel[1]).Some? &&
                         FindTile(tiles, sel[0]).value.revealed && FindTile(tiles, sel[1]).value.revealed
    ensures r.Some? ==> r.value.0 in tiles && r.value.0.id == sel[0] && r.value.0.revealed
    ensures r.Some? ==> r.value.1 in tiles && r.value.1.id == sel[1] && r.value.1.revealed
  {
    if |sel| != 2 then None
    else
      match (FindTile(tiles, sel[0]), FindTile(tiles, sel[1]))
      case (Some(first), Some(second)) =>
        if first.revealed && second.revealed then Some((first, second)) else None
      case _ => None
  }

  class Game {
    var phase: Phase
    var tiles: seq<Tile>
    var tilesAtStart: seq<Tile>
    var selected: seq<nat>
    var lockedId: Option<nat>
    var workLines: seq<string>
    var undoStack: seq<Snapshot>
    var target: Option<int>
    var bestAnswer: Option<Solver.BestSolution>
    var nextId: nat

    /**
     * At most two distinct tiles are selected, all of them in play; tile ids
     * in play and in every snapshot are distinct and already issued; and
     * there is a snapshot to reset to whenever there is work to reset.
     */
    ghost predicate Valid()
      reads this
    {
      |selected| <= 2 && NoDup(selected) &&
      (forall id | id in selected :: id in Ids(tiles)) &&
      DistinctIds(tiles) && IdsBelow(tiles, nextId) &&
      (forall sn | sn in undoStack :: DistinctIds(sn.tiles) && IdsBelow(sn.tiles, nextId)) &&
      (|undoStack| == 0 ==> |workLines| == 0)
    }

    constructor()
      ensures Valid()
      ensures phase == Idle && tiles == [] && tilesAtStart == [] && selected == [] && lockedId == None
      ensures workLines == [] && undoStack == [] && target == None && bestAnswer == None
    {
      phase := Idle;
      tiles := [];
      tilesAtStart := [];
      selected := [];
      lockedId := None;
      workLines := [];
      undoStack := [];
      target := None;
      bestAnswer := None;
      nextId := 0;
    }

    /** A round is under way: from the tile reveal until it ends. */
    predicate RoundActive()
      reads this
      ensures RoundActive() <==> phase in {RevealingTiles, TargetRolling, Ready, Running}
    {
      phase != Idle && phase != Ended
    }

    /** The round is in play and neither tiles nor target are being revealed. */
    predicate Interactive()
      reads this
      ensures Interactive() <==> phase == Ready || phase == Running
    {
      RoundActive() && phase != RevealingTiles && phase != TargetRolling
    }

    /** A step may be taken only on two selected tiles while the round is interactive. */
    predicate CanOperate()
      reads this
      ensures CanOperate() <==> (phase == Ready || phase == Running) && |selected| == 2
    {
      Interactive() && |selected| == 2
    }

    /** An answer may be locked in only on one selected tile, never together with a step. */
    predicate CanLockIn()
      reads this
      ensures CanLockIn() <==> (phase == Ready || phase == Running) && |selected| == 1
      ensures CanLockIn() ==> !CanOperate()
    {
      Interactive() && |selected| == 1
    }

    /** Undo needs a snapshot beneath the top one while the round is interactive. */
    predicate CanUndo()
      reads this
      ensures CanUndo() <==> (phase == Ready || phase == Running) && |undoStack| >= 2
    {
      Interactive() && |undoStack| > 1
    }

    /** Reset is possible whenever undo is, and also when work lines are shown. */
    predicate CanReset()
      reads this
      ensures CanReset() <==> (phase == Ready || phase == Running) && (|undoStack| >= 2 || workLines != [])
      ensures CanUndo() ==> CanReset()
    {
      Interactive() && (|undoStack| > 1 || |workLines| > 0)
    }

    /**
     * The synchronous start of `revealRound`: unless tiles or target are
     * being revealed, clear the round, put down the six freshly drawn tiles
     * `drawn` (`DrawTiles(largeCount, nextId, ...)`, numbered from the id
     * counter), and remember them as the round's starting tiles and as the
     * bottom of the undo stack.
     */
    method StartRound(drawn: seq<Tile>)
      requires Valid()
      requires |drawn| == 6 && forall i | 0 <= i < 6 :: drawn[i].id == nextId + i
      modifies this
      ensures Valid()
      ensures old(phase == RevealingTiles || phase == TargetRolling) ==> unchanged(this)
      ensures !old(phase == RevealingTiles || phase == TargetRolling) ==>
        phase == RevealingTiles && tiles == drawn &&
        tilesAtStart == drawn && selected == [] && lockedId == None && workLines == [] &&
        undoStack == [Snapshot(drawn, [], None)] && target == None && bestAnswer == None &&
        nextId == old(nextId) + 6
    {
      if phase == RevealingTiles || phase == TargetRolling {
        return;
      }
      ConsecutiveIds(drawn, nextId);
      bestAnswer := None;
      selected := [];
      lockedId := None;
      workLines := [];
      target := None;
      phase := RevealingTiles;
      nextId := nextId + 6;
      tiles := drawn;
      tilesAtStart := drawn;
      undoStack := [Snapshot(drawn, [], None)];
    }

    /** One step of the reveal sequence: tile `i` turns face up. */
    method RevealTile(i: nat)
      requires Valid()
      modifies this`tiles
      ensures Valid()
      ensures tiles == RevealAt(old(tiles), i)
    {
      SameIds(tiles, RevealAt(tiles, i), nextId);
      tiles := RevealAt(tiles, i);
    }

    /** The reveal sequence is over: the target starts rolling. */
    method BeginTargetRoll()
      requires Valid()
      modifies this`phase
      ensures Valid() && phase == TargetRolling
    {
      phase := TargetRolling;
    }

    /** The three drawn digits are fixed: the target is set and the round is ready. */
    method FixTarget(d1: int, d2: int, d3: int)
      requires Valid()
      requires 1 <= d1 <= 9 && 0 <= d2 <= 9 && 0 <= d3 <= 9
      modifies this`target, this`phase
      ensures Valid()
      ensures target == Some(Target(d1, d2, d3)) && phase == Ready
      ensures 100 <= target.value <= 999
    {
      target := Some(Target(d1, d2, d3));
      phase := Ready;
    }

    /**
     * `handleTileClick`: only while the round is interactive and only for a
     * face-up tile in play, toggle it in the selection; a locked tile other
     * than the clicked one is unlocked.
     */
    method TileClick(id: nat)
      requires Valid()
      modifies this`selected, this`lockedId
      ensures Valid()
      ensures old(Interactive()) && FindTile(tiles, id).Some? && FindTile(tiles, id).value.revealed ==>
        selected == NextSelection(old(selected), id) &&
        lockedId == (if old(lockedId).Some? && old(lockedId).value != id then None else old(lockedId))
      ensures !(old(Interactive()) && FindTile(tiles, id).Some? && FindTile(tiles, id).value.revealed) ==>
        selected == old(selected) && lockedId == old(lockedId)
    {
      if !Interactive() {
        return;
      }
      var tile := FindTile(tiles, id);
      if tile.None? || !tile.value.revealed {
        return;
      }
      assert id in Ids(tiles);
      selected := NextSelection(selected, id);
      if lockedId.Some? && lockedId.value != id {
        lockedId := None;
      }
    }

    /** The state change of a step: push a snapshot, replace the operands by the result tile, clear the selection. */
    method ApplyStep(a: nat, b: nat, value: int, expression: string)
      requires Valid() && a != b && a in Ids(tiles) && b in Ids(tiles)
      modifies this`tiles, this`selected, this`lockedId, this`workLines, this`undoStack, this`nextId
      ensures Valid()
      ensures undoStack == old(undoStack) + [Snapshot(old(tiles), old(workLines), old(lockedId))]
      ensures tiles == AfterStep(old(tiles), a, b, old(nextId), value) && |tiles| == |old(tiles)| - 1
      ensures selected == [] && lockedId == None && workLines == old(workLines) + [expression]
      ensures nextId == old(nextId) + 1
    {
      StepFacts(tiles, a, b, nextId, value);
      PushSnapshot(undoStack, Snapshot(tiles, workLines, lockedId), nextId);
      undoStack := undoStack + [Snapshot(tiles, workLines, lockedId)];
      tiles := AfterStep(tiles, a, b, nextId, value);
      nextId := nextId + 1;
      selected := [];
      lockedId := None;
      workLines := workLines + [expression];
    }

    /**
     * `handleOperation`: with two face-up tiles selected and the step
     * allowed, save the current state on the undo stack, replace the two
     * tiles by one face-up result tile holding the step's value, clear the
     * selection and the lock, and record the line of work. Otherwise (no
     * pair selected, or the step refused) nothing changes.
     */
    method Operation(op: Expressions.Operation, apply: (int, int, Expressions.Operation) -> Outcome) returns (ok: bool)
      requires Valid()
      modifies this`tiles, this`selected, this`lockedId, this`workLines, this`undoStack, this`nextId
      ensures Valid()
      ensures ok <==> (old(CanOperate()) && SelectedPair(old(tiles), old(selected)).Some? &&
        apply(SelectedPair(old(tiles), old(selected)).value.0.value, SelectedPair(old(tiles), old(selected)).value.1.value, op).Applied?)
      ensures !ok ==> (tiles == old(tiles) && selected == old(selected) && lockedId == old(lockedId) &&
        workLines == old(workLines) && undoStack == old(undoStack) && nextId == old(nextId))
      ensures ok ==>
        var pair := SelectedPair(old(tiles), old(selected)).value;
        var res := apply(pair.0.value, pair.1.value, op);
        undoStack == old(undoStack) + [Snapshot(old(tiles), old(workLines), old(lockedId))] &&
        tiles == AfterStep(old(tiles), pair.0.id, pair.1.id, old(nextId), res.value) &&
        |tiles| == |old(tiles)| - 1 &&
        selected == [] && lockedId == None && workLines == old(workLines) + [res.expression] &&
        nextId == old(nextId) + 1
    {
      ok := false;
      if !CanOperate() {
        return;
      }
      var pair := SelectedPair(tiles, selected);
      if pair.None? {
        return;
      }
      var first, second := pair.value.0, pair.value.1;
      var result := apply(first.value, second.value, op);
      if result.Rejected? {
        return;
      }
      assert first.id in Ids(tiles) && second.id in Ids(tiles);
      ApplyStep(first.id, second.id, result.value, result.expression);
      ok := true;
    }

    /**
     * `handleUndo`, as written: when the stack holds more than one snapshot,
     * drop the top one and restore the snapshot now on top (the one beneath
     * the dropped one), clearing the selection.
     */
    method Undo()
      requires Valid()
      modifies this`tiles, this`workLines, this`lockedId, this`selected, this`undoStack
      ensures Valid()
      ensures old(CanUndo()) ==>
        var k := |old(undoStack)|;
        undoStack == old(undoStack)[..k - 1] &&
        tiles == old(undoStack)[k - 2].tiles && workLines == old(undoStack)[k - 2].workLines &&
        lockedId == old(undoStack)[k - 2].lockedId && selected == []
      ensures !old(CanUndo()) ==>
        tiles == old(tiles) && workLines == old(workLines) && lockedId == old(lockedId) &&
        selected == old(selected) && undoStack == old(undoStack)
    {
      if !CanUndo() {
        return;
      }
      var nextStack := undoStack[..|undoStack| - 1];
      var snapshot := nextStack[|nextStack| - 1];
      assert snapshot in undoStack;
      tiles := snapshot.tiles;
      workLines := snapshot.workLines;
      lockedId := snapshot.lockedId;
      selected := [];
      undoStack := nextStack;
      assert forall sn | sn in undoStack :: sn in old(undoStack);
    }

    /**
     * `handleReset`: when there is anything to reset, collapse the stack to
     * its bottom snapshot, restore its tiles, and clear the work, the lock
     * and the selection.
     */
    method Reset()
      requires Valid()
      modifies this`tiles, this`workLines, this`lockedId, this`selected, this`undoStack
      ensures Valid()
      ensures old(CanReset()) ==>
        |old(undoStack)| > 0 && undoStack == [old(undoStack)[0]] && tiles == old(undoStack)[0].tiles &&
        workLines == [] && lockedId == None && selected == []
      ensures !old(CanReset()) ==>
        tiles == old(tiles) && workLines == old(workLines) && lockedId == old(lockedId) &&
        selected == old(selected) && undoStack == old(undoStack)
    {
      if !CanReset() {
        return;
      }
      var base := undoStack[0];
      tiles := base.tiles;
      workLines := [];
      lockedId := None;
      selected := [];
      undoStack := [base];
    }

    /**
     * `computeBest`: solve for the given tiles' values, in order, and show
     * the answer: the first closest entry of the solver's filled table, with
     * all that `BestFor` promises.
     */
    method ComputeBest(sourceTiles: seq<Tile>, targetValue: int)
      returns (best: Option<Solver.BestSolution>, ghost values: seq<int>, ghost table: seq<seq<Solver.Entry>>)
      modifies this`bestAnswer
      ensures bestAnswer == best
      ensures |values| == |sourceTiles| && forall i | 0 <= i < |values| :: values[i] == sourceTiles[i].value
      ensures Solver.Filled(values, table) && Solver.IsFirstBest(Solver.Flatten(table[1..]), targetValue, best)
      ensures Solver.BestFor(values, targetValue, best)
    {
      var input := seq(|sourceTiles|, i requires 0 <= i < |sourceTiles| => sourceTiles[i].value);
      values := input;
      best, table := Solver.ComputeBestSolution(input, targetValue);
      bestAnswer := best;
    }

    /**
     * `lockInAnswer`: with one tile selected and a target set, lock the
     * tile, end the round, and report its distance to the target; the best
     * answer is computed from the round's starting tiles (or the current
     * ones when there are none), so it is no farther from the target than
     * any value those tiles can reach.
     */
    method LockIn() returns (diff: Option<nat>, ghost values: seq<int>, ghost table: seq<seq<Solver.Entry>>)
      requires Valid()
      modifies this`lockedId, this`phase, this`bestAnswer
      ensures Valid()
      ensures diff.Some? <==> old(CanLockIn()) && target.Some? && FindTile(tiles, selected[0]).Some?
      ensures diff.None? ==> lockedId == old(lockedId) && phase == old(phase) && bestAnswer == old(bestAnswer)
      ensures diff.Some? ==>
        var tile := FindTile(tiles, selected[0]).value;
        lockedId == Some(tile.id) && phase == Ended &&
        diff.value == Solver.AbsDiff(target.value, tile.value)
      ensures diff.Some? ==>
        var source := if |tilesAtStart| > 0 then tilesAtStart else tiles;
        |values| == |source| && (forall i | 0 <= i < |values| :: values[i] == source[i].value) &&
        Solver.Filled(values, table) && Solver.IsFirstBest(Solver.Flatten(table[1..]), target.value, bestAnswer) &&
        Solver.BestFor(values, target.value, bestAnswer)
    {
      diff, values, table := None, [], [];
      if !CanLockIn() || target.None? {
        return;
      }
      var tile := FindTile(tiles, selected[0]);
      if tile.None? {
        return;
      }
      lockedId := Some(tile.value.id);
      phase := Ended;
      diff := Some(Solver.AbsDiff(target.value, tile.value.value));
      var source := if |tilesAtStart| > 0 then tilesAtStart else tiles;
      var best;
      best, values, table := ComputeBest(source, target.value);
    }
  }
}
