/**
 * The best-solution solver (`computeBestSolution`): a dynamic program over
 * masks of tile positions that records, for every mask, the values reachable
 * from exactly those tiles together with one expression for each, and then
 * scans all masks for the value closest to the target.
 *
 * The memo is an array indexed by mask; each element is the mask's entries in
 * insertion order (the order in which the source's `Map` iterates them). The
 * reference definition `Reach` says which values a mask should hold; the
 * methods are proved to fill the memo with exactly those values, each with a
 * legal expression over exactly the mask's tiles.
 */
module Solver {
  import opened Bits
  import opened Options
  import opened Expressions

  /** One memo entry: a reachable value and the first expression found for it. */
  datatype Entry = Entry(value: int, expr: Expr)

  /** The solver's answer: a value, one expression for it, and its distance to the target. */
  datatype BestSolution = BestSolution(value: int, expr: Expr, diff: nat)

  /** The distance between the target and a value. */
  function AbsDiff(target: int, value: int): (d: nat)
    ensures d == target - value || d == value - target
    ensures d == 0 <==> target == value
  {
    if target >= value then target - value else value - target
  }

  // ---------------------------------------------------------------------------
  // Reference definition of the reachable values
  // ---------------------------------------------------------------------------

  /** The position `i < n` whose mask is `m`, if `m` is a single position. */
  function SingletonIndex(m: nat, n: nat): (r: Option<nat>)
    ensures r.Some? ==> r.value < n && m == Pow2(r.value)
    ensures r.None? ==> forall i | 0 <= i < n :: m != Pow2(i)
  {
    if n == 0 then None
    else if m == Pow2(n - 1) then Some(n - 1)
    else SingletonIndex(m, n - 1)
  }

  /**
   * The values one combination step can produce from `x` and `y`: sum and
   * product always, the difference larger-minus-smaller when they differ,
   * and each exact quotient whose divisor is not zero.
   */
  ghost function Ops(x: int, y: int): set<int>
  {
    {x + y, x * y}
    + (if x > y then {x - y} else {})
    + (if y > x then {y - x} else {})
    + (if y != 0 && x % y == 0 then {x / y} else {})
    + (if x != 0 && y % x == 0 then {y / x} else {})
  }

  /** All values in `(0, Limit]` one step produces from a value of `xs` and a value of `ys`. */
  ghost function Combine(xs: set<int>, ys: set<int>): set<int>
  {
    set x, y, v | x in xs && y in ys && v in Ops(x, y) && InRange(v) :: v
  }

  /**
   * The values reachable from exactly the tiles of mask `m`: a single tile's
   * own value (whatever it is), or, for a larger mask, every in-range value
   * one step produces from the two halves of any split of `m` into two
   * non-empty sub-masks.
   */
  ghost function Reach(tiles: seq<int>, m: nat): set<int>
    decreases m, 1
  {
    match SingletonIndex(m, |tiles|)
    case Some(i) => {tiles[i]}
    case None => set a, v | 0 < a < m && IsSubmask(a, m) && v in SplitValues(tiles, m, a) :: v
  }

  /** The values one step produces from the split of `m` into `a` and `m - a`. */
  ghost function SplitValues(tiles: seq<int>, m: nat, a: nat): set<int>
    requires 0 < a < m
    decreases m, 0
  {
    Combine(Reach(tiles, a), Reach(tiles, m - a))
  }

  // ---------------------------------------------------------------------------
  // Entries of one mask
  // ---------------------------------------------------------------------------

  ghost function Values(s: seq<Entry>): set<int>
  {
    set en | en in s :: en.value
  }

  /** `{v}` when the filter of `outSet` admits `v`, otherwise nothing. */
  ghost function Kept(v: int): set<int>
  {
    if InRange(v) then {v} else {}
  }

  /** At most one expression per value. */
  ghost predicate Distinct(s: seq<Entry>)
  {
    forall j, k | 0 <= j < k < |s| :: s[j].value != s[k].value
  }

  /** The entry's expression is legal, uses exactly the tiles of `m` and evaluates to the entry's value. */
  ghost predicate Sound(tiles: seq<int>, m: nat, en: Entry)
  {
    Legal(tiles, en.expr) && Uses(en.expr) == m && Eval(tiles, en.expr) == en.value
  }

  ghost predicate AllSound(tiles: seq<int>, m: nat, s: seq<Entry>)
  {
    forall en | en in s :: Sound(tiles, m, en)
  }

  /** A finished memo cell: sound, one entry per value, and exactly the reachable values. */
  ghost predicate Final(tiles: seq<int>, m: nat, s: seq<Entry>)
  {
    Distinct(s) && AllSound(tiles, m, s) && Values(s) == Reach(tiles, m)
  }

  predicate HasValue(s: seq<Entry>, v: int)
  {
    exists k | 0 <= k < |s| :: s[k].value == v
  }

  /**
   * `outSet`: record `v` with expression `e` unless `v` is outside
   * `(0, Limit]` or already recorded; an existing entry keeps its expression.
   */
  function OutSet(s: seq<Entry>, v: int, e: Expr): (r: seq<Entry>)
    ensures Values(r) == Values(s) + Kept(v)
    ensures s <= r && |r| <= |s| + 1
    ensures r != s <==> InRange(v) && v !in Values(s)
    ensures forall en | en in r :: en in s || (en == Entry(v, e) && InRange(v))
    ensures Distinct(s) ==> Distinct(r)
  {
    ValuesHas(s, v);
    if !InRange(v) then s
    else if HasValue(s, v) then s
    else s + [Entry(v, e)]
  }

  lemma ValuesHas(s: seq<Entry>, v: int)
    ensures v in Values(s) <==> HasValue(s, v)
  {
    if v in Values(s) {
      var en :| en in s && en.value == v;
      var k :| 0 <= k < |s| && s[k] == en;
      assert s[k].value == v;
    }
    if HasValue(s, v) {
      var k :| 0 <= k < |s| && s[k].value == v;
      assert s[k] in s;
    }
  }

  /** One guarded `outSet` call of the innermost loop body: `if (guard) outSet(out, value, expr)`. */
  datatype Candidate = Candidate(guard: bool, value: int, expr: Expr)

  /** `x / y` where the source divides (its guard makes `y` non-zero). */
  function Quot(x: int, y: int): int
  {
    if y != 0 then x / y else 0
  }

  /** `y` is a non-zero exact divisor of `x`. */
  predicate Divides(y: int, x: int)
  {
    y != 0 && x % y == 0
  }

  /**
   * The six `outSet` calls of the innermost loop body for an entry `a` of the
   * first half and an entry `b` of the second, in the source's order.
   */
  function Candidates(a: Entry, b: Entry): seq<Candidate>
  {
    var va, vb := a.value, b.value;
    [ Candidate(true, va + vb, Node(Expressions.Add, a.expr, b.expr)),
      Candidate(true, va * vb, Node(Mul, a.expr, b.expr)),
      Candidate(va > vb, va - vb, Node(Sub, a.expr, b.expr)),
      Candidate(vb > va, vb - va, Node(Sub, b.expr, a.expr)),
      Candidate(Divides(vb, va), Quot(va, vb), Node(Div, a.expr, b.expr)),
      Candidate(Divides(va, vb), Quot(vb, va), Node(Div, b.expr, a.expr)) ]
  }

  /** A candidate whose guard holds and whose value passes the filter of `outSet`. */
  ghost predicate Admitted(c: Candidate)
  {
    c.guard && InRange(c.value)
  }

  ghost function AdmittedValues(cs: seq<Candidate>): set<int>
  {
    set c | c in cs && Admitted(c) :: c.value
  }

  /** The guarded `outSet` calls `cs`, one after the other. */
  function OutSetAll(s: seq<Entry>, cs: seq<Candidate>): (r: seq<Entry>)
    ensures Values(r) == Values(s) + AdmittedValues(cs)
    decreases |cs|
  {
    if cs == [] then s
    else
      var c := cs[0];
      var s' := if c.guard then OutSet(s, c.value, c.expr) else s;
      assert forall d | d in cs :: d == c || d in cs[1..];
      OutSetAll(s', cs[1..])
  }

  /** Entries already recorded stay, in order, with their expressions. */
  lemma {:induction false} OutSetAllKeeps(s: seq<Entry>, cs: seq<Candidate>)
    ensures s <= OutSetAll(s, cs)
    decreases |cs|
  {
    if cs != [] {
      var s' := if cs[0].guard then OutSet(s, cs[0].value, cs[0].expr) else s;
      OutSetAllKeeps(s', cs[1..]);
    }
  }

  /** Every entry added comes from an admitted candidate. */
  lemma {:induction false} OutSetAllAdds(s: seq<Entry>, cs: seq<Candidate>, en: Entry)
    requires en in OutSetAll(s, cs)
    ensures en in s || exists c | c in cs :: Admitted(c) && en == Entry(c.value, c.expr)
    decreases |cs|
  {
    if cs != [] {
      var s' := if cs[0].guard then OutSet(s, cs[0].value, cs[0].expr) else s;
      OutSetAllAdds(s', cs[1..], en);
      if en !in s && en in s' {
        assert Admitted(cs[0]);
      } else if en !in s' {
        var c :| c in cs[1..] && Admitted(c) && en == Entry(c.value, c.expr);
        assert c in cs;
      }
    }
  }

  /** At most one expression per value, before and after. */
  lemma {:induction false} OutSetAllDistinct(s: seq<Entry>, cs: seq<Candidate>)
    requires Distinct(s)
    ensures Distinct(OutSetAll(s, cs))
    decreases |cs|
  {
    if cs != [] {
      var s' := if cs[0].guard then OutSet(s, cs[0].value, cs[0].expr) else s;
      OutSetAllDistinct(s', cs[1..]);
    }
  }

  /**
   * The body of the innermost loop: the six guarded `outSet` calls for one
   * value of each half.
   */
  function CombinePair(out: seq<Entry>, a: Entry, b: Entry): (r: seq<Entry>)
    ensures Values(r) == Values(out) + Combine({a.value}, {b.value})
    ensures out <= r
    ensures forall en | en in r :: en in out || exists c | c in Candidates(a, b) :: Admitted(c) && en == Entry(c.value, c.expr)
    ensures Distinct(out) ==> Distinct(r)
  {
    var r := OutSetAll(out, Candidates(a, b));
    PairValues(a, b);
    OutSetAllKeeps(out, Candidates(a, b));
    assert Distinct(out) ==> Distinct(r) by {
      if Distinct(out) {
        OutSetAllDistinct(out, Candidates(a, b));
      }
    }
    assert forall en | en in r :: en in out || exists c | c in Candidates(a, b) :: Admitted(c) && en == Entry(c.value, c.expr) by {
      forall en | en in r
        ensures en in out || exists c | c in Candidates(a, b) :: Admitted(c) && en == Entry(c.value, c.expr)
      {
        OutSetAllAdds(out, Candidates(a, b), en);
      }
    }
    r
  }

  /** The one-pair case of `Combine` is what the six guarded calls admit. */
  /** Each in-range value of one step on `a` and `b` is the value of an admitted candidate. */
  lemma OpCandidate(a: Entry, b: Entry, v: int)
    requires v in Ops(a.value, b.value) && InRange(v)
    ensures v in AdmittedValues(Candidates(a, b))
  {
    var x, y, cs := a.value, b.value, Candidates(a, b);
    var i := if v == x + y then 0 else if v == x * y then 1
      else if x > y && v == x - y then 2 else if y > x && v == y - x then 3
      else if y != 0 && x % y == 0 && v == x / y then 4 else 5;
    assert cs[i] in cs && Admitted(cs[i]) && cs[i].value == v;
  }

  /** Each admitted candidate's value is an in-range value of one step on `a` and `b`. */
  lemma CandidateOp(a: Entry, b: Entry, c: Candidate)
    requires c in Candidates(a, b) && Admitted(c)
    ensures c.value in Ops(a.value, b.value) && InRange(c.value)
  {
  }

  lemma PairValues(a: Entry, b: Entry)
    ensures Combine({a.value}, {b.value}) == AdmittedValues(Candidates(a, b))
  {
    var x, y, cs := a.value, b.value, Candidates(a, b);
    forall v | v in Combine({x}, {y}) ensures v in AdmittedValues(cs) {
      OpCandidate(a, b, v);
    }
    forall v | v in AdmittedValues(cs) ensures v in Combine({x}, {y}) {
      var c :| c in cs && Admitted(c) && c.value == v;
      CandidateOp(a, b, c);
    }
  }

  /** Every admitted candidate built from sound entries of two disjoint masks is sound for their union. */
  lemma CandidateSound(tiles: seq<int>, a: Entry, b: Entry, ma: nat, mb: nat, c: Candidate)
    requires Sound(tiles, ma, a) && Sound(tiles, mb, b) && And(ma, mb) == 0
    requires c in Candidates(a, b) && Admitted(c)
    ensures Sound(tiles, Or(ma, mb), Entry(c.value, c.expr))
  {
    OrCommutes(ma, mb);
    AndCommutes(ma, mb);
  }

  lemma ValuesAppend(s: seq<Entry>, en: Entry)
    ensures Values(s + [en]) == Values(s) + {en.value}
  {
    assert forall x | x in s + [en] :: x in s || x == en;
  }

  lemma CombineUnion(x1: set<int>, x2: set<int>, y1: set<int>, y2: set<int>)
    ensures Combine(x1 + x2, y1) == Combine(x1, y1) + Combine(x2, y1)
    ensures Combine(x1, y1 + y2) == Combine(x1, y1) + Combine(x1, y2)
  {
  }

  lemma CombineEmpty(xs: set<int>)
    ensures Combine(xs, {}) == {} && Combine({}, xs) == {}
  {
  }

  lemma OpsSymmetric(x: int, y: int)
    ensures Ops(x, y) == Ops(y, x)
  {
  }

  /** The two halves of a split play symmetric roles. */
  lemma CombineSymmetric(xs: set<int>, ys: set<int>)
    ensures Combine(xs, ys) == Combine(ys, xs)
  {
    forall x, y | x in xs && y in ys {
      OpsSymmetric(x, y);
    }
  }

  /** The pair step keeps every entry sound for the union of the two masks. */
  lemma CombinePairSound(tiles: seq<int>, r: seq<Entry>, x: Entry, y: Entry, ma: nat, mb: nat)
    requires Sound(tiles, ma, x) && Sound(tiles, mb, y) && And(ma, mb) == 0
    requires AllSound(tiles, Or(ma, mb), r)
    ensures AllSound(tiles, Or(ma, mb), CombinePair(r, x, y))
  {
    forall en | en in CombinePair(r, x, y) ensures Sound(tiles, Or(ma, mb), en) {
      if en !in r {
        var c :| c in Candidates(x, y) && Admitted(c) && en == Entry(c.value, c.expr);
        CandidateSound(tiles, x, y, ma, mb, c);
      }
    }
  }

  /** One pass of the inner loop adds the pair's values to those already combined. */
  lemma RowStep(out: seq<Entry>, r: seq<Entry>, x: Entry, ys: seq<Entry>, j: nat)
    requires j < |ys|
    requires Values(r) == Values(out) + Combine({x.value}, Values(ys[..j]))
    ensures Values(CombinePair(r, x, ys[j])) == Values(out) + Combine({x.value}, Values(ys[..j + 1]))
  {
    assert ys[..j + 1] == ys[..j] + [ys[j]];
    ValuesAppend(ys[..j], ys[j]);
    CombineUnion({x.value}, {}, Values(ys[..j]), {ys[j].value});
  }

  /** One pass of the outer loop adds the row's values to those already combined. */
  lemma IntoStep(out: seq<Entry>, r0: seq<Entry>, r: seq<Entry>, xs: seq<Entry>, ys: seq<Entry>, i: nat)
    requires i < |xs|
    requires Values(r0) == Values(out) + Combine(Values(xs[..i]), Values(ys))
    requires Values(r) == Values(r0) + Combine({xs[i].value}, Values(ys))
    ensures Values(r) == Values(out) + Combine(Values(xs[..i + 1]), Values(ys))
  {
    assert xs[..i + 1] == xs[..i] + [xs[i]];
    ValuesAppend(xs[..i], xs[i]);
    CombineUnion(Values(xs[..i]), {xs[i].value}, Values(ys), {});
  }

  /**
   * The inner `for ... of mapB.entries()` loop: one value `x` of the first
   * half combined with every value of the second half, in order.
   */
  method CombineRow(ghost tiles: seq<int>, out: seq<Entry>, x: Entry, ys: seq<Entry>, ghost ma: nat, ghost mb: nat)
    returns (r: seq<Entry>)
    requires Sound(tiles, ma, x) && AllSound(tiles, mb, ys) && And(ma, mb) == 0
    requires Distinct(out) && AllSound(tiles, Or(ma, mb), out)
    ensures Distinct(r) && AllSound(tiles, Or(ma, mb), r)
    ensures out <= r
    ensures Values(r) == Values(out) + Combine({x.value}, Values(ys))
  {
    r := out;
    var j := 0;
    while j < |ys|
      invariant 0 <= j <= |ys|
      invariant Distinct(r) && AllSound(tiles, Or(ma, mb), r) && out <= r
      invariant Values(r) == Values(out) + Combine({x.value}, Values(ys[..j]))
    {
      CombinePairSound(tiles, r, x, ys[j], ma, mb);
      RowStep(out, r, x, ys, j);
      r := CombinePair(r, x, ys[j]);
      j := j + 1;
    }
    assert ys[..j] == ys;
  }

  /**
   * The merge of one split (the two `for ... of entries()` loops): every
   * value of the first half is combined with every value of the second.
   * Existing entries are kept, at most one entry per value is recorded, and
   * every entry is sound for the union of the two masks.
   */
  method CombineInto(ghost tiles: seq<int>, out: seq<Entry>, xs: seq<Entry>, ys: seq<Entry>, ghost ma: nat, ghost mb: nat)
    returns (r: seq<Entry>)
    requires AllSound(tiles, ma, xs) && AllSound(tiles, mb, ys) && And(ma, mb) == 0
    requires Distinct(out) && AllSound(tiles, Or(ma, mb), out)
    ensures Distinct(r) && AllSound(tiles, Or(ma, mb), r)
    ensures out <= r
    ensures Values(r) == Values(out) + Combine(Values(xs), Values(ys))
  {
    r := out;
    var i := 0;
    while i < |xs|
      invariant 0 <= i <= |xs|
      invariant Distinct(r) && AllSound(tiles, Or(ma, mb), r) && out <= r
      invariant Values(r) == Values(out) + Combine(Values(xs[..i]), Values(ys))
    {
      ghost var r0 := r;
      r := CombineRow(tiles, r, xs[i], ys, ma, mb);
      IntoStep(out, r0, r, xs, ys, i);
      i := i + 1;
    }
    assert xs[..i] == xs;
  }

  lemma EmptyValues(s: seq<Entry>)
    requires |s| == 0
    ensures Values(s) == {}
  {
  }

  // ---------------------------------------------------------------------------
  // The split loop of one mask
  // ---------------------------------------------------------------------------

  /**
   * The values contributed by the splits the loop `a = (a - 1) & mask` has
   * already visited when it reaches `lo`: every sub-mask `a` above `lo` that
   * is not larger than its complement (the source skips `a > b`).
   */
  ghost function Done(tiles: seq<int>, m: nat, lo: nat): set<int>
  {
    set a, v | lo < a < m && IsSubmask(a, m) && a <= m - a && v in SplitValues(tiles, m, a) :: v
  }

  /**
   * A split the loop does not skip: both halves are non-empty, disjoint,
   * together make up `m`, the first is strictly the smaller and both are
   * smaller than `m`, so their maps are already final.
   */
  lemma SplitHalves(m: nat, a: nat)
    requires 0 < a && IsSubmask(a, m)
    requires Xor(m, a) != 0 && a <= Xor(m, a)
    ensures var b := Xor(m, a);
      And(a, b) == 0 && Or(a, b) == m && a < b && a < m && b < m
  {
    Complement(a, m);
    SelfSubmask(a);
  }

  /** Nothing is visited before the first sub-mask `(m - 1) & m`. */
  lemma DoneStart(tiles: seq<int>, m: nat)
    requires 0 < m
    ensures Done(tiles, m, And(m - 1, m)) == {}
  {
    forall a | And(m - 1, m) < a < m && IsSubmask(a, m)
      ensures false
    {
      SelfSubmask(m);
      NextSubmask(m, m, a);
    }
  }

  /** Visiting sub-mask `a` adds its split, when the source does not skip it. */
  lemma DoneStep(tiles: seq<int>, m: nat, a: nat)
    requires 0 < a < m && IsSubmask(a, m)
    ensures Done(tiles, m, And(a - 1, m)) == Done(tiles, m, a) + (if a <= m - a then SplitValues(tiles, m, a) else {})
  {
    var lo := And(a - 1, m);
    forall a' | lo < a' < a && IsSubmask(a', m)
      ensures false
    {
      NextSubmask(a, m, a');
    }
    forall v | v in Done(tiles, m, lo)
      ensures v in Done(tiles, m, a) + (if a <= m - a then SplitValues(tiles, m, a) else {})
    {
      var a' :| lo < a' < m && IsSubmask(a', m) && a' <= m - a' && v in SplitValues(tiles, m, a');
      if a' != a {
        assert a < a';
      }
    }
  }

  /** Once the loop reaches 0 it has covered every split, each in one of its two orders. */
  lemma DoneAll(tiles: seq<int>, m: nat)
    requires 0 < m && SingletonIndex(m, |tiles|).None?
    ensures Done(tiles, m, 0) == Reach(tiles, m)
  {
    var all := set a, v | 0 < a < m && IsSubmask(a, m) && v in SplitValues(tiles, m, a) :: v;
    assert Reach(tiles, m) == all;
    forall v | v in all
      ensures v in Done(tiles, m, 0)
    {
      var a :| 0 < a < m && IsSubmask(a, m) && v in SplitValues(tiles, m, a);
      if m - a < a {
        Complement(a, m);
        SplitSymmetric(tiles, m, a);
      }
    }
    assert Done(tiles, m, 0) <= all;
  }

  /** A split and its complement produce the same values. */
  lemma SplitSymmetric(tiles: seq<int>, m: nat, a: nat)
    requires 0 < a < m
    ensures SplitValues(tiles, m, a) == SplitValues(tiles, m, m - a)
  {
    assert m - (m - a) == a;
    CombineSymmetric(Reach(tiles, a), Reach(tiles, m - a));
  }

  // ---------------------------------------------------------------------------
  // The memo
  // ---------------------------------------------------------------------------

  /** A mask's map after the first loop has seen the first `n` tiles: the single tile's entry, or empty. */
  function InitialCell(tiles: seq<int>, m: nat, n: nat): (r: seq<Entry>)
    requires n <= |tiles|
    ensures |r| <= 1
  {
    match SingletonIndex(m, n)
    case Some(i) => [Entry(tiles[i], Tile(i))]
    case None => []
  }

  /** A single tile's entry is already final; every other mask starts empty. */
  lemma InitialCellFacts(tiles: seq<int>, m: nat)
    ensures Distinct(InitialCell(tiles, m, |tiles|)) && AllSound(tiles, m, InitialCell(tiles, m, |tiles|))
    ensures SingletonIndex(m, |tiles|).Some? ==> Values(InitialCell(tiles, m, |tiles|)) == Reach(tiles, m)
    ensures SingletonIndex(m, |tiles|).None? ==> InitialCell(tiles, m, |tiles|) == []
  {
    match SingletonIndex(m, |tiles|)
    case Some(i) =>
      assert Values([Entry(tiles[i], Tile(i))]) == {tiles[i]};
    case None =>
  }

  /**
   * The first loop: a map per mask, with `tiles[i]` recorded under `1 << i`
   * (unfiltered). Masks are `0 .. (1 << n) - 1`.
   */
  method InitMemo(tiles: seq<int>) returns (memo: array<seq<Entry>>)
    ensures fresh(memo)
    ensures memo.Length == Pow2(|tiles|)
    ensures forall k | 0 <= k < memo.Length :: memo[k] == InitialCell(tiles, k, |tiles|)
  {
    memo := new seq<Entry>[Pow2(|tiles|)](_ => []);
    var i := 0;
    while i < |tiles|
      invariant 0 <= i <= |tiles|
      invariant forall k | 0 <= k < memo.Length :: memo[k] == InitialCell(tiles, k, i)
    {
      Pow2Increasing(i, |tiles|);
      memo[Pow2(i)] := [Entry(tiles[i], Tile(i))];
      i := i + 1;
    }
  }

  /**
   * One pass of the split loop at sub-mask `a`: unless its complement is
   * empty, it is the larger half or one half has no values, the split is
   * merged into the mask's map; the map then covers the splits visited down
   * to the next sub-mask `(a - 1) & m`.
   */
  method VisitSplit(tiles: seq<int>, memo: array<seq<Entry>>, m: nat, a: nat, out: seq<Entry>) returns (r: seq<Entry>)
    requires memo.Length == Pow2(|tiles|) && 0 < m < memo.Length
    requires forall k | 0 < k < m :: Final(tiles, k, memo[k])
    requires 0 < a < m && IsSubmask(a, m)
    requires Distinct(out) && AllSound(tiles, m, out)
    requires Values(out) == Values(memo[m]) + Done(tiles, m, a)
    ensures Distinct(r) && AllSound(tiles, m, r) && out <= r
    ensures Values(r) == Values(memo[m]) + Done(tiles, m, And(a - 1, m))
  {
    r := out;
    var b := Xor(m, a);
    Complement(a, m);
    DoneStep(tiles, m, a);
    ghost var added := if a <= m - a then SplitValues(tiles, m, a) else {};
    assert Done(tiles, m, And(a - 1, m)) == Done(tiles, m, a) + added;
    if b != 0 && a <= b {
      var xs, ys := memo[a], memo[b];
      assert Final(tiles, a, xs) && Final(tiles, b, ys);
      assert Combine(Values(xs), Values(ys)) == added;
      if |xs| > 0 && |ys| > 0 {
        r := CombineInto(tiles, out, xs, ys, a, b);
      } else {
        if |xs| == 0 {
          EmptyValues(xs);
        } else {
          EmptyValues(ys);
        }
        CombineEmpty(Values(xs));
        CombineEmpty(Values(ys));
        assert added == {};
      }
    } else {
      assert added == {};
    }
  }

  /** Facts about mask `m` before its split loop: the first sub-mask visited and the initial cell. */
  lemma SplitLoopEntry(tiles: seq<int>, m: nat)
    requires 0 < m
    ensures var a, cell := And(m - 1, m), InitialCell(tiles, m, |tiles|);
      IsSubmask(a, m) && a < m && Distinct(cell) && AllSound(tiles, m, cell) &&
      Done(tiles, m, a) == {} && (SingletonIndex(m, |tiles|).Some? ==> a == 0)
  {
    InitialCellFacts(tiles, m);
    if SingletonIndex(m, |tiles|).Some? {
      Pow2NoProperSubmask(SingletonIndex(m, |tiles|).value);
    }
    AndIsSubmask(m - 1, m);
    DoneStart(tiles, m);
  }

  /** Once every split has been visited the cell of `m` holds exactly the values reachable from `m`. */
  lemma SplitLoopExit(tiles: seq<int>, m: nat, cell: seq<Entry>, out: seq<Entry>)
    requires 0 < m && cell == InitialCell(tiles, m, |tiles|)
    requires Distinct(out) && AllSound(tiles, m, out) && Values(out) == Values(cell) + Done(tiles, m, 0)
    requires SingletonIndex(m, |tiles|).Some? ==> out == cell
    ensures Final(tiles, m, out)
  {
    InitialCellFacts(tiles, m);
    if SingletonIndex(m, |tiles|).None? {
      DoneAll(tiles, m);
    }
  }

  /**
   * The split loop for one mask: every sub-mask `a` from `(m - 1) & m` down
   * to 1. All smaller masks are final, so the mask ends final too; a single
   * tile's mask has no proper sub-mask and keeps its entry.
   */
  method ProcessMask(tiles: seq<int>, memo: array<seq<Entry>>, m: nat) returns (out: seq<Entry>)
    requires memo.Length == Pow2(|tiles|) && 0 < m < memo.Length
    requires forall k | 0 < k < m :: Final(tiles, k, memo[k])
    requires memo[m] == InitialCell(tiles, m, |tiles|)
    ensures Final(tiles, m, out)
    ensures memo[m] <= out
    ensures SingletonIndex(m, |tiles|).Some? ==> out == memo[m]
  {
    out := memo[m];
    SplitLoopEntry(tiles, m);
    var a: nat := And(m - 1, m);
    while a > 0
      invariant IsSubmask(a, m) && a < m
      invariant Distinct(out) && AllSound(tiles, m, out) && memo[m] <= out
      invariant Values(out) == Values(memo[m]) + Done(tiles, m, a)
      invariant SingletonIndex(m, |tiles|).Some? ==> a == 0 && out == memo[m]
      decreases a
    {
      out := VisitSplit(tiles, memo, m, a, out);
      AndIsSubmask(a - 1, m);
        a := And(a - 1, m);
    }
    SplitLoopExit(tiles, m, memo[m], out);
  }

  /**
   * The second loop's progress over the cells: masks below `m` are final,
   * extend their initial cells and, for a single tile, keep them; the others
   * are as initialised.
   */
  ghost predicate Progress(tiles: seq<int>, init: seq<seq<Entry>>, cells: seq<seq<Entry>>, m: nat)
  {
    |cells| == |init| && 1 <= m <= |cells| && cells[0] == init[0] &&
    (forall k | 0 < k < m :: Final(tiles, k, cells[k])) &&
    (forall k | 0 < k < m :: init[k] <= cells[k] && (SingletonIndex(k, |tiles|).Some? ==> cells[k] == init[k])) &&
    (forall k | m <= k < |cells| :: cells[k] == init[k])
  }

  /** Storing the processed cell of mask `m` advances the progress to `m + 1`. */
  lemma ProgressStep(tiles: seq<int>, init: seq<seq<Entry>>, cells: seq<seq<Entry>>, m: nat, out: seq<Entry>)
    requires Progress(tiles, init, cells, m) && m < |cells|
    requires Final(tiles, m, out) && init[m] <= out
    requires SingletonIndex(m, |tiles|).Some? ==> out == init[m]
    ensures Progress(tiles, init, cells[m := out], m + 1)
  {
  }

  /** The second loop: masks in increasing order, so every split's halves are final when used. */
  method FillMemo(tiles: seq<int>, memo: array<seq<Entry>>)
    requires memo.Length == Pow2(|tiles|)
    requires forall k | 0 <= k < memo.Length :: memo[k] == InitialCell(tiles, k, |tiles|)
    modifies memo
    ensures memo[0] == old(memo[0])
    ensures forall k | 0 < k < memo.Length :: Final(tiles, k, memo[k])
    ensures forall k | 0 < k < memo.Length :: old(memo[k]) <= memo[k]
    ensures forall k | 0 < k < memo.Length && SingletonIndex(k, |tiles|).Some? :: memo[k] == old(memo[k])
  {
    ghost var init := memo[..];
    var m := 1;
    while m < memo.Length
      invariant Progress(tiles, init, memo[..], m)
      invariant forall k | 0 <= k < |init| :: init[k] == InitialCell(tiles, k, |tiles|)
    {
      ghost var cells := memo[..];
      var out := ProcessMask(tiles, memo, m);
      ProgressStep(tiles, init, cells, m, out);
      memo[m] := out;
      assert memo[..] == cells[m := out];
      m := m + 1;
    }
  }

  /** A single position's mask is recognised as that position. */
  lemma {:induction false} SingletonIndexOfPow2(i: nat, n: nat)
    requires i < n
    ensures SingletonIndex(Pow2(i), n) == Some(i)
  {
    if i != n - 1 {
      if Pow2(i) == Pow2(n - 1) {
        Pow2Injective(i, n - 1);
      }
      SingletonIndexOfPow2(i, n - 1);
    }
  }

  // ---------------------------------------------------------------------------
  // The scan for the best value
  // ---------------------------------------------------------------------------

  /** The maps' entries one after the other: masks in increasing order, each in insertion order. */
  ghost function Flatten(ss: seq<seq<Entry>>): seq<Entry>
  {
    if ss == [] then [] else Flatten(ss[..|ss| - 1]) + ss[|ss| - 1]
  }

  /** Every entry of every map is visited by the scan. */
  lemma {:induction false} FlattenHas(ss: seq<seq<Entry>>, i: nat, en: Entry)
    requires i < |ss| && en in ss[i]
    ensures en in Flatten(ss)
  {
    var last := |ss| - 1;
    if i < last {
      assert ss[..last][i] == ss[i];
      FlattenHas(ss[..last], i, en);
    }
  }

  /** Every entry the scan visits belongs to some map. */
  lemma {:induction false} FlattenFrom(ss: seq<seq<Entry>>, en: Entry) returns (i: nat)
    requires en in Flatten(ss)
    ensures i < |ss| && en in ss[i]
  {
    var last := |ss| - 1;
    if en in ss[last] {
      i := last;
    } else {
      i := FlattenFrom(ss[..last], en);
      assert ss[..last][i] == ss[i];
    }
  }

  /** What the scan has visited when it is at entry `j` of map `i` is a prefix of the whole visit. */
  lemma {:induction false} FlattenPrefix(ss: seq<seq<Entry>>, i: nat, j: nat)
    requires i < |ss| && j <= |ss[i]|
    ensures Flatten(ss[..i]) + ss[i][..j] <= Flatten(ss)
  {
    var last := |ss| - 1;
    if i == last {
      assert ss[..last] == ss[..i];
    } else {
      FlattenPrefix(ss[..last], i, j);
      assert ss[..last][..i] == ss[..i] && ss[..last][i] == ss[i];
    }
  }

  /** Entry `k` is the first entry of `s` at the least distance from the target. */
  ghost predicate FirstMinAt(s: seq<Entry>, target: int, k: nat)
  {
    k < |s| &&
    (forall j | 0 <= j < k :: AbsDiff(target, s[j].value) > AbsDiff(target, s[k].value)) &&
    (forall j | k < j < |s| :: AbsDiff(target, s[j].value) >= AbsDiff(target, s[k].value))
  }

  /** The scan's answer: none for no entries, otherwise the first closest entry. */
  ghost predicate IsFirstBest(s: seq<Entry>, target: int, best: Option<BestSolution>)
  {
    (best.None? <==> |s| == 0) &&
    (best.Some? ==> exists k | 0 <= k < |s| :: FirstMinAt(s, target, k) && best.value == BestSolution(s[k].value, s[k].expr, AbsDiff(target, s[k].value)))
  }

  /** What the scan holds after visiting `p`: nothing for no entries, otherwise the first closest one, at `k`. */
  ghost predicate ScanState(p: seq<Entry>, target: int, best: Option<BestSolution>, k: nat)
  {
    (best.None? <==> |p| == 0) &&
    (best.Some? ==> FirstMinAt(p, target, k) && best.value == BestSolution(p[k].value, p[k].expr, AbsDiff(target, p[k].value)))
  }

  /** One more entry either replaces the best (when there is none, or it is strictly closer) or leaves it. */
  lemma ScanStep(p: seq<Entry>, en: Entry, target: int, best: Option<BestSolution>, k: nat)
    requires ScanState(p, target, best, k)
    ensures best.None? || AbsDiff(target, en.value) < best.value.diff ==> ScanState(p + [en], target, Some(BestSolution(en.value, en.expr, AbsDiff(target, en.value))), |p|)
    ensures best.Some? && AbsDiff(target, en.value) >= best.value.diff ==> ScanState(p + [en], target, best, k)
  {
    var q := p + [en];
    assert forall j | 0 <= j < |p| :: q[j] == p[j];
  }

  /** An exact hit stays first closest however many entries follow. */
  lemma ScanExact(p: seq<Entry>, s: seq<Entry>, target: int, best: Option<BestSolution>, k: nat)
    requires ScanState(p, target, best, k) && p <= s && best.Some? && best.value.diff == 0
    ensures IsFirstBest(s, target, best)
  {
    assert forall j | 0 <= j < |p| :: s[j] == p[j];
    assert FirstMinAt(s, target, k);
  }

  /**
   * The inner loop of the scan over one mask's entries, in insertion order:
   * an entry replaces the best only when there is none or it is strictly
   * closer, and an exact hit stops the scan (`hit`) at once.
   */
  method ScanCell(cell: seq<Entry>, target: int, best0: Option<BestSolution>, ghost done: seq<Entry>, ghost k0: nat)
    returns (best: Option<BestSolution>, hit: bool, ghost j: nat, ghost k: nat)
    requires ScanState(done, target, best0, k0)
    ensures j <= |cell| && ScanState(done + cell[..j], target, best, k)
    ensures hit ==> best.Some? && best.value.diff == 0
    ensures !hit ==> j == |cell|
  {
    best, hit, k := best0, false, k0;
    var i := 0;
    while i < |cell|
      invariant 0 <= i <= |cell|
      invariant ScanState(done + cell[..i], target, best, k)
    {
      ghost var p := done + cell[..i];
      var en := cell[i];
      assert p + [en] == done + cell[..i + 1];
      var diff := AbsDiff(target, en.value);
      ScanStep(p, en, target, best, k);
      if best.None? || diff < best.value.diff {
        best := Some(BestSolution(en.value, en.expr, diff));
        k := |p|;
      }
      i := i + 1;
      if best.value.diff == 0 {
        hit, j := true, i;
        return;
      }
    }
    j := i;
  }

  /**
   * The final loop: masks in increasing order, each map in insertion order,
   * returning at the first exact hit.
   */
  method Scan(memo: array<seq<Entry>>, target: int) returns (best: Option<BestSolution>)
    requires memo.Length >= 1
    ensures IsFirstBest(Flatten(memo[1..]), target, best)
  {
    ghost var ss := memo[1..];
    best := None;
    ghost var k: nat := 0;
    var m := 1;
    while m < memo.Length
      invariant 1 <= m <= memo.Length
      invariant ScanState(Flatten(ss[..m - 1]), target, best, k)
    {
      ghost var done := Flatten(ss[..m - 1]);
      var cell := memo[m];
      assert cell == ss[m - 1];
      var hit;
      ghost var j;
      best, hit, j, k := ScanCell(cell, target, best, done, k);
      if hit {
        FlattenPrefix(ss, m - 1, j);
        ScanExact(done + cell[..j], Flatten(ss), target, best, k);
        return;
      }
      assert cell[..j] == cell;
      assert ss[..m] == ss[..m - 1] + [cell];
      assert ss[..m][..m - 1] == ss[..m - 1];
      m := m + 1;
    }
    assert ss[..m - 1] == ss;
  }

  /** Every cell of a filled table holds exactly its mask's reachable values, soundly. */
  ghost predicate Filled(tiles: seq<int>, table: seq<seq<Entry>>)
  {
    |table| == Pow2(|tiles|) && forall m | 0 < m < |table| :: Final(tiles, m, table[m])
  }

  /** The first closest entry is no farther from the target than any entry of any non-empty mask. */
  lemma BestIsClosest(table: seq<seq<Entry>>, target: int, best: Option<BestSolution>, m: nat, en: Entry)
    requires 0 < m < |table| && en in table[m]
    requires IsFirstBest(Flatten(table[1..]), target, best) && best.Some?
    ensures best.value.diff <= AbsDiff(target, en.value)
  {
    var s := Flatten(table[1..]);
    var k :| 0 <= k < |s| && FirstMinAt(s, target, k) && best.value == BestSolution(s[k].value, s[k].expr, AbsDiff(target, s[k].value));
    assert table[1..][m - 1] == table[m];
    FlattenHas(table[1..], m - 1, en);
    var j :| 0 <= j < |s| && s[j] == en;
    MinAtBound(s, target, k, j);
  }

  /** The first closest entry is no farther from the target than any entry. */
  lemma MinAtBound(s: seq<Entry>, target: int, k: nat, j: nat)
    requires FirstMinAt(s, target, k) && j < |s|
    ensures AbsDiff(target, s[k].value) <= AbsDiff(target, s[j].value)
  {
  }

  /** The first closest entry of a filled table is no farther from the target than any reachable value. */
  lemma BestIsOptimal(tiles: seq<int>, table: seq<seq<Entry>>, target: int, best: Option<BestSolution>)
    requires Filled(tiles, table) && IsFirstBest(Flatten(table[1..]), target, best) && best.Some?
    ensures forall m, v | 0 < m < |table| && v in Reach(tiles, m) :: best.value.diff <= AbsDiff(target, v)
  {
    forall m, v | 0 < m < |table| && v in Reach(tiles, m)
      ensures best.value.diff <= AbsDiff(target, v)
    {
      assert v in Values(table[m]);
      var en :| en in table[m] && en.value == v;
      BestIsClosest(table, target, best, m, en);
    }
  }

  /** The first closest entry of a filled table is a reachable value with a sound expression. */
  lemma BestIsSound(tiles: seq<int>, table: seq<seq<Entry>>, target: int, best: Option<BestSolution>)
    requires Filled(tiles, table) && IsFirstBest(Flatten(table[1..]), target, best) && best.Some?
    ensures best.value.diff == AbsDiff(target, best.value.value)
    ensures exists m | 0 < m < |table| :: Sound(tiles, m, Entry(best.value.value, best.value.expr)) && best.value.value in Reach(tiles, m)
  {
    var s := Flatten(table[1..]);
    var k :| 0 <= k < |s| && FirstMinAt(s, target, k) && best.value == BestSolution(s[k].value, s[k].expr, AbsDiff(target, s[k].value));
    var i := FlattenFrom(table[1..], s[k]);
    assert table[1..][i] == table[i + 1];
    assert Entry(best.value.value, best.value.expr) == s[k];
    assert s[k].value in Values(table[i + 1]);
  }

  /** A legal step's value is one of the values `Ops` lists for its operands. */
  lemma LegalStepInOps(op: Operation, x: int, y: int)
    requires op == Sub ==> x > y
    requires op == Div ==> y != 0 && x % y == 0
    ensures Apply(op, x, y) in Ops(x, y)
  {
  }

  /** A mask with a proper non-empty sub-mask is no single tile's mask. */
  lemma SplitNotSingleton(a: nat, m: nat, n: nat)
    requires 0 < a < m && IsSubmask(a, m)
    ensures SingletonIndex(m, n).None?
  {
    if SingletonIndex(m, n).Some? {
      Pow2Submask(SingletonIndex(m, n).value, a);
    }
  }

  /**
   * The reference definition misses no expression: a legal expression
   * mentions a non-empty set of the tiles, and its value is reachable from
   * exactly those tiles.
   */
  lemma {:induction false} LegalReach(tiles: seq<int>, e: Expr)
    requires Legal(tiles, e)
    ensures 0 < Uses(e) < Pow2(|tiles|)
    ensures Eval(tiles, e) in Reach(tiles, Uses(e))
  {
    match e
    case Tile(i) =>
      Pow2Increasing(i, |tiles|);
      SingletonIndexOfPow2(i, |tiles|);
    case Node(op, l, r) =>
      LegalReach(tiles, l);
      LegalReach(tiles, r);
      var ul, ur := Uses(l), Uses(r);
      var m := Or(ul, ur);
      DisjointOr(ul, ur);
      OrBelow(ul, ur, |tiles|);
      OrSubmask(ul, ur);
      SplitNotSingleton(ul, m, |tiles|);
      var vl, vr := Eval(tiles, l), Eval(tiles, r);
      LegalStepInOps(op, vl, vr);
      assert m - ul == ur;
      assert Eval(tiles, e) in SplitValues(tiles, m, ul);
  }

  /** On a filled table, no legal expression over the tiles comes closer to the target than the answer. */
  lemma BestBeatsLegal(tiles: seq<int>, table: seq<seq<Entry>>, target: int, best: Option<BestSolution>)
    requires Filled(tiles, table) && IsFirstBest(Flatten(table[1..]), target, best) && best.Some?
    ensures forall e | Legal(tiles, e) :: best.value.diff <= AbsDiff(target, Eval(tiles, e))
  {
    BestIsOptimal(tiles, table, target, best);
    forall e | Legal(tiles, e)
      ensures best.value.diff <= AbsDiff(target, Eval(tiles, e))
    {
      LegalReach(tiles, e);
    }
  }

  /**
   * What the answer promises about the tiles: none exactly when there are
   * no tiles; otherwise a value reachable from some non-empty set of the
   * tiles, together with a legal expression over exactly those tiles, its
   * distance to the target, no reachable value closer to the target, and no
   * legal expression over the tiles closer to the target.
   */
  ghost predicate BestFor(tiles: seq<int>, target: int, best: Option<BestSolution>)
  {
    (best.None? <==> |tiles| == 0) &&
    (best.Some? ==> best.value.diff == AbsDiff(target, best.value.value)) &&
    (best.Some? ==> exists m | 0 < m < Pow2(|tiles|) :: Sound(tiles, m, Entry(best.value.value, best.value.expr)) && best.value.value in Reach(tiles, m)) &&
    (best.Some? ==> forall m, v | 0 < m < Pow2(|tiles|) && v in Reach(tiles, m) :: best.value.diff <= AbsDiff(target, v)) &&
    (best.Some? ==> forall e | Legal(tiles, e) :: best.value.diff <= AbsDiff(target, Eval(tiles, e)))
  }

  /** The first closest entry of a filled table, whose singleton cells hold their tiles, meets `BestFor`. */
  lemma FirstBestIsBest(tiles: seq<int>, table: seq<seq<Entry>>, target: int, best: Option<BestSolution>)
    requires Filled(tiles, table) && IsFirstBest(Flatten(table[1..]), target, best)
    requires forall i | 0 <= i < |tiles| :: Pow2(i) < |table| && table[Pow2(i)] == [Entry(tiles[i], Tile(i))]
    ensures BestFor(tiles, target, best)
  {
    if |tiles| > 0 {
      assert table[1..][0] == table[Pow2(0)];
      FlattenHas(table[1..], 0, Entry(tiles[0], Tile(0)));
    }
    if best.Some? {
      BestIsOptimal(tiles, table, target, best);
      BestIsSound(tiles, table, target, best);
      BestBeatsLegal(tiles, table, target, best);
    }
  }

  /**
   * `computeBestSolution`: the memo holds, for every non-empty mask, exactly
   * the values reachable from its tiles, each with a legal expression over
   * exactly those tiles, and a single tile's mask holds just that tile; the
   * answer is the first entry of the scan closest to the target, so it has
   * all the properties of `BestFor`.
   */
  method ComputeBestSolution(tiles: seq<int>, target: int) returns (best: Option<BestSolution>, ghost table: seq<seq<Entry>>)
    ensures Filled(tiles, table)
    ensures forall i | 0 <= i < |tiles| :: Pow2(i) < |table| && table[Pow2(i)] == [Entry(tiles[i], Tile(i))]
    ensures IsFirstBest(Flatten(table[1..]), target, best)
    ensures BestFor(tiles, target, best)
  {
    var memo := InitMemo(tiles);
    FillMemo(tiles, memo);
    table := memo[..];
    forall i | 0 <= i < |tiles|
      ensures Pow2(i) < |table| && table[Pow2(i)] == [Entry(tiles[i], Tile(i))]
    {
      Pow2Increasing(i, |tiles|);
      SingletonIndexOfPow2(i, |tiles|);
    }
    best := Scan(memo, target);
    assert memo[1..] == table[1..];
    FirstBestIsBest(tiles, table, target, best);
  }
}
