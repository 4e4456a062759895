/**
 * Composing a round: the two tile pools, the draw of six tiles with a chosen
 * number of large ones, and the three-digit target.
 *
 * The random shuffle and the random digits come from a seeded generator
 * whose code is not part of this model; the shuffle is a parameter assumed to
 * return a permutation of its input, and the digits are parameters in the
 * ranges the generator is asked for.
 */
module Round {

  /** Where a tile comes from: one of the two pools, or an operation. */
  datatype Kind = Large | Small | Result

  /** A tile on the board; ids are issued by a counter, so they are fresh and distinct. */
  datatype Tile = Tile(id: nat, value: int, kind: Kind, revealed: bool)

  /** A drawn number before it becomes a tile (`{ value, kind }`). */
  datatype Drawn = Drawn(value: int, kind: Kind)

  /** The large pool. */
  const LargePool: seq<int> := [25, 50, 75, 100]

  /** `1 .. n`, each number twice, in order. */
  function Doubled(n: nat): (r: seq<int>)
    ensures |r| == 2 * n
    ensures forall v :: multiset(r)[v] == if 1 <= v <= n then 2 else 0
  {
    if n == 0 then [] else Doubled(n - 1) + [n, n]
  }

  /** The small pool: `1 .. 10`, each twice. */
  const SmallPool: seq<int> := Doubled(10)

  /** The values of kind `k`, in order. */
  function KindValues(ds: seq<Drawn>, k: Kind): (r: seq<int>)
    ensures |r| <= |ds|
  {
    if ds == [] then []
    else (if ds[0].kind == k then [ds[0].value] else []) + KindValues(ds[1..], k)
  }

  lemma {:induction false} KindValuesAppend(a: seq<Drawn>, b: seq<Drawn>, k: Kind)
    ensures KindValues(a + b, k) == KindValues(a, k) + KindValues(b, k)
  {
    if a == [] {
      assert a + b == b;
    } else {
      var head := if a[0].kind == k then [a[0].value] else [];
      assert (a + b)[0] == a[0] && (a + b)[1..] == a[1..] + b;
      assert KindValues(a + b, k) == head + KindValues(a[1..] + b, k);
      KindValuesAppend(a[1..], b, k);
      assert KindValues(a, k) == head + KindValues(a[1..], k);
      AppendAssoc(head, KindValues(a[1..], k), KindValues(b, k));
    }
  }

  lemma AppendAssoc(x: seq<int>, y: seq<int>, z: seq<int>)
    ensures x + (y + z) == (x + y) + z
  {
  }

  /** Taking out the element at `i` takes its value, if of kind `k`, out of the values of kind `k`. */
  lemma KindValuesRemove(t: seq<Drawn>, i: nat, k: Kind)
    requires i < |t|
    ensures multiset(KindValues(t, k)) == multiset(KindValues([t[i]], k)) + multiset(KindValues(t[..i] + t[i + 1..], k))
  {
    assert t == t[..i] + ([t[i]] + t[i + 1..]);
    KindValuesAppend(t[..i], [t[i]] + t[i + 1..], k);
    KindValuesAppend([t[i]], t[i + 1..], k);
    KindValuesAppend(t[..i], t[i + 1..], k);
  }

  lemma MultisetTail(s: seq<Drawn>)
    requires s != []
    ensures multiset(s[1..]) == multiset(s) - multiset{s[0]}
  {
    assert s == [s[0]] + s[1..];
  }

  lemma MultisetRemoveAt(t: seq<Drawn>, i: nat)
    requires i < |t|
    ensures multiset(t[..i] + t[i + 1..]) == multiset(t) - multiset{t[i]}
  {
    assert t == t[..i] + [t[i]] + t[i + 1..];
  }

  /**
   * Which values of each kind a list holds depends only on its multiset of
   * drawn numbers, so a shuffle keeps it.
   */
  lemma {:induction false} KindValuesPermutation(s: seq<Drawn>, t: seq<Drawn>, k: Kind)
    requires multiset(s) == multiset(t)
    ensures multiset(KindValues(s, k)) == multiset(KindValues(t, k))
    decreases |s|
  {
    if s == [] {
      assert |t| == |multiset(t)| == 0;
    } else {
      var x := s[0];
      assert x in multiset(t);
      var i :| 0 <= i < |t| && t[i] == x;
      var rest := t[..i] + t[i + 1..];
      MultisetRemoveAt(t, i);
      MultisetTail(s);
      assert multiset(s[1..]) == multiset(rest);
      KindValuesPermutation(s[1..], rest, k);
      MatchHead(s, t, i, k);
    }
  }

  /** Matching the head of `s` with element `i` of `t` carries agreement of the remainders over to the whole lists. */
  lemma MatchHead(s: seq<Drawn>, t: seq<Drawn>, i: nat, k: Kind)
    requires s != [] && i < |t| && s[0] == t[i]
    requires multiset(KindValues(s[1..], k)) == multiset(KindValues(t[..i] + t[i + 1..], k))
    ensures multiset(KindValues(s, k)) == multiset(KindValues(t, k))
  {
    var head := if s[0].kind == k then [s[0].value] else [];
    assert KindValues(s, k) == head + KindValues(s[1..], k);
    assert KindValues([t[i]], k) == head by {
      assert [t[i]][1..] == [];
    }
    KindValuesRemove(t, i, k);
  }

  /**
   * The numbers of one pool tagged with its kind: under that kind the list
   * holds exactly those numbers, in order, and under every other kind none.
   */
  function Tag(vs: seq<int>, k: Kind): (r: seq<Drawn>)
    ensures |r| == |vs|
    ensures forall d | d in r :: d.kind == k
    ensures KindValues(r, k) == vs
    ensures forall k' | k' != k :: KindValues(r, k') == []
  {
    if vs == [] then []
    else
      var rest := Tag(vs[1..], k);
      var r := [Drawn(vs[0], k)] + rest;
      assert r[0] == Drawn(vs[0], k) && r[1..] == rest;
      assert forall d | d in r :: d == r[0] || d in rest;
      r
  }

  /**
   * The final `.map`: each drawn number becomes a face-down tile with the
   * next id, keeping its value and kind in place.
   */
  function Number(ds: seq<Drawn>, firstId: nat): (r: seq<Tile>)
    ensures Unnumber(r) == ds
    ensures forall i | 0 <= i < |r| :: r[i].id == firstId + i && !r[i].revealed
  {
    seq(|ds|, i requires 0 <= i < |ds| => Tile(firstId + i, ds[i].value, ds[i].kind, false))
  }

  /** The value and kind of each tile. */
  function Unnumber(ts: seq<Tile>): (r: seq<Drawn>)
    ensures |r| == |ts|
    ensures forall i | 0 <= i < |r| :: r[i] == Drawn(ts[i].value, ts[i].kind)
  {
    seq(|ts|, i requires 0 <= i < |ts| => Drawn(ts[i].value, ts[i].kind))
  }

  lemma PrefixMultiset(s: seq<int>, n: nat)
    requires n <= |s|
    ensures multiset(s[..n]) <= multiset(s)
  {
    assert s == s[..n] + s[n..];
  }

  /**
   * What the draw comes to whatever order the shuffles produce: `lc` values
   * of the large pool `lp` and `sc` of the small pool `sp`, none of them a
   * result.
   */
  lemma DrawnMakeUp(lp: seq<int>, sp: seq<int>, largeShuffled: seq<int>, smallShuffled: seq<int>,
                    lc: nat, sc: nat, drawn: seq<Drawn>)
    requires multiset(largeShuffled) == multiset(lp) && multiset(smallShuffled) == multiset(sp)
    requires lc <= |largeShuffled| && sc <= |smallShuffled|
    requires multiset(drawn) == multiset(Tag(largeShuffled[..lc], Large) + Tag(smallShuffled[..sc], Small))
    ensures |drawn| == lc + sc
    ensures forall d | d in drawn :: d.kind != Result
    ensures |KindValues(drawn, Large)| == lc && multiset(KindValues(drawn, Large)) <= multiset(lp)
    ensures |KindValues(drawn, Small)| == sc && multiset(KindValues(drawn, Small)) <= multiset(sp)
  {
    var large := largeShuffled[..lc];
    var small := smallShuffled[..sc];
    var both := Tag(large, Large) + Tag(small, Small);
    assert |largeShuffled| == |multiset(lp)| && |smallShuffled| == |multiset(sp)|;
    assert |drawn| == |multiset(both)|;
    forall d | d in drawn
      ensures d.kind != Result
    {
      assert d in multiset(both);
    }
    ShuffledKind(drawn, Tag(large, Large), Tag(small, Small), Large);
    ShuffledKind(drawn, Tag(large, Large), Tag(small, Small), Small);
    assert KindValues(Tag(small, Small), Large) == [] && KindValues(Tag(large, Large), Small) == [];
    PoolPrefix(KindValues(drawn, Large), largeShuffled, lp, lc);
    PoolPrefix(KindValues(drawn, Small), smallShuffled, sp, sc);
  }

  /** Values that are a permutation of the first `n` of a shuffled pool are `n` values taken from the pool. */
  lemma PoolPrefix(vs: seq<int>, shuffled: seq<int>, pool: seq<int>, n: nat)
    requires n <= |shuffled| && multiset(shuffled) == multiset(pool)
    requires multiset(vs) == multiset(shuffled[..n])
    ensures |vs| == n && multiset(vs) <= multiset(pool)
  {
    assert |vs| == |multiset(vs)|;
    PrefixMultiset(shuffled, n);
  }

  /** A shuffle of a concatenation holds, under each kind, the values of both parts under that kind. */
  lemma ShuffledKind(drawn: seq<Drawn>, x: seq<Drawn>, y: seq<Drawn>, k: Kind)
    requires multiset(drawn) == multiset(x + y)
    ensures multiset(KindValues(drawn, k)) == multiset(KindValues(x, k)) + multiset(KindValues(y, k))
  {
    KindValuesAppend(x, y, k);
    KindValuesPermutation(x + y, drawn, k);
  }

  /**
   * The draw from two pools: `lc` numbers from the shuffled large pool and
   * `sc` from the shuffled small pool, shuffled together and numbered.
   */
  function DrawFrom(lp: seq<int>, sp: seq<int>, lc: nat, sc: nat, firstId: nat,
                    shuffleInts: seq<int> -> seq<int>, shuffleDrawn: seq<Drawn> -> seq<Drawn>): (r: seq<Tile>)
    requires lc <= |lp| && sc <= |sp|
    requires forall s :: multiset(shuffleInts(s)) == multiset(s)
    requires forall s :: multiset(shuffleDrawn(s)) == multiset(s)
    ensures |r| == lc + sc
    ensures forall i | 0 <= i < |r| :: r[i].id == firstId + i && !r[i].revealed
  {
    var largeShuffled := shuffleInts(lp);
    var smallShuffled := shuffleInts(sp);
    assert |largeShuffled| == |multiset(lp)|;
    assert |smallShuffled| == |multiset(sp)|;
    var both := Tag(largeShuffled[..lc], Large) + Tag(smallShuffled[..sc], Small);
    assert |shuffleDrawn(both)| == |multiset(both)|;
    Number(shuffleDrawn(both), firstId)
  }

  /**
   * What the draw from two pools holds whatever order the shuffles produce:
   * no result tile, `lc` values of the large pool and `sc` of the small pool.
   */
  lemma DrawFromMakeUp(lp: seq<int>, sp: seq<int>, lc: nat, sc: nat, firstId: nat,
                       shuffleInts: seq<int> -> seq<int>, shuffleDrawn: seq<Drawn> -> seq<Drawn>)
    requires lc <= |lp| && sc <= |sp|
    requires forall s :: multiset(shuffleInts(s)) == multiset(s)
    requires forall s :: multiset(shuffleDrawn(s)) == multiset(s)
    ensures var r := DrawFrom(lp, sp, lc, sc, firstId, shuffleInts, shuffleDrawn);
      (forall i | 0 <= i < |r| :: r[i].kind != Result) &&
      |KindValues(Unnumber(r), Large)| == lc && multiset(KindValues(Unnumber(r), Large)) <= multiset(lp) &&
      |KindValues(Unnumber(r), Small)| == sc && multiset(KindValues(Unnumber(r), Small)) <= multiset(sp)
  {
    var largeShuffled := shuffleInts(lp);
    var smallShuffled := shuffleInts(sp);
    assert |largeShuffled| == |multiset(lp)|;
    assert |smallShuffled| == |multiset(sp)|;
    var drawn := shuffleDrawn(Tag(largeShuffled[..lc], Large) + Tag(smallShuffled[..sc], Small));
    DrawnMakeUp(lp, sp, largeShuffled, smallShuffled, lc, sc, drawn);
    var r := Number(drawn, firstId);
    assert r == DrawFrom(lp, sp, lc, sc, firstId, shuffleInts, shuffleDrawn);
    NoResultTile(r);
  }

  /** Tiles whose values and kinds include no result are no result tiles. */
  lemma NoResultTile(r: seq<Tile>)
    requires forall d | d in Unnumber(r) :: d.kind != Result
    ensures forall i | 0 <= i < |r| :: r[i].kind != Result
  {
    forall i | 0 <= i < |r| ensures r[i].kind != Result {
      assert Unnumber(r)[i] in Unnumber(r);
    }
  }

  /** `drawTiles(largeCount)`: six face-down tiles with consecutive fresh ids. */
  function DrawTiles(largeCount: nat, firstId: nat,
                     shuffleInts: seq<int> -> seq<int>, shuffleDrawn: seq<Drawn> -> seq<Drawn>): (r: seq<Tile>)
    requires largeCount <= 4
    requires forall s :: multiset(shuffleInts(s)) == multiset(s)
    requires forall s :: multiset(shuffleDrawn(s)) == multiset(s)
    ensures |r| == 6
    ensures forall i | 0 <= i < 6 :: r[i].id == firstId + i && !r[i].revealed
  {
    DrawFrom(LargePool, SmallPool, largeCount, 6 - largeCount, firstId, shuffleInts, shuffleDrawn)
  }

  /**
   * What `drawTiles(largeCount)` holds: no result tile, exactly `largeCount`
   * large values taken from the large pool (each at most as often as the
   * pool holds it) and the others small values taken from the small pool.
   */
  lemma DrawTilesMakeUp(largeCount: nat, firstId: nat,
                        shuffleInts: seq<int> -> seq<int>, shuffleDrawn: seq<Drawn> -> seq<Drawn>)
    requires largeCount <= 4
    requires forall s :: multiset(shuffleInts(s)) == multiset(s)
    requires forall s :: multiset(shuffleDrawn(s)) == multiset(s)
    ensures var r := DrawTiles(largeCount, firstId, shuffleInts, shuffleDrawn);
      (forall i | 0 <= i < 6 :: r[i].kind != Result) &&
      |KindValues(Unnumber(r), Large)| == largeCount && multiset(KindValues(Unnumber(r), Large)) <= multiset(LargePool) &&
      |KindValues(Unnumber(r), Small)| == 6 - largeCount && multiset(KindValues(Unnumber(r), Small)) <= multiset(SmallPool)
  {
    DrawFromMakeUp(LargePool, SmallPool, largeCount, 6 - largeCount, firstId, shuffleInts, shuffleDrawn);
  }

  /** Quotient and remainder by ten, from a decomposition. */
  lemma DivMod10(x: int, q: int, r: int)
    requires x == 10 * q + r && 0 <= r < 10
    ensures x / 10 == q && x % 10 == r
  {
  }

  /** Quotient by a hundred, from a decomposition. */
  lemma Div100(x: int, q: int, r: int)
    requires x == 100 * q + r && 0 <= r < 100
    ensures x / 100 == q
  {
  }

  /**
   * The target formed by the three fixed digits (`final1 * 100 + final2 * 10
   * + final3`): a three-digit number whose decimal digits are the three digits.
   */
  function Target(d1: int, d2: int, d3: int): (t: int)
    requires 1 <= d1 <= 9 && 0 <= d2 <= 9 && 0 <= d3 <= 9
    ensures 100 <= t <= 999
    ensures t / 100 == d1 && t / 10 % 10 == d2 && t % 10 == d3
  {
    var t := d1 * 100 + d2 * 10 + d3;
    Div100(t, d1, d2 * 10 + d3);
    DivMod10(t, d1 * 10 + d2, d3);
    DivMod10(d1 * 10 + d2, d1, d2);
    t
  }

  /** Every three-digit number is the target of its own digits. */
  lemma TargetOnto(t: int)
    requires 100 <= t <= 999
    ensures 1 <= t / 100 <= 9 && 0 <= t / 10 % 10 <= 9 && 0 <= t % 10 <= 9
    ensures Target(t / 100, t / 10 % 10, t % 10) == t
  {
    var u := t / 10;
    assert t == 10 * u + t % 10;
    assert u == 10 * (u / 10) + u % 10;
    Div100(t, u / 10, u % 10 * 10 + t % 10);
  }
}
