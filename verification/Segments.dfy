/** Cutting the process data into datagrams: the packing part of `ecx_main_config_map_group`. */
module Segments {
  import opened Basics

  const MAX_ECAT_FRAME := 1518
  const FIRST_DC_DATAGRAM := 20
  const MAX_LRW_DATA := MAX_ECAT_FRAME - 14 - 2 - 10 - 2 - 4

  /** The first datagram shares its frame with the clock datagram. */
  const FIRST_BOUND := MAX_LRW_DATA - FIRST_DC_DATAGRAM

  /** Segments closed so far, bytes in the open one, the most it may hold, and the expected working counter. */
  datatype Packer = Packer(closed: seq<nat>, size: nat, max: nat, wkc: nat)
  {
    ghost predicate Valid(limit: nat) {
      && max == (if closed == [] then FIRST_BOUND else MAX_LRW_DATA)
      && |closed| <= limit && (|closed| < limit ==> size <= max)
      && forall k :: 0 <= k < |closed| ==> 0 < closed[k] <= BoundOf(k)
    }

    /** Bytes packed so far. */
    function Total(): nat {
      Sum(closed) + size
    }
  }

  function BoundOf(k: nat): nat {
    if k == 0 then FIRST_BOUND else MAX_LRW_DATA
  }

  /** The open segment is closed and an empty one begun. */
  function Closed(p: Packer): Packer {
    Packer(p.closed + [p.size], 0, MAX_LRW_DATA, p.wkc)
  }

  /** Full segments are closed while more than one is needed for what has piled up. */
  function Spill(p: Packer, limit: nat): Packer
    requires p.max > 0
    decreases p.size
  {
    if p.size > p.max && |p.closed| < limit then
      Spill(Packer(p.closed + [p.max], p.size - p.max, MAX_LRW_DATA, p.wkc + 1), limit)
    else p
  }

  /** A slave adds `d` bytes. */
  function AddExtent(p: Packer, d: nat, limit: nat): Packer
    requires p.max > 0
  {
    var p1 := if p.size + d > p.max && d <= p.max && |p.closed| < limit then Closed(p) else p;
    var p2 := Spill(p1.(size := p1.size + d), limit);
    if p2.size > 0 && d > 0 then p2.(wkc := p2.wkc + 1) else p2
  }

  /** The last, partly used byte of a direction. */
  function AddRest(p: Packer, limit: nat): Packer {
    var p1 := if p.size + 1 > p.max && |p.closed| < limit then Closed(p).(wkc := p.wkc + 1) else p;
    p1.(size := p1.size + 1)
  }

  /** A slave's mailbox status, `m` bytes (none or one). */
  function AddStatus(p: Packer, m: nat, limit: nat): Packer {
    if p.size + m > FIRST_BOUND then
      if |p.closed| + 1 < limit then Closed(p).(size := m) else p
    else p.(size := p.size + m)
  }

  // ---------- sizes ----------

  lemma {:induction false} SpillValid(p: Packer, limit: nat)
    requires p.Valid(limit) || p.(size := 0).Valid(limit)
    ensures Spill(p, limit).Valid(limit) && Spill(p, limit).Total() == p.Total()
    decreases p.size
  {
    hide Sum;
    if p.size > p.max && |p.closed| < limit {
      SumAppend(p.closed, p.max);
      SpillOnce(p, limit);
      SpillValid(Packer(p.closed + [p.max], p.size - p.max, MAX_LRW_DATA, p.wkc + 1), limit);
    }
  }

  lemma ClosedValid(p: Packer, limit: nat)
    requires p.Valid(limit) && |p.closed| < limit && p.size > 0
    ensures Closed(p).Valid(limit) && Closed(p).Total() == p.Total()
  {
    SumAppend(p.closed, p.size);
  }

  /** Whatever a slave adds is packed, and no segment gets too long while there are segments left. */
  lemma AddExtentValid(p: Packer, d: nat, limit: nat)
    requires p.Valid(limit)
    ensures AddExtent(p, d, limit).Valid(limit) && AddExtent(p, d, limit).Total() == p.Total() + d
  {
    hide Sum, Spill;
    var close := p.size + d > p.max && d <= p.max && |p.closed| < limit;
    if close {
      ClosedValid(p, limit);
    }
    var p1 := if close then Closed(p) else p;
    SpillValid(p1.(size := p1.size + d), limit);
  }

  lemma AddRestValid(p: Packer, limit: nat)
    requires p.Valid(limit)
    ensures AddRest(p, limit).Valid(limit) && AddRest(p, limit).Total() == p.Total() + 1
  {
    if p.size + 1 > p.max && |p.closed| < limit {
      ClosedValid(p, limit);
    }
  }

  lemma AddStatusValid(p: Packer, m: nat, limit: nat)
    requires p.Valid(limit) && m <= 1
    ensures |AddStatus(p, m, limit).closed| + 1 < limit ==>
      AddStatus(p, m, limit).Valid(limit) && AddStatus(p, m, limit).Total() == p.Total() + m
  {
    if p.size + m > FIRST_BOUND && |p.closed| + 1 < limit {
      ClosedValid(p, limit);
    }
  }

  // ---------- boundaries ----------

  /** From `p` to `p2` packing has gone on: the closed segments stay, and new boundaries lie behind all
    * that was packed in `p`. */
  ghost predicate Grown(p: Packer, p2: Packer) {
    && |p.closed| <= |p2.closed| && p2.closed[..|p.closed|] == p.closed && p.Total() <= p2.Total()
    && forall k :: |p.closed| < k <= |p2.closed| ==> Sum(p2.closed[..k]) >= p.Total()
  }

  /** No segment boundary lies strictly inside the bytes from `a` up to `b`. */
  ghost predicate Uncut(closed: seq<nat>, a: nat, b: nat) {
    forall k :: 0 <= k <= |closed| ==> Sum(closed[..k]) <= a || b <= Sum(closed[..k])
  }

  lemma GrownTrans(p: Packer, q: Packer, r: Packer)
    requires Grown(p, q) && Grown(q, r)
    ensures Grown(p, r)
  {
    assert r.closed[..|p.closed|] == r.closed[..|q.closed|][..|p.closed|];
    forall k | |p.closed| < k <= |r.closed| ensures Sum(r.closed[..k]) >= p.Total() {
      if k <= |q.closed| {
        assert r.closed[..k] == r.closed[..|q.closed|][..k] == q.closed[..k];
      }
    }
  }

  /** What is uncut stays uncut. */
  lemma UncutStays(p: Packer, p2: Packer, a: nat, b: nat)
    requires Grown(p, p2) && Uncut(p.closed, a, b) && b <= p.Total()
    ensures Uncut(p2.closed, a, b)
  {
    forall k | 0 <= k <= |p2.closed| ensures Sum(p2.closed[..k]) <= a || b <= Sum(p2.closed[..k]) {
      if k <= |p.closed| {
        assert p2.closed[..k] == p2.closed[..|p.closed|][..k] == p.closed[..k];
      }
    }
  }

  /** One more segment, of `x` bytes, is closed. */
  lemma CloseGrows(p: Packer, x: nat, size: nat, max: nat, wkc: nat)
    requires x >= p.size
    ensures Grown(p, Packer(p.closed + [x], size, max, wkc))
  {
    SumAppend(p.closed, x);
    assert (p.closed + [x])[..|p.closed|] == p.closed;
    assert (p.closed + [x])[..|p.closed| + 1] == p.closed + [x];
  }

  lemma {:induction false} SpillGrows(p: Packer, limit: nat, base: Packer)
    requires p.max > 0 && base.closed == p.closed && base.size <= p.size
    requires base.size <= p.max || |p.closed| >= limit
    ensures Grown(base, Spill(p, limit))
    decreases p.size
  {
    if p.size > p.max && |p.closed| < limit {
      var next := Packer(p.closed + [p.max], p.size - p.max, MAX_LRW_DATA, p.wkc + 1);
      CloseGrows(base, p.max, 0, MAX_LRW_DATA, p.wkc + 1);
      SpillGrows(next, limit, next.(size := 0));
      GrownTrans(base, next.(size := 0), Spill(p, limit));
    } else {
      assert p.closed[..|p.closed|] == p.closed;
    }
  }

  lemma SpillNothing(p: Packer, limit: nat)
    requires p.max > 0 && (p.size <= p.max || |p.closed| >= limit)
    ensures Spill(p, limit) == p
  {
  }

  /** Boundaries lie at or before what is packed. */
  lemma {:induction false} BoundariesWithin(closed: seq<nat>)
    ensures forall k :: 0 <= k <= |closed| ==> Sum(closed[..k]) <= Sum(closed)
  {
    if closed != [] {
      var init := closed[..|closed| - 1];
      BoundariesWithin(init);
      forall k | 0 <= k <= |closed| ensures Sum(closed[..k]) <= Sum(closed) {
        if k < |closed| {
          assert closed[..k] == init[..k];
        } else {
          assert closed[..k] == closed;
        }
      }
    }
  }

  /** A slave that fits into a segment as it stands is not cut; a slave never cuts what came before. */
  lemma AddExtentCuts(p: Packer, d: nat, limit: nat)
    requires p.Valid(limit)
    ensures Grown(p, AddExtent(p, d, limit))
    ensures d <= p.max ==> Uncut(AddExtent(p, d, limit).closed, p.Total(), p.Total() + d)
  {
    hide Sum, Spill;
    if p.size + d > p.max && d <= p.max && |p.closed| < limit {
      CloseGrows(p, p.size, d, MAX_LRW_DATA, p.wkc);
      SpillNothing(Closed(p).(size := d), limit);
      SumAppend(p.closed, p.size);
      BoundariesWithin(p.closed + [p.size]);
    } else {
      SpillGrows(p.(size := p.size + d), limit, p);
      BoundariesWithin(p.closed);
      if d <= p.max {
        SpillNothing(p.(size := p.size + d), limit);
      }
    }
  }

  // ---------- how full the segments are ----------

  /** Segments are closed only for want of room: if the slave fits into the open one, nothing is closed; if it fits into
    * one as long as the open one may get, it begins a new one; and if not, it fills up the open one and 1486 bytes of
    * every further one but the last. */
  lemma AddExtentFills(p: Packer, d: nat, limit: nat)
    requires p.Valid(limit) && |p.closed| < limit
    ensures var q := AddExtent(p, d, limit);
      && |p.closed| <= |q.closed| <= limit && q.closed[..|p.closed|] == p.closed
      && (p.size + d <= p.max ==> q.closed == p.closed && q.size == p.size + d)
      && (p.size + d > p.max >= d ==> q.closed == p.closed + [p.size] && q.size == d)
      && (d > p.max ==>
           && |q.closed| > |p.closed| && q.closed[|p.closed|] == p.max
           && (forall k :: |p.closed| < k < |q.closed| ==> q.closed[k] == 1486)
           && q.size > 0 && (q.size > 1486 ==> |q.closed| == limit))
  {
    hide Spill;
    var close := p.size + d > p.max >= d;
    var p1 := (if close then Closed(p) else p).(size := if close then d else p.size + d);
    assert p.closed[..|p.closed|] == p.closed;
    if d > p.max {
      var next := Packer(p.closed + [p.max], p1.size - p.max, MAX_LRW_DATA, p.wkc + 1);
      SpillOnce(p1, limit);
      SpillFills(next, limit);
    } else {
      SpillNothing(p1, limit);
    }
  }

  lemma {:induction false} SpillFills(p: Packer, limit: nat)
    requires p.max == MAX_LRW_DATA && |p.closed| <= limit && p.size > 0
    ensures var q := Spill(p, limit);
      && |p.closed| <= |q.closed| <= limit && q.closed[..|p.closed|] == p.closed && q.size > 0
      && (forall k :: |p.closed| <= k < |q.closed| ==> q.closed[k] == 1486)
      && (q.size > 1486 ==> |q.closed| == limit)
    decreases p.size
  {
    if p.size > p.max && |p.closed| < limit {
      var next := Packer(p.closed + [p.max], p.size - p.max, MAX_LRW_DATA, p.wkc + 1);
      SpillFills(next, limit);
      var q := Spill(p, limit);
      assert q.closed[..|p.closed|] == q.closed[..|next.closed|][..|p.closed|];
      assert q.closed[|p.closed|] == q.closed[..|next.closed|][|p.closed|];
    } else {
      assert p.closed[..|p.closed|] == p.closed;
    }
  }

  /** A byte of status or the rest of a direction begins a new segment just when there is none left in the open one; for
    * a status that is after 1466 bytes in any segment, and one that finds no segment left is not packed. */
  lemma AddTight(p: Packer, limit: nat)
    requires p.Valid(limit) && |p.closed| < limit
    ensures AddRest(p, limit).closed == if p.size == p.max then p.closed + [p.size] else p.closed
    ensures AddRest(p, limit).size == if p.size == p.max then 1 else p.size + 1
    ensures AddRest(p, limit).wkc == (if p.size == p.max then p.wkc + 1 else p.wkc)
      && AddStatus(p, 1, limit).wkc == AddStatus(p, 0, limit).wkc == p.wkc
    ensures var q := AddStatus(p, 1, limit);
      && (p.size < 1466 ==> q.closed == p.closed && q.size == p.size + 1)
      && (p.size >= 1466 ==>
           if |p.closed| + 1 < limit then q.closed == p.closed + [p.size] && q.size == 1 else q == p)
    ensures AddStatus(p, 0, limit).Total() == p.Total() && AddRest(p, limit).max >= AddRest(p, limit).size
  {
    if p.size > FIRST_BOUND {
      SumAppend(p.closed, p.size);
    }
  }

  // ---------- working counters ----------

  function Min(a: int, b: int): int {
    if a < b then a else b
  }

  function Max(a: int, b: int): int {
    if a > b then a else b
  }

  /** Whether a segment of `size` bytes at offset `from` has bytes in common with those from `a` up to `b`. */
  predicate Meets(from: nat, size: nat, a: nat, b: nat) {
    Max(from, a) < Min(from + size, b)
  }

  /** In how many of the segments some of the bytes from `a` up to `b` travel. */
  function Touched(segments: seq<nat>, a: nat, b: nat): nat {
    if segments == [] then 0
    else
      var init := segments[..|segments| - 1];
      Touched(init, a, b) + if Meets(Sum(init), segments[|segments| - 1], a, b) then 1 else 0
  }

  /** The segments, the open one included. */
  function All(p: Packer): seq<nat> {
    p.closed + [p.size]
  }

  lemma TouchedAppend(segments: seq<nat>, x: nat, a: nat, b: nat)
    ensures Touched(segments + [x], a, b) == Touched(segments, a, b) + if Meets(Sum(segments), x, a, b) then 1 else 0
  {
    assert (segments + [x])[..|segments|] == segments;
  }

  /** Segments that start behind `b` do not count, nor does it matter how long the last one before gets. */
  lemma {:induction false} TouchedStays(p: Packer, p2: Packer, a: nat, b: nat, n: nat)
    requires Grown(p, p2) && b <= p.Total() && |p.closed| < n <= |p2.closed| + 1
    ensures Touched(All(p2)[..n], a, b) == Touched(All(p), a, b)
    decreases n
  {
    hide Touched, Sum;
    var all := All(p2);
    var init := all[..n - 1];
    assert all[..n] == init + [all[n - 1]];
    TouchedAppend(init, all[n - 1], a, b);
    TouchedAppend(p.closed, p.size, a, b);
    if n == |p.closed| + 1 {
      assert init == p.closed;
      if n <= |p2.closed| {
        assert p2.closed[..n] == p.closed + [p2.closed[n - 1]];
        SumAppend(p.closed, p2.closed[n - 1]);
      }
    } else {
      TouchedStays(p, p2, a, b, n - 1);
      assert init == p2.closed[..n - 1];
    }
  }

  lemma TouchedLater(p: Packer, p2: Packer, a: nat, b: nat)
    requires Grown(p, p2) && b <= p.Total()
    ensures Touched(All(p2), a, b) == Touched(All(p), a, b)
  {
    TouchedStays(p, p2, a, b, |p2.closed| + 1);
    assert All(p2)[..|p2.closed| + 1] == All(p2);
  }

  /** Segments behind what has been packed count for nothing yet. */
  lemma {:induction false} TouchedBehind(segments: seq<nat>, a: nat, b: nat)
    requires Sum(segments) <= a
    ensures Touched(segments, a, b) == 0
    decreases |segments|
  {
    if segments != [] {
      TouchedBehind(segments[..|segments| - 1], a, b);
    }
  }

  /** Each full segment spilled carries part of the slave, and so does what remains. */
  lemma {:induction false} SpillTouches(p: Packer, limit: nat, a: nat, b: nat)
    requires p.max > 0 && p.size > 0 && b == p.Total() && a < b
    requires p.size > p.max && |p.closed| < limit ==> a < Sum(p.closed) + p.max
    ensures var q := Spill(p, limit);
      q.size > 0 && Touched(All(q), a, b) == Touched(p.closed, a, b) + (q.wkc - p.wkc) + 1
    decreases p.size
  {
    if p.size > p.max && |p.closed| < limit {
      var next := Packer(p.closed + [p.max], p.size - p.max, MAX_LRW_DATA, p.wkc + 1);
      SumAppend(p.closed, p.max);
      TouchedAppend(p.closed, p.max, a, b);
      SpillTouches(next, limit, a, b);
    } else {
      TouchedAppend(p.closed, p.size, a, b);
    }
  }

  /** The open segment is exactly full and the slave needs more than a whole segment. */
  predicate Overcounted(p: Packer, d: nat, limit: nat) {
    p.size == p.max && d > p.max && |p.closed| < limit
  }

  /** The segment is closed before the slave is added. */
  lemma WkcClosing(p: Packer, d: nat, limit: nat)
    requires p.Valid(limit) && 0 < d <= p.max && |p.closed| < limit
    ensures var q := Spill(Closed(p).(size := d), limit);
      q.size > 0 && q.wkc + 1 - p.wkc == Touched(All(q), p.Total(), p.Total() + d)
  {
    hide Spill, Touched;
    var a, b := p.Total(), p.Total() + d;
    SumAppend(p.closed, p.size);
    TouchedBehind(p.closed + [p.size], a, b);
    SpillTouches(Closed(p).(size := d), limit, a, b);
  }

  /** The slave goes into the open segment, which is not closed first. */
  lemma WkcFilling(p: Packer, d: nat, limit: nat)
    requires p.Valid(limit) && d > 0 && !Overcounted(p, d, limit)
    requires p.size + d > p.max ==> d > p.max || |p.closed| >= limit
    ensures var q := Spill(p.(size := p.size + d), limit);
      q.size > 0 && q.wkc + 1 - p.wkc == Touched(All(q), p.Total(), p.Total() + d)
  {
    hide Spill, Touched;
    var a, b := p.Total(), p.Total() + d;
    TouchedBehind(p.closed, a, b);
    SpillTouches(p.(size := p.size + d), limit, a, b);
  }

  /** The full open segment is spilled as if it carried part of the slave. */
  lemma WkcOvercounting(p: Packer, d: nat, limit: nat)
    requires p.Valid(limit) && Overcounted(p, d, limit)
    ensures var q := Spill(p.(size := p.size + d), limit);
      q.size > 0 && q.wkc - p.wkc == Touched(All(q), p.Total(), p.Total() + d)
  {
    var a, b := p.Total(), p.Total() + d;
    var next := Packer(p.closed + [p.max], d, MAX_LRW_DATA, p.wkc + 1);
    assert Spill(p.(size := p.size + d), limit) == Spill(next, limit);
    hide Spill, Touched;
    SumAppend(p.closed, p.max);
    TouchedBehind(next.closed, a, b);
    SpillTouches(next, limit, a, b);
  }

  /** A slave raises the expected working counter by the number of datagrams that carry some of its bytes,
    * and by one too many exactly when the open segment is full and the slave does not fit into a whole one. */
  lemma AddExtentWkc(p: Packer, d: nat, limit: nat)
    requires p.Valid(limit) && d > 0
    ensures var q := AddExtent(p, d, limit);
      q.wkc - p.wkc == Touched(All(q), p.Total(), p.Total() + d) + if Overcounted(p, d, limit) then 1 else 0
  {
    hide Spill, Touched, Sum;
    if p.size + d > p.max && d <= p.max && |p.closed| < limit {
      WkcClosing(p, d, limit);
    } else if Overcounted(p, d, limit) {
      WkcOvercounting(p, d, limit);
    } else {
      WkcFilling(p, d, limit);
    }
  }

  // ---------- all slaves of a direction ----------

  /** Slaves add their bytes one after the other. */
  function Pack(ds: seq<nat>, p: Packer, limit: nat): (q: Packer)
    requires p.max > 0
    ensures q.max > 0
  {
    if ds == [] then p
    else
      var q := Pack(ds[..|ds| - 1], p, limit);
      AddExtentMax(q, ds[|ds| - 1], limit);
      AddExtent(q, ds[|ds| - 1], limit)
  }

  lemma {:induction false} SpillMax(p: Packer, limit: nat)
    requires p.max > 0
    ensures Spill(p, limit).max > 0
    decreases p.size
  {
    if p.size > p.max && |p.closed| < limit {
      SpillMax(Packer(p.closed + [p.max], p.size - p.max, MAX_LRW_DATA, p.wkc + 1), limit);
    }
  }

  lemma AddExtentMax(p: Packer, d: nat, limit: nat)
    requires p.max > 0
    ensures AddExtent(p, d, limit).max > 0
  {
    var p1 := if p.size + d > p.max && d <= p.max && |p.closed| < limit then Closed(p) else p;
    SpillMax(p1.(size := p1.size + d), limit);
  }

  lemma {:induction false} PackValid(ds: seq<nat>, p: Packer, limit: nat)
    requires p.Valid(limit)
    ensures Pack(ds, p, limit).Valid(limit) && Pack(ds, p, limit).Total() == p.Total() + Sum(ds)
    decreases |ds|
  {
    hide AddExtent;
    if ds != [] {
      var n := |ds| - 1;
      PackValid(ds[..n], p, limit);
      AddExtentValid(Pack(ds[..n], p, limit), ds[n], limit);
    }
  }

  lemma GrownReflexive(p: Packer)
    ensures Grown(p, p)
  {
    assert p.closed[..|p.closed|] == p.closed;
  }

  lemma {:induction false} PackGrows(ds: seq<nat>, p: Packer, limit: nat)
    requires p.Valid(limit)
    ensures Grown(p, Pack(ds, p, limit))
    decreases |ds|
  {
    hide AddExtent, Grown, Uncut;
    GrownReflexive(p);
    if ds != [] {
      var n := |ds| - 1;
      var q := Pack(ds[..n], p, limit);
      PackValid(ds[..n], p, limit);
      PackGrows(ds[..n], p, limit);
      AddExtentCuts(q, ds[n], limit);
      GrownTrans(p, q, AddExtent(q, ds[n], limit));
    }
  }

  lemma SumPrefix(ds: seq<nat>, n: nat, i: nat)
    requires i <= n <= |ds|
    ensures Sum(ds[..n][..i]) == Sum(ds[..i])
  {
    assert ds[..n][..i] == ds[..i];
  }

  lemma {:induction false} SumGrows(ds: seq<nat>, i: nat)
    requires i < |ds|
    ensures Sum(ds[..i]) + ds[i] == Sum(ds[..i + 1]) <= Sum(ds)
    decreases |ds|
  {
    assert ds[..i + 1][..i] == ds[..i];
    if i == |ds| - 1 {
      assert ds[..i + 1] == ds;
    } else {
      SumGrows(ds[..|ds| - 1], i);
      SumPrefix(ds, |ds| - 1, i);
      SumPrefix(ds, |ds| - 1, i + 1);
    }
  }

  /** A slave whose bytes fit into the first segment is never cut in two, whatever the other slaves need. */
  lemma {:induction false} SmallSlaveUncut(ds: seq<nat>, p: Packer, limit: nat, i: nat)
    requires p.Valid(limit) && i < |ds| && ds[i] <= FIRST_BOUND
    ensures var from := p.Total() + Sum(ds[..i]);
      Uncut(Pack(ds, p, limit).closed, from, from + ds[i])
    decreases |ds|
  {
    hide AddExtent, Grown, Uncut, Sum;
    var n := |ds| - 1;
    var q := Pack(ds[..n], p, limit);
    PackValid(ds[..n], p, limit);
    AddExtentCuts(q, ds[n], limit);
    if i < n {
      SmallSlaveUncut(ds[..n], p, limit, i);
      SumPrefix(ds, n, i);
      SumGrows(ds[..n], i);
      var from := p.Total() + Sum(ds[..i]);
      SumPrefix(ds, n, i + 1);
      UncutStays(q, AddExtent(q, ds[n], limit), from, from + ds[i]);
    }
  }

  /** How many datagrams carry bytes of the first `n` slaves, summed over the slaves. */
  function Meetings(segments: seq<nat>, ds: seq<nat>, base: nat, n: nat): nat
    requires n <= |ds|
  {
    if n == 0 then 0
    else
      var from := base + Sum(ds[..n - 1]);
      Meetings(segments, ds, base, n - 1) + if ds[n - 1] == 0 then 0 else Touched(segments, from, from + ds[n - 1])
  }

  /** How many slaves come to an exactly full segment and do not fit into a whole one. */
  function Overcounts(ds: seq<nat>, p: Packer, limit: nat): nat
    requires p.max > 0
  {
    if ds == [] then 0
    else
      var n := |ds| - 1;
      Overcounts(ds[..n], p, limit) + if Overcounted(Pack(ds[..n], p, limit), ds[n], limit) then 1 else 0
  }

  lemma {:induction false} MeetingsStay(p: Packer, p2: Packer, ds: seq<nat>, base: nat, n: nat)
    requires n <= |ds| && Grown(p, p2) && base + Sum(ds[..n]) <= p.Total()
    ensures Meetings(All(p2), ds, base, n) == Meetings(All(p), ds, base, n)
    decreases n
  {
    if n > 0 {
      hide Grown, Touched, All, Sum;
      SumGrows(ds, n - 1);
      MeetingsStay(p, p2, ds, base, n - 1);
      TouchedLater(p, p2, base + Sum(ds[..n - 1]), base + Sum(ds[..n - 1]) + ds[n - 1]);
    }
  }

  lemma {:induction false} MeetingsPrefix(segments: seq<nat>, ds: seq<nat>, base: nat, n: nat, m: nat)
    requires n <= m <= |ds|
    ensures Meetings(segments, ds[..m], base, n) == Meetings(segments, ds, base, n)
    decreases n
  {
    if n > 0 {
      hide Touched, Sum;
      SumPrefix(ds, m, n - 1);
      MeetingsPrefix(segments, ds, base, n - 1, m);
    }
  }

  lemma AddNothing(p: Packer, limit: nat)
    requires p.Valid(limit)
    ensures AddExtent(p, 0, limit) == p
  {
    SpillNothing(p, limit);
  }

  /** The expected working counter is the number of times some datagram meets some slave, which is what the
    * slaves will count, plus one for every slave overcounted. */
  lemma {:induction false} WkcCountsMeetings(ds: seq<nat>, p: Packer, limit: nat)
    requires p.Valid(limit)
    ensures var q := Pack(ds, p, limit);
      q.wkc == p.wkc + Meetings(All(q), ds, p.Total(), |ds|) + Overcounts(ds, p, limit)
    decreases |ds|
  {
    hide *;
    ValidMax(p, limit);
    if ds == [] {
      PackNothing(ds, p, limit);
    } else {
      var n := |ds| - 1;
      var q := Pack(ds[..n], p, limit);
      var r := AddExtent(q, ds[n], limit);
      WkcCountsMeetings(ds[..n], p, limit);
      PackValid(ds[..n], p, limit);
      AddExtentCuts(q, ds[n], limit);
      PackLast(ds, p, limit);
      MeetingsPrefix(All(q), ds, p.Total(), n, n);
      SumGrows(ds, n);
      MeetingsStay(q, r, ds, p.Total(), n);
      AddExtentWkcZero(q, ds[n], limit);
    }
  }

  lemma ValidMax(p: Packer, limit: nat)
    requires p.Valid(limit)
    ensures p.max > 0
  {
  }

  lemma PackNothing(ds: seq<nat>, p: Packer, limit: nat)
    requires p.max > 0 && ds == []
    ensures Pack(ds, p, limit) == p && Overcounts(ds, p, limit) == 0
    ensures forall segments, base :: Meetings(segments, ds, base, |ds|) == 0
  {
  }

  /** The recursions of `Pack`, `Meetings` and `Overcounts` at the last slave. */
  lemma PackLast(ds: seq<nat>, p: Packer, limit: nat)
    requires p.max > 0 && ds != []
    ensures var n := |ds| - 1;
      var q := Pack(ds[..n], p, limit);
      var r := AddExtent(q, ds[n], limit);
      var from := p.Total() + Sum(ds[..n]);
      && q.max > 0
      && Pack(ds, p, limit) == r
      && Overcounts(ds, p, limit) == Overcounts(ds[..n], p, limit) + (if Overcounted(q, ds[n], limit) then 1 else 0)
      && Meetings(All(r), ds, p.Total(), |ds|)
         == Meetings(All(r), ds, p.Total(), n) + (if ds[n] == 0 then 0 else Touched(All(r), from, from + ds[n]))
  {
    hide AddExtent, Touched, All, Overcounted;
  }

  lemma AddExtentWkcZero(p: Packer, d: nat, limit: nat)
    requires p.Valid(limit)
    ensures var q := AddExtent(p, d, limit);
      q.wkc - p.wkc == (if d == 0 then 0 else Touched(All(q), p.Total(), p.Total() + d))
                       + if Overcounted(p, d, limit) then 1 else 0
  {
    if d > 0 {
      AddExtentWkc(p, d, limit);
    } else {
      AddNothing(p, limit);
    }
  }

  /** Number of slaves that take part. */
  function Active(ds: seq<nat>): nat {
    if ds == [] then 0 else Active(ds[..|ds| - 1]) + if ds[|ds| - 1] > 0 then 1 else 0
  }

  /** If every slave fits into the first segment, each raises the expected working counter by one. */
  lemma {:induction false} WkcCountsSlaves(ds: seq<nat>, p: Packer, limit: nat)
    requires p.Valid(limit) && forall i :: 0 <= i < |ds| ==> ds[i] <= FIRST_BOUND
    ensures Pack(ds, p, limit).wkc == p.wkc + Active(ds)
    decreases |ds|
  {
    if ds != [] {
      hide AddExtent;
      var n := |ds| - 1;
      WkcCountsSlaves(ds[..n], p, limit);
      PackValid(ds[..n], p, limit);
      AddSmallWkc(Pack(ds[..n], p, limit), ds[n], limit);
    }
  }

  lemma AddSmallWkc(p: Packer, d: nat, limit: nat)
    requires p.Valid(limit) && d <= FIRST_BOUND
    ensures AddExtent(p, d, limit).wkc == p.wkc + if d > 0 then 1 else 0
  {
    var close := p.size + d > p.max && |p.closed| < limit;
    SpillNothing((if close then Closed(p) else p).(size := if close then d else p.size + d), limit);
    hide Spill;
  }

  /** A slave of exactly a full first segment, and one of `d` bytes that needs more than that: two datagrams carry
    * them, one each, but the expected working counter is three. */
  lemma OneOvercount(d: nat, limit: nat)
    requires FIRST_BOUND < d <= MAX_LRW_DATA && limit > 0
    ensures var ds, q := [FIRST_BOUND, d], Pack([FIRST_BOUND, d], Packer([], 0, FIRST_BOUND, 0), limit);
      q == Packer([FIRST_BOUND], d, MAX_LRW_DATA, 3) && Meetings(All(q), ds, 0, 2) == 2
  {
    var ds, p := [FIRST_BOUND, d], Packer([], 0, FIRST_BOUND, 0);
    hide Pack, Meetings, Overcounts, Touched, Spill, Sum;
    EmptySegments(limit);
    PackTwo(FIRST_BOUND, d, p, limit);
    var p1, p2 := AddExtent(p, FIRST_BOUND, limit), Packer([FIRST_BOUND], d, MAX_LRW_DATA, 2);
    SpillNothing(p.(size := FIRST_BOUND), limit);
    assert p1 == Packer([], FIRST_BOUND, FIRST_BOUND, 1);
    SpillOnce(p1.(size := FIRST_BOUND + d), limit);
    assert [] + [FIRST_BOUND] == [FIRST_BOUND];
    SpillNothing(p2, limit);
    assert AddExtent(p1, d, limit) == p2.(wkc := 3);
    WkcCountsMeetings(ds, p, limit);
    assert Overcounted(p1, d, limit) && !Overcounted(p, FIRST_BOUND, limit);
  }

  lemma EmptySegments(limit: nat)
    ensures Packer([], 0, FIRST_BOUND, 0).Valid(limit) && Packer([], 0, FIRST_BOUND, 0).Total() == 0
  {
  }

  lemma PackTwo(x: nat, y: nat, p: Packer, limit: nat)
    requires p.max > 0
    ensures var q := AddExtent(p, x, limit);
      && q.max > 0 && Pack([x, y], p, limit) == AddExtent(q, y, limit)
      && Overcounts([x, y], p, limit)
         == (if Overcounted(p, x, limit) then 1 else 0) + (if Overcounted(q, y, limit) then 1 else 0)
  {
    hide AddExtent, Overcounted;
    AddExtentMax(p, x, limit);
    var one, two := [x], [x, y];
    assert one[..|one| - 1] == [] && two[..|two| - 1] == one && one[|one| - 1] == x && two[|two| - 1] == y;
    assert Pack([], p, limit) == p && Overcounts([], p, limit) == 0;
    assert Pack(one, p, limit) == AddExtent(p, x, limit);
  }

  lemma SpillOnce(p: Packer, limit: nat)
    requires p.max > 0 && p.size > p.max && |p.closed| < limit
    ensures Spill(p, limit) == Spill(Packer(p.closed + [p.max], p.size - p.max, MAX_LRW_DATA, p.wkc + 1), limit)
  {
  }
}
