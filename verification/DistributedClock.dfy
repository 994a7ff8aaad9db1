/** Measuring propagation delays with the distributed clocks: `ecx_configdc`. */
module DistributedClock {
  import opened Network
  import Topology

  // ---------- 32-bit arithmetic ----------

  /** Reading an integer through a signed 32-bit register. */
  function Int32(x: int): int {
    (x + 0x8000_0000) % 0x1_0000_0000 - 0x8000_0000
  }

  /** C division by two, truncating towards zero. */
  function Half(x: int): int {
    if x >= 0 then x / 2 else -((-x) / 2)
  }

  lemma Int32Difference(x: int, y: int)
    requires 0 <= x - y < 0x8000_0000
    ensures Int32(Int32(x) - Int32(y)) == x - y
  {
  }

  // ---------- the slave list ----------

  /** The register values latched by one slave, one per port. */
  datatype Latches = Latches(a: int, b: int, c: int, d: int)

  /** The fields of a slave record that delay measurement reads or writes. */
  datatype Slave = Slave(
    hasdc: bool,
    topology: nat,
    activeports: set<Port>,
    parent: nat,
    consumedports: set<Port>,
    entryport: Port,
    parentport: Port,
    rt: Latches,
    pdelay: int)

  function LatchedAt(rt: Latches, port: Port): int {
    match port
    case 0 => rt.a
    case 1 => rt.b
    case 2 => rt.c
    case 3 => rt.d
  }

  function PortTime(s: Slave, port: Port): int {
    LatchedAt(s.rt, port)
  }

  /** The first of three ports that is active, or `otherwise`. */
  function FirstOf(active: set<Port>, p0: Port, p1: Port, p2: Port, otherwise: Port): Port {
    if p0 in active then p0 else if p1 in active then p1 else if p2 in active then p2 else otherwise
  }

  /** The active port a frame passes just before `port`. */
  function PrevPort(active: set<Port>, port: Port): Port {
    match port
    case 0 => FirstOf(active, 2, 1, 3, 0)
    case 1 => FirstOf(active, 3, 0, 2, 1)
    case 2 => FirstOf(active, 1, 3, 0, 2)
    case 3 => FirstOf(active, 0, 2, 1, 3)
  }

  /** The unconsumed port handed out next. */
  function NextUnconsumed(s: Slave): Port {
    NextOf(s.consumedports)
  }

  function NextOf(ports: set<Port>): Port {
    FirstOf(ports, 3, 1, 2, 0)
  }

  /** The port with the lowest time stamp; on a tie the earliest in the order 0, 3, 1, 2. */
  function EntryPort(active: set<Port>, rt: Latches): Port {
    var first := FirstOf(active, 0, 3, 1, if 2 in active then 2 else 0);
    Earliest(active, rt, Earliest(active, rt, Earliest(active, rt, first, 3), 1), 2)
  }

  function Earliest(active: set<Port>, rt: Latches, best: Port, port: Port): Port {
    if port in active && LatchedAt(rt, port) < LatchedAt(rt, best) then port else best
  }

  /** The nearest ancestor with a clock (0 if there is none), and its child towards slave `i`.
    * In a slave list numbered by the frame a parent always comes before its children. */
  function DcParent(sl: seq<Slave>, i: nat): (r: (nat, nat))
    requires i < |sl|
    ensures r.0 < |sl| && r.1 < |sl|
    ensures r.0 > 0 ==> r.0 < r.1 <= i && sl[r.0].hasdc
    decreases i
  {
    var p := sl[i].parent;
    if p == 0 || p >= i then (0, i)
    else if sl[p].hasdc then (p, i)
    else DcParent(sl, p)
  }

  /** Parents have smaller numbers than their children. */
  ghost predicate Ordered(sl: seq<Slave>) {
    forall i :: 0 < i < |sl| ==> sl[i].parent < i
  }

  // ---------- what one turn of the loop computes ----------

  /** Propagation delay of `s` behind port `q` of `p`; `gap` is the distance in numbering. */
  function Delay(p: Slave, s: Slave, q: Port, gap: int): int {
    var dt3 := Int32(PortTime(p, q) - PortTime(p, PrevPort(p.activeports, q)));
    var own := if s.topology > 1
               then Int32(PortTime(s, PrevPort(s.activeports, s.entryport)) - PortTime(s, s.entryport)) else 0;
    var dt1 := if own > dt3 then Int32(-own) else own;
    var before := if gap > 1
                  then Int32(PortTime(p, PrevPort(p.activeports, q)) - PortTime(p, p.entryport)) else 0;
    var dt2 := if before < 0 then Int32(-before) else before;
    Int32(Int32(Half(Int32(dt3 - dt1)) + dt2) + p.pdelay)
  }

  /** The formula in plain numbers, when no difference and no sum leaves the 32-bit range: half of what the branch took
    * less what the slave took for its own branches, rounded towards zero, and the time the parent took for the branches
    * before. A time of the slave that exceeds that of the branch is taken negative, and one of the parent positive. */
  lemma DelayPlainly(p: Slave, s: Slave, q: Port, gap: int, d3: int, own: int, before: int)
    requires d3 == PortTime(p, q) - PortTime(p, PrevPort(p.activeports, q))
    requires own == if s.topology > 1
                    then PortTime(s, PrevPort(s.activeports, s.entryport)) - PortTime(s, s.entryport) else 0
    requires before == if gap > 1 then PortTime(p, PrevPort(p.activeports, q)) - PortTime(p, p.entryport) else 0
    requires Small(d3) && Small(own) && Small(before) && Small(p.pdelay)
    ensures var way := if own > d3 then d3 + own else d3 - own;
      Delay(p, s, q, gap)
        == (if way < 0 then -(-way / 2) else way / 2) + (if before < 0 then -before else before) + p.pdelay
  {
    hide PortTime, PrevPort, Int32, Half;
    var dt1, dt2 := if own > d3 then -own else own, if before < 0 then -before else before;
    Int32Small(d3);
    Int32Small(own);
    Int32Small(-own);
    Int32Small(before);
    Int32Small(-before);
    Int32Small(d3 - dt1);
    HalfPlainly(d3 - dt1);
    Int32Small(Half(d3 - dt1) + dt2);
    Int32Small(Half(d3 - dt1) + dt2 + p.pdelay);
  }

  lemma HalfPlainly(x: int)
    ensures Half(x) == (if x < 0 then -(-x / 2) else x / 2)
    ensures -0x4000_0000 < x < 0x4000_0000 ==> -0x2000_0000 <= Half(x) <= 0x2000_0000
  {
  }

  /** A quarter of the range. */
  predicate Small(x: int) {
    -0x2000_0000 < x < 0x2000_0000
  }

  function Consume(s: Slave): Slave {
    s.(consumedports := s.consumedports - {NextUnconsumed(s)})
  }

  function Enter(s: Slave, r: Latches): Slave {
    var e := EntryPort(s.activeports, r);
    s.(rt := r, entryport := e, consumedports := s.activeports - {e})
  }

  function AttachPort(p: Slave): Port {
    if p.topology == 1 then p.entryport else NextUnconsumed(p)
  }

  function MeasureDc(sl: seq<Slave>, i: nat, r: Latches): seq<Slave>
    requires 0 < i < |sl|
  {
    var sl1 := sl[i := Enter(sl[i], r)];
    var (p, child) := DcParent(sl, i);
    if p == 0 then sl1
    else
      var q := AttachPort(sl1[p]);
      sl1[p := Consume(sl1[p])]
         [i := sl1[i].(parentport := q, pdelay := Delay(sl1[p], sl1[i], q, child - p))]
  }

  /** A slave with a clock above is entered as attached to the next port of that one in the order 3, 1, 2, 0, or to the
    * port that the frame enters it by if it has no other. */
  lemma MeasuredPort(sl: seq<Slave>, i: nat, r: Latches)
    requires 0 < i < |sl|
    ensures var p, sl' := DcParent(sl, i).0, MeasureDc(sl, i, r);
      var left := sl[p].consumedports;
      if p == 0 then sl' == sl[i := sl'[i]] && sl'[i].parentport == sl[i].parentport && sl'[i].pdelay == sl[i].pdelay
      else
        && sl' == sl[p := sl'[p]][i := sl'[i]]
        && sl'[i].parentport == (if sl[p].topology == 1 then sl[p].entryport
                                 else if 3 in left then 3 else if 1 in left then 1 else if 2 in left then 2 else 0)
        && sl'[p] == sl[p].(consumedports := left - {if 3 in left then 3 else if 1 in left then 1
                                                     else if 2 in left then 2 else 0})
  {
    hide Delay, EntryPort, DcParent;
  }

  /** The slave whose port is held for a branch without clocks, after looking at slave `i`. */
  function Held(sl: seq<Slave>, hold: nat, i: nat): nat
    requires 0 < i < |sl|
  {
    var p := sl[i].parent;
    if 0 < p < i && sl[p].topology > 2 then p else hold
  }

  function SkipNonDc(sl: seq<Slave>, hold: nat, i: nat): (r: (seq<Slave>, nat))
    requires 0 < i < |sl| && hold < |sl|
    ensures |r.0| == |sl| && r.1 < |sl|
  {
    var sl1 := sl[i := sl[i].(consumedports := sl[i].activeports, rt := Latches(0, 0, 0, 0))];
    var h := Held(sl, hold, i);
    if h > 0 && sl[i].topology == 1 then (sl1[h := Consume(sl1[h])], 0) else (sl1, h)
  }

  /** One turn of the loop. */
  function Step(sl: seq<Slave>, hold: nat, i: nat, r: Latches): (res: (seq<Slave>, nat))
    requires 0 < i < |sl| && hold < |sl|
    ensures |res.0| == |sl| && res.1 < |sl|
  {
    if sl[i].hasdc then (MeasureDc(sl, i, r), 0) else SkipNonDc(sl, hold, i)
  }

  /** What the loop never touches. */
  ghost predicate SameNetwork(a: seq<Slave>, b: seq<Slave>)
  {
    |a| == |b| && forall i :: 0 <= i < |a| ==> SameWiring(a[i], b[i])
  }

  ghost predicate SameWiring(a: Slave, b: Slave) {
    a.hasdc == b.hasdc && a.topology == b.topology && a.activeports == b.activeports && a.parent == b.parent
  }

  /** The turns for slaves `lo` up to, not including, `hi`. */
  function Run(sl: seq<Slave>, hold: nat, rs: seq<Latches>, lo: nat, hi: nat): (res: (seq<Slave>, nat))
    requires 0 < lo <= hi <= |sl| == |rs| && hold < |sl|
    ensures |res.0| == |sl| && res.1 < |sl|
    decreases hi
  {
    if lo == hi then (sl, hold)
    else
      var (sl1, hold1) := Run(sl, hold, rs, lo, hi - 1);
      Step(sl1, hold1, hi - 1, rs[hi - 1])
  }

  lemma {:induction false} RunCompose(sl: seq<Slave>, hold: nat, rs: seq<Latches>, lo: nat, mid: nat, hi: nat)
    requires 0 < lo <= mid <= hi <= |sl| == |rs| && hold < |sl|
    ensures var (sl1, hold1) := Run(sl, hold, rs, lo, mid);
      Run(sl, hold, rs, lo, hi) == Run(sl1, hold1, rs, mid, hi)
    decreases hi
  {
    hide Step;
    if mid < hi {
      RunCompose(sl, hold, rs, lo, mid, hi - 1);
    }
  }

  lemma RunNothing(sl: seq<Slave>, hold: nat, rs: seq<Latches>, lo: nat, hi: nat)
    requires 0 < lo == hi <= |sl| == |rs| && hold < |sl|
    ensures Run(sl, hold, rs, lo, hi) == (sl, hold)
  {
  }

  /** The first turn, and the rest. */
  lemma RunFirst(sl: seq<Slave>, hold: nat, rs: seq<Latches>, lo: nat, hi: nat)
    requires 0 < lo < hi <= |sl| == |rs| && hold < |sl|
    ensures var (sl1, hold1) := Step(sl, hold, lo, rs[lo]);
      Run(sl, hold, rs, lo, hi) == Run(sl1, hold1, rs, lo + 1, hi)
  {
    hide Step;
    RunCompose(sl, hold, rs, lo, lo + 1, hi);
    assert Run(sl, hold, rs, lo, lo + 1) == Step(sl, hold, lo, rs[lo]);
  }

  // ---------- the loop itself ----------

  /** `ecx_parentport`: takes the next unconsumed port of a slave. */
  method ParentPort(slavelist: array<Slave>, parent: nat) returns (parentport: Port)
    requires parent < slavelist.Length
    modifies slavelist
    ensures parentport == NextUnconsumed(old(slavelist[parent]))
    ensures slavelist[..] == old(slavelist[..])[parent := Consume(old(slavelist[parent]))]
  {
    parentport := 0;
    var b := slavelist[parent].consumedports;
    if 3 in b {
      parentport := 3;
      b := b - {3};
    } else if 1 in b {
      parentport := 1;
      b := b - {1};
    } else if 2 in b {
      parentport := 2;
      b := b - {2};
    } else if 0 in b {
      parentport := 0;
      b := b - {0};
    }
    assert b == slavelist[parent].consumedports - {parentport};
    slavelist[parent] := slavelist[parent].(consumedports := b);
  }

  /** The list of active ports and their time stamps, and the choice of the lowest; of several, the first in the order
    * 0, 3, 1, 2. */
  method FindEntryPort(active: set<Port>, rt: Latches) returns (entryport: Port)
    ensures entryport == EntryPort(active, rt)
    ensures active != {} ==> entryport in active
    ensures forall p: Port :: p in active ==>
      || LatchedAt(rt, entryport) < LatchedAt(rt, p)
      || (LatchedAt(rt, entryport) == LatchedAt(rt, p)
          && (p == entryport || entryport == 0 || (p != 0 && entryport == 3) || (p == 2 && entryport == 1)))
  {
    var plist: seq<Port> := [];
    if 0 in active { plist := plist + [0]; }
    if 3 in active { plist := plist + [3]; }
    if 1 in active { plist := plist + [1]; }
    if 2 in active { plist := plist + [2]; }
    entryport := if plist == [] then 0 else plist[0];
    if |plist| > 1 && LatchedAt(rt, plist[1]) < LatchedAt(rt, entryport) { entryport := plist[1]; }
    if |plist| > 2 && LatchedAt(rt, plist[2]) < LatchedAt(rt, entryport) { entryport := plist[2]; }
    if |plist| > 3 && LatchedAt(rt, plist[3]) < LatchedAt(rt, entryport) { entryport := plist[3]; }
  }

  /** The delay measurement over the slave list; `registers[i]` is what slave `i` latched. */
  method ConfigDc(slavelist: array<Slave>, registers: seq<Latches>)
    requires slavelist.Length == |registers| > 0 && Ordered(slavelist[..])
    modifies slavelist
    ensures slavelist[..] == Run(old(slavelist[..]), 0, registers, 1, |registers|).0
  {
    var parenthold := 0;
    ghost var start := slavelist[..];
    for i := 1 to slavelist.Length
      invariant (slavelist[..], parenthold) == Run(start, 0, registers, 1, i)
      invariant Ordered(slavelist[..]) && parenthold < slavelist.Length
    {
      ghost var was := slavelist[..];
      if slavelist[i].hasdc {
        parenthold := 0;
        MeasureSlave(slavelist, i, registers[i]);
      } else {
        parenthold := SkipSlave(slavelist, i, parenthold);
      }
      StepKeepsNetwork(was, Run(start, 0, registers, 1, i).1, i, registers[i]);
    }
  }

  /** The turn for a slave with a clock. */
  method MeasureSlave(slavelist: array<Slave>, i: nat, register: Latches)
    requires 0 < i < slavelist.Length && Ordered(slavelist[..])
    modifies slavelist
    ensures slavelist[..] == MeasureDc(old(slavelist[..]), i, register)
  {
    hide Int32, Half, LatchedAt, EntryPort, NextUnconsumed, PrevPort, DcParent;
    slavelist[i] := slavelist[i].(consumedports := slavelist[i].activeports);
    slavelist[i] := slavelist[i].(rt := register);
    var entryport := FindEntryPort(slavelist[i].activeports, slavelist[i].rt);
    slavelist[i] := slavelist[i].(entryport := entryport,
      consumedports := slavelist[i].consumedports - {entryport});
    var child, parent := FindDcParent(slavelist, i);
    DcParentSame(old(slavelist[..]), slavelist[..], i);
    if parent > 0 {
      ghost var entered := slavelist[..];
      var q := ParentPort(slavelist, parent);
      if slavelist[parent].topology == 1 {
        q := slavelist[parent].entryport;
      }
      var pdelay := PropagationDelay(slavelist[parent], slavelist[i], q, child - parent);
      slavelist[i] := slavelist[i].(parentport := q, pdelay := pdelay);
    }
  }

  /** The delay arithmetic for slave `s` behind port `q` of `p`. */
  method PropagationDelay(p: Slave, s: Slave, q: Port, gap: int) returns (pdelay: int)
    ensures pdelay == Delay(p, s, q, gap)
  {
    var dt1, dt2 := 0, 0;
    var dt3 := Int32(PortTime(p, q) - PortTime(p, PrevPort(p.activeports, q)));
    if s.topology > 1 {
      dt1 := Int32(PortTime(s, PrevPort(s.activeports, s.entryport)) - PortTime(s, s.entryport));
    }
    if dt1 > dt3 {
      dt1 := Int32(-dt1);
    }
    if gap > 1 {
      dt2 := Int32(PortTime(p, PrevPort(p.activeports, q)) - PortTime(p, p.entryport));
    }
    if dt2 < 0 {
      dt2 := Int32(-dt2);
    }
    pdelay := Int32(Int32(Half(Int32(dt3 - dt1)) + dt2) + p.pdelay);
  }

  /** The turn for a slave without a clock. */
  method SkipSlave(slavelist: array<Slave>, i: nat, hold: nat) returns (parenthold: nat)
    requires 0 < i < slavelist.Length && Ordered(slavelist[..]) && hold < slavelist.Length
    modifies slavelist
    ensures (slavelist[..], parenthold) == SkipNonDc(old(slavelist[..]), hold, i)
  {
    parenthold := hold;
    slavelist[i] := slavelist[i].(consumedports := slavelist[i].activeports);
    slavelist[i] := slavelist[i].(rt := Latches(0, 0, 0, 0));
    ghost var blank := slavelist[..];
    assert blank == old(slavelist[..])[i := blank[i]];
    var parent := slavelist[i].parent;
    if parent > 0 && slavelist[parent].topology > 2 {
      parenthold := parent;
    }
    if parenthold > 0 && slavelist[i].topology == 1 {
      var _ := ParentPort(slavelist, parenthold);
      parenthold := 0;
    }
  }

  /** The climb to the nearest ancestor with a clock. */
  method FindDcParent(slavelist: array<Slave>, i: nat) returns (child: nat, parent: nat)
    requires 0 < i < slavelist.Length && Ordered(slavelist[..])
    ensures (parent, child) == DcParent(slavelist[..], i)
  {
    child := i;
    parent := slavelist[i].parent;
    while !(parent == 0 || slavelist[parent].hasdc)
      invariant parent < child <= i && parent == slavelist[child].parent
      invariant DcParent(slavelist[..], child) == DcParent(slavelist[..], i)
      decreases parent
    {
      child := parent;
      parent := slavelist[parent].parent;
    }
  }

  lemma {:induction false} DcParentSame(a: seq<Slave>, b: seq<Slave>, i: nat)
    requires SameNetwork(a, b) && 0 < i < |a|
    ensures DcParent(a, i) == DcParent(b, i)
    decreases i
  {
    assert SameWiring(a[i], b[i]);
    var p := a[i].parent;
    if 0 < p < i {
      assert SameWiring(a[p], b[p]);
      if !a[p].hasdc {
        DcParentSame(a, b, p);
      }
    }
  }

  lemma StepKeepsNetwork(sl: seq<Slave>, hold: nat, i: nat, r: Latches)
    requires 0 < i < |sl| && hold < |sl|
    ensures SameNetwork(Step(sl, hold, i, r).0, sl)
  {
  }

  // ---------- what the slaves report ----------

  /** `sl[b..]` are the records of the slaves of `t`, the first of which has parent `p`. */
  ghost predicate Wired(sl: seq<Slave>, t: Tree, b: nat, p: nat)
    decreases t
  {
    b + Size(t) <= |sl|
    && sl[b].hasdc == t.dc && sl[b].activeports == Ports(t) && sl[b].topology == 1 + Children(t)
    && sl[b].parent == p
    && WiredBehind(sl, t.on3, b + 1, b)
    && WiredBehind(sl, t.on1, b + 1 + LinkSize(t.on3), b)
    && WiredBehind(sl, t.on2, b + 1 + LinkSize(t.on3) + LinkSize(t.on1), b)
  }

  ghost predicate WiredBehind(sl: seq<Slave>, l: Link, b: nat, p: nat)
    decreases l
  {
    l.Cable? ==> Wired(sl, l.far, b, p)
  }

  /** What a slave latches on its connected ports when the frame enters it at `now`. */
  ghost predicate ReadingOf(r: Latches, t: Tree, now: int) {
    var back3 := Return(t.on3, now);
    var back1 := Return(t.on1, back3);
    var back2 := Return(t.on2, back1);
    r.a == Int32(now + t.offset)
    && (t.on3.Cable? ==> r.d == Int32(back3 + t.offset))
    && (t.on1.Cable? ==> r.b == Int32(back1 + t.offset))
    && (t.on2.Cable? ==> r.c == Int32(back2 + t.offset))
  }

  /** The readings after one frame has visited the network, entering `t` at `now`. */
  ghost predicate Latched(rs: seq<Latches>, t: Tree, now: int, b: nat)
    decreases t
  {
    b + Size(t) <= |rs|
    && (t.dc ==> ReadingOf(rs[b], t, now))
    && LatchedBehind(rs, t.on3, now, b + 1)
    && LatchedBehind(rs, t.on1, Return(t.on3, now), b + 1 + LinkSize(t.on3))
    && LatchedBehind(rs, t.on2, Return(t.on1, Return(t.on3, now)), b + 1 + LinkSize(t.on3) + LinkSize(t.on1))
  }

  ghost predicate LatchedBehind(rs: seq<Latches>, l: Link, now: int, b: nat)
    decreases l
  {
    l.Cable? ==> Latched(rs, l.far, now + l.delay, b)
  }

  /** No slave clock passes the end of its signed 32-bit range while the frame is behind the slave. */
  ghost predicate NoWrap(t: Tree, now: int)
    decreases t
  {
    (t.dc ==> EntryReadable(t, now))
    && NoWrapBehind(t.on3, now)
    && NoWrapBehind(t.on1, Return(t.on3, now))
    && NoWrapBehind(t.on2, Return(t.on1, Return(t.on3, now)))
  }

  ghost predicate NoWrapBehind(l: Link, now: int)
    decreases l
  {
    l.Cable? ==> NoWrap(l.far, now + l.delay)
  }

  predicate EntryReadable(t: Tree, now: int) {
    Int32(now + t.offset) + (Exit(t, now) - now) < 0x8000_0000
  }

  /** Every slave of `t` with a clock has the delay of the frame's arrival there since `t0`. */
  ghost predicate Delays(sl: seq<Slave>, t: Tree, now: int, b: nat, t0: int)
    decreases t
  {
    b + Size(t) <= |sl|
    && (t.dc ==> sl[b].pdelay == now - t0)
    && DelaysBehind(sl, t.on3, now, b + 1, t0)
    && DelaysBehind(sl, t.on1, Return(t.on3, now), b + 1 + LinkSize(t.on3), t0)
    && DelaysBehind(sl, t.on2, Return(t.on1, Return(t.on3, now)), b + 1 + LinkSize(t.on3) + LinkSize(t.on1), t0)
  }

  ghost predicate DelaysBehind(sl: seq<Slave>, l: Link, now: int, b: nat, t0: int)
    decreases l
  {
    l.Cable? ==> Delays(sl, l.far, now + l.delay, b, t0)
  }

  lemma {:induction false} WiredSame(a: seq<Slave>, c: seq<Slave>, t: Tree, b: nat, p: nat)
    requires SameNetwork(a, c) && Wired(a, t, b, p)
    ensures Wired(c, t, b, p)
    decreases t
  {
    assert SameWiring(a[b], c[b]);
    WiredSameBehind(a, c, t.on3, b + 1, b);
    WiredSameBehind(a, c, t.on1, b + 1 + LinkSize(t.on3), b);
    WiredSameBehind(a, c, t.on2, b + 1 + LinkSize(t.on3) + LinkSize(t.on1), b);
  }

  lemma {:induction false} WiredSameBehind(a: seq<Slave>, c: seq<Slave>, l: Link, b: nat, p: nat)
    requires SameNetwork(a, c) && WiredBehind(a, l, b, p)
    ensures WiredBehind(c, l, b, p)
    decreases l
  {
    if l.Cable? {
      WiredSame(a, c, l.far, b, p);
    }
  }

  lemma {:induction false} DelaysKept(a: seq<Slave>, c: seq<Slave>, l: Link, now: int, b: nat, t0: int)
    requires DelaysBehind(a, l, now, b, t0) && |a| == |c| && b + LinkSize(l) <= |a|
    requires forall j :: b <= j < b + LinkSize(l) ==> c[j].pdelay == a[j].pdelay
    ensures DelaysBehind(c, l, now, b, t0)
    decreases l
  {
    if l.Cable? {
      var t, at := l.far, now + l.delay;
      DelaysKept(a, c, t.on3, at, b + 1, t0);
      DelaysKept(a, c, t.on1, Return(t.on3, at), b + 1 + LinkSize(t.on3), t0);
      DelaysKept(a, c, t.on2, Return(t.on1, Return(t.on3, at)), b + 1 + LinkSize(t.on3) + LinkSize(t.on1), t0);
    }
  }

  // ---------- one slave ----------

  lemma Int32Shift(x: int, k: nat)
    requires k < 0x8000_0000
    ensures Int32(x + k) == if Int32(x) + k < 0x8000_0000 then Int32(x) + k else Int32(x) + k - 0x1_0000_0000
  {
  }

  /** The entry port is recognised exactly when the clock does not wrap while the frame is behind the slave. */
  lemma EntryPortRecognised(t: Tree, now: int, r: Latches)
    requires ReadingOf(r, t, now) && Exit(t, now) - now < 0x8000_0000
    ensures EntryPort(Ports(t), r) == 0 <==> EntryReadable(t, now)
  {
    var back3 := Return(t.on3, now);
    var back1 := Return(t.on1, back3);
    var back2 := Return(t.on2, back1);
    Int32Shift(now + t.offset, back3 - now);
    Int32Shift(now + t.offset, back1 - now);
    Int32Shift(now + t.offset, back2 - now);
  }

  /** A branch of slave `p`, as seen while the frame walks down it: the first slave on it, the port it
    * hangs on, the clock offset of `p`, and when the frame arrived at `p`, left for the branch and was back. */
  datatype Branch = Branch(p: nat, head: nat, q: Port, offset: int, arrive: int, depart: int, back: int)

  /** The record of `br.p` is ready for the slaves on branch `br`, delays counting from `t0`. */
  ghost predicate Ready(s: Slave, br: Branch, t0: int) {
    s.hasdc && s.topology > 1 && s.entryport == 0 && NextUnconsumed(s) == br.q
    && s.pdelay == br.arrive - t0
    && PortTime(s, 0) == Int32(br.arrive + br.offset)
    && PortTime(s, br.q) == Int32(br.back + br.offset)
    && PortTime(s, PrevPort(s.activeports, br.q)) == Int32(br.depart + br.offset)
    && t0 <= br.arrive <= br.depart <= br.back < t0 + 0x8000_0000
    && (br.head - br.p <= 1 ==> br.depart == br.arrive)
  }

  /** The cables up to `t` delay the frame as much on its way back as on its way out. */
  ghost predicate Symmetric(br: Branch, t: Tree, now: int) {
    0 <= now - br.depart == br.back - Exit(t, now)
  }

  lemma Int32Small(x: int)
    requires -0x8000_0000 <= x < 0x8000_0000
    ensures Int32(x) == x
  {
  }

  /** The frame passes the last connected port of a slave when it leaves the slave. */
  lemma LastPort(s: Slave, t: Tree, now: int)
    requires s.activeports == Ports(t) && s.topology == 1 + Children(t) && ReadingOf(s.rt, t, now)
    ensures PortTime(s, 0) == Int32(now + t.offset)
    ensures s.topology > 1 ==> PortTime(s, PrevPort(s.activeports, 0)) == Int32(Exit(t, now) + t.offset)
    ensures s.topology <= 1 ==> Exit(t, now) == now
  {
  }

  /** Of a slave recognised as entered through port 0, the delay computed is the time from `t0` to the frame's arrival
    * there exactly if the way home from it is as long as the way out, or one longer. */
  lemma DelayBalanced(p: Slave, s: Slave, t: Tree, now: int, br: Branch, t0: int)
    requires Ready(p, br, t0) && br.depart <= now && Exit(t, now) <= br.back
    requires s.activeports == Ports(t) && s.topology == 1 + Children(t) && s.entryport == 0
    requires ReadingOf(s.rt, t, now)
    ensures Delay(p, s, br.q, br.head - br.p) == now - t0
      <==> 0 <= (br.back - Exit(t, now)) - (now - br.depart) <= 1
  {
    hide Int32, ReadingOf, PrevPort, NextUnconsumed, LatchedAt, Exit, PortTime, Ports, Children;
    LastPort(s, t, now);
    Int32Difference(br.back + br.offset, br.depart + br.offset);
    Int32Difference(br.depart + br.offset, br.arrive + br.offset);
    Int32Difference(Exit(t, now) + t.offset, now + t.offset);
    var dt3, dt1, dt2 := br.back - br.depart, Exit(t, now) - now, br.depart - br.arrive;
    Int32Small(dt3 - dt1);
    Int32Small((dt3 - dt1) / 2 + dt2);
    Int32Small((dt3 - dt1) / 2 + dt2 + p.pdelay);
  }

  /** A reading `n` after one of `v`, in 32 bits. */
  function Later(v: int, n: nat): int {
    if v + n < 0x8000_0000 then v + n else v + n - 0x1_0000_0000
  }

  /** How long after its entry the frame passes a port. */
  function PassedAfter(port: Port, n3: nat, n1: nat, n2: nat): nat {
    match port
    case 0 => 0
    case 3 => n3
    case 1 => n1
    case 2 => n2
  }

  /** If the last reading has wrapped, the first that has is taken for the entry, and the one before it has not. */
  lemma FirstWrapped(active: set<Port>, rt: Latches, v: int, n3: nat, n1: nat, n2: nat)
    requires 0 in active && n3 <= n1 <= n2 < 0x8000_0000 && -0x8000_0000 <= v < 0x8000_0000
    requires (3 !in active ==> n3 == 0) && (1 !in active ==> n1 == n3) && (2 !in active ==> n2 == n1)
    requires rt.a == v && (3 in active ==> rt.d == Later(v, n3)) && (1 in active ==> rt.b == Later(v, n1))
    requires (2 in active ==> rt.c == Later(v, n2)) && v + n2 >= 0x8000_0000
    ensures var e := EntryPort(active, rt);
      var q := PrevPort(active, e);
      var from, to := PassedAfter(q, n3, n1, n2), PassedAfter(e, n3, n1, n2);
      && from < to <= n2 && LatchedAt(rt, q) - LatchedAt(rt, e) == 0x1_0000_0000 - (to - from)
  {
  }

  /** Of a slave whose clock wraps while the frame is behind it, the wrong port is taken for the entry port, and what
    * it takes for the time the frame was behind it comes out negative. */
  lemma SpanReversed(s: Slave, t: Tree, now: int) returns (x: int)
    requires s.activeports == Ports(t) && s.topology == 1 + Children(t) && ReadingOf(s.rt, t, now)
    requires s.entryport == EntryPort(s.activeports, s.rt) && !EntryReadable(t, now) && Exit(t, now) - now < 0x8000_0000
    ensures 1 <= x <= Exit(t, now) - now && s.topology > 1
    ensures Int32(PortTime(s, PrevPort(s.activeports, s.entryport)) - PortTime(s, s.entryport)) == -x
  {
    var n3, n1, n2 := ReadingsLater(s, t, now);
    hide ReadingOf, EntryPort, PrevPort, Ports, Children, Exit, Later, Int32;
    FirstWrapped(s.activeports, s.rt, Int32(now + t.offset), n3, n1, n2);
    var e, q := s.entryport, PrevPort(s.activeports, s.entryport);
    x := PassedAfter(e, n3, n1, n2) - PassedAfter(q, n3, n1, n2);
    Int32Back(x);
  }

  /** What a slave latches, relative to its first reading. */
  lemma ReadingsLater(s: Slave, t: Tree, now: int) returns (n3: nat, n1: nat, n2: nat)
    requires s.activeports == Ports(t) && s.topology == 1 + Children(t) && ReadingOf(s.rt, t, now)
    requires !EntryReadable(t, now) && Exit(t, now) - now < 0x8000_0000
    ensures var v, active, rt := Int32(now + t.offset), s.activeports, s.rt;
      && 0 in active && n3 <= n1 <= n2 == Exit(t, now) - now < 0x8000_0000 && -0x8000_0000 <= v < 0x8000_0000
      && (3 !in active ==> n3 == 0) && (1 !in active ==> n1 == n3) && (2 !in active ==> n2 == n1)
      && rt.a == v && (3 in active ==> rt.d == Later(v, n3)) && (1 in active ==> rt.b == Later(v, n1))
      && (2 in active ==> rt.c == Later(v, n2)) && v + n2 >= 0x8000_0000
    ensures s.topology > 1
  {
    var back3 := Return(t.on3, now);
    var back1 := Return(t.on1, back3);
    var back2 := Return(t.on2, back1);
    n3, n1, n2 := back3 - now, back1 - now, back2 - now;
    Int32Shift(now + t.offset, n3);
    Int32Shift(now + t.offset, n1);
    Int32Shift(now + t.offset, n2);
    Int32Range(now + t.offset);
    hide Int32;
  }

  lemma Int32Back(x: int)
    requires 1 <= x < 0x8000_0000
    ensures Int32(0x1_0000_0000 - x) == -x
  {
  }

  lemma Int32Range(x: int)
    ensures -0x8000_0000 <= Int32(x) < 0x8000_0000
  {
  }

  /** A half of a sum too large by `x` to `x + span` is never right, not even modulo 32 bits. */
  lemma HalfWrong(d: int, span: int, x: int, rest: int, t: int)
    requires 0 <= d && 1 <= x <= span && 2 * d + span < 0x8000_0000 && 0 <= rest && t == d + rest < 0x8000_0000
    ensures Int32(Half(Int32(2 * d + span + x)) + rest) != t
  {
    var h := Half(Int32(2 * d + span + x));
    if 2 * d + span + x < 0x8000_0000 {
      Int32Small(2 * d + span + x);
      assert 1 <= h - d < 0x8000_0000;
    } else {
      assert Int32(2 * d + span + x) == 2 * d + span + x - 0x1_0000_0000;
      assert 1 <= d - h < 0x8000_0000;
    }
    Int32Apart(h + rest, t);
  }

  lemma Int32Apart(x: int, t: int)
    requires 0 <= t < 0x8000_0000 && x != t && -0x1_0000_0000 < x - t < 0x1_0000_0000
    ensures Int32(x) != t
  {
  }

  lemma Int32Sum(x: int, y: int)
    ensures Int32(Int32(x) + y) == Int32(x + y)
  {
  }

  /** The delay from its three differences. */
  lemma DelayFrom(p: Slave, s: Slave, q: Port, gap: int, dt3: int, own: int, before: int)
    requires Int32(PortTime(p, q) - PortTime(p, PrevPort(p.activeports, q))) == dt3 && s.topology > 1
    requires Int32(PortTime(s, PrevPort(s.activeports, s.entryport)) - PortTime(s, s.entryport)) == own <= dt3
    requires gap > 1 ==> Int32(PortTime(p, PrevPort(p.activeports, q)) - PortTime(p, p.entryport)) == before
    requires 0 <= before && (gap <= 1 ==> before == 0)
    ensures Delay(p, s, q, gap) == Int32(Int32(Half(Int32(dt3 - own)) + before) + p.pdelay)
  {
    hide Int32, Half, PortTime, PrevPort;
  }

  lemma DelayUnreadable(p: Slave, s: Slave, t: Tree, now: int, br: Branch, t0: int)
    requires Ready(p, br, t0) && Symmetric(br, t, now) && !EntryReadable(t, now)
    requires s.activeports == Ports(t) && s.topology == 1 + Children(t)
    requires s.entryport == EntryPort(s.activeports, s.rt) && ReadingOf(s.rt, t, now)
    ensures Delay(p, s, br.q, br.head - br.p) != now - t0
  {
    hide Int32, Half, Delay, EntryPort, EntryReadable, ReadingOf, PrevPort, NextUnconsumed, LatchedAt, Exit, PortTime,
      Ports, Children;
    var x := SpanReversed(s, t, now);
    Int32Difference(br.back + br.offset, br.depart + br.offset);
    Int32Difference(br.depart + br.offset, br.arrive + br.offset);
    var d, span, dt2 := now - br.depart, Exit(t, now) - now, br.depart - br.arrive;
    DelayFrom(p, s, br.q, br.head - br.p, 2 * d + span, -x, dt2);
    Int32Sum(Half(Int32(2 * d + span + x)) + dt2, p.pdelay);
    HalfWrong(d, span, x, dt2 + p.pdelay, now - t0);
  }

  /** The delay computed for a slave is the time from `t0` to the frame's arrival there exactly if its clock does not
    * wrap while the frame is behind it. */
  lemma DelayMeasured(p: Slave, s: Slave, t: Tree, now: int, br: Branch, t0: int)
    requires Ready(p, br, t0) && Symmetric(br, t, now)
    requires s.activeports == Ports(t) && s.topology == 1 + Children(t)
    requires s.entryport == EntryPort(s.activeports, s.rt) && ReadingOf(s.rt, t, now)
    ensures Delay(p, s, br.q, br.head - br.p) == now - t0 <==> EntryReadable(t, now)
  {
    EntryPortRecognised(t, now, s.rt);
    if EntryReadable(t, now) {
      hide EntryReadable, EntryPort, Delay, Ready;
      DelayBalanced(p, s, t, now, br, t0);
    } else {
      hide EntryReadable, EntryPort, Delay, Ready;
      DelayUnreadable(p, s, t, now, br, t0);
    }
  }
}
