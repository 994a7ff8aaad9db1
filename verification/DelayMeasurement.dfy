/** The delays that one run of `ecx_configdc` gives to a whole network. */
module DelayMeasurement {
  import opened Network
  import opened DistributedClock
  import opened ClockAttachments
  import Topology

  // ---------- what turns leave alone ----------

  lemma SameNetworkTrans(a: seq<Slave>, b: seq<Slave>, c: seq<Slave>)
    requires SameNetwork(a, b) && SameNetwork(b, c)
    ensures SameNetwork(a, c) && SameNetwork(b, a)
  {
    forall i | 0 <= i < |a| ensures SameWiring(a[i], c[i]) && SameWiring(b[i], a[i]) {
      assert SameWiring(a[i], b[i]) && SameWiring(b[i], c[i]);
    }
  }

  lemma {:induction false} RunKeepsNetwork(sl: seq<Slave>, hold: nat, rs: seq<Latches>, lo: nat, hi: nat)
    requires 0 < lo <= hi <= |sl| == |rs| && hold < |sl|
    ensures SameNetwork(Run(sl, hold, rs, lo, hi).0, sl) && SameNetwork(sl, Run(sl, hold, rs, lo, hi).0)
    decreases hi
  {
    hide Step;
    if lo == hi {
      assert forall i :: 0 <= i < |sl| ==> SameWiring(sl[i], sl[i]);
    } else {
      var (mid, h) := Run(sl, hold, rs, lo, hi - 1);
      RunKeepsNetwork(sl, hold, rs, lo, hi - 1);
      StepKeepsNetwork(mid, h, hi - 1, rs[hi - 1]);
      SameNetworkTrans(Run(sl, hold, rs, lo, hi).0, mid, sl);
    }
  }

  /** What the turn of a slave with a clock writes into its record. */
  ghost predicate SameMeasured(a: Slave, c: Slave) {
    c.pdelay == a.pdelay && c.parentport == a.parentport && c.entryport == a.entryport && c.rt == a.rt
  }

  lemma StepKeepsDelay(sl: seq<Slave>, hold: nat, i: nat, r: Latches, j: nat)
    requires 0 < i < |sl| && hold < |sl| && j < |sl| && j != i
    ensures SameMeasured(sl[j], Step(sl, hold, i, r).0[j])
  {
    hide Delay, NextUnconsumed, DcParent, EntryPort, AttachPort;
  }

  /** It is written in the slave's own turn only. */
  lemma {:induction false} RunKeepsDelay(sl: seq<Slave>, hold: nat, rs: seq<Latches>, lo: nat, hi: nat, j: nat)
    requires 0 < lo <= hi <= |sl| == |rs| && hold < |sl| && j < |sl| && !(lo <= j < hi)
    ensures SameMeasured(sl[j], Run(sl, hold, rs, lo, hi).0[j])
    decreases hi
  {
    hide Step;
    if lo < hi {
      var (mid, h) := Run(sl, hold, rs, lo, hi - 1);
      RunKeepsDelay(sl, hold, rs, lo, hi - 1, j);
      StepKeepsDelay(mid, h, hi - 1, rs[hi - 1], j);
    }
  }

  /** Later turns neither spoil nor mend the delays behind `l`. */
  lemma DelaysStay(sl: seq<Slave>, hold: nat, rs: seq<Latches>, lo: nat, hi: nat, l: Link, now: int, b: nat, t0: int)
    requires 0 < lo <= hi <= |sl| == |rs| && hold < |sl| && b + LinkSize(l) <= lo
    ensures DelaysBehind(Run(sl, hold, rs, lo, hi).0, l, now, b, t0) <==> DelaysBehind(sl, l, now, b, t0)
  {
    var res := Run(sl, hold, rs, lo, hi).0;
    forall j | b <= j < b + LinkSize(l) ensures res[j].pdelay == sl[j].pdelay {
      RunKeepsDelay(sl, hold, rs, lo, hi, j);
    }
    hide Run, DelaysBehind;
    if DelaysBehind(sl, l, now, b, t0) {
      DelaysKept(sl, res, l, now, b, t0);
    }
    if DelaysBehind(res, l, now, b, t0) {
      DelaysKept(res, sl, l, now, b, t0);
    }
  }

  // ---------- which slaves are attached ----------

  /** The numbers of the slaves with clocks of `t`, and of those behind it, in the order of their attachments. */
  function Numbers(t: Tree, b: nat): seq<nat>
    decreases t, 1
  {
    (if t.dc then [b] else []) + NumbersLinks(t, b)
  }

  function NumbersLinks(t: Tree, b: nat): seq<nat>
    decreases t, 0
  {
    NumbersBehind(t.on3, b + 1) + NumbersBehind(t.on1, b + 1 + LinkSize(t.on3))
    + NumbersBehind(t.on2, b + 1 + LinkSize(t.on3) + LinkSize(t.on1))
  }

  function NumbersBehind(l: Link, b: nat): seq<nat>
    decreases l
  {
    if l.Cable? then Numbers(l.far, b) else []
  }

  /** The numbers of those that have another clock above. */
  function AttachedNumbers(t: Tree, b: nat): seq<nat>
    decreases t
  {
    if t.dc then NumbersLinks(t, b)
    else
      AttachedNumbersBehind(t.on3, b + 1) + AttachedNumbersBehind(t.on1, b + 1 + LinkSize(t.on3))
      + AttachedNumbersBehind(t.on2, b + 1 + LinkSize(t.on3) + LinkSize(t.on1))
  }

  function AttachedNumbersBehind(l: Link, b: nat): seq<nat>
    decreases l
  {
    if l.Cable? then AttachedNumbers(l.far, b) else []
  }

  /** The records name the ports that the slaves are attached to. */
  ghost predicate PortsMatch(sl: seq<Slave>, ns: seq<nat>, s: seq<Attachment>) {
    |ns| == |s| && forall k :: 0 <= k < |ns| ==> ns[k] < |sl| && sl[ns[k]].parentport == s[k].port
  }

  lemma PortsMatchBoth(sl: seq<Slave>, ns: seq<nat>, s: seq<Attachment>, ns': seq<nat>, s': seq<Attachment>)
    requires PortsMatch(sl, ns, s) && PortsMatch(sl, ns', s')
    ensures PortsMatch(sl, ns + ns', s + s')
  {
  }

  lemma {:induction false} NumbersInRange(l: Link, b: nat)
    ensures forall n :: n in NumbersBehind(l, b) ==> b <= n < b + LinkSize(l)
    decreases l
  {
    if l.Cable? {
      LinksInRange(l.far, b);
      assert forall n :: n in NumbersBehind(l, b) ==> n == b || n in NumbersLinks(l.far, b);
    }
  }

  lemma {:induction false} LinksInRange(t: Tree, b: nat)
    ensures forall n :: n in NumbersLinks(t, b) ==> b < n < b + Size(t)
    decreases t, 0
  {
    var c1 := b + 1 + LinkSize(t.on3);
    NumbersInRange(t.on3, b + 1);
    NumbersInRange(t.on1, c1);
    NumbersInRange(t.on2, c1 + LinkSize(t.on1));
    assert forall n :: n in NumbersLinks(t, b) <==>
      n in NumbersBehind(t.on3, b + 1) || n in NumbersBehind(t.on1, c1)
        || n in NumbersBehind(t.on2, c1 + LinkSize(t.on1));
    hide NumbersBehind, NumbersLinks;
  }

  lemma {:induction false} AttachedNumbersInRange(l: Link, b: nat)
    ensures forall n :: n in AttachedNumbersBehind(l, b) ==> b <= n < b + LinkSize(l)
    decreases l
  {
    if l.Cable? {
      var t, c1 := l.far, b + 1 + LinkSize(l.far.on3);
      if t.dc {
        LinksInRange(t, b);
      } else {
        var c2 := c1 + LinkSize(t.on1);
        AttachedNumbersInRange(t.on3, b + 1);
        AttachedNumbersInRange(t.on1, c1);
        AttachedNumbersInRange(t.on2, c2);
        assert forall n :: n in AttachedNumbersBehind(l, b) <==>
          n in AttachedNumbersBehind(t.on3, b + 1) || n in AttachedNumbersBehind(t.on1, c1)
          || n in AttachedNumbersBehind(t.on2, c2);
      }
      hide NumbersLinks, AttachedNumbersBehind;
    }
  }

  /** The turns of others leave the port alone. */
  lemma PortsStay(sl: seq<Slave>, hold: nat, rs: seq<Latches>, lo: nat, hi: nat, ns: seq<nat>, s: seq<Attachment>)
    requires 0 < lo <= hi <= |sl| == |rs| && hold < |sl| && PortsMatch(sl, ns, s)
    requires forall n :: n in ns ==> !(lo <= n < hi)
    ensures PortsMatch(Run(sl, hold, rs, lo, hi).0, ns, s)
  {
    var res := Run(sl, hold, rs, lo, hi).0;
    forall k | 0 <= k < |ns| ensures res[ns[k]].parentport == s[k].port {
      assert ns[k] in ns;
      RunKeepsDelay(sl, hold, rs, lo, hi, ns[k]);
    }
    hide Run;
  }

  /** Of the slaves with clocks before `lo`, only the unconsumed ports of `p` have changed. */
  ghost predicate Quiet(a: seq<Slave>, c: seq<Slave>, lo: nat, p: nat) {
    |a| == |c| && lo <= |a| && SameNetwork(c, a)
    && forall j :: 0 <= j < lo && a[j].hasdc ==>
      c[j] == if j == p then a[j].(consumedports := c[j].consumedports) else a[j]
  }

  lemma QuietTrans(a: seq<Slave>, b: seq<Slave>, c: seq<Slave>, lo: nat, mid: nat, p: nat)
    requires lo <= mid && Quiet(a, b, lo, p) && Quiet(b, c, mid, p)
    ensures Quiet(a, c, lo, p)
  {
    SameNetworkTrans(c, b, a);
    forall j | 0 <= j < lo && a[j].hasdc
      ensures c[j] == if j == p then a[j].(consumedports := c[j].consumedports) else a[j]
    {
      assert SameWiring(b[j], a[j]);
    }
  }

  lemma QuietNothing(a: seq<Slave>, lo: nat, p: nat)
    requires lo <= |a|
    ensures Quiet(a, a, lo, p)
  {
    assert forall i :: 0 <= i < |a| ==> SameWiring(a[i], a[i]);
  }

  /** The last slave behind a cable has nothing behind it. */
  lemma {:induction false} LastIsLeaf(sl: seq<Slave>, l: Link, b: nat, p: nat)
    requires WiredBehind(sl, l, b, p) && l.Cable?
    ensures b + LinkSize(l) <= |sl| && sl[b + LinkSize(l) - 1].topology == 1
    decreases l
  {
    var t := l.far;
    var c1 := b + 1 + LinkSize(t.on3);
    var c2 := c1 + LinkSize(t.on1);
    assert LinkSize(l) == 1 + LinkSize(t.on3) + LinkSize(t.on1) + LinkSize(t.on2);
    if t.on2.Cable? {
      LastIsLeaf(sl, t.on2, c2, b);
    } else if t.on1.Cable? {
      LastIsLeaf(sl, t.on1, c1, b);
    } else if t.on3.Cable? {
      LastIsLeaf(sl, t.on3, b + 1, b);
    }
  }

  /** After a whole branch no port is held. */
  lemma NothingHeld(sl: seq<Slave>, hold: nat, rs: seq<Latches>, l: Link, b: nat, p: nat)
    requires 0 < b && WiredBehind(sl, l, b, p) && l.Cable? && |sl| == |rs| && hold < |sl|
    ensures b + LinkSize(l) <= |sl| && Run(sl, hold, rs, b, b + LinkSize(l)).1 == 0
  {
    LastIsLeaf(sl, l, b, p);
    var hi := b + LinkSize(l);
    var (mid, h) := Run(sl, hold, rs, b, hi - 1);
    RunKeepsNetwork(sl, hold, rs, b, hi - 1);
    assert SameWiring(mid[hi - 1], sl[hi - 1]);
    hide WiredBehind, MeasureDc, SameNetwork;
  }

  // ---------- one attachment ----------

  /** The record of a slave with a clock right after its own turn, when the frame entered it at `now`. */
  ghost predicate Entered(s: Slave, t: Tree, now: int) {
    s.hasdc && s.topology == 1 + Children(t) && s.activeports == Ports(t) && s.entryport == 0
    && ReadingOf(s.rt, t, now) && Exit(t, now) - now < 0x8000_0000
  }

  /** Its delay is the true one since `t0`. */
  ghost predicate Exact(s: Slave, t: Tree, now: int, t0: int) {
    s.pdelay == now - t0 && t0 <= now && Exit(t, now) < t0 + 0x8000_0000
  }

  /** The frame is in the tree while it is on the branch. */
  ghost predicate Within(h: Home, t: Tree, now: int) {
    h.Depart() <= now && Exit(t, now) <= h.Back()
  }

  lemma PortReading(s: Slave, t: Tree, now: int, port: Port)
    requires s.activeports == Ports(t) && ReadingOf(s.rt, t, now) && port in Ports(t)
    ensures PortTime(s, port) == Int32(Passes(t, now, port) + t.offset)
    ensures PrevPort(Ports(t), port) in Ports(t) && now <= Passes(t, now, port) <= Exit(t, now)
  {
  }

  lemma Int32Gap(x: int, y: int)
    requires -0x8000_0000 < x - y < 0x8000_0000
    ensures Int32(Int32(x) - Int32(y)) == x - y
  {
  }

  lemma Int32Same(x: int, t: int)
    requires 0 <= t < 0x8000_0000 && -0x1_0000_0000 < x - t < 0x1_0000_0000
    ensures Int32(x) == t <==> x == t
  {
  }

  /** What is computed for a clock, in plain numbers. */
  lemma DelayPlain(p: Slave, s: Slave, q: Port, gap: int, dt3: int, own: int, before: int, t: int)
    requires Int32(PortTime(p, q) - PortTime(p, PrevPort(p.activeports, q))) == dt3
    requires if s.topology > 1 then
               Int32(PortTime(s, PrevPort(s.activeports, s.entryport)) - PortTime(s, s.entryport)) == own
             else own == 0
    requires gap > 1 ==> Int32(PortTime(p, PrevPort(p.activeports, q)) - PortTime(p, p.entryport)) == before
    requires -0x8000_0000 < dt3 < 0x8000_0000 && 0 <= own < 0x8000_0000 && 0 <= before < 0x8000_0000
    requires own <= dt3 || dt3 + own < 0x8000_0000
    requires 0 <= p.pdelay <= t < 0x8000_0000
    ensures Delay(p, s, q, gap) == t <==>
      Half(dt3 - if own > dt3 then -own else own) + (if gap > 1 then before else 0) + p.pdelay == t
  {
    hide Half, PortTime, PrevPort;
    var dt1 := if own > dt3 then -own else own;
    Int32Small(dt1);
    Int32Small(dt3 - dt1);
    HalfSmall(dt3 - dt1);
    var half, dt2 := Half(dt3 - dt1), if gap > 1 then before else 0;
    Int32Sum(half + dt2, p.pdelay);
    Int32Same(half + dt2 + p.pdelay, t);
    hide Int32;
  }

  lemma HalfSmall(x: int)
    ensures -0x4000_0000 <= Half(x) <= 0x4000_0000 || x < -0x8000_0000 || x > 0x8000_0000
  {
  }

  /** A stay longer than the time between the two ports lies outside it. */
  lemma SpanFits(h: Home, port: Port, t: Tree, now: int)
    requires h.Valid() && Within(h, t, now) && port in Ports(h.above)
    ensures var dt3 := Passes(h.above, h.at, port) - Passes(h.above, h.at, PrevPort(Ports(h.above), port));
      var own := Exit(t, now) - now;
      own <= dt3 || dt3 + own <= Exit(h.above, h.at) - h.at
  {
    InOrder(h.above, h.at);
    hide Exit;
  }

  lemma InOrder(t: Tree, now: int)
    ensures now <= Passes(t, now, 3) <= Passes(t, now, 1) <= Passes(t, now, 2) == Exit(t, now)
  {
  }

  /** Main result on one attachment: the clock is given its true delay exactly if it does not wrap and the attachment
    * is accurate. */
  lemma AttachedDelay(p: Slave, s: Slave, a: Attachment, gap: nat, t0: int)
    requires Entered(p, a.home.above, a.home.at) && Exact(p, a.home.above, a.home.at, t0) && a.home.Valid()
    requires Within(a.home, a.far, a.now)
    requires p.consumedports <= Ports(a.home.above) && NextUnconsumed(p) == a.port && (gap > 1 <==> a.home.Later())
    requires s.activeports == Ports(a.far) && s.topology == 1 + Children(a.far)
    requires s.entryport == EntryPort(s.activeports, s.rt) && ReadingOf(s.rt, a.far, a.now)
    requires EntryReadable(a.far, a.now) || Even(a)
    ensures Delay(p, s, a.port, gap) == a.now - t0 <==> Good(a)
  {
    InOrder(a.home.above, a.home.at);
    DepartIs(a.home.above, a.home.at, a.home.port);
    hide Delay, EntryPort, ReadingOf, Accurate, Passes, Departs, Exit, Ports, Children, PrevPort, Even;
    assert Exit(a.far, a.now) - a.now < 0x8000_0000;
    EntryPortRecognised(a.far, a.now, s.rt);
    hide EntryReadable;
    if EntryReadable(a.far, a.now) {
      DelayAccurate(p, s, a, gap, t0);
    } else {
      DelayNoticed(p, s, a, gap, t0);
    }
  }

  lemma NextIsConnected(s: Slave, t: Tree)
    requires s.consumedports <= Ports(t)
    ensures NextUnconsumed(s) in Ports(t)
  {
  }

  lemma DelayAccurate(p: Slave, s: Slave, a: Attachment, gap: nat, t0: int)
    requires Entered(p, a.home.above, a.home.at) && Exact(p, a.home.above, a.home.at, t0) && a.home.Valid()
    requires Within(a.home, a.far, a.now)
    requires p.consumedports <= Ports(a.home.above) && NextUnconsumed(p) == a.port && (gap > 1 <==> a.home.Later())
    requires s.activeports == Ports(a.far) && s.topology == 1 + Children(a.far) && s.entryport == 0
    requires ReadingOf(s.rt, a.far, a.now)
    ensures Delay(p, s, a.port, gap) == a.now - t0 <==> Accurate(a)
  {
    var above, at, q := a.home.above, a.home.at, a.port;
    hide Int32, Half, Delay, ReadingOf, PrevPort, NextUnconsumed, LatchedAt, PortTime, Ports, Children, Departs, Exit,
      Passes;
    NextIsConnected(p, above);
    DepartIs(above, at, a.home.port);
    SpanFits(a.home, q, a.far, a.now);
    InOrder(above, at);
    AboveReadings(p, above, at, q);
    OwnReadings(s, a.far, a.now);
    var y := Passes(above, at, PrevPort(Ports(above), q));
    DelayPlain(p, s, q, gap, Passes(above, at, q) - y, Exit(a.far, a.now) - a.now, y - at, a.now - t0);
    hide Home.Depart, Home.Back, Home.Valid;
  }

  /** What the readings at the next clock above tell. */
  lemma AboveReadings(p: Slave, above: Tree, at: int, q: Port)
    requires Entered(p, above, at) && q in Ports(above)
    ensures var y := Passes(above, at, PrevPort(Ports(above), q));
      && at <= y <= Exit(above, at) && at <= Passes(above, at, q) <= Exit(above, at)
      && Int32(PortTime(p, q) - PortTime(p, PrevPort(p.activeports, q))) == Passes(above, at, q) - y
      && Int32(PortTime(p, PrevPort(p.activeports, q)) - PortTime(p, p.entryport)) == y - at
  {
    hide Int32, LatchedAt, PortTime, Children, Exit;
    PortReading(p, above, at, q);
    PortReading(p, above, at, PrevPort(Ports(above), q));
    EntryReading(p, above, at);
    hide Passes, PrevPort, ReadingOf, Ports;
    var y := Passes(above, at, PrevPort(Ports(above), q));
    Int32Gap(Passes(above, at, q) + above.offset, y + above.offset);
    Int32Gap(y + above.offset, at + above.offset);
  }

  lemma EntryReading(s: Slave, t: Tree, now: int)
    requires ReadingOf(s.rt, t, now)
    ensures PortTime(s, 0) == Int32(now + t.offset)
  {
  }

  /** What those at the clock itself tell. */
  lemma OwnReadings(s: Slave, t: Tree, now: int)
    requires s.activeports == Ports(t) && s.topology == 1 + Children(t) && s.entryport == 0 && ReadingOf(s.rt, t, now)
    requires Exit(t, now) - now < 0x8000_0000
    ensures if s.topology > 1 then
              Int32(PortTime(s, PrevPort(s.activeports, s.entryport)) - PortTime(s, s.entryport)) == Exit(t, now) - now
            else Exit(t, now) == now
  {
    LastPort(s, t, now);
    hide Int32, ReadingOf, PrevPort, PortTime, Ports, Children, Exit;
    Int32Gap(Exit(t, now) + t.offset, now + t.offset);
  }

  /** A wrapping clock attached to its own port. */
  lemma DelayNoticed(p: Slave, s: Slave, a: Attachment, gap: nat, t0: int)
    requires Entered(p, a.home.above, a.home.at) && Exact(p, a.home.above, a.home.at, t0) && Even(a)
    requires !EntryReadable(a.far, a.now)
    requires p.consumedports <= Ports(a.home.above) && NextUnconsumed(p) == a.port && (gap > 1 <==> a.home.Later())
    requires s.activeports == Ports(a.far) && s.topology == 1 + Children(a.far)
    requires s.entryport == EntryPort(s.activeports, s.rt) && ReadingOf(s.rt, a.far, a.now)
    ensures Delay(p, s, a.port, gap) != a.now - t0
  {
    var above, at, q := a.home.above, a.home.at, a.port;
    DepartIs(above, at, q);
    PortReading(p, above, at, q);
    PortReading(p, above, at, PrevPort(Ports(above), q));
    PortReading(p, above, at, 0);
    InOrder(above, at);
    SomeBranch(above, q);
    var br := Branch(0, gap, q, above.offset, at, a.home.Depart(), a.home.Back());
    hide Int32, Half, Delay, ReadingOf, PrevPort, NextUnconsumed, LatchedAt, PortTime, Ports, Children, Departs, Exit,
      EntryPort, EntryReadable;
    assert Passes(above, at, 0) == at;
    hide Passes;
    DelayUnreadable(p, s, a.far, a.now, br, t0);
  }

  lemma SomeBranch(t: Tree, q: Port)
    requires q != 0 && q in Ports(t)
    ensures Children(t) > 0
  {
  }

  // ---------- one subtree with a clock above ----------

  /** Where a tree hangs: the number of the next clock above, that of its child towards the tree, the branch of that
    * clock, the time from which delays count, and whether the delay of that clock is exact. */
  datatype Spot = Spot(p: nat, c: nat, home: Home, t0: int, exact: bool)

  /** A port is held for a slave without a clock, or for `p`. */
  ghost predicate HeldFor(sl: seq<Slave>, hold: nat, p: nat) {
    hold < |sl| && (hold == 0 || hold == p || !sl[hold].hasdc)
  }

  /** The clock above has had its turn; `ports` are left of its ports. */
  ghost predicate ClockAbove(sl: seq<Slave>, o: Spot, ports: set<Port>) {
    && 0 < o.p < o.c && o.p < |sl| && o.home.Valid() && Entered(sl[o.p], o.home.above, o.home.at)
    && (o.exact ==> Exact(sl[o.p], o.home.above, o.home.at, o.t0))
    && sl[o.p].consumedports == ports <= Ports(o.home.above) && (o.c - o.p > 1 <==> o.home.Later())
  }

  /** The records and readings are those of tree `t`, the first slave of which is `b`. */
  ghost predicate Records(sl: seq<Slave>, hold: nat, rs: seq<Latches>, t: Tree, now: int, b: nat) {
    0 < b && b + Size(t) <= |sl| == |rs| && hold < |sl| && Wired(sl, t, b, sl[b].parent) && Latched(rs, t, now, b)
  }

  /** The state of affairs before the turns for the slaves of `t`. */
  ghost predicate Before(sl: seq<Slave>, hold: nat, rs: seq<Latches>, t: Tree, now: int, b: nat, o: Spot,
                         ports: set<Port>, held: bool)
  {
    Records(sl, hold, rs, t, now, b)
    && ClockAbove(sl, o, ports) && o.c <= b && DcParent(sl, b) == (o.p, o.c) && Within(o.home, t, now)
    && (!t.dc ==> HeldFor(sl, Held(sl, hold, b), o.p) && (Held(sl, hold, b) == o.p <==> held))
    && Followed(o, Attached(o.home, t, now, ports, held))
  }

  /** What happens can be told from the tree: either the delay of the clock above is exact, and a wrapping clock is
    * noticed, or no clock wraps. */
  ghost predicate Followed(o: Spot, s: seq<Attachment>) {
    AllSound(s) && (o.exact || AllReadable(s))
  }

  /** What those turns achieve. If no clock wraps, each slave is attached as computed, and the clock above has lost the
    * ports used up. If the delay of that clock is exact, those of the slaves are if and only if every attachment is
    * good. */
  ghost predicate Outcome(sl: seq<Slave>, res: seq<Slave>, t: Tree, now: int, b: nat, o: Spot, ports: set<Port>,
                          held: bool)
  {
    var s := Attached(o.home, t, now, ports, held);
    && (AllReadable(s) ==>
          && Quiet(sl, res, b, o.p) && o.p < |res| && res[o.p].consumedports == LeftAfter(t, ports, held)
          && PortsMatch(res, Numbers(t, b), s))
    && (o.exact ==> (Delays(res, t, now, b, o.t0) <==> AllGood(s)))
  }

  /** The turn of a slave with a clock. */
  lemma ClockTurn(sl: seq<Slave>, hold: nat, rs: seq<Latches>, t: Tree, now: int, b: nat, o: Spot, ports: set<Port>,
                  held: bool)
    requires Before(sl, hold, rs, t, now, b, o, ports, held) && t.dc
    ensures var (sl1, hold1) := Step(sl, hold, b, rs[b]);
      var a := Attachment(o.home, NextOf(ports), t, now);
      && hold1 == 0 && Quiet(sl, sl1, b, o.p) && sl1[o.p].consumedports == ports - {NextOf(ports)}
      && sl1[b].parentport == NextOf(ports)
      && (o.exact ==> (sl1[b].pdelay == now - o.t0 <==> Good(a)))
      && (EntryReadable(t, now) ==> Entered(sl1[b], t, now) && sl1[b].consumedports == Ports(t) - {0})
      && (o.exact && Good(a) ==> Exact(sl1[b], t, now, o.t0))
  {
    var a, e, p := Attachment(o.home, NextOf(ports), t, now), Enter(sl[b], rs[b]), sl[o.p];
    StepKeepsNetwork(sl, hold, b, rs[b]);
    SomeBranch(o.home.above, o.home.port);
    assert a in Attached(o.home, t, now, ports, held);
    hide Accurate, Passes, Departs, Exit, Ports, Children, PrevPort, Even, LatchedAt, Int32, Latched, Attached, NextOf;
    assert ReadingOf(rs[b], t, now);
    hide Wired, Latched, ReadingOf, EntryPort;
    if o.exact {
      AttachedDelay(p, e, a, o.c - o.p, o.t0);
    }
    ExitSoon(o.home, t, now);
    EntryPortRecognised(t, now, rs[b]);
    hide DcParent, SameNetwork, Delay, EntryReadable, Good;
  }

  lemma ExitSoon(h: Home, t: Tree, now: int)
    requires h.Valid() && Within(h, t, now)
    ensures h.at <= now && Exit(t, now) <= Exit(h.above, h.at)
  {
    DepartIs(h.above, h.at, h.port);
  }

  // ---------- branch by branch ----------

  function NextPort(q: Port): Port {
    if q == 3 then 1 else 2
  }

  /** There is a branch on port `q` or a later one. */
  predicate Ahead(t: Tree, q: Port) {
    match q
    case 1 => t.on1.Cable? || t.on2.Cable?
    case 2 => t.on2.Cable?
    case _ => true
  }

  /** Where the branch on port `q` of slave `b` hangs. */
  function SpotAt(o: Spot, t: Tree, now: int, b: nat, q: Port): Spot {
    if t.dc then Spot(b, Head(t, b, q), Home(t, now, q), o.t0, o.exact) else o
  }

  /** Slave `b` has had its turn, and so have the branches before the one on port `q`. With `ports` and `held` things
    * began. */
  ghost predicate Between(sl: seq<Slave>, hold: nat, rs: seq<Latches>, t: Tree, now: int, b: nat, o: Spot,
                          ports: set<Port>, held: bool, q: Port)
  {
    && Records(sl, hold, rs, t, now, b) && q != 0
    && if t.dc then
         && Entered(sl[b], t, now) && (o.exact ==> Exact(sl[b], t, now, o.t0))
         && ports == Ports(t) - {0} && (held <==> Children(t) > 1) && hold == 0
         && sl[b].consumedports == PortsAt(t, ports, held, q)
       else
         && ClockAbove(sl, o, PortsAt(t, ports, held, q)) && o.c <= b && DcParent(sl, b) == (o.p, o.c)
         && Within(o.home, t, now) && (Children(t) > 1 ==> !held)
         && (Children(t) == 1 && Ahead(t, q) ==> HeldFor(sl, hold, o.p) && (hold == o.p <==> held))
  }

  /** What the turns for the branch on port `q` of slave `b` achieve. */
  ghost predicate BranchDone(sl: seq<Slave>, res: seq<Slave>, t: Tree, now: int, b: nat, o: Spot, ports: set<Port>,
                             held: bool, q: Port)
  {
    var l, p, head := OnPort(t, q), SpotAt(o, t, now, b, q).p, Head(t, b, q);
    var s := AttachedAt(o.home, t, now, ports, held, q);
    && (AllReadable(s) ==>
          && Quiet(sl, res, head, p) && p < |res|
          && res[p].consumedports == LeftBehind(l, PortsAt(t, ports, held, q), held)
          && PortsMatch(res, NumbersBehind(l, head), s))
    && (o.exact ==> (DelaysBehind(res, l, Departs(t, now, q), head, o.t0) <==> AllGood(s)))
  }

  lemma BehindPort(sl: seq<Slave>, hold: nat, rs: seq<Latches>, t: Tree, now: int, b: nat, q: Port)
    requires Records(sl, hold, rs, t, now, b) && q != 0
    ensures var l, head := OnPort(t, q), Head(t, b, q);
      && WiredBehind(sl, l, head, b) && LatchedBehind(rs, l, Departs(t, now, q), head)
      && (l.Cable? <==> q in Ports(t)) && b < head && head + LinkSize(l) <= b + Size(t) <= |sl|
      && sl[b].hasdc == t.dc && sl[b].topology == 1 + Children(t)
  {
  }

  lemma {:induction false} FewerPortsBehind(l: Link, ports: set<Port>, held: bool)
    ensures LeftBehind(l, ports, held) <= ports
    decreases l
  {
    if l.Cable? {
      var t, on := l.far, held && Children(l.far) <= 1;
      PortsParts(t, ports, on);
      FewerPortsBehind(t.on3, ports, on);
      FewerPortsBehind(t.on1, PortsAt(t, ports, on, 1), on);
      FewerPortsBehind(t.on2, PortsAt(t, ports, on, 2), on);
    }
  }

  lemma FewerPorts(t: Tree, ports: set<Port>, held: bool, q: Port)
    ensures PortsAt(t, ports, held, q) <= ports
  {
    PortsParts(t, ports, held);
    FewerPortsBehind(t.on3, ports, held);
    FewerPortsBehind(t.on1, PortsAt(t, ports, held, 1), held);
    hide LeftBehind;
  }

  /** The clock above the branch, and how the branch lies there. */
  lemma ClockAboveBranch(sl: seq<Slave>, hold: nat, rs: seq<Latches>, t: Tree, now: int, b: nat, o: Spot,
                         ports: set<Port>, held: bool, q: Port)
    requires Between(sl, hold, rs, t, now, b, o, ports, held, q) && OnPort(t, q).Cable?
    ensures var o', l := SpotAt(o, t, now, b, q), OnPort(t, q);
      && ClockAbove(sl, o', PortsAt(t, ports, held, q)) && o'.c <= Head(t, b, q)
      && Within(o'.home, l.far, Departs(t, now, q) + l.delay) && o'.home == HomeAt(o.home, t, now, q)
  {
    FewerPorts(t, ports, held, q);
    hide PortsAt, Wired, Latched, Entered, DcParent;
    if t.dc {
      LaterBranch(t, b, q);
      hide PrevPort;
    } else {
      InsideBranch(t, now, q);
      hide PrevPort, Ports;
    }
  }

  lemma LaterBranch(t: Tree, b: nat, q: Port)
    requires q != 0 && OnPort(t, q).Cable?
    ensures q in Ports(t) && (Head(t, b, q) - b > 1 <==> PrevPort(Ports(t), q) != 0)
  {
  }

  lemma InsideBranch(t: Tree, now: int, q: Port)
    requires q != 0 && OnPort(t, q).Cable?
    ensures var l, at := OnPort(t, q), Departs(t, now, q) + OnPort(t, q).delay;
      now <= at <= Exit(l.far, at) <= Exit(t, now)
  {
  }

  /** The next clock above the first slave of the branch. */
  lemma ParentBehind(sl: seq<Slave>, hold: nat, rs: seq<Latches>, t: Tree, now: int, b: nat, o: Spot,
                     ports: set<Port>, held: bool, q: Port)
    requires Between(sl, hold, rs, t, now, b, o, ports, held, q) && OnPort(t, q).Cable?
    ensures var o', head := SpotAt(o, t, now, b, q), Head(t, b, q);
      && head < |sl| && hold < |sl| && sl[head].parent == b && DcParent(sl, head) == (o'.p, o'.c)
      && (!OnPort(t, q).far.dc ==>
           HeldFor(sl, Held(sl, hold, head), o'.p) && (Held(sl, hold, head) == o'.p <==> held))
  {
    BehindPort(sl, hold, rs, t, now, b, q);
    SomeBranch(t, q);
    hide PortsAt, Latched, Entered, Within, Exit, Ports, LinkSize, Records, OnPort, Head;
    var head := Head(t, b, q);
    assert sl[head].parent == b;
    RecordsBounds(sl, hold, rs, t, now, b);
    hide Wired, WiredBehind, LatchedBehind;
  }

  lemma RecordsBounds(sl: seq<Slave>, hold: nat, rs: seq<Latches>, t: Tree, now: int, b: nat)
    requires Records(sl, hold, rs, t, now, b)
    ensures 0 < b && b + Size(t) <= |sl| == |rs| && hold < |sl|
    ensures Wired(sl, t, b, sl[b].parent) && Latched(rs, t, now, b)
  {
  }

  /** Everything is in place for the branch on port `q`. */
  lemma BranchBefore(sl: seq<Slave>, hold: nat, rs: seq<Latches>, t: Tree, now: int, b: nat, o: Spot,
                     ports: set<Port>, held: bool, q: Port)
    requires Between(sl, hold, rs, t, now, b, o, ports, held, q) && OnPort(t, q).Cable?
    requires Followed(o, AttachedAt(o.home, t, now, ports, held, q))
    ensures var l := OnPort(t, q);
      Before(sl, hold, rs, l.far, Departs(t, now, q) + l.delay, Head(t, b, q), SpotAt(o, t, now, b, q),
             PortsAt(t, ports, held, q), held)
  {
    var l, head, at := OnPort(t, q), Head(t, b, q), Departs(t, now, q) + OnPort(t, q).delay;
    BehindPort(sl, hold, rs, t, now, b, q);
    ClockAboveBranch(sl, hold, rs, t, now, b, o, ports, held, q);
    ParentBehind(sl, hold, rs, t, now, b, o, ports, held, q);
    RecordsBounds(sl, hold, rs, t, now, b);
    AttachedFar(o.home, t, now, ports, held, q);
    hide PortsAt, Wired, Latched, Entered, DcParent, Between, ClockAbove, Within, Attached, AttachedAt, Departs, Head,
      OnPort, AllSound, AllReadable, HeldFor, Held, Ports, HomeAt;
    assert Wired(sl, l.far, head, b) && Latched(rs, l.far, at, head);
    hide WiredBehind, LatchedBehind;
  }

  lemma AttachedFar(h: Home, t: Tree, now: int, ports: set<Port>, held: bool, q: Port)
    requires OnPort(t, q).Cable?
    ensures var l := OnPort(t, q);
      && AttachedAt(h, t, now, ports, held, q)
         == Attached(HomeAt(h, t, now, q), l.far, Departs(t, now, q) + l.delay, PortsAt(t, ports, held, q), held)
      && LinkSize(l) == Size(l.far)
      && LeftBehind(l, PortsAt(t, ports, held, q), held) == LeftAfter(l.far, PortsAt(t, ports, held, q), held)
  {
    hide Attached, LeftAfter, PortsAt;
  }

  /** The turns for the branch on port `q`. */
  lemma {:induction false} RunBranch(sl: seq<Slave>, hold: nat, rs: seq<Latches>, t: Tree, now: int, b: nat, o: Spot,
                                     ports: set<Port>, held: bool, q: Port)
    requires Between(sl, hold, rs, t, now, b, o, ports, held, q)
    requires Followed(o, AttachedAt(o.home, t, now, ports, held, q))
    ensures var l, head := OnPort(t, q), Head(t, b, q);
      && 0 < head <= head + LinkSize(l) <= |sl| == |rs| && hold < |sl|
      && var (res, hold') := Run(sl, hold, rs, head, head + LinkSize(l));
        && BranchDone(sl, res, t, now, b, o, ports, held, q) && (l.Cable? ==> hold' == 0)
        && (l.Open? ==> hold' == hold && res == sl)
    decreases t, 0, 0
  {
    hide *;
    BetweenRecords(sl, hold, rs, t, now, b, o, ports, held, q);
    RecordsBounds(sl, hold, rs, t, now, b);
    BehindPort(sl, hold, rs, t, now, b, q);
    var l, head := OnPort(t, q), Head(t, b, q);
    if l.Open? {
      SizeNothing(l);
      RunNothing(sl, hold, rs, head, head);
      NothingDone(sl, hold, rs, t, now, b, o, ports, held, q);
    } else {
      AttachedFar(o.home, t, now, ports, held, q);
      NothingHeld(sl, hold, rs, l, head, b);
      BranchBefore(sl, hold, rs, t, now, b, o, ports, held, q);
      var at, o' := Departs(t, now, q) + l.delay, SpotAt(o, t, now, b, q);
      RunTree(sl, hold, rs, l.far, at, head, o', PortsAt(t, ports, held, q), held);
      TreeDone(sl, Run(sl, hold, rs, head, head + LinkSize(l)).0, t, now, b, o, ports, held, q);
    }
  }

  lemma BetweenRecords(sl: seq<Slave>, hold: nat, rs: seq<Latches>, t: Tree, now: int, b: nat, o: Spot,
                       ports: set<Port>, held: bool, q: Port)
    requires Between(sl, hold, rs, t, now, b, o, ports, held, q)
    ensures Records(sl, hold, rs, t, now, b) && q != 0
  {
  }

  lemma SizeNothing(l: Link)
    requires l.Open?
    ensures LinkSize(l) == 0
  {
  }

  /** Nothing there, no turns. */
  lemma NothingDone(sl: seq<Slave>, hold: nat, rs: seq<Latches>, t: Tree, now: int, b: nat, o: Spot,
                    ports: set<Port>, held: bool, q: Port)
    requires Between(sl, hold, rs, t, now, b, o, ports, held, q) && OnPort(t, q).Open?
    ensures BranchDone(sl, sl, t, now, b, o, ports, held, q)
  {
    BehindPort(sl, hold, rs, t, now, b, q);
    QuietNothing(sl, Head(t, b, q), SpotAt(o, t, now, b, q).p);
    OpenAt(o.home, t, now, ports, held, q);
    hide AttachedAt, PortsAt, Wired, Latched, Entered, Exact, DcParent, Within, Quiet, Head, Departs, OnPort;
  }

  lemma TreeDone(sl: seq<Slave>, res: seq<Slave>, t: Tree, now: int, b: nat, o: Spot, ports: set<Port>, held: bool,
                 q: Port)
    requires OnPort(t, q).Cable?
    requires var l, left := OnPort(t, q), PortsAt(t, ports, held, q);
      Outcome(sl, res, l.far, Departs(t, now, q) + l.delay, Head(t, b, q), SpotAt(o, t, now, b, q), left, held)
    ensures BranchDone(sl, res, t, now, b, o, ports, held, q)
  {
    AttachedFar(o.home, t, now, ports, held, q);
    hide PortsAt, Quiet, Head, Departs, OnPort, AllGood, AllReadable, AttachedAt, Attached, LeftAfter, LeftBehind,
      Delays, PortsMatch, Numbers;
  }

  /** One branch done, everything is as it should be for the next. */
  lemma BetweenNext(sl: seq<Slave>, hold: nat, res: seq<Slave>, hold': nat, rs: seq<Latches>, t: Tree, now: int, b: nat,
                    o: Spot, ports: set<Port>, held: bool, q: Port)
    requires Between(sl, hold, rs, t, now, b, o, ports, held, q) && (q == 3 || q == 1)
    requires BranchDone(sl, res, t, now, b, o, ports, held, q)
    requires AllReadable(AttachedAt(o.home, t, now, ports, held, q))
    requires if OnPort(t, q).Cable? then hold' == 0 else hold' == hold && res == sl
    ensures Between(res, hold', rs, t, now, b, o, ports, held, NextPort(q))
  {
    BetweenRecords(sl, hold, rs, t, now, b, o, ports, held, q);
    RecordsBounds(sl, hold, rs, t, now, b);
    BehindPort(sl, hold, rs, t, now, b, q);
    NextPorts(t, ports, held, q);
    RecordsKept(sl, hold, res, hold', rs, t, now, b, Head(t, b, q), SpotAt(o, t, now, b, q).p);
    OneCable(t, q);
    FewerPortsBehind(OnPort(t, q), PortsAt(t, ports, held, q), held);
    hide PortsAt, Wired, Latched, Head, Departs, OnPort, AllGood, AllReadable, AttachedAt, LeftBehind, DelaysBehind,
      ReadingOf, PortsMatch, NumbersBehind, Exit, Ports, Children, NextPort, Records, LinkSize, SameNetwork, DcParent,
      Within, WiredBehind, LatchedBehind;
    if t.dc {
      assert res[b] == sl[b].(consumedports := res[b].consumedports);
    } else {
      assert res[o.p] == sl[o.p].(consumedports := res[o.p].consumedports);
    }
  }

  lemma OneCable(t: Tree, q: Port)
    requires q == 3 || q == 1
    ensures NextPort(q) != 0
    ensures Children(t) == 1 && Ahead(t, NextPort(q)) ==> OnPort(t, q).Open? && Ahead(t, q)
  {
  }

  lemma NextPorts(t: Tree, ports: set<Port>, held: bool, q: Port)
    requires q == 3 || q == 1
    ensures PortsAt(t, ports, held, NextPort(q)) == LeftBehind(OnPort(t, q), PortsAt(t, ports, held, q), held)
  {
    PortsParts(t, ports, held);
  }

  /** The network stays, and with it who is next above. */
  lemma RecordsKept(sl: seq<Slave>, hold: nat, res: seq<Slave>, hold': nat, rs: seq<Latches>, t: Tree, now: int, b: nat,
                    lo: nat, p: nat)
    requires Records(sl, hold, rs, t, now, b) && Quiet(sl, res, lo, p) && (hold' == 0 || hold' == hold)
    ensures Records(res, hold', rs, t, now, b) && DcParent(res, b) == DcParent(sl, b) && SameWiring(res[b], sl[b])
    ensures res == sl || hold' == 0 ==> forall q :: HeldFor(sl, hold', q) ==> HeldFor(res, hold', q)
  {
    SameNetworkTrans(res, sl, res);
    WiredSame(sl, res, t, b, sl[b].parent);
    DcParentSame(sl, res, b);
    hide Wired, Latched, DcParent;
  }

  /** Every slave behind `t` with a clock has its true delay. */
  ghost predicate DelaysLinks(sl: seq<Slave>, t: Tree, now: int, b: nat, t0: int) {
    && DelaysBehind(sl, t.on3, now, b + 1, t0)
    && DelaysBehind(sl, t.on1, Return(t.on3, now), b + 1 + LinkSize(t.on3), t0)
    && DelaysBehind(sl, t.on2, Return(t.on1, Return(t.on3, now)), b + 1 + LinkSize(t.on3) + LinkSize(t.on1), t0)
  }

  /** What the turns for everything behind slave `b` achieve. */
  ghost predicate LinksDone(sl: seq<Slave>, res: seq<Slave>, t: Tree, now: int, b: nat, o: Spot, ports: set<Port>,
                            held: bool)
  {
    var s, p := AttachedLinks(o.home, t, now, ports, held), if t.dc then b else o.p;
    && (AllReadable(s) ==>
          && Quiet(sl, res, b + 1, p) && p < |res| && res[p].consumedports == LeftLinks(t, ports, held)
          && PortsMatch(res, NumbersLinks(t, b), s))
    && (o.exact ==> (DelaysLinks(res, t, now, b, o.t0) <==> AllGood(s)))
  }

  lemma Heads(t: Tree, now: int, b: nat)
    ensures OnPort(t, 3) == t.on3 && OnPort(t, 1) == t.on1 && OnPort(t, 2) == t.on2
    ensures NextPort(3) == 1 && NextPort(1) == 2
    ensures Head(t, b, 3) == b + 1 && Departs(t, now, 3) == now
    ensures Head(t, b, 1) == b + 1 + LinkSize(t.on3) && Departs(t, now, 1) == Return(t.on3, now)
    ensures Head(t, b, 2) == b + 1 + LinkSize(t.on3) + LinkSize(t.on1)
    ensures Departs(t, now, 2) == Return(t.on1, Return(t.on3, now))
    ensures Size(t) == 1 + LinkSize(t.on3) + LinkSize(t.on1) + LinkSize(t.on2)
  {
  }

  lemma DoneMeasured(sl: seq<Slave>, res: seq<Slave>, t: Tree, now: int, b: nat, o: Spot, ports: set<Port>, held: bool,
                     q: Port)
    requires BranchDone(sl, res, t, now, b, o, ports, held, q)
    ensures var p, s := SpotAt(o, t, now, b, q).p, AttachedAt(o.home, t, now, ports, held, q);
      && (o.exact ==> (DelaysBehind(res, OnPort(t, q), Departs(t, now, q), Head(t, b, q), o.t0) <==> AllGood(s)))
      && (AllReadable(s) ==>
            && Quiet(sl, res, Head(t, b, q), p) && p < |res|
            && res[p].consumedports == LeftBehind(OnPort(t, q), PortsAt(t, ports, held, q), held)
            && PortsMatch(res, NumbersBehind(OnPort(t, q), Head(t, b, q)), s))
      && p == if t.dc then b else o.p
  {
  }

  lemma LinksGood(o: Spot, t: Tree, now: int, ports: set<Port>, held: bool)
    ensures var s := AttachedLinks(o.home, t, now, ports, held);
      var s3, s1 := AttachedAt(o.home, t, now, ports, held, 3), AttachedAt(o.home, t, now, ports, held, 1);
      var s2 := AttachedAt(o.home, t, now, ports, held, 2);
      && s == s3 + s1 + s2
      && (AllGood(s) <==> AllGood(s3) && AllGood(s1) && AllGood(s2))
      && (AllReadable(s) <==> AllReadable(s3) && AllReadable(s1) && AllReadable(s2))
      && (Followed(o, s) ==> Followed(o, s3) && Followed(o, s1) && Followed(o, s2))
      && (AllGood(s3) ==> AllReadable(s3)) && (AllGood(s1) ==> AllReadable(s1)) && (AllGood(s2) ==> AllReadable(s2))
  {
    LinksParts(o.home, t, now, ports, held);
    GoodReadable(AttachedAt(o.home, t, now, ports, held, 3));
    GoodReadable(AttachedAt(o.home, t, now, ports, held, 1));
    GoodReadable(AttachedAt(o.home, t, now, ports, held, 2));
    hide AttachedAt, Good, EntryReadable, Even;
  }

  lemma GoodReadable(s: seq<Attachment>)
    ensures AllGood(s) ==> AllReadable(s)
  {
    hide EntryReadable, Accurate;
  }

  /** The turns for everything behind slave `b`. */
  lemma {:induction false} RunLinks(sl: seq<Slave>, hold: nat, rs: seq<Latches>, t: Tree, now: int, b: nat, o: Spot,
                                    ports: set<Port>, held: bool)
    requires Between(sl, hold, rs, t, now, b, o, ports, held, 3)
    requires Followed(o, AttachedLinks(o.home, t, now, ports, held))
    ensures 0 < b && b + Size(t) <= |sl| == |rs| && hold < |sl|
    ensures LinksDone(sl, Run(sl, hold, rs, b + 1, b + Size(t)).0, t, now, b, o, ports, held)
    decreases t, 0, 1
  {
    hide *;
    BetweenRecords(sl, hold, rs, t, now, b, o, ports, held, 3);
    RecordsBounds(sl, hold, rs, t, now, b);
    Heads(t, now, b);
    LinksGood(o, t, now, ports, held);
    PortsParts(t, ports, held);
    var c1 := b + 1 + LinkSize(t.on3);
    var c2, end, p := c1 + LinkSize(t.on1), b + Size(t), if t.dc then b else o.p;
    var s3, s1 := AttachedAt(o.home, t, now, ports, held, 3), AttachedAt(o.home, t, now, ports, held, 1);
    var s2 := AttachedAt(o.home, t, now, ports, held, 2);
    var res := Run(sl, hold, rs, b + 1, end).0;
    RunBranch(sl, hold, rs, t, now, b, o, ports, held, 3);
    var (sl3, hold3) := Run(sl, hold, rs, b + 1, c1);
    RunCompose(sl, hold, rs, b + 1, c1, end);
    DoneMeasured(sl, sl3, t, now, b, o, ports, held, 3);
    DelaysStay(sl3, hold3, rs, c1, end, t.on3, now, b + 1, o.t0);
    PartsMeasured(res, t, now, b, o.t0);
    if AllReadable(s3) {
      NumbersInRange(t.on3, b + 1);
      PortsStay(sl3, hold3, rs, c1, end, NumbersBehind(t.on3, b + 1), s3);
      BetweenNext(sl, hold, sl3, hold3, rs, t, now, b, o, ports, held, 3);
      RunBranch(sl3, hold3, rs, t, now, b, o, ports, held, 1);
      var (sl1, hold1) := Run(sl3, hold3, rs, c1, c2);
      RunCompose(sl3, hold3, rs, c1, c2, end);
      DoneMeasured(sl3, sl1, t, now, b, o, ports, held, 1);
      DelaysStay(sl1, hold1, rs, c2, end, t.on1, Return(t.on3, now), c1, o.t0);
      if AllReadable(s1) {
        NumbersInRange(t.on1, c1);
        PortsStay(sl1, hold1, rs, c2, end, NumbersBehind(t.on1, c1), s1);
        BetweenNext(sl3, hold3, sl1, hold1, rs, t, now, b, o, ports, held, 1);
        RunBranch(sl1, hold1, rs, t, now, b, o, ports, held, 2);
        DoneMeasured(sl1, res, t, now, b, o, ports, held, 2);
        if AllReadable(s2) {
          QuietTrans(sl3, sl1, res, c1, c2, p);
          QuietTrans(sl, sl3, res, b + 1, c1, p);
          PortsMatchBoth(res, NumbersBehind(t.on3, b + 1), s3, NumbersBehind(t.on1, c1), s1);
          PortsMatchBoth(res, NumbersBehind(t.on3, b + 1) + NumbersBehind(t.on1, c1), s3 + s1,
            NumbersBehind(t.on2, c2), s2);
          LinksNumbered(t, b);
        }
      }
    }
    AllDone(sl, res, t, now, b, o, ports, held);
  }

  lemma LinksNumbered(t: Tree, b: nat)
    ensures NumbersLinks(t, b) == NumbersBehind(t.on3, b + 1) + NumbersBehind(t.on1, b + 1 + LinkSize(t.on3))
      + NumbersBehind(t.on2, b + 1 + LinkSize(t.on3) + LinkSize(t.on1))
  {
    hide NumbersBehind;
  }

  lemma PartsMeasured(res: seq<Slave>, t: Tree, now: int, b: nat, t0: int)
    ensures DelaysLinks(res, t, now, b, t0) <==>
      DelaysBehind(res, t.on3, now, b + 1, t0)
      && DelaysBehind(res, t.on1, Return(t.on3, now), b + 1 + LinkSize(t.on3), t0)
      && DelaysBehind(res, t.on2, Return(t.on1, Return(t.on3, now)), b + 1 + LinkSize(t.on3) + LinkSize(t.on1), t0)
  {
  }

  lemma AllDone(sl: seq<Slave>, res: seq<Slave>, t: Tree, now: int, b: nat, o: Spot, ports: set<Port>, held: bool)
    requires o.exact ==> (AllGood(AttachedLinks(o.home, t, now, ports, held)) <==> DelaysLinks(res, t, now, b, o.t0))
    requires AllReadable(AttachedLinks(o.home, t, now, ports, held)) ==>
      var p := if t.dc then b else o.p;
      && Quiet(sl, res, b + 1, p) && p < |res| && res[p].consumedports == LeftLinks(t, ports, held)
      && PortsMatch(res, NumbersLinks(t, b), AttachedLinks(o.home, t, now, ports, held))
    ensures LinksDone(sl, res, t, now, b, o, ports, held)
  {
    hide AllGood, AllReadable, AttachedLinks, DelaysLinks, Quiet, LeftLinks, PortsMatch, NumbersLinks;
  }

  lemma {:induction false} RunTree(sl: seq<Slave>, hold: nat, rs: seq<Latches>, t: Tree, now: int, b: nat, o: Spot,
                                   ports: set<Port>, held: bool)
    requires Before(sl, hold, rs, t, now, b, o, ports, held)
    ensures 0 < b && b + Size(t) <= |sl| == |rs| && hold < |sl|
    ensures Outcome(sl, Run(sl, hold, rs, b, b + Size(t)).0, t, now, b, o, ports, held)
    decreases t, 1
  {
    if t.dc {
      RunClock(sl, hold, rs, t, now, b, o, ports, held);
    } else {
      RunSkip(sl, hold, rs, t, now, b, o, ports, held);
    }
  }

  lemma BeforeBounds(sl: seq<Slave>, hold: nat, rs: seq<Latches>, t: Tree, now: int, b: nat, o: Spot,
                     ports: set<Port>, held: bool)
    requires Before(sl, hold, rs, t, now, b, o, ports, held)
    ensures Records(sl, hold, rs, t, now, b) && Followed(o, Attached(o.home, t, now, ports, held))
    ensures 0 < o.p < o.c <= b < |sl| && sl[o.p].hasdc
  {
  }

  /** The attachments of a slave with a clock are its own and those behind. */
  lemma ClockGood(o: Spot, t: Tree, now: int, b: nat, ports: set<Port>, held: bool)
    requires t.dc
    ensures var own, all := Attachment(o.home, NextOf(ports), t, now), Attached(o.home, t, now, ports, held);
      var links := AttachedLinks(o.home, t, now, Ports(t) - {0}, Children(t) > 1);
      && all == [own] + links && Numbers(t, b) == [b] + NumbersLinks(t, b)
      && (AllGood(all) <==> Good(own) && AllGood(links))
      && (AllReadable(all) <==> EntryReadable(t, now) && AllReadable(links))
      && (AllSound(all) ==> AllSound(links)) && (Good(own) ==> EntryReadable(t, now))
      && LeftAfter(t, ports, held) == ports - {NextOf(ports)}
  {
    hide AttachedLinks, Accurate, EntryReadable, Even, Ports, Children, NextOf;
    var own := Attachment(o.home, NextOf(ports), t, now);
    var links := AttachedLinks(o.home, t, now, Ports(t) - {0}, Children(t) > 1);
    var all := Attached(o.home, t, now, ports, held);
    assert forall a :: a in all <==> a == own || a in links;
  }

  /** After its own turn a slave with a clock is ready for its branches. */
  lemma ClockBetween(sl: seq<Slave>, hold: nat, rs: seq<Latches>, t: Tree, now: int, b: nat, o: Spot, ports: set<Port>,
                     held: bool)
    requires Before(sl, hold, rs, t, now, b, o, ports, held) && t.dc && EntryReadable(t, now)
    ensures var sl1, right := Step(sl, hold, b, rs[b]).0, o.exact && Good(Attachment(o.home, NextOf(ports), t, now));
      Between(sl1, 0, rs, t, now, b, o.(exact := right), Ports(t) - {0}, Children(t) > 1, 3)
  {
    ClockTurn(sl, hold, rs, t, now, b, o, ports, held);
    BeforeBounds(sl, hold, rs, t, now, b, o, ports, held);
    RecordsBounds(sl, hold, rs, t, now, b);
    PortsParts(t, Ports(t) - {0}, Children(t) > 1);
    hide Step, Entered, Exact, Latched, DcParent, Wired, Attached, Good, PortsAt, NextOf, ClockAbove, Ports, Children,
      Held;
    RecordsKept(sl, hold, Step(sl, hold, b, rs[b]).0, 0, rs, t, now, b, b, o.p);
  }

  lemma {:induction false} RunClock(sl: seq<Slave>, hold: nat, rs: seq<Latches>, t: Tree, now: int, b: nat, o: Spot,
                                    ports: set<Port>, held: bool)
    requires Before(sl, hold, rs, t, now, b, o, ports, held) && t.dc
    ensures 0 < b && b + Size(t) <= |sl| == |rs| && hold < |sl|
    ensures Outcome(sl, Run(sl, hold, rs, b, b + Size(t)).0, t, now, b, o, ports, held)
    decreases t, 0, 2
  {
    hide *;
    BeforeBounds(sl, hold, rs, t, now, b, o, ports, held);
    RecordsBounds(sl, hold, rs, t, now, b);
    SizePositive(t);
    ClockGood(o, t, now, b, ports, held);
    ClockTurn(sl, hold, rs, t, now, b, o, ports, held);
    RunFirst(sl, hold, rs, b, b + Size(t));
    var sl1 := Step(sl, hold, b, rs[b]).0;
    var res := Run(sl1, 0, rs, b + 1, b + Size(t)).0;
    RunKeepsDelay(sl1, 0, rs, b + 1, b + Size(t), b);
    var o1 := o.(exact := o.exact && Good(Attachment(o.home, NextOf(ports), t, now)));
    FollowedOn(o, o1, Attached(o.home, t, now, ports, held),
      AttachedLinks(o.home, t, now, Ports(t) - {0}, Children(t) > 1));
    if EntryReadable(t, now) && Followed(o1, AttachedLinks(o1.home, t, now, Ports(t) - {0}, Children(t) > 1)) {
      ClockBetween(sl, hold, rs, t, now, b, o, ports, held);
      RunLinks(sl1, 0, rs, t, now, b, o1, Ports(t) - {0}, Children(t) > 1);
      ClockDone(sl, sl1, res, t, now, b, o, ports, held);
    } else {
      ClockSpoilt(sl, sl1, res, t, now, b, o, ports, held);
    }
  }

  lemma FollowedOn(o: Spot, o1: Spot, all: seq<Attachment>, links: seq<Attachment>)
    requires Followed(o, all) && (AllSound(all) ==> AllSound(links))
    ensures o1.exact || AllReadable(links) ==> Followed(o1, links)
    ensures Followed(o1, links) ==> o1.exact || AllReadable(links)
  {
    hide AllSound, AllReadable;
  }

  lemma SizePositive(t: Tree)
    ensures Size(t) > 0
  {
  }

  /** What holds of a slave with a clock and behind it holds of both together. */
  lemma ClockDone(sl: seq<Slave>, sl1: seq<Slave>, res: seq<Slave>, t: Tree, now: int, b: nat, o: Spot,
                  ports: set<Port>, held: bool)
    requires t.dc && 0 < o.p < b && b + Size(t) <= |sl| == |sl1| == |res| && sl[o.p].hasdc
    requires var a := Attachment(o.home, NextOf(ports), t, now);
      && Quiet(sl, sl1, b, o.p) && sl1[o.p].consumedports == ports - {NextOf(ports)}
      && sl1[b].parentport == NextOf(ports) && SameMeasured(sl1[b], res[b])
      && (o.exact ==> (sl1[b].pdelay == now - o.t0 <==> Good(a)))
      && LinksDone(sl1, res, t, now, b, o.(exact := o.exact && Good(a)), Ports(t) - {0}, Children(t) > 1)
    ensures Outcome(sl, res, t, now, b, o, ports, held)
  {
    ClockGood(o, t, now, b, ports, held);
    DelaysOf(res, t, now, b, o.t0);
    hide AttachedLinks, Attached, Good, NextOf, Delays, DelaysLinks, LeftLinks, LeftAfter, Ports, Children,
      SameNetwork, AllGood, AllReadable, Numbers, NumbersLinks, EntryReadable;
    if AllReadable(Attached(o.home, t, now, ports, held)) {
      SameNetworkTrans(res, sl1, sl);
      StillClock(sl1, sl, o.p);
      PortsMatchBoth(res, [b], [Attachment(o.home, NextOf(ports), t, now)], NumbersLinks(t, b),
        AttachedLinks(o.home, t, now, Ports(t) - {0}, Children(t) > 1));
    }
  }

  /** And if it wraps, or a clock behind it whose delay is not to be exact. */
  lemma ClockSpoilt(sl: seq<Slave>, sl1: seq<Slave>, res: seq<Slave>, t: Tree, now: int, b: nat, o: Spot,
                    ports: set<Port>, held: bool)
    requires t.dc && b + Size(t) <= |res| && b < |sl1| && SameMeasured(sl1[b], res[b])
    requires var a, links := Attachment(o.home, NextOf(ports), t, now),
                             AttachedLinks(o.home, t, now, Ports(t) - {0}, Children(t) > 1);
      && (o.exact ==> (sl1[b].pdelay == now - o.t0 <==> Good(a)))
      && !(EntryReadable(t, now) && ((o.exact && Good(a)) || AllReadable(links)))
    ensures Outcome(sl, res, t, now, b, o, ports, held)
  {
    ClockGood(o, t, now, b, ports, held);
    DelaysOf(res, t, now, b, o.t0);
    hide AttachedLinks, Attached, Good, NextOf, Delays, DelaysLinks, LeftAfter, Ports, Children, AllGood, AllReadable,
      Numbers, EntryReadable, Quiet, PortsMatch;
  }

  lemma StillClock(a: seq<Slave>, c: seq<Slave>, i: nat)
    requires SameNetwork(a, c) && i < |a|
    ensures a[i].hasdc == c[i].hasdc
  {
    assert SameWiring(a[i], c[i]);
  }

  lemma DelaysOf(res: seq<Slave>, t: Tree, now: int, b: nat, t0: int)
    requires b + Size(t) <= |res|
    ensures Delays(res, t, now, b, t0) <==> (t.dc ==> res[b].pdelay == now - t0) && DelaysLinks(res, t, now, b, t0)
  {
    hide DelaysBehind;
  }

  /** The turn of a slave without a clock at the end of its branch: if a port is held, it is used up. */
  lemma LastSkipTurn(sl: seq<Slave>, hold: nat, rs: seq<Latches>, t: Tree, now: int, b: nat, o: Spot, ports: set<Port>,
                     held: bool)
    requires Before(sl, hold, rs, t, now, b, o, ports, held) && !t.dc && Children(t) == 0
    ensures Size(t) == 1 && Outcome(sl, Step(sl, hold, b, rs[b]).0, t, now, b, o, ports, held)
  {
    StepKeepsNetwork(sl, hold, b, rs[b]);
    NothingBehind(o.home, t, now, ports, held);
    var res := Step(sl, hold, b, rs[b]).0;
    DelaysOf(res, t, now, b, o.t0);
    assert sl[b].topology == 1 && !sl[b].hasdc;
    NothingNumbered(t, b);
    hide Wired, Latched, Entered, Exact, Delays, SameNetwork, Held, DcParent, Attached, NextOf, Within, LeftAfter,
      Numbers;
  }

  lemma NothingNumbered(t: Tree, b: nat)
    requires !t.dc && Children(t) == 0
    ensures Numbers(t, b) == []
  {
    assert NumbersLinks(t, b) == [];
  }

  lemma NothingBehind(h: Home, t: Tree, now: int, ports: set<Port>, held: bool)
    requires !t.dc && Children(t) == 0
    ensures Attached(h, t, now, ports, held) == [] && Size(t) == 1
    ensures LeftAfter(t, ports, held) == if held then ports - {NextOf(ports)} else ports
  {
    PortsParts(t, ports, held);
    OpenAt(h, t, now, ports, held, 3);
    OpenAt(h, t, now, ports, held, 1);
    OpenAt(h, t, now, ports, held, 2);
    assert AttachedLinks(h, t, now, ports, held) == [];
  }

  /** The turn further up. */
  lemma SkipTurn(sl: seq<Slave>, hold: nat, rs: seq<Latches>, t: Tree, now: int, b: nat, o: Spot, ports: set<Port>,
                 held: bool)
    requires Before(sl, hold, rs, t, now, b, o, ports, held) && !t.dc && Children(t) > 0
    ensures var (sl1, hold1) := Step(sl, hold, b, rs[b]);
      && Quiet(sl, sl1, b, o.p) && sl1[o.p] == sl[o.p]
      && Between(sl1, hold1, rs, t, now, b, o, ports, held && Children(t) <= 1, 3)
  {
    StepKeepsNetwork(sl, hold, b, rs[b]);
    RecordsBounds(sl, hold, rs, t, now, b);
    PortsParts(t, ports, held && Children(t) <= 1);
    assert sl[b].topology > 1 && !sl[b].hasdc;
    hide Wired, Latched, Entered, Exact, Within, PortsAt, Followed, DcParent, NextUnconsumed;
    var (sl1, hold1) := Step(sl, hold, b, rs[b]);
    SameNetworkTrans(sl1, sl, sl1);
    WiredSame(sl, sl1, t, b, sl[b].parent);
    DcParentSame(sl, sl1, b);
    SameParent(sl1, sl, b);
    hide SameNetwork;
  }

  lemma SameParent(a: seq<Slave>, c: seq<Slave>, i: nat)
    requires SameNetwork(a, c) && i < |a|
    ensures SameWiring(a[i], c[i])
  {
  }

  lemma SkipGood(h: Home, t: Tree, now: int, b: nat, ports: set<Port>, held: bool)
    requires !t.dc
    ensures Numbers(t, b) == NumbersLinks(t, b)
    ensures Attached(h, t, now, ports, held) == AttachedLinks(h, t, now, ports, held && Children(t) <= 1)
    ensures Children(t) > 0 ==> LeftAfter(t, ports, held) == LeftLinks(t, ports, held && Children(t) <= 1)
  {
  }

  lemma {:induction false} RunSkip(sl: seq<Slave>, hold: nat, rs: seq<Latches>, t: Tree, now: int, b: nat, o: Spot,
                                   ports: set<Port>, held: bool)
    requires Before(sl, hold, rs, t, now, b, o, ports, held) && !t.dc
    ensures 0 < b && b + Size(t) <= |sl| == |rs| && hold < |sl|
    ensures Outcome(sl, Run(sl, hold, rs, b, b + Size(t)).0, t, now, b, o, ports, held)
    decreases t, 0, 2
  {
    hide *;
    BeforeBounds(sl, hold, rs, t, now, b, o, ports, held);
    RecordsBounds(sl, hold, rs, t, now, b);
    SizePositive(t);
    RunFirst(sl, hold, rs, b, b + Size(t));
    var (sl1, hold1) := Step(sl, hold, b, rs[b]);
    var res := Run(sl1, hold1, rs, b + 1, b + Size(t)).0;
    if Children(t) == 0 {
      LastSkipTurn(sl, hold, rs, t, now, b, o, ports, held);
      RunNothing(sl1, hold1, rs, b + 1, b + Size(t));
    } else {
      SkipGood(o.home, t, now, b, ports, held);
      SkipTurn(sl, hold, rs, t, now, b, o, ports, held);
      RunLinks(sl1, hold1, rs, t, now, b, o, ports, held && Children(t) <= 1);
      SkipDone(sl, sl1, res, t, now, b, o, ports, held);
    }
  }

  /** What holds behind a slave without a clock holds of the two together. */
  lemma SkipDone(sl: seq<Slave>, sl1: seq<Slave>, res: seq<Slave>, t: Tree, now: int, b: nat, o: Spot, ports: set<Port>,
                 held: bool)
    requires !t.dc && Children(t) > 0 && o.p < b && b + Size(t) <= |sl| == |res|
    requires Quiet(sl, sl1, b, o.p) && LinksDone(sl1, res, t, now, b, o, ports, held && Children(t) <= 1)
    ensures Outcome(sl, res, t, now, b, o, ports, held)
  {
    SkipGood(o.home, t, now, b, ports, held);
    DelaysOf(res, t, now, b, o.t0);
    hide AttachedLinks, Attached, Delays, DelaysLinks, LeftLinks, LeftAfter, Quiet, AllGood, AllReadable, PortsMatch,
      Numbers, NumbersLinks;
    if AllReadable(Attached(o.home, t, now, ports, held)) {
      QuietTrans(sl, sl1, res, b, b + 1, o.p);
    }
  }

  // ---------- no clock above ----------

  /** The state of affairs before the turns for the slaves of `t` when no slave above has a clock. */
  ghost predicate Above(sl: seq<Slave>, hold: nat, rs: seq<Latches>, t: Tree, now: int, b: nat) {
    Records(sl, hold, rs, t, now, b) && RootsReadable(t, now) && AllSound(Attachments(t, now)) && DcParent(sl, b).0 == 0
    && forall j :: b <= j < b + Size(t) ==> sl[j].pdelay == 0
  }

  /** The turn of a clock without one above. */
  lemma RootTurn(sl: seq<Slave>, hold: nat, rs: seq<Latches>, t: Tree, now: int, b: nat)
    requires Above(sl, hold, rs, t, now, b) && t.dc
    ensures var (sl1, hold1) := Step(sl, hold, b, rs[b]);
      && hold1 == 0 && sl1[b].pdelay == 0
      && Between(sl1, 0, rs, t, now, b, Spot(b, 0, Home(t, now, 3), now, true), Ports(t) - {0}, Children(t) > 1, 3)
  {
    StepKeepsNetwork(sl, hold, b, rs[b]);
    RecordsBounds(sl, hold, rs, t, now, b);
    EntryPortRecognised(t, now, rs[b]);
    PortsParts(t, Ports(t) - {0}, Children(t) > 1);
    hide EntryPort, Delay, ReadingOf, DcParent, NextUnconsumed, PrevPort, LatchedAt, Int32, Wired, Latched, PortsAt,
      EntryReadable, AllSound, Attachments;
    var sl1 := Step(sl, hold, b, rs[b]).0;
    SameNetworkTrans(sl1, sl, sl1);
    WiredSame(sl, sl1, t, b, sl[b].parent);
    SameParent(sl1, sl, b);
    hide SameNetwork;
  }

  lemma AboveBounds(sl: seq<Slave>, hold: nat, rs: seq<Latches>, t: Tree, now: int, b: nat)
    requires Above(sl, hold, rs, t, now, b)
    ensures 0 < b && b + Size(t) <= |sl| == |rs| && hold < |sl|
    ensures Records(sl, hold, rs, t, now, b) && AllSound(Attachments(t, now)) && sl[b].hasdc == t.dc
    ensures t.dc ==> Attachments(t, now) == AttachedLinks(Home(t, now, 3), t, now, Ports(t) - {0}, Children(t) > 1)
  {
    hide AttachedLinks;
  }

  /** When the turns come to a branch, nothing has happened to it. */
  lemma BranchAbove(sl: seq<Slave>, hold: nat, rs: seq<Latches>, t: Tree, now: int, b: nat, q: Port)
    requires Above(sl, hold, rs, t, now, b) && !t.dc && q != 0 && OnPort(t, q).Cable?
    ensures var l, head := OnPort(t, q), Head(t, b, q);
      && 0 < b < head && head + LinkSize(l) <= b + Size(t) <= |sl| == |rs| && hold < |sl| && LinkSize(l) == Size(l.far)
      && var (mid, held) := Run(sl, hold, rs, b, head);
        Above(mid, held, rs, l.far, Departs(t, now, q) + l.delay, head)
  {
    var l, head := OnPort(t, q), Head(t, b, q);
    BehindPort(sl, hold, rs, t, now, b, q);
    RecordsBounds(sl, hold, rs, t, now, b);
    BranchRoots(t, now, q);
    var mid := Run(sl, hold, rs, b, head).0;
    RunKeepsNetwork(sl, hold, rs, b, head);
    forall j | head <= j < head + LinkSize(l) ensures mid[j].pdelay == 0 {
      RunKeepsDelay(sl, hold, rs, b, head, j);
    }
    hide OnPort, Departs, Head, Wired, Latched, RootsReadable, AllSound, Attachments, Run, DcParent, SameNetwork;
    HeadAbove(sl, mid, l, head, b);
  }

  lemma BranchRoots(t: Tree, now: int, q: Port)
    requires !t.dc && q != 0 && OnPort(t, q).Cable?
    ensures var far, at := OnPort(t, q).far, Departs(t, now, q) + OnPort(t, q).delay;
      && (RootsReadable(t, now) ==> RootsReadable(far, at))
      && (AllSound(Attachments(t, now)) ==> AllSound(Attachments(far, at)))
  {
    assert RootsReadable(t, now) ==> RootsReadableBehind(OnPort(t, q), Departs(t, now, q));
    var parts := AttachmentsBehind(OnPort(t, q), Departs(t, now, q));
    assert forall a :: a in parts ==> a in Attachments(t, now);
    hide Even, EntryReadable;
  }

  lemma HeadAbove(sl: seq<Slave>, mid: seq<Slave>, l: Link, head: nat, b: nat)
    requires WiredBehind(sl, l, head, b) && l.Cable? && 0 < b < head < |sl| && !sl[b].hasdc && DcParent(sl, b).0 == 0
    requires SameNetwork(sl, mid)
    ensures Wired(mid, l.far, head, mid[head].parent) && DcParent(mid, head).0 == 0
  {
    assert sl[head].parent == b;
    assert DcParent(sl, head).0 == 0;
    DcParentSame(sl, mid, head);
    WiredSame(sl, mid, l.far, head, b);
    SameParent(sl, mid, head);
    hide Wired, DcParent, SameNetwork;
  }

  lemma {:induction false} RunAbove(sl: seq<Slave>, hold: nat, rs: seq<Latches>, t: Tree, now: int, b: nat, t0: int)
    requires Above(sl, hold, rs, t, now, b)
    ensures 0 < b && b + Size(t) <= |sl| == |rs| && hold < |sl|
    ensures Delays(Run(sl, hold, rs, b, b + Size(t)).0, t, now, b, t0)
      <==> RootsAt(t, now, t0) && AllGood(Attachments(t, now))
    ensures AllReadable(Attachments(t, now)) ==>
      PortsMatch(Run(sl, hold, rs, b, b + Size(t)).0, AttachedNumbers(t, b), Attachments(t, now))
    decreases t, 1
  {
    hide *;
    AboveBounds(sl, hold, rs, t, now, b);
    SizePositive(t);
    var end := b + Size(t);
    var res := Run(sl, hold, rs, b, end).0;
    DelaysOf(res, t, now, b, t0);
    if t.dc {
      var o, ports, many := Spot(b, 0, Home(t, now, 3), now, true), Ports(t) - {0}, Children(t) > 1;
      RootTurn(sl, hold, rs, t, now, b);
      RunFirst(sl, hold, rs, b, end);
      var sl1 := Step(sl, hold, b, rs[b]).0;
      RunKeepsDelay(sl1, 0, rs, b + 1, end, b);
      ExactFollowed(o, AttachedLinks(o.home, t, now, ports, many));
      RunLinks(sl1, 0, rs, t, now, b, o, ports, many);
      RootDone(sl1, res, t, now, b, t0);
    } else {
      Heads(t, now, b);
      RunAboveAt(sl, hold, rs, t, now, b, 3, t0);
      RunAboveAt(sl, hold, rs, t, now, b, 1, t0);
      RunAboveAt(sl, hold, rs, t, now, b, 2, t0);
      AboveTogether(res, t, now, b, t0);
    }
  }

  lemma ExactFollowed(o: Spot, s: seq<Attachment>)
    requires o.exact && AllSound(s)
    ensures Followed(o, s)
  {
  }

  lemma RootDone(sl: seq<Slave>, res: seq<Slave>, t: Tree, now: int, b: nat, t0: int)
    requires t.dc && b < |sl| && b < |res| && sl[b].pdelay == 0 && SameMeasured(sl[b], res[b])
    requires Attachments(t, now) == AttachedLinks(Home(t, now, 3), t, now, Ports(t) - {0}, Children(t) > 1)
    requires LinksDone(sl, res, t, now, b, Spot(b, 0, Home(t, now, 3), now, true), Ports(t) - {0}, Children(t) > 1)
    requires Delays(res, t, now, b, t0) <==> res[b].pdelay == now - t0 && DelaysLinks(res, t, now, b, t0)
    ensures Delays(res, t, now, b, t0) <==> RootsAt(t, now, t0) && AllGood(Attachments(t, now))
    ensures AllReadable(Attachments(t, now)) ==> PortsMatch(res, AttachedNumbers(t, b), Attachments(t, now))
  {
    hide Delays, DelaysLinks, AllGood, AllReadable, AttachedLinks, Attachments, Quiet, PortsMatch;
  }

  /** If no clock behind `l` wraps, the records name the ports attached to. */
  ghost predicate PortsBehind(sl: seq<Slave>, l: Link, now: int, b: nat) {
    AllReadable(AttachmentsBehind(l, now)) ==> PortsMatch(sl, AttachedNumbersBehind(l, b), AttachmentsBehind(l, now))
  }

  lemma PortsSo(sl: seq<Slave>, l: Link, now: int, b: nat)
    requires AllReadable(AttachmentsBehind(l, now)) ==>
      PortsMatch(sl, AttachedNumbersBehind(l, b), AttachmentsBehind(l, now))
    ensures PortsBehind(sl, l, now, b)
  {
  }

  ghost predicate GoodBehind(l: Link, now: int, t0: int) {
    RootsAtBehind(l, now, t0) && AllGood(AttachmentsBehind(l, now))
  }

  /** One branch of a slave without clock, seen from the end. */
  lemma {:induction false} RunAboveAt(sl: seq<Slave>, hold: nat, rs: seq<Latches>, t: Tree, now: int, b: nat, q: Port,
                                      t0: int)
    requires Above(sl, hold, rs, t, now, b) && !t.dc && q != 0
    ensures 0 < b && b + Size(t) <= |sl| == |rs| && hold < |sl|
    ensures DelaysBehind(Run(sl, hold, rs, b, b + Size(t)).0, OnPort(t, q), Departs(t, now, q), Head(t, b, q), t0)
      <==> GoodBehind(OnPort(t, q), Departs(t, now, q), t0)
    ensures PortsBehind(Run(sl, hold, rs, b, b + Size(t)).0, OnPort(t, q), Departs(t, now, q), Head(t, b, q))
    decreases t, 0
  {
    hide *;
    AboveBounds(sl, hold, rs, t, now, b);
    var l, head, end, at := OnPort(t, q), Head(t, b, q), b + Size(t), Departs(t, now, q);
    if l.Cable? {
      BranchAbove(sl, hold, rs, t, now, b, q);
      var (mid, held) := Run(sl, hold, rs, b, head);
      RunAbove(mid, held, rs, l.far, at + l.delay, head, t0);
      var c := head + LinkSize(l);
      var (past, still) := Run(mid, held, rs, head, c);
      RunCompose(sl, hold, rs, b, head, end);
      RunCompose(mid, held, rs, head, c, end);
      DelaysStay(past, still, rs, c, end, l, at, head, t0);
      BehindCable(past, l, at, head, t0);
      AttachedNumbersInRange(l, head);
      if AllReadable(AttachmentsBehind(l, at)) {
        PortsStay(past, still, rs, c, end, AttachedNumbersBehind(l, head), AttachmentsBehind(l, at));
      }
      PortsSo(Run(sl, hold, rs, b, end).0, l, at, head);
    } else {
      BehindNothing(Run(sl, hold, rs, b, end).0, l, at, head, t0);
    }
  }

  lemma BehindCable(sl: seq<Slave>, l: Link, now: int, b: nat, t0: int)
    requires l.Cable?
    ensures DelaysBehind(sl, l, now, b, t0) <==> Delays(sl, l.far, now + l.delay, b, t0)
    ensures GoodBehind(l, now, t0) <==>
      RootsAt(l.far, now + l.delay, t0) && AllGood(Attachments(l.far, now + l.delay))
    ensures AttachmentsBehind(l, now) == Attachments(l.far, now + l.delay)
    ensures AttachedNumbersBehind(l, b) == AttachedNumbers(l.far, b)
  {
    hide Delays, RootsAt, AllGood, Attachments, AttachedNumbers;
  }

  lemma BehindNothing(sl: seq<Slave>, l: Link, now: int, b: nat, t0: int)
    requires l.Open?
    ensures DelaysBehind(sl, l, now, b, t0) && GoodBehind(l, now, t0) && PortsBehind(sl, l, now, b)
  {
  }

  lemma AboveTogether(res: seq<Slave>, t: Tree, now: int, b: nat, t0: int)
    requires !t.dc
    requires Delays(res, t, now, b, t0) <==> DelaysLinks(res, t, now, b, t0)
    requires forall q: Port :: q != 0 ==>
      (DelaysBehind(res, OnPort(t, q), Departs(t, now, q), Head(t, b, q), t0)
       <==> GoodBehind(OnPort(t, q), Departs(t, now, q), t0))
    requires forall q: Port :: q != 0 ==> PortsBehind(res, OnPort(t, q), Departs(t, now, q), Head(t, b, q))
    ensures Delays(res, t, now, b, t0) <==> RootsAt(t, now, t0) && AllGood(Attachments(t, now))
    ensures AllReadable(Attachments(t, now)) ==> PortsMatch(res, AttachedNumbers(t, b), Attachments(t, now))
  {
    Heads(t, now, b);
    var s3, s1 := AttachmentsBehind(t.on3, now), AttachmentsBehind(t.on1, Return(t.on3, now));
    var s2 := AttachmentsBehind(t.on2, Return(t.on1, Return(t.on3, now)));
    assert Attachments(t, now) == s3 + s1 + s2;
    assert forall a :: a in Attachments(t, now) <==> a in s3 || a in s1 || a in s2;
    assert GoodBehind(OnPort(t, 3), Departs(t, now, 3), t0) <==> RootsAtBehind(t.on3, now, t0) && AllGood(s3);
    var c1 := b + 1 + LinkSize(t.on3);
    var n3, n1, n2 := AttachedNumbersBehind(t.on3, b + 1), AttachedNumbersBehind(t.on1, c1),
                      AttachedNumbersBehind(t.on2, c1 + LinkSize(t.on1));
    assert AttachedNumbers(t, b) == n3 + n1 + n2;
    assert PortsBehind(res, OnPort(t, 3), Departs(t, now, 3), Head(t, b, 3));
    assert PortsBehind(res, OnPort(t, 1), Departs(t, now, 1), Head(t, b, 1));
    assert PortsBehind(res, OnPort(t, 2), Departs(t, now, 2), Head(t, b, 2));
    hide Delays, DelaysBehind, OnPort, Departs, Head, RootsAtBehind, Good, Attachments, AttachmentsBehind,
      EntryReadable, AttachedNumbers, AttachedNumbersBehind;
    if AllReadable(Attachments(t, now)) {
      PortsMatchBoth(res, n3, s3, n1, s1);
      PortsMatchBoth(res, n3 + n1, s3 + s1, n2, s2);
    }
  }

  // ---------- the whole network ----------

  /** Main result, for every network: after one frame, the computed delay of every slave with a clock is the time from
    * `t0` to the arrival of the frame there exactly if it arrives at `t0` at every clock that has none above it, and
    * every other clock does not wrap and is accurately attached. Clocks without one above must not wrap, and those
    * attached askew either. */
  lemma DelaysExact(sl: seq<Slave>, rs: seq<Latches>, t: Tree, now: int, t0: int)
    requires |sl| == |rs| == Size(t) + 1 && Wired(sl, t, 1, 0) && Latched(rs, t, now, 1)
    requires RootsReadable(t, now) && AllSound(Attachments(t, now)) && forall i :: 0 < i < |sl| ==> sl[i].pdelay == 0
    ensures Delays(Run(sl, 0, rs, 1, |sl|).0, t, now, 1, t0) <==> RootsAt(t, now, t0) && AllGood(Attachments(t, now))
  {
    hide *;
    FirstHasNoParent(sl, t);
    AboveAll(sl, rs, t, now);
    RunAbove(sl, 0, rs, t, now, 1, t0);
  }

  lemma FirstHasNoParent(sl: seq<Slave>, t: Tree)
    requires Wired(sl, t, 1, 0) && |sl| > 1
    ensures sl[1].parent == 0 && DcParent(sl, 1).0 == 0
  {
  }

  lemma AboveAll(sl: seq<Slave>, rs: seq<Latches>, t: Tree, now: int)
    requires |sl| == |rs| == Size(t) + 1 && Wired(sl, t, 1, 0) && Latched(rs, t, now, 1)
    requires RootsReadable(t, now) && AllSound(Attachments(t, now)) && forall i :: 0 < i < |sl| ==> sl[i].pdelay == 0
    requires Size(t) > 0 && sl[1].parent == 0 && DcParent(sl, 1).0 == 0
    ensures Above(sl, 0, rs, t, now, 1)
  {
    hide Wired, Latched, RootsReadable, Attachments, AllSound, DcParent, Size;
  }

  /** Main result on ports, for every network in which no clock wraps, whatever becomes of the delays: each slave with a
    * clock and another one above is recorded as hanging on the port of that clock that it is attached to. */
  lemma PortsRecorded(sl: seq<Slave>, rs: seq<Latches>, t: Tree, now: int)
    requires |sl| == |rs| == Size(t) + 1 && Wired(sl, t, 1, 0) && Latched(rs, t, now, 1)
    requires NoWrap(t, now) && RootsReadable(t, now) && forall i :: 0 < i < |sl| ==> sl[i].pdelay == 0
    ensures var ns, s := AttachedNumbers(t, 1), Attachments(t, now);
      |ns| == |s| && forall k :: 0 <= k < |ns| ==>
        ns[k] < |sl| && Run(sl, 0, rs, 1, |sl|).0[ns[k]].parentport == s[k].port
  {
    AllAttached(t, now);
    ReadableSound(Attachments(t, now));
    hide *;
    FirstHasNoParent(sl, t);
    AboveAll(sl, rs, t, now);
    RunAbove(sl, 0, rs, t, now, 1, now);
    MatchIs(Run(sl, 0, rs, 1, |sl|).0, AttachedNumbers(t, 1), Attachments(t, now));
  }

  lemma ReadableSound(s: seq<Attachment>)
    requires AllReadable(s)
    ensures AllSound(s)
  {
  }

  lemma MatchIs(sl: seq<Slave>, ns: seq<nat>, s: seq<Attachment>)
    requires PortsMatch(sl, ns, s)
    ensures |ns| == |s| && forall k :: 0 <= k < |ns| ==> ns[k] < |sl| && sl[ns[k]].parentport == s[k].port
  {
  }

  /** In a measurable network that is the port whose cable leads to the slave. */
  lemma PortsOwn(sl: seq<Slave>, rs: seq<Latches>, t: Tree, now: int, k: nat)
    requires |sl| == |rs| == Size(t) + 1 && Wired(sl, t, 1, 0) && Latched(rs, t, now, 1)
    requires NoWrap(t, now) && RootsReadable(t, now) && forall i :: 0 < i < |sl| ==> sl[i].pdelay == 0
    requires Measurable(t, false) && k < |Attachments(t, now)|
    ensures var n := AttachedNumbers(t, 1);
      k < |n| && n[k] < |sl|
      && Run(sl, 0, rs, 1, |sl|).0[n[k]].parentport == Attachments(t, now)[k].home.port
  {
    EvenAll(t, now);
    hide Measurable, Wired, Latched, NoWrap, RootsReadable, Run, Attachments, AttachedNumbers;
    PortsRecorded(sl, rs, t, now);
    assert Attachments(t, now)[k] in Attachments(t, now);
  }

  /** What else the loop leaves in a record: the readings, and the port they make the entry port; zeros without a
    * clock. */
  lemma RecordLeft(sl: seq<Slave>, rs: seq<Latches>, i: nat)
    requires 0 < i < |sl| == |rs|
    ensures var s := Run(sl, 0, rs, 1, |sl|).0[i];
      if sl[i].hasdc then s.rt == rs[i] && s.entryport == EntryPort(sl[i].activeports, rs[i])
      else s.rt == Latches(0, 0, 0, 0) && s.pdelay == sl[i].pdelay && s.parentport == sl[i].parentport
  {
    hide Run, DcParent, EntryPort, Delay, NextUnconsumed;
    var (before, h) := Run(sl, 0, rs, 1, i);
    RunKeepsDelay(sl, 0, rs, 1, i, i);
    RunKeepsNetwork(sl, 0, rs, 1, i);
    assert SameWiring(before[i], sl[i]);
    var (after, h') := Step(before, h, i, rs[i]);
    RunCompose(sl, 0, rs, 1, i, |sl|);
    RunFirst(before, h, rs, i, |sl|);
    RunKeepsDelay(after, h', rs, i + 1, |sl|, i);
  }

  /** In any network in which no clock wraps, exactly if each is accurately attached. */
  lemma DelaysAccurate(sl: seq<Slave>, rs: seq<Latches>, t: Tree, now: int, t0: int)
    requires |sl| == |rs| == Size(t) + 1 && Wired(sl, t, 1, 0) && Latched(rs, t, now, 1)
    requires NoWrap(t, now) && RootsReadable(t, now) && forall i :: 0 < i < |sl| ==> sl[i].pdelay == 0
    ensures Delays(Run(sl, 0, rs, 1, |sl|).0, t, now, 1, t0)
      <==> RootsAt(t, now, t0) && forall a :: a in Attachments(t, now) ==> Accurate(a)
  {
    AllAttached(t, now);
    hide Wired, Latched, RootsReadable, Attachments, Delays, Run, RootsAt, NoWrap, EntryReadable, Accurate, Even, Size;
    DelaysExact(sl, rs, t, now, t0);
  }

  /** In a measurable network, exactly if no clock wraps. */
  lemma DelaysMeasured(sl: seq<Slave>, rs: seq<Latches>, t: Tree, now: int, t0: int)
    requires |sl| == |rs| == Size(t) + 1 && Wired(sl, t, 1, 0) && Latched(rs, t, now, 1)
    requires Measurable(t, false) && RootsReadable(t, now) && forall i :: 0 < i < |sl| ==> sl[i].pdelay == 0
    ensures Delays(Run(sl, 0, rs, 1, |sl|).0, t, now, 1, t0) <==> RootsAt(t, now, t0) && NoWrap(t, now)
  {
    AllAttached(t, now);
    EvenAll(t, now);
    forall a | a in Attachments(t, now) ensures Accurate(a) {
      EvenAccurate(a);
    }
    hide Wired, Latched, RootsReadable, Attachments, Delays, Run, RootsAt, NoWrap, EntryReadable, Accurate, Even,
      Size, Measurable;
    DelaysExact(sl, rs, t, now, t0);
  }

  /** What the slaves of `t` report about themselves, before any parent is known. */
  ghost predicate Reports(sl: seq<Slave>, t: Tree, b: nat)
    decreases t
  {
    b + Size(t) <= |sl|
    && sl[b].hasdc == t.dc && sl[b].activeports == Ports(t) && sl[b].topology == 1 + Children(t)
    && ReportsBehind(sl, t.on3, b + 1)
    && ReportsBehind(sl, t.on1, b + 1 + LinkSize(t.on3))
    && ReportsBehind(sl, t.on2, b + 1 + LinkSize(t.on3) + LinkSize(t.on1))
  }

  ghost predicate ReportsBehind(sl: seq<Slave>, l: Link, b: nat)
    decreases l
  {
    l.Cable? ==> Reports(sl, l.far, b)
  }

  function Topologies(sl: seq<Slave>): seq<nat> {
    seq(|sl|, i requires 0 <= i < |sl| => sl[i].topology)
  }

  function Parents(sl: seq<Slave>): seq<nat> {
    seq(|sl|, i requires 0 <= i < |sl| => sl[i].parent)
  }

  lemma {:induction false} ReportsGiveLinkCounts(sl: seq<Slave>, l: Link, b: nat)
    requires ReportsBehind(sl, l, b)
    ensures Topology.LinkCountsBehind(Topologies(sl), l, b)
    decreases l
  {
    if l.Cable? {
      var t := l.far;
      ReportsGiveLinkCounts(sl, t.on3, b + 1);
      ReportsGiveLinkCounts(sl, t.on1, b + 1 + LinkSize(t.on3));
      ReportsGiveLinkCounts(sl, t.on2, b + 1 + LinkSize(t.on3) + LinkSize(t.on1));
    }
  }

  lemma {:induction false} ReportsAndParentsWire(sl: seq<Slave>, l: Link, b: nat, p: nat)
    requires ReportsBehind(sl, l, b) && Topology.TrueParentsBehind(Parents(sl), l, b, p)
    ensures WiredBehind(sl, l, b, p)
    decreases l
  {
    if l.Cable? {
      var t := l.far;
      ReportsAndParentsWire(sl, t.on3, b + 1, b);
      ReportsAndParentsWire(sl, t.on1, b + 1 + LinkSize(t.on3), b);
      ReportsAndParentsWire(sl, t.on2, b + 1 + LinkSize(t.on3) + LinkSize(t.on1), b);
    }
  }

  /** From the slaves' own reports to their delays: the parents are the ones the backwards scan finds. */
  lemma NetworkMeasured(sl: seq<Slave>, rs: seq<Latches>, t: Tree, now: int, t0: int)
    requires |sl| == |rs| == Size(t) + 1 && Reports(sl, t, 1) && Latched(rs, t, now, 1)
    requires forall s :: 1 <= s < |sl| ==>
      sl[s].parent == if s > 1 then Topology.Scan(Topologies(sl), s - 1, 0) else 0
    requires RootsReadable(t, now) && AllSound(Attachments(t, now)) && forall i :: 0 < i < |sl| ==> sl[i].pdelay == 0
    ensures Ordered(sl)
    ensures Delays(Run(sl, 0, rs, 1, |sl|).0, t, now, 1, t0) <==> RootsAt(t, now, t0) && AllGood(Attachments(t, now))
  {
    hide Latched, RootsReadable, Attachments, AllSound, AllGood, RootsAt, Delays, Run;
    var net := Cable(0, t);
    ReportsGiveLinkCounts(sl, net, 1);
    Topology.ScanFindsParents(Topologies(sl), Parents(sl), t, 1, 0);
    ReportsAndParentsWire(sl, net, 1, 0);
    DelaysExact(sl, rs, t, now, t0);
  }
}
