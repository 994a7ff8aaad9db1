/** Which port of which other clock the delay of a clock is computed from, and when that gives its true delay: what
  * becomes of a network is decided by its shape and by the times at which the frame passes its ports. */
module ClockAttachments {
  import opened Network
  import opened DistributedClock

  // ---------- clocks in a tree ----------

  /** There is a clock in the tree, or behind the cable. */
  predicate HasClock(t: Tree)
    decreases t
  {
    t.dc || ClockBehind(t.on3) || ClockBehind(t.on1) || ClockBehind(t.on2)
  }

  predicate ClockBehind(l: Link)
    decreases l
  {
    l.Cable? && HasClock(l.far)
  }

  /** The first slave with a clock. */
  function FirstClock(t: Tree): (c: Tree)
    requires HasClock(t)
    ensures c.dc
    decreases t
  {
    if t.dc then t
    else if ClockBehind(t.on3) then FirstClock(t.on3.far)
    else if ClockBehind(t.on1) then FirstClock(t.on1.far)
    else assert ClockBehind(t.on2); FirstClock(t.on2.far)
  }

  /** When the frame, having entered `t` at `now`, arrives there. */
  function RefTime(t: Tree, now: int): int
    requires HasClock(t)
    decreases t
  {
    if t.dc then now
    else if ClockBehind(t.on3) then RefTime(t.on3.far, now + t.on3.delay)
    else if ClockBehind(t.on1) then RefTime(t.on1.far, Return(t.on3, now) + t.on1.delay)
    else assert ClockBehind(t.on2); RefTime(t.on2.far, Return(t.on1, Return(t.on3, now)) + t.on2.delay)
  }

  /** Every clock that has none above it: the frame arrives there at `t0`. */
  predicate RootsAt(t: Tree, now: int, t0: int)
    decreases t
  {
    if t.dc then now == t0
    else
      && RootsAtBehind(t.on3, now, t0) && RootsAtBehind(t.on1, Return(t.on3, now), t0)
      && RootsAtBehind(t.on2, Return(t.on1, Return(t.on3, now)), t0)
  }

  predicate RootsAtBehind(l: Link, now: int, t0: int)
    decreases l
  {
    l.Cable? ==> RootsAt(l.far, now + l.delay, t0)
  }

  /** Such a clock does not wrap while the frame is behind it, which is less than half its range. */
  predicate RootsReadable(t: Tree, now: int)
    decreases t
  {
    if t.dc then EntryReadable(t, now) && Exit(t, now) - now < 0x8000_0000
    else
      && RootsReadableBehind(t.on3, now) && RootsReadableBehind(t.on1, Return(t.on3, now))
      && RootsReadableBehind(t.on2, Return(t.on1, Return(t.on3, now)))
  }

  predicate RootsReadableBehind(l: Link, now: int)
    decreases l
  {
    l.Cable? ==> RootsReadable(l.far, now + l.delay)
  }

  // ---------- branches ----------

  /** The branch on a port of a slave. */
  function OnPort(t: Tree, q: Port): (l: Link)
    ensures l.Cable? ==> l < t && l.far < t
  {
    match q
    case 1 => t.on1
    case 2 => t.on2
    case _ => t.on3
  }

  /** When the frame leaves for the branch on a port. */
  function Departs(t: Tree, now: int, q: Port): (d: int)
    ensures now <= d
  {
    match q
    case 1 => Return(t.on3, now)
    case 2 => Return(t.on1, Return(t.on3, now))
    case _ => now
  }

  /** When the frame passes a port. */
  function Passes(t: Tree, now: int, port: Port): (p: int)
    ensures now <= p
  {
    if port == 0 then now else Return(OnPort(t, port), Departs(t, now, port))
  }

  /** The number of the first slave on a branch. */
  function Head(t: Tree, b: nat, q: Port): (c: nat)
    ensures b < c
  {
    match q
    case 1 => b + 1 + LinkSize(t.on3)
    case 2 => b + 1 + LinkSize(t.on3) + LinkSize(t.on1)
    case _ => b + 1
  }

  // ---------- attachments ----------

  /** The branch of a clock on a port of it; the frame enters that clock at `at`. */
  datatype Home = Home(above: Tree, at: int, port: Port)
  {
    predicate Valid() {
      above.dc && port != 0 && port in Ports(above)
    }

    /** There is a branch before. */
    predicate Later() {
      PrevPort(Ports(above), port) != 0
    }

    function Depart(): int {
      Departs(above, at, port)
    }

    function Back(): int {
      Passes(above, at, port)
    }
  }

  /** Clock `far`, entered at `now`, hangs on branch `home` of the next clock above; its delay is computed from the
    * readings of that clock at `port` and the port before. */
  datatype Attachment = Attachment(home: Home, port: Port, far: Tree, now: int)

  /** The ports of the clock above that are left after the slaves of `t`; `held` tells whether a port of it is to be
    * used up at the end of a branch without clocks. */
  function LeftAfter(t: Tree, ports: set<Port>, held: bool): set<Port>
    decreases t, 1
  {
    if t.dc || (held && Children(t) == 0) then ports - {NextOf(ports)}
    else LeftLinks(t, ports, held && Children(t) <= 1)
  }

  function LeftBehind(l: Link, ports: set<Port>, held: bool): set<Port>
    decreases l
  {
    if l.Cable? then LeftAfter(l.far, ports, held) else ports
  }

  /** The ports that are left before the branch on port `q`, of those left before the first. */
  function PortsAt(t: Tree, ports: set<Port>, held: bool, q: Port): set<Port>
    decreases t, 0, if q == 1 then 1 else if q == 2 then 2 else 0
  {
    match q
    case 1 => LeftBehind(t.on3, PortsAt(t, ports, held, 3), held)
    case 2 => LeftBehind(t.on1, PortsAt(t, ports, held, 1), held)
    case _ => ports
  }

  /** Those that are left after the last. */
  function LeftLinks(t: Tree, ports: set<Port>, held: bool): set<Port>
    decreases t, 0, 3
  {
    LeftBehind(t.on2, PortsAt(t, ports, held, 2), held)
  }

  /** The attachments of the clocks of `t`, on branch `h` of the next clock above. */
  function Attached(h: Home, t: Tree, now: int, ports: set<Port>, held: bool): seq<Attachment>
    decreases t, 1
  {
    if t.dc then
      [Attachment(h, NextOf(ports), t, now)] + AttachedLinks(h, t, now, Ports(t) - {0}, Children(t) > 1)
    else AttachedLinks(h, t, now, ports, held && Children(t) <= 1)
  }

  /** Those of the clocks behind slave `t`, `ports` being what is left of the ports of `t` if it has a clock, and
    * otherwise of the next clock above. */
  function AttachedLinks(h: Home, t: Tree, now: int, ports: set<Port>, held: bool): seq<Attachment>
    decreases t, 0
  {
    AttachedAt(h, t, now, ports, held, 3) + AttachedAt(h, t, now, ports, held, 1)
    + AttachedAt(h, t, now, ports, held, 2)
  }

  function HomeAt(h: Home, t: Tree, now: int, q: Port): Home {
    if t.dc then Home(t, now, q) else h
  }

  function AttachedAt(h: Home, t: Tree, now: int, ports: set<Port>, held: bool, q: Port): seq<Attachment>
    decreases t, 0, 0
  {
    AttachedOn(HomeAt(h, t, now, q), OnPort(t, q), Departs(t, now, q), PortsAt(t, ports, held, q), held)
  }

  function AttachedOn(h: Home, l: Link, now: int, ports: set<Port>, held: bool): seq<Attachment>
    decreases l
  {
    if l.Cable? then Attached(h, l.far, now + l.delay, ports, held) else []
  }

  /** All attachments of a network. */
  function Attachments(t: Tree, now: int): seq<Attachment>
    decreases t
  {
    if t.dc then AttachedLinks(Home(t, now, 3), t, now, Ports(t) - {0}, Children(t) > 1)
    else
      AttachmentsBehind(t.on3, now) + AttachmentsBehind(t.on1, Return(t.on3, now))
      + AttachmentsBehind(t.on2, Return(t.on1, Return(t.on3, now)))
  }

  function AttachmentsBehind(l: Link, now: int): seq<Attachment>
    decreases l
  {
    if l.Cable? then Attachments(l.far, now + l.delay) else []
  }

  // ---------- when an attachment gives the true delay ----------

  /** Half of what the frame spent between the two ports beyond its stay behind `far`, and what it spent at `above`
    * before the first of them, is the time from the one clock to the other. */
  predicate Accurate(a: Attachment) {
    var before := Passes(a.home.above, a.home.at, PrevPort(Ports(a.home.above), a.port));
    var dt3, own := Passes(a.home.above, a.home.at, a.port) - before, Exit(a.far, a.now) - a.now;
    Half(dt3 - if own > dt3 then -own else own) + (if a.home.Later() then before - a.home.at else 0)
    == a.now - a.home.at
  }

  /** The clock does not wrap, and the delay is the true one. */
  predicate Good(a: Attachment) {
    EntryReadable(a.far, a.now) && Accurate(a)
  }

  ghost predicate AllGood(s: seq<Attachment>) {
    forall a :: a in s ==> Good(a)
  }

  /** The clock is attached to the port that it hangs on, and the way home from it is as long as the way out. */
  predicate Even(a: Attachment) {
    a.home.Valid() && a.port == a.home.port && 0 <= a.now - a.home.Depart() == a.home.Back() - Exit(a.far, a.now)
  }

  ghost predicate AllEven(s: seq<Attachment>) {
    forall a :: a in s ==> Even(a)
  }

  /** A wrapping clock is noticed. */
  ghost predicate AllSound(s: seq<Attachment>) {
    forall a :: a in s ==> EntryReadable(a.far, a.now) || Even(a)
  }

  ghost predicate AllReadable(s: seq<Attachment>) {
    forall a :: a in s ==> EntryReadable(a.far, a.now)
  }

  /** The attachments behind a slave, branch by branch. */
  lemma LinksParts(h: Home, t: Tree, now: int, ports: set<Port>, held: bool)
    ensures forall a :: a in AttachedLinks(h, t, now, ports, held) <==>
      a in AttachedAt(h, t, now, ports, held, 3) || a in AttachedAt(h, t, now, ports, held, 1)
      || a in AttachedAt(h, t, now, ports, held, 2)
  {
    hide AttachedAt;
  }

  /** Every clock that has one above it is attached. */
  lemma {:induction false} AllAttachedOn(h: Home, l: Link, now: int, ports: set<Port>, held: bool)
    ensures AllReadable(AttachedOn(h, l, now, ports, held)) <==> NoWrapBehind(l, now)
    decreases l
  {
    if l.Cable? {
      var t, at := l.far, now + l.delay;
      if t.dc {
        AllAttachedLinks(h, t, at, Ports(t) - {0}, Children(t) > 1);
      } else {
        AllAttachedLinks(h, t, at, ports, held && Children(t) <= 1);
      }
      hide AttachedLinks, EntryReadable;
    }
  }

  lemma {:induction false} AllAttachedLinks(h: Home, t: Tree, now: int, ports: set<Port>, held: bool)
    ensures AllReadable(AttachedLinks(h, t, now, ports, held)) <==>
      NoWrapBehind(t.on3, now) && NoWrapBehind(t.on1, Return(t.on3, now))
      && NoWrapBehind(t.on2, Return(t.on1, Return(t.on3, now)))
    decreases t, 0
  {
    AllAttachedOn(HomeAt(h, t, now, 3), t.on3, now, PortsAt(t, ports, held, 3), held);
    AllAttachedOn(HomeAt(h, t, now, 1), t.on1, Departs(t, now, 1), PortsAt(t, ports, held, 1), held);
    AllAttachedOn(HomeAt(h, t, now, 2), t.on2, Departs(t, now, 2), PortsAt(t, ports, held, 2), held);
    LinksParts(h, t, now, ports, held);
    hide AttachedLinks, EntryReadable, AttachedOn, NoWrapBehind, PortsAt;
  }

  lemma {:induction false} AllAttached(t: Tree, now: int)
    requires RootsReadable(t, now)
    ensures AllReadable(Attachments(t, now)) <==> NoWrap(t, now)
    decreases t
  {
    if t.dc {
      AllAttachedLinks(Home(t, now, 3), t, now, Ports(t) - {0}, Children(t) > 1);
    } else {
      AllAttachedBehind(t.on3, now);
      AllAttachedBehind(t.on1, Return(t.on3, now));
      AllAttachedBehind(t.on2, Return(t.on1, Return(t.on3, now)));
    }
    hide AttachedLinks, EntryReadable, AttachmentsBehind, NoWrapBehind;
  }

  lemma {:induction false} AllAttachedBehind(l: Link, now: int)
    requires RootsReadableBehind(l, now)
    ensures AllReadable(AttachmentsBehind(l, now)) <==> NoWrapBehind(l, now)
    decreases l
  {
    if l.Cable? {
      AllAttached(l.far, now + l.delay);
    }
  }

  lemma PortsParts(t: Tree, ports: set<Port>, held: bool)
    ensures PortsAt(t, ports, held, 3) == ports
    ensures PortsAt(t, ports, held, 1) == LeftBehind(t.on3, ports, held)
    ensures PortsAt(t, ports, held, 2) == LeftBehind(t.on1, PortsAt(t, ports, held, 1), held)
    ensures LeftLinks(t, ports, held) == LeftBehind(t.on2, PortsAt(t, ports, held, 2), held)
    ensures t.on3.Open? ==> LeftBehind(t.on3, ports, held) == ports
    ensures t.on1.Open? ==> PortsAt(t, ports, held, 2) == PortsAt(t, ports, held, 1)
    ensures t.on2.Open? ==> LeftLinks(t, ports, held) == PortsAt(t, ports, held, 2)
  {
  }

  // ---------- times at one slave ----------

  /** The frame leaves for a branch when it passes the connected port before. */
  lemma DepartIs(t: Tree, now: int, q: Port)
    requires q != 0 && q in Ports(t)
    ensures Passes(t, now, PrevPort(Ports(t), q)) == Departs(t, now, q)
    ensures PrevPort(Ports(t), q) == 0 ==> Departs(t, now, q) == now
    ensures now <= Departs(t, now, q) <= Passes(t, now, q) <= Exit(t, now) && OnPort(t, q).Cable?
  {
  }

  /** A clock behind port `a.port` or attached to that port although it hangs on a later one: `w` is what the frame
    * spent behind that port, `x` how long after leaving for it the frame arrived at the clock. */
  lemma AccurateFrom(a: Attachment)
    requires a.home.Valid() && a.port != 0 && a.port in Ports(a.home.above)
    requires a.port == a.home.port || a.home.Later()
    ensures var before := Departs(a.home.above, a.home.at, a.port);
      var w, own, x := Passes(a.home.above, a.home.at, a.port) - before, Exit(a.far, a.now) - a.now, a.now - before;
      Accurate(a) <==> Half(if own > w then w + own else w - own) == x
  {
    DepartIs(a.home.above, a.home.at, a.port);
    hide Half, Departs, Passes, Exit, PrevPort, Ports;
  }

  /** Attached to its own port, a clock is given its true delay exactly if the way home from it is as long as the way
    * out, or one longer. */
  lemma AccurateAtHome(a: Attachment)
    requires a.home.Valid() && a.port == a.home.port && a.home.Depart() <= a.now && Exit(a.far, a.now) <= a.home.Back()
    ensures Accurate(a) <==> 0 <= (a.home.Back() - Exit(a.far, a.now)) - (a.now - a.home.Depart()) <= 1
  {
    AccurateFrom(a);
    hide Departs, Passes, Exit, PrevPort, Ports, Accurate;
  }

  lemma EvenAccurate(a: Attachment)
    requires Even(a)
    ensures Accurate(a)
  {
    AccurateAtHome(a);
    hide Departs, Passes, Exit, PrevPort, Ports, Accurate;
  }

  /** Attached to the port of a branch before its own, a clock is hardly ever: only if the frame spent no time up to
    * there, or more time behind the clock than on that branch, and half of both together is the way out. */
  lemma AccuratePassed(a: Attachment)
    requires a.home.Valid() && a.port != 0 && a.port in Ports(a.home.above) && a.home.Later()
    requires Passes(a.home.above, a.home.at, a.port) <= a.now
    ensures var before := Departs(a.home.above, a.home.at, a.port);
      var w, own, x := Passes(a.home.above, a.home.at, a.port) - before, Exit(a.far, a.now) - a.now, a.now - before;
      Accurate(a) <==> if own <= w then x == 0 else (w + own) / 2 == x
  {
    AccurateFrom(a);
    DepartIs(a.home.above, a.home.at, a.port);
    hide Departs, Passes, PrevPort, Ports, Accurate;
  }

  // ---------- networks that are measured right ----------

  /** Slaves without clocks one after the other. */
  predicate Chain(t: Tree)
    decreases t
  {
    !t.dc && Children(t) <= 1 && ChainBehind(t.on3) && ChainBehind(t.on1) && ChainBehind(t.on2)
  }

  predicate ChainBehind(l: Link)
    decreases l
  {
    l.Cable? ==> Chain(l.far)
  }

  /** The branch uses up the port it hangs on. */
  predicate Clean(l: Link) {
    ClockBehind(l) || ChainBehind(l)
  }

  /** A slave without a clock that has clocks both above and behind it does not branch; at a slave with a clock, a
    * branch of slaves without clocks that branches itself comes behind all that have clocks. `under` tells whether
    * there is a clock above. */
  predicate Measurable(t: Tree, under: bool)
    decreases t
  {
    && MeasurableBehind(t.on3, under || t.dc) && MeasurableBehind(t.on1, under || t.dc)
    && MeasurableBehind(t.on2, under || t.dc)
    && (t.dc ==> (Wanted(t, 1) ==> Clean(t.on3)) && (Wanted(t, 2) ==> Clean(t.on1)))
    && (!t.dc && under && HasClock(t) ==> Children(t) <= 1)
  }

  predicate MeasurableBehind(l: Link, under: bool)
    decreases l
  {
    l.Cable? ==> Measurable(l.far, under)
  }

  /** A clock is behind the branch on port `q` or a later one. */
  predicate Wanted(t: Tree, q: Port) {
    match q
    case 1 => ClockBehind(t.on1) || ClockBehind(t.on2)
    case 2 => ClockBehind(t.on2)
    case _ => ClockBehind(t.on3) || ClockBehind(t.on1) || ClockBehind(t.on2)
  }

  /** The ports of a slave that are used up before the branch on port `q` is looked at. */
  function UsedBefore(q: Port): set<Port> {
    match q
    case 1 => {0, 3}
    case 2 => {0, 3, 1}
    case _ => {0}
  }

  /** Without clocks there is nothing to attach. */
  lemma {:induction false} ClocklessOn(h: Home, l: Link, now: int, ports: set<Port>, held: bool)
    requires !ClockBehind(l)
    ensures AttachedOn(h, l, now, ports, held) == []
    ensures !held ==> LeftBehind(l, ports, held) == ports
    decreases l
  {
    if l.Cable? {
      var t, at, on := l.far, now + l.delay, held && Children(l.far) <= 1;
      ClocklessOn(h, t.on3, at, PortsAt(t, ports, on, 3), on);
      ClocklessOn(h, t.on1, Departs(t, at, 1), PortsAt(t, ports, on, 1), on);
      ClocklessOn(h, t.on2, Departs(t, at, 2), PortsAt(t, ports, on, 2), on);
      assert AttachedAt(h, t, at, ports, on, 3) == AttachedAt(h, t, at, ports, on, 1) == [];
      assert AttachedAt(h, t, at, ports, on, 2) == [];
      assert AttachedLinks(h, t, at, ports, on) == [];
      PortsParts(t, ports, on);
    }
  }

  lemma OnlyOnwardLeaves(t: Tree, ports: set<Port>, held: bool)
    requires Children(t) == 1
    ensures LeftLinks(t, ports, held) == LeftBehind(Onward(t), ports, held)
  {
    PortsParts(t, ports, held);
  }

  /** A chain uses up the port held for it; another branch without clocks none. */
  lemma {:induction false} ClocklessLeaves(l: Link, ports: set<Port>)
    requires !ClockBehind(l) && l.Cable?
    ensures LeftBehind(l, ports, true) == if ChainBehind(l) then ports - {NextOf(ports)} else ports
    decreases l
  {
    var t := l.far;
    if Children(t) == 1 {
      ClocklessLeaves(Onward(t), ports);
      OnlyOnwardLeaves(t, ports, true);
    } else if Children(t) > 1 {
      ClocklessOn(Home(t, 0, 0), t.on3, 0, ports, false);
      ClocklessOn(Home(t, 0, 0), t.on1, 0, ports, false);
      ClocklessOn(Home(t, 0, 0), t.on2, 0, ports, false);
      PortsParts(t, ports, false);
      assert LeftAfter(t, ports, true) == LeftLinks(t, ports, false) == ports;
    } else {
      assert LeftAfter(t, ports, true) == ports - {NextOf(ports)};
      assert Chain(t);
    }
  }

  /** The first connected port away from the master. */
  function Onward(t: Tree): (l: Link)
    ensures l.Cable? ==> l < t
  {
    if t.on3.Cable? then t.on3 else if t.on1.Cable? then t.on1 else t.on2
  }

  lemma OneLink(h: Home, t: Tree, now: int, ports: set<Port>, held: bool)
    requires Children(t) == 1 && !t.dc
    ensures AttachedLinks(h, t, now, ports, held) == AttachedOn(h, Onward(t), now, ports, held)
    ensures Exit(t, now) == Return(Onward(t), now) && (HasClock(t) <==> ClockBehind(Onward(t)))
  {
    PortsParts(t, ports, held);
    OpenAt(h, t, now, ports, held, 3);
    OpenAt(h, t, now, ports, held, 1);
    OpenAt(h, t, now, ports, held, 2);
    var a3, a1 := AttachedAt(h, t, now, ports, held, 3), AttachedAt(h, t, now, ports, held, 1);
    var a2 := AttachedAt(h, t, now, ports, held, 2);
    assert [] + a1 + [] == a1 && [] + [] + a2 == a2 && a3 + [] + [] == a3;
    hide AttachedOn, PortsAt, LeftBehind;
  }

  lemma OpenAt(h: Home, t: Tree, now: int, ports: set<Port>, held: bool, q: Port)
    ensures OnPort(t, q).Open? ==> AttachedAt(h, t, now, ports, held, q) == []
  {
  }

  /** A clock right at the other end of a cable. */
  lemma ClockFirst(h: Home, l: Link, now: int, ports: set<Port>, held: bool)
    requires l.Cable? && l.far.dc
    ensures var t, at := l.far, now + l.delay;
      forall a :: a in AttachedOn(h, l, now, ports, held) <==>
        a == Attachment(h, NextOf(ports), t, at) || a in AttachedLinks(h, t, at, Ports(t) - {0}, Children(t) > 1)
  {
    hide AttachedLinks;
  }

  /** A branch with clocks uses up one port if it has only one next clock. */
  lemma {:induction false} ClockedLeaves(l: Link, ports: set<Port>, held: bool)
    requires MeasurableBehind(l, true) && ClockBehind(l)
    ensures LeftBehind(l, ports, held) == ports - {NextOf(ports)}
    decreases l
  {
    var t := l.far;
    if !t.dc {
      OneBranch(t);
      ClockedLeaves(Onward(t), ports, held);
      OnlyOnwardLeaves(t, ports, held);
    }
  }

  lemma OneBranch(t: Tree)
    requires Measurable(t, true) && HasClock(t) && !t.dc
    ensures Children(t) == 1 && MeasurableBehind(Onward(t), true) && ClockBehind(Onward(t))
  {
    assert t.on3.Cable? || t.on1.Cable? || t.on2.Cable?;
  }

  /** Every branch with clocks finds its own port. */
  lemma PortsInTurn(t: Tree, q: Port)
    requires t.dc && Measurable(t, true) && Wanted(t, q) && q != 0
    ensures PortsAt(t, Ports(t) - {0}, Children(t) > 1, q) == Ports(t) - UsedBefore(q)
    decreases if q == 3 then 0 else if q == 1 then 1 else 2
  {
    var ports, many := Ports(t) - {0}, Children(t) > 1;
    PortsParts(t, ports, many);
    if q != 3 {
      var before: Port := if q == 1 then 3 else 1;
      PortsInTurn(t, before);
      var l, left := OnPort(t, before), PortsAt(t, ports, many, before);
      if ClockBehind(l) {
        ClockedLeaves(l, left, many);
      } else if l.Cable? {
        ClocklessLeaves(l, left);
      }
      hide LeftBehind, PortsAt, MeasurableBehind, ChainBehind;
    }
  }

  lemma NextInTurn(t: Tree, q: Port)
    requires q != 0 && q in Ports(t)
    ensures NextOf(Ports(t) - UsedBefore(q)) == q
  {
  }

  /** In a measurable branch every clock is attached to the port that it hangs on, and the cables up to it delay the
    * frame as much on its way back as on its way out. */
  lemma {:induction false} EvenOn(h: Home, l: Link, now: int, ports: set<Port>, held: bool)
    requires MeasurableBehind(l, true) && h.Valid() && (ClockBehind(l) ==> NextOf(ports) == h.port)
    requires 0 <= now - h.Depart() == h.Back() - Return(l, now)
    ensures AllEven(AttachedOn(h, l, now, ports, held))
    decreases l, 1
  {
    if !ClockBehind(l) {
      ClocklessOn(h, l, now, ports, held);
    } else {
      var t, at := l.far, now + l.delay;
      if t.dc {
        assert Measurable(t, true);
        EvenLinks(h, t, at);
        assert Even(Attachment(h, NextOf(ports), t, at));
        ClockFirst(h, l, now, ports, held);
        hide *;
      } else {
        OneBranch(t);
        OneLink(h, t, at, ports, held);
        EvenOn(h, Onward(t), at, ports, held);
        hide AttachedLinks, Even, Home.Depart, Home.Back;
      }
    }
  }

  lemma {:induction false} EvenLinks(h: Home, t: Tree, now: int)
    requires t.dc && Measurable(t, true)
    ensures AllEven(AttachedLinks(h, t, now, Ports(t) - {0}, Children(t) > 1))
    decreases t, 0
  {
    var ports, many := Ports(t) - {0}, Children(t) > 1;
    EvenAt(h, t, now, 3);
    EvenAt(h, t, now, 1);
    EvenAt(h, t, now, 2);
    LinksParts(h, t, now, ports, many);
    hide AttachedAt, AttachedLinks, Even, Measurable, Ports;
  }

  lemma {:induction false} EvenAt(h: Home, t: Tree, now: int, q: Port)
    requires t.dc && Measurable(t, true) && q != 0
    ensures AllEven(AttachedAt(h, t, now, Ports(t) - {0}, Children(t) > 1, q))
    decreases t, 0, 0
  {
    var ports, many, l := Ports(t) - {0}, Children(t) > 1, OnPort(t, q);
    if ClockBehind(l) {
      assert Wanted(t, q) && q in Ports(t) && MeasurableBehind(l, true);
      PortsInTurn(t, q);
      NextInTurn(t, q);
      hide PortsAt, Even, Measurable, MeasurableBehind, Wanted, AttachedOn;
      EvenOn(Home(t, now, q), l, Departs(t, now, q), PortsAt(t, ports, many, q), many);
    } else {
      ClocklessOn(HomeAt(h, t, now, q), l, Departs(t, now, q), PortsAt(t, ports, many, q), many);
    }
  }

  lemma {:induction false} EvenAll(t: Tree, now: int)
    requires Measurable(t, false)
    ensures AllEven(Attachments(t, now))
    decreases t
  {
    if t.dc {
      assert Measurable(t, true);
      EvenLinks(Home(t, now, 3), t, now);
    } else {
      EvenAllBehind(t.on3, now);
      EvenAllBehind(t.on1, Return(t.on3, now));
      EvenAllBehind(t.on2, Return(t.on1, Return(t.on3, now)));
    }
    hide AttachedLinks, AttachmentsBehind, Even, Measurable;
  }

  lemma {:induction false} EvenAllBehind(l: Link, now: int)
    requires MeasurableBehind(l, false)
    ensures AllEven(AttachmentsBehind(l, now))
    decreases l
  {
    if l.Cable? {
      EvenAll(l.far, now + l.delay);
    }
  }

  // ---------- one reference ----------

  /** Above the first clock, no slave has clocks on two branches. */
  predicate OneRoot(t: Tree)
    decreases t
  {
    t.dc
    || (&& !(ClockBehind(t.on3) && ClockBehind(t.on1)) && !(ClockBehind(t.on3) && ClockBehind(t.on2))
        && !(ClockBehind(t.on1) && ClockBehind(t.on2))
        && OneRootBehind(t.on3) && OneRootBehind(t.on1) && OneRootBehind(t.on2))
  }

  predicate OneRootBehind(l: Link)
    decreases l
  {
    l.Cable? ==> OneRoot(l.far)
  }

  /** Then there is one clock without another above, the first one. */
  lemma {:induction false} OneReference(t: Tree, now: int)
    requires OneRoot(t) && HasClock(t)
    ensures RootsAt(t, now, RefTime(t, now))
    decreases t
  {
    if !t.dc {
      var t0 := RefTime(t, now);
      OneReferenceBehind(t.on3, now, t0);
      OneReferenceBehind(t.on1, Return(t.on3, now), t0);
      OneReferenceBehind(t.on2, Return(t.on1, Return(t.on3, now)), t0);
    }
  }

  lemma {:induction false} OneReferenceBehind(l: Link, now: int, t0: int)
    requires OneRootBehind(l) && (ClockBehind(l) ==> t0 == RefTime(l.far, now + l.delay))
    ensures RootsAtBehind(l, now, t0)
    decreases l
  {
    if l.Cable? {
      var t, at := l.far, now + l.delay;
      if HasClock(t) {
        OneReference(t, at);
      } else {
        OneReferenceBehind(t.on3, at, t0);
        OneReferenceBehind(t.on1, Return(t.on3, at), t0);
        OneReferenceBehind(t.on2, Return(t.on1, Return(t.on3, at)), t0);
      }
    }
  }
}
