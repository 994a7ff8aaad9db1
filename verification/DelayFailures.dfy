/** Networks whose delays come out wrong, and which networks these are. */
module DelayFailures {
  import opened Network
  import opened DistributedClock
  import opened ClockAttachments
  import opened DelayMeasurement

  // ---------- a slave without a clock that branches ----------

  /** The first clock behind a cable is attached to the next port that is left, whatever is between. */
  lemma {:induction false} FirstAttached(h: Home, l: Link, now: int, ports: set<Port>, held: bool)
    requires ClockBehind(l)
    ensures var s := AttachedOn(h, l, now, ports, held);
      s != [] && s[0] == Attachment(h, NextOf(ports), FirstClock(l.far), RefTime(l.far, now + l.delay))
    decreases l
  {
    var t, at, on := l.far, now + l.delay, held && Children(l.far) <= 1;
    if !t.dc {
      var q := FirstClocked(t);
      FirstClockedAttached(h, t, at, ports, on);
      FirstAttached(h, OnPort(t, q), Departs(t, at, q), ports, on);
      hide AttachedAt, AttachedOn;
    }
  }

  /** The first branch with a clock. */
  function FirstClocked(t: Tree): (q: Port)
    ensures q != 0
  {
    if ClockBehind(t.on3) then 3 else if ClockBehind(t.on1) then 1 else 2
  }

  /** What comes before it has no attachments and uses up no ports. */
  lemma FirstClockedAttached(h: Home, t: Tree, now: int, ports: set<Port>, held: bool)
    requires HasClock(t) && !t.dc && (Children(t) > 1 ==> !held)
    ensures var q := FirstClocked(t);
      var l := OnPort(t, q);
      && ClockBehind(l) && FirstClock(t) == FirstClock(l.far)
      && RefTime(t, now) == RefTime(l.far, Departs(t, now, q) + l.delay)
      && AttachedOn(h, l, Departs(t, now, q), ports, held) <= AttachedLinks(h, t, now, ports, held)
  {
    var q := FirstClocked(t);
    PortsParts(t, ports, held);
    OpenAt(h, t, now, ports, held, 3);
    OpenAt(h, t, now, ports, held, 1);
    if !ClockBehind(t.on3) {
      ClocklessOn(h, t.on3, now, ports, held);
      assert PortsAt(t, ports, held, 1) == ports && AttachedAt(h, t, now, ports, held, 3) == [];
      if !ClockBehind(t.on1) {
        ClocklessOn(h, t.on1, Departs(t, now, 1), ports, held);
        assert PortsAt(t, ports, held, 2) == ports && AttachedAt(h, t, now, ports, held, 1) == [];
      }
    }
    assert AttachedAt(h, t, now, ports, held, q) == AttachedOn(h, OnPort(t, q), Departs(t, now, q), ports, held);
    hide AttachedAt, AttachedOn, PortsAt, LeftBehind;
  }

  /** The first clock is reached over slaves that do not branch. */
  predicate Straight(t: Tree)
    decreases t
  {
    t.dc || (Children(t) == 1 && Onward(t).Cable? && Straight(Onward(t).far))
  }

  lemma {:induction false} StraightEven(t: Tree, now: int)
    requires Straight(t)
    ensures HasClock(t) && 0 <= RefTime(t, now) - now == Exit(t, now) - Exit(FirstClock(t), RefTime(t, now))
    decreases t
  {
    if !t.dc {
      var l := Onward(t);
      StraightEven(l.far, now + l.delay);
      assert Exit(t, now) == Return(l, now);
      assert RefTime(t, now) == RefTime(l.far, now + l.delay) && FirstClock(t) == FirstClock(l.far);
    }
  }

  /** Down a line of slaves without clocks there is one with two branches, on cables that take time, and from its first
    * branch with clocks on the way to the first of them is straight. */
  predicate Fork(t: Tree)
    decreases t
  {
    && !t.dc && HasClock(t)
    && if Children(t) == 1 then Onward(t).Cable? && Fork(Onward(t).far)
       else
         && Children(t) == 2 && (forall q: Port :: q != 0 && OnPort(t, q).Cable? ==> OnPort(t, q).delay > 0)
         && OnPort(t, FirstClocked(t)).Cable? && Straight(OnPort(t, FirstClocked(t)).far)
  }

  /** One of the two branches lies before or behind the other. */
  lemma BeforeOrBehind(t: Tree, now: int)
    requires Fork(t) && Children(t) == 2
    ensures var q := FirstClocked(t);
      var before, after := Departs(t, now, q) - now, Exit(t, now) - Passes(t, now, q);
      OnPort(t, q).Cable? && ((before == 0 && after >= 2) || (before >= 2 && after == 0))
  {
    hide Straight, HasClock;
    assert OnPort(t, 3) == t.on3 && OnPort(t, 1) == t.on1 && OnPort(t, 2) == t.on2;
    TakesTime(t.on3, now);
    TakesTime(t.on1, Return(t.on3, now));
    TakesTime(t.on2, Return(t.on1, Return(t.on3, now)));
    ClockIsBehindCable(t);
    hide ClockBehind;
  }

  lemma ClockIsBehindCable(t: Tree)
    requires HasClock(t) && !t.dc
    ensures OnPort(t, FirstClocked(t)).Cable?
  {
  }

  lemma TakesTime(l: Link, now: int)
    ensures Return(l, now) >= now + (if l.Cable? then 2 * l.delay else 0)
  {
  }

  /** The first clock behind such a slave does not get its true delay. */
  lemma {:induction false} ForkInaccurate(h: Home, l: Link, now: int, ports: set<Port>, held: bool)
    requires h.Valid() && NextOf(ports) == h.port && l.Cable? && Fork(l.far)
    requires 0 <= now - h.Depart() == h.Back() - Return(l, now)
    ensures var s := AttachedOn(h, l, now, ports, held); s != [] && !Accurate(s[0])
    decreases l
  {
    var t, at := l.far, now + l.delay;
    FirstAttached(h, l, now, ports, held);
    ForkUneven(h, t, at);
    AccurateAtHome(Attachment(h, h.port, FirstClock(t), RefTime(t, at)));
    hide Accurate, AttachedOn, Home.Depart, Home.Back, FirstClock, RefTime, Fork, Exit;
  }

  /** The way home from it is not as long as the way out. */
  lemma {:induction false} ForkUneven(h: Home, t: Tree, now: int)
    requires Fork(t) && 0 <= now - h.Depart() == h.Back() - Exit(t, now)
    ensures var f, r := FirstClock(t), RefTime(t, now);
      && h.Depart() <= r && Exit(f, r) <= h.Back()
      && !(0 <= (h.Back() - Exit(f, r)) - (r - h.Depart()) <= 1)
    decreases t
  {
    hide FirstClock, RefTime, Exit, Home.Depart, Home.Back, Straight;
    if Children(t) == 1 {
      var l := Onward(t);
      LineClock(t, now);
      ForkUneven(h, l.far, now + l.delay);
    } else {
      ForkTimes(t, now);
      hide Fork;
    }
  }

  lemma LineClock(t: Tree, now: int)
    requires HasClock(t) && !t.dc && Children(t) == 1
    ensures var l := Onward(t);
      && l.Cable? && ClockBehind(l) && FirstClock(t) == FirstClock(l.far)
      && RefTime(t, now) == RefTime(l.far, now + l.delay) && Exit(t, now) == Exit(l.far, now + l.delay) + l.delay
  {
  }

  /** The way out and the way home from the first clock behind the slave that branches. */
  lemma ForkTimes(t: Tree, now: int)
    requires Fork(t) && Children(t) == 2
    ensures var f, r := FirstClock(t), RefTime(t, now);
      var balance := (Exit(t, now) - Exit(f, r)) - (r - now);
      && now <= r && Exit(f, r) <= Exit(t, now) && (balance >= 2 || balance <= -2)
  {
    hide Fork, FirstClock, RefTime, Departs, OnPort, Passes, Exit, Straight, HasClock, Children, FirstClocked;
    var q := FirstClocked(t);
    var l, dep := OnPort(t, q), Departs(t, now, q);
    BeforeOrBehind(t, now);
    ForkStraight(t);
    StraightEven(l.far, dep + l.delay);
    ForkClock(t, now);
    PassesAfter(t, now, q);
  }

  lemma ForkStraight(t: Tree)
    requires Fork(t) && Children(t) == 2
    ensures HasClock(t) && !t.dc && OnPort(t, FirstClocked(t)).Cable? && Straight(OnPort(t, FirstClocked(t)).far)
  {
  }

  lemma PassesAfter(t: Tree, now: int, q: Port)
    requires q != 0 && OnPort(t, q).Cable?
    ensures var l, dep := OnPort(t, q), Departs(t, now, q);
      now <= dep && Passes(t, now, q) == Exit(l.far, dep + l.delay) + l.delay <= Exit(t, now)
  {
  }

  lemma ForkClock(t: Tree, now: int)
    requires HasClock(t) && !t.dc
    ensures var q := FirstClocked(t);
      var l := OnPort(t, q);
      && ClockBehind(l) && FirstClock(t) == FirstClock(l.far)
      && RefTime(t, now) == RefTime(l.far, Departs(t, now, q) + l.delay)
  {
  }

  /** Some clock of the network has such a slave on its first branch. */
  predicate Forked(t: Tree)
    decreases t
  {
    || (t.dc && Onward(t).Cable? && Fork(Onward(t).far))
    || ForkedBehind(t.on3) || ForkedBehind(t.on1) || ForkedBehind(t.on2)
  }

  predicate ForkedBehind(l: Link)
    decreases l
  {
    l.Cable? && Forked(l.far)
  }

  ghost predicate SomeInaccurate(s: seq<Attachment>) {
    exists a :: a in s && !Accurate(a)
  }

  lemma LinksInaccurate(h: Home, t: Tree, now: int, ports: set<Port>, held: bool, q: Port)
    requires q != 0 && SomeInaccurate(AttachedAt(h, t, now, ports, held, q))
    ensures SomeInaccurate(AttachedLinks(h, t, now, ports, held))
  {
    LinksParts(h, t, now, ports, held);
    hide AttachedAt, AttachedLinks, Accurate;
  }

  /** The first branch of a clock. */
  lemma FirstBranchInaccurate(h: Home, t: Tree, now: int)
    requires t.dc && Onward(t).Cable? && Fork(Onward(t).far)
    ensures SomeInaccurate(AttachedLinks(h, t, now, Ports(t) - {0}, Children(t) > 1))
  {
    var q: Port := if t.on3.Cable? then 3 else if t.on1.Cable? then 1 else 2;
    var ports, many := Ports(t) - {0}, Children(t) > 1;
    PortsParts(t, ports, many);
    assert NextOf(ports) == q && OnPort(t, q) == Onward(t) && PortsAt(t, ports, many, q) == ports;
    assert q in Ports(t);
    hide PortsAt, Fork, AttachedOn, Accurate;
    ForkInaccurate(Home(t, now, q), OnPort(t, q), Departs(t, now, q), ports, many);
    var s := AttachedAt(h, t, now, ports, many, q);
    assert s[0] in s;
    LinksInaccurate(h, t, now, ports, many, q);
  }

  lemma {:induction false} ForkedOn(h: Home, l: Link, now: int, ports: set<Port>, held: bool)
    requires ForkedBehind(l)
    ensures SomeInaccurate(AttachedOn(h, l, now, ports, held))
    decreases l
  {
    var t, at := l.far, now + l.delay;
    if t.dc {
      ForkedLinks(h, t, at, Ports(t) - {0}, Children(t) > 1);
      ClockFirst(h, l, now, ports, held);
    } else {
      ForkedLinks(h, t, at, ports, held && Children(t) <= 1);
    }
    hide AttachedLinks, Accurate;
  }

  lemma {:induction false} ForkedLinks(h: Home, t: Tree, now: int, ports: set<Port>, held: bool)
    requires Forked(t) && (t.dc ==> ports == Ports(t) - {0} && held == (Children(t) > 1))
    ensures SomeInaccurate(AttachedLinks(h, t, now, ports, held))
    decreases t, 0
  {
    if t.dc && Onward(t).Cable? && Fork(Onward(t).far) {
      FirstBranchInaccurate(h, t, now);
    } else {
      var q: Port := if ForkedBehind(t.on3) then 3 else if ForkedBehind(t.on1) then 1 else 2;
      assert ForkedBehind(OnPort(t, q));
      ForkedOn(HomeAt(h, t, now, q), OnPort(t, q), Departs(t, now, q), PortsAt(t, ports, held, q), held);
      hide AttachedOn, Accurate;
      LinksInaccurate(h, t, now, ports, held, q);
    }
  }

  lemma {:induction false} ForkedSomewhere(t: Tree, now: int)
    requires Forked(t)
    ensures SomeInaccurate(Attachments(t, now))
    decreases t
  {
    hide Accurate;
    if t.dc {
      ForkedLinks(Home(t, now, 3), t, now, Ports(t) - {0}, Children(t) > 1);
    } else {
      ForkedSomewhereBehind(t.on3, now);
      ForkedSomewhereBehind(t.on1, Return(t.on3, now));
      ForkedSomewhereBehind(t.on2, Return(t.on1, Return(t.on3, now)));
      var s3, s1 := AttachmentsBehind(t.on3, now), AttachmentsBehind(t.on1, Return(t.on3, now));
      var s2 := AttachmentsBehind(t.on2, Return(t.on1, Return(t.on3, now)));
      assert forall a :: a in s3 || a in s1 || a in s2 ==> a in Attachments(t, now);
    }
    hide AttachedLinks, AttachmentsBehind;
  }

  lemma {:induction false} ForkedSomewhereBehind(l: Link, now: int)
    ensures ForkedBehind(l) ==> SomeInaccurate(AttachmentsBehind(l, now))
    decreases l
  {
    if ForkedBehind(l) {
      ForkedSomewhere(l.far, now + l.delay);
    }
  }

  /** No network with such a slave is measured right, whatever the times. */
  lemma ForkSpoils(sl: seq<Slave>, rs: seq<Latches>, t: Tree, now: int, t0: int)
    requires |sl| == |rs| == Size(t) + 1 && Wired(sl, t, 1, 0) && Latched(rs, t, now, 1)
    requires NoWrap(t, now) && RootsReadable(t, now) && forall i :: 0 < i < |sl| ==> sl[i].pdelay == 0
    requires Forked(t)
    ensures !Delays(Run(sl, 0, rs, 1, |sl|).0, t, now, 1, t0)
  {
    ForkedSomewhere(t, now);
    hide *;
    DelaysAccurate(sl, rs, t, now, t0);
    Inaccurate(Attachments(t, now));
  }

  lemma Inaccurate(s: seq<Attachment>)
    requires SomeInaccurate(s)
    ensures !(forall a :: a in s ==> Accurate(a))
  {
    hide Accurate;
  }

  // ---------- a branch that uses up no port ----------

  function FirstPort(t: Tree): (q: Port)
    ensures q != 0 && OnPort(t, q) == Onward(t)
  {
    if t.on3.Cable? then 3 else if t.on1.Cable? then 1 else 2
  }

  function SecondPort(t: Tree): (q: Port)
    ensures q != 0
  {
    if t.on3.Cable? && t.on1.Cable? then 1 else 2
  }

  /** The first branch of the clock has no clocks but branches itself; the second has clocks. */
  predicate PassesOver(t: Tree) {
    && t.dc && Children(t) > 1 && ClockBehind(OnPort(t, SecondPort(t)))
    && !ClockBehind(Onward(t)) && !ChainBehind(Onward(t))
  }

  /** How the first clock of the second branch is attached: to the first port. */
  function Askew(t: Tree, now: int): Attachment
    requires PassesOver(t)
  {
    var q := SecondPort(t);
    var l := OnPort(t, q);
    Attachment(Home(t, now, q), FirstPort(t), FirstClock(l.far), RefTime(l.far, Departs(t, now, q) + l.delay))
  }

  lemma AttachedAskew(t: Tree, now: int)
    requires PassesOver(t)
    ensures Askew(t, now) in Attachments(t, now)
  {
    var q, first, ports := SecondPort(t), FirstPort(t), Ports(t) - {0};
    var h, l, dep := Home(t, now, q), OnPort(t, q), Departs(t, now, q);
    PortsParts(t, ports, true);
    ClocklessLeaves(Onward(t), ports);
    assert PortsAt(t, ports, true, q) == ports && NextOf(ports) == first;
    hide PortsAt, AttachedOn;
    FirstAttached(h, l, dep, ports, true);
    var s := AttachedAt(h, t, now, ports, true, q);
    assert s == AttachedOn(h, l, dep, ports, true) && s[0] in s;
    LinksParts(Home(t, now, 3), t, now, ports, true);
    hide AttachedLinks;
  }

  /** It gets its true delay exactly if the frame spent no time on the way to it, or more behind it than on the first
    * branch, half of both together being the way out. */
  lemma AskewAccurate(t: Tree, now: int)
    requires PassesOver(t)
    ensures var a, q := Askew(t, now), FirstPort(t);
      var w, own, x := Passes(t, now, q) - now, Exit(a.far, a.now) - a.now, a.now - now;
      Accurate(a) <==> if own <= w then x == 0 else (w + own) / 2 == x
  {
    var a, q := Askew(t, now), FirstPort(t);
    SecondIsLater(t, now);
    AfterSecond(t, now);
    hide FirstClock, RefTime, Exit, Accurate, HasClock, Chain;
    AccuratePassed(a);
  }

  lemma SecondIsLater(t: Tree, now: int)
    requires Children(t) > 1
    ensures var q, first := SecondPort(t), FirstPort(t);
      && q in Ports(t) && first in Ports(t) && PrevPort(Ports(t), q) != 0
      && Departs(t, now, first) == now && Passes(t, now, first) <= Departs(t, now, q)
  {
  }

  lemma AfterSecond(t: Tree, now: int)
    requires PassesOver(t)
    ensures Departs(t, now, SecondPort(t)) <= Askew(t, now).now
  {
    var l := OnPort(t, SecondPort(t));
    RefTimeLater(l.far, Departs(t, now, SecondPort(t)) + l.delay);
  }

  lemma {:induction false} RefTimeLater(t: Tree, now: int)
    requires HasClock(t)
    ensures now <= RefTime(t, now)
    decreases t
  {
    if !t.dc {
      ForkClock(t, now);
      var q := FirstClocked(t);
      RefTimeLater(OnPort(t, q).far, Departs(t, now, q) + OnPort(t, q).delay);
    }
  }

  /** So a network that begins with such a slave is measured wrong, unless times happen to be like that. */
  lemma PassedOverSpoils(sl: seq<Slave>, rs: seq<Latches>, t: Tree, now: int, t0: int)
    requires |sl| == |rs| == Size(t) + 1 && Wired(sl, t, 1, 0) && Latched(rs, t, now, 1)
    requires NoWrap(t, now) && RootsReadable(t, now) && forall i :: 0 < i < |sl| ==> sl[i].pdelay == 0
    requires PassesOver(t)
    requires var a := Askew(t, now);
      var w, own, x := Passes(t, now, FirstPort(t)) - now, Exit(a.far, a.now) - a.now, a.now - now;
      if own <= w then x > 0 else (w + own) / 2 != x
    ensures !Delays(Run(sl, 0, rs, 1, |sl|).0, t, now, 1, t0)
  {
    AttachedAskew(t, now);
    AskewAccurate(t, now);
    hide *;
    DelaysAccurate(sl, rs, t, now, t0);
  }

  // ---------- two clocks without one above ----------

  /** A clock without one above keeps the delay it has, wherever the frame reaches it. */
  lemma RootKeepsDelay(sl: seq<Slave>, rs: seq<Latches>, i: nat)
    requires 0 < i < |sl| == |rs| && sl[i].hasdc && DcParent(sl, i).0 == 0
    ensures Run(sl, 0, rs, 1, |sl|).0[i].pdelay == sl[i].pdelay
  {
    hide Run, DcParent, EntryPort, Delay;
    var (before, h) := Run(sl, 0, rs, 1, i);
    RunKeepsDelay(sl, 0, rs, 1, i, i);
    RunKeepsNetwork(sl, 0, rs, 1, i);
    DcParentSame(sl, before, i);
    assert SameWiring(before[i], sl[i]);
    var (after, h') := Step(before, h, i, rs[i]);
    assert after[i].pdelay == sl[i].pdelay;
    RunCompose(sl, 0, rs, 1, i, |sl|);
    RunFirst(before, h, rs, i, |sl|);
    RunKeepsDelay(after, h', rs, i + 1, |sl|, i);
  }

  // ---------- single networks ----------

  function Leaf(): Tree {
    Node(true, 0, Open, Open, Open)
  }

  function Record(dc: bool, ports: set<Port>, topology: nat, parent: nat): Slave {
    Slave(dc, topology, ports, parent, {}, 0, 0, Latches(0, 0, 0, 0), 0)
  }

  /** Two slaves with clocks behind one that has none and is the first: the second of them, 12 behind the other, is
    * given the delay 0. */
  lemma TwoRootsSpoil(sl: seq<Slave>, rs: seq<Latches>, t: Tree)
    requires t == Node(false, 0, Cable(5, Leaf()), Cable(7, Leaf()), Open)
    requires sl == [Record(false, {}, 0, 0), Record(false, {0, 3, 1}, 3, 0), Record(true, {0}, 1, 1),
                    Record(true, {0}, 1, 1)]
    requires |rs| == 4
    ensures Wired(sl, t, 1, 0) && NoWrap(t, 0) && RootsReadable(t, 0) && Measurable(t, false)
    ensures RefTime(t, 0) == 5 && Departs(t, 0, 1) + t.on1.delay == 17 && !RootsAt(t, 0, 5)
    ensures Run(sl, 0, rs, 1, 4).0[3].pdelay == 0
  {
    hide Run;
    assert DcParent(sl, 3).0 == 0;
    RootKeepsDelay(sl, rs, 3);
  }

  /** If the first slave's clock wraps while the frame is out, the second slave's delay of 5 comes out as -5, and it is
    * recorded on port 0, while it is attached to port 3. */
  lemma WrapSpoilsDelay(rs: seq<Latches>, t: Tree, sl: seq<Slave>)
    requires t == Node(true, 0x7fff_fffc, Cable(5, Leaf()), Open, Open)
    requires sl == [Record(false, {}, 0, 0), Record(true, {0, 3}, 2, 0), Record(true, {0}, 1, 1)]
    requires |rs| == 3 && Latched(rs, t, 0, 1)
    ensures Wired(sl, t, 1, 0) && Measurable(t, false) && !RootsReadable(t, 0)
    ensures Run(sl, 0, rs, 1, 3).0[2].pdelay == -5 && Run(sl, 0, rs, 1, 3).0[2].parentport == 0
  {
    hide Wired, NoWrap, Measurable, RootsReadable, Latched, Run, ReadingOf, Step;
    WrapNetwork(t, sl);
    WrapReadings(rs, t);
    WrapFirst(rs, sl);
    var sl1 := Step(sl, 0, 1, rs[1]).0;
    WrapSecond(rs, sl1);
    var sl2 := Step(sl1, 0, 2, rs[2]).0;
    RunFirst(sl, 0, rs, 1, 3);
    RunFirst(sl1, 0, rs, 2, 3);
    RunNothing(sl2, 0, rs, 3, 3);
  }

  /** The turn of a slave whose later port has the lower reading. */
  lemma WrapFirst(rs: seq<Latches>, sl: seq<Slave>)
    requires |sl| == |rs| == 3 && sl[1] == Record(true, {0, 3}, 2, 0) && sl[2] == Record(true, {0}, 1, 1)
    requires rs[1].a == 0x7fff_fffc && rs[1].d == -0x7fff_fffa
    ensures var (sl1, h) := Step(sl, 0, 1, rs[1]);
      && h == 0 && sl1[1].consumedports == {0} && sl1[1].entryport == 3 && sl1[1].pdelay == 0
      && sl1[1].activeports == {0, 3} && sl1[1].hasdc && sl1[1].topology == 2 && sl1[1].rt == rs[1] && sl1[2] == sl[2]
  {
    assert EntryPort({0, 3}, rs[1]) == 3;
    assert DcParent(sl, 1).0 == 0;
  }

  /** The turn of a leaf behind it. */
  lemma WrapSecond(rs: seq<Latches>, sl: seq<Slave>)
    requires |sl| == |rs| == 3 && sl[2] == Record(true, {0}, 1, 1)
    requires sl[1].consumedports == {0} && sl[1].entryport == 3 && sl[1].pdelay == 0 && sl[1].rt == rs[1]
    requires sl[1].activeports == {0, 3} && sl[1].hasdc && sl[1].topology == 2
    requires rs[1].a == 0x7fff_fffc && rs[1].d == -0x7fff_fffa && rs[2].a == 5
    ensures var (sl2, h) := Step(sl, 0, 2, rs[2]); h == 0 && sl2[2].pdelay == -5 && sl2[2].parentport == 0
  {
    assert EntryPort({0}, rs[2]) == 0;
    assert DcParent(sl, 2) == (1, 2);
    assert NextUnconsumed(sl[1]) == 0;
    WrapDelay(sl[1], Enter(sl[2], rs[2]));
    hide Delay, DcParent, EntryPort, NextUnconsumed;
  }

  lemma WrapDelay(p: Slave, s: Slave)
    requires p.activeports == {0, 3} && p.rt.a == 0x7fff_fffc && p.rt.d == -0x7fff_fffa && p.pdelay == 0
    requires s.topology == 1
    ensures Delay(p, s, 0, 1) == -5
  {
    assert PrevPort({0, 3}, 0) == 3;
  }

  lemma WrapNetwork(t: Tree, sl: seq<Slave>)
    requires t == Node(true, 0x7fff_fffc, Cable(5, Leaf()), Open, Open)
    requires sl == [Record(false, {}, 0, 0), Record(true, {0, 3}, 2, 0), Record(true, {0}, 1, 1)]
    ensures Wired(sl, t, 1, 0) && Measurable(t, false) && !RootsReadable(t, 0)
  {
  }

  lemma WrapReadings(rs: seq<Latches>, t: Tree)
    requires t == Node(true, 0x7fff_fffc, Cable(5, Leaf()), Open, Open) && |rs| == 3 && Latched(rs, t, 0, 1)
    ensures rs[1].a == 0x7fff_fffc && rs[1].d == -0x7fff_fffa && rs[2].a == 5
  {
    assert ReadingOf(rs[1], t, 0);
    assert Latched(rs, Leaf(), 5, 2) && ReadingOf(rs[2], Leaf(), 5);
  }

  /** If the clock of a reference slave with one branch wraps while the frame is out, the port of that branch is taken
    * for its entry port, and the delay of the slave behind comes out negated. */
  lemma WrapNegates(p: Slave, s: Slave, ref: Tree, t: Tree, start: int, now: int, gap: nat)
    requires Children(ref) == 1 && !EntryReadable(ref, start) && Exit(ref, start) - start < 0x8000_0000
    requires p.activeports == Ports(ref) && p.topology == 2 && p.entryport == EntryPort(p.activeports, p.rt)
    requires ReadingOf(p.rt, ref, start) && p.pdelay == 0 && p.consumedports == p.activeports - {p.entryport}
    requires 0 <= now - start == Return(Onward(ref), start) - Exit(t, now)
    requires s.activeports == Ports(t) && s.topology == 1 + Children(t) && s.entryport == 0 && ReadingOf(s.rt, t, now)
    ensures p.entryport == FirstPort(ref) && AttachPort(p) == 0
    ensures Delay(p, s, AttachPort(p), gap) == -(now - start)
  {
    WrapEntry(p, ref, start);
    hide ReadingOf, EntryPort, EntryReadable, NextUnconsumed, PrevPort, Ports, Exit, PortTime, Delay;
    WrapArithmetic(p, s, FirstPort(ref), ref.offset, Return(Onward(ref), start), t, start, now, gap);
  }

  /** The port of the branch is taken for the entry port, and the slave behind is attached to port 0. */
  lemma WrapEntry(p: Slave, ref: Tree, start: int)
    requires Children(ref) == 1 && !EntryReadable(ref, start) && Exit(ref, start) - start < 0x8000_0000
    requires p.activeports == Ports(ref) && p.topology == 2 && p.entryport == EntryPort(p.activeports, p.rt)
    requires ReadingOf(p.rt, ref, start) && p.consumedports == p.activeports - {p.entryport}
    ensures var e, back := FirstPort(ref), Return(Onward(ref), start);
      && p.entryport == e && AttachPort(p) == 0 && PrevPort(p.activeports, 0) == e && back - start < 0x8000_0000
      && PortTime(p, 0) == Int32(start + ref.offset) && PortTime(p, e) == Int32(back + ref.offset)
  {
    var e, back := FirstPort(ref), Return(Onward(ref), start);
    assert Exit(ref, start) == back && Ports(ref) == {0, e};
    Int32Shift(start + ref.offset, back - start);
    assert p.entryport == e && NextUnconsumed(p) == 0;
  }

  lemma WrapArithmetic(p: Slave, s: Slave, e: Port, offset: int, back: int, t: Tree, start: int, now: int, gap: nat)
    requires p.entryport == e && p.pdelay == 0 && PrevPort(p.activeports, 0) == e
    requires PortTime(p, 0) == Int32(start + offset) && PortTime(p, e) == Int32(back + offset)
    requires back - start < 0x8000_0000 && 0 <= now - start == back - Exit(t, now)
    requires s.activeports == Ports(t) && s.topology == 1 + Children(t) && s.entryport == 0 && ReadingOf(s.rt, t, now)
    ensures Delay(p, s, 0, gap) == -(now - start)
  {
    hide Int32, ReadingOf, PrevPort, LatchedAt, Exit, PortTime, Ports, Children;
    LastPort(s, t, now);
    var d, span := now - start, Exit(t, now) - now;
    Int32Difference(start + offset + 2 * d + span, start + offset);
    Int32Negative(Int32(start + offset), Int32(start + offset + 2 * d + span), 2 * d + span);
    Int32Difference(Exit(t, now) + t.offset, now + t.offset);
    Int32Small(-span);
    Int32Small(-2 * d);
    Int32Small(-d);
    Int32Small(0);
  }

  lemma Int32Negative(x: int, y: int, n: nat)
    requires Int32(y - x) == n < 0x8000_0000
    ensures Int32(x - y) == 0 - n
  {
  }

  /** Two slaves behind a branching clockless one: the first, 30 away, is given the delay 60. */
  lemma ClocklessBranchSpoilsDelay(rs: seq<Latches>, t: Tree, x: Tree, sl: seq<Slave>)
    requires x == Node(false, 0, Cable(20, Leaf()), Cable(30, Leaf()), Open)
    requires t == Node(true, 0, Cable(10, x), Open, Open)
    requires sl == [Record(false, {}, 0, 0), Record(true, {0, 3}, 2, 0), Record(false, {0, 3, 1}, 3, 1),
                    Record(true, {0}, 1, 2), Record(true, {0}, 1, 2)]
    requires |rs| == 5 && Latched(rs, t, 0, 1)
    ensures Wired(sl, t, 1, 0) && NoWrap(t, 0) && !Measurable(t, false) && Forked(t)
    ensures Run(sl, 0, rs, 1, 4).0[3].pdelay == 60
  {
    hide Wired, NoWrap, Measurable, Forked, Latched, Run, ReadingOf, Step;
    ClocklessWired(t, x, sl);
    ClocklessTimes(t, x);
    ClocklessUnmeasurable(t, x);
    ClocklessForked(t, x);
    ClocklessReadings(rs, t, x);
    FirstTurn(rs, sl);
    var sl1 := Step(sl, 0, 1, rs[1]).0;
    BranchTurn(rs, sl1);
    var sl2 := Step(sl1, 0, 2, rs[2]).0;
    LeafTurn(rs, sl2);
    RunThree(sl, sl1, sl2, Step(sl2, 0, 3, rs[3]).0, rs);
  }

  /** The turn of a slave with one branch that the frame enters on port 0. */
  lemma FirstTurn(rs: seq<Latches>, sl: seq<Slave>)
    requires |sl| == |rs| == 5 && sl[1] == Record(true, {0, 3}, 2, 0) && !sl[0].hasdc && rs[1].a == 0 && rs[1].d == 120
    ensures var (sl1, h) := Step(sl, 0, 1, rs[1]);
      && h == 0 && sl1[1].consumedports == {3} && sl1[1].entryport == 0 && sl1[1].pdelay == 0
      && sl1[1].activeports == {0, 3} && sl1[1].hasdc && sl1[1].topology == 2 && sl1[1].parent == 0
      && sl1[1].rt == rs[1]
      && sl1[2] == sl[2] && sl1[3] == sl[3] && sl1[0].hasdc == sl[0].hasdc
  {
    assert EntryPort({0, 3}, rs[1]) == 0;
  }

  /** The turn of a branching slave without clock. */
  lemma BranchTurn(rs: seq<Latches>, sl: seq<Slave>)
    requires |sl| == |rs| == 5 && sl[2] == Record(false, {0, 3, 1}, 3, 1) && sl[1].hasdc && sl[1].topology == 2
    ensures var (sl2, h) := Step(sl, 0, 2, rs[2]);
      && h == 0 && sl2[1] == sl[1] && sl2[3] == sl[3] && sl2[2].parent == 1 && !sl2[2].hasdc && sl2[2].topology == 3
  {
    assert DcParent(sl, 2) == (1, 2);
  }

  /** The turn of a leaf behind it, which finds a port left over at the first slave. */
  lemma LeafTurn(rs: seq<Latches>, sl: seq<Slave>)
    requires |sl| == |rs| == 5 && sl[3] == Record(true, {0}, 1, 2) && sl[2].parent == 1 && !sl[2].hasdc
    requires sl[1].hasdc && sl[1].consumedports == {3} && sl[1].activeports == {0, 3} && sl[1].entryport == 0
    requires sl[1].topology == 2 && sl[2].topology == 3 && sl[1].pdelay == 0
    requires sl[1].rt == rs[1] && rs[1].a == 0 && rs[1].d == 120 && rs[3].a == 30
    ensures Step(sl, 0, 3, rs[3]).0[3].pdelay == 60
  {
    assert EntryPort({0}, rs[3]) == 0;
    assert DcParent(sl, 3) == (1, 2);
    assert NextUnconsumed(sl[1]) == 3 && PrevPort({0, 3}, 3) == 0;
  }

  lemma ClocklessReadings(rs: seq<Latches>, t: Tree, x: Tree)
    requires x == Node(false, 0, Cable(20, Leaf()), Cable(30, Leaf()), Open)
    requires t == Node(true, 0, Cable(10, x), Open, Open)
    requires |rs| == 5 && Latched(rs, t, 0, 1)
    ensures rs[1].a == 0 && rs[1].d == 120 && rs[3].a == 30
  {
    assert ReadingOf(rs[1], t, 0) && Latched(rs, x, 10, 2) && Latched(rs, Leaf(), 30, 3);
  }

  lemma ClocklessWired(t: Tree, x: Tree, sl: seq<Slave>)
    requires x == Node(false, 0, Cable(20, Leaf()), Cable(30, Leaf()), Open)
    requires t == Node(true, 0, Cable(10, x), Open, Open)
    requires |sl| == 5 && sl[1] == Record(true, {0, 3}, 2, 0) && sl[2] == Record(false, {0, 3, 1}, 3, 1)
    requires sl[3] == sl[4] == Record(true, {0}, 1, 2)
    ensures Wired(sl, t, 1, 0)
  {
    assert Wired(sl, Leaf(), 3, 2) && Wired(sl, Leaf(), 4, 2);
    assert Wired(sl, x, 2, 1);
  }

  lemma ClocklessTimes(t: Tree, x: Tree)
    requires x == Node(false, 0, Cable(20, Leaf()), Cable(30, Leaf()), Open)
    requires t == Node(true, 0, Cable(10, x), Open, Open)
    ensures NoWrap(t, 0)
  {
  }

  lemma ClocklessUnmeasurable(t: Tree, x: Tree)
    requires x == Node(false, 0, Cable(20, Leaf()), Cable(30, Leaf()), Open)
    requires t == Node(true, 0, Cable(10, x), Open, Open)
    ensures !Measurable(t, false)
  {
    hide Measurable;
    BranchingClockless(x);
    ClockOverBranching(t, false);
  }

  lemma BranchingClockless(x: Tree)
    requires !x.dc && Children(x) > 1 && HasClock(x)
    ensures !Measurable(x, true)
  {
  }

  lemma ClockOverBranching(t: Tree, under: bool)
    requires t.dc && t.on3.Cable? && !Measurable(t.on3.far, true)
    ensures !Measurable(t, under)
  {
  }

  lemma ClocklessForked(t: Tree, x: Tree)
    requires x == Node(false, 0, Cable(20, Leaf()), Cable(30, Leaf()), Open)
    requires t == Node(true, 0, Cable(10, x), Open, Open)
    ensures Forked(t)
  {
    assert HasClock(Leaf()) && Straight(Leaf());
    assert HasClock(x) && FirstClocked(x) == 3;
    assert Fork(x);
  }

  lemma RunThree(sl: seq<Slave>, sl1: seq<Slave>, sl2: seq<Slave>, sl3: seq<Slave>, rs: seq<Latches>)
    requires 4 <= |sl| == |sl1| == |sl2| == |sl3| == |rs|
    requires Step(sl, 0, 1, rs[1]) == (sl1, 0) && Step(sl1, 0, 2, rs[2]) == (sl2, 0) && Step(sl2, 0, 3, rs[3]).0 == sl3
    ensures Run(sl, 0, rs, 1, 4).0 == sl3
  {
    hide Step, Run;
    RunFirst(sl, 0, rs, 1, 4);
    RunFirst(sl1, 0, rs, 2, 4);
    RunFirst(sl2, 0, rs, 3, 4);
    RunNothing(sl3, Step(sl2, 0, 3, rs[3]).1, rs, 4, 4);
  }

  /** A slave without a clock at the end of a branch. */
  function Plain(): Tree {
    Node(false, 0, Open, Open, Open)
  }

  /** A branching branch without clocks before a slave with one: that slave, 127 away, is given the delay 60. */
  lemma UncleanBranchSpoilsDelay(rs: seq<Latches>, t: Tree, x: Tree, sl: seq<Slave>)
    requires x == Node(false, 0, Cable(20, Plain()), Cable(30, Plain()), Open)
    requires t == Node(true, 0, Cable(10, x), Cable(7, Leaf()), Open)
    requires sl == [Record(false, {}, 0, 0), Record(true, {0, 3, 1}, 3, 0), Record(false, {0, 3, 1}, 3, 1),
                    Record(false, {0}, 1, 2), Record(false, {0}, 1, 2), Record(true, {0}, 1, 1)]
    requires |rs| == 6 && Latched(rs, t, 0, 1)
    ensures Wired(sl, t, 1, 0) && NoWrap(t, 0) && RootsReadable(t, 0) && PassesOver(t)
    ensures Run(sl, 0, rs, 1, 6).0[5].pdelay == 60 && Departs(t, 0, 1) + t.on1.delay == 127
  {
    hide Wired, NoWrap, RootsReadable, Latched, Run, ReadingOf, Step, PassesOver;
    UncleanWired(t, x, sl);
    UncleanTimes(t, x);
    UncleanReadings(rs, t, x);
    RootOfTwo(rs, sl);
    var (sl1, h1) := Step(sl, 0, 1, rs[1]);
    InnerTurn(sl1, h1, 2, rs[2]);
    var (sl2, h2) := Step(sl1, h1, 2, rs[2]);
    InnerTurn(sl2, h2, 3, rs[3]);
    var (sl3, h3) := Step(sl2, h2, 3, rs[3]);
    InnerTurn(sl3, h3, 4, rs[4]);
    var (sl4, h4) := Step(sl3, h3, 4, rs[4]);
    AskewTurn(rs, sl4, h4);
    RunFirst(sl, 0, rs, 1, 6);
    RunFirst(sl1, h1, rs, 2, 6);
    RunFirst(sl2, h2, rs, 3, 6);
    RunFirst(sl3, h3, rs, 4, 6);
    RunFirst(sl4, h4, rs, 5, 6);
    RunNothing(Step(sl4, h4, 5, rs[5]).0, Step(sl4, h4, 5, rs[5]).1, rs, 6, 6);
  }

  lemma UncleanWired(t: Tree, x: Tree, sl: seq<Slave>)
    requires x == Node(false, 0, Cable(20, Plain()), Cable(30, Plain()), Open)
    requires t == Node(true, 0, Cable(10, x), Cable(7, Leaf()), Open)
    requires |sl| == 6 && sl[1] == Record(true, {0, 3, 1}, 3, 0) && sl[2] == Record(false, {0, 3, 1}, 3, 1)
    requires sl[3] == sl[4] == Record(false, {0}, 1, 2) && sl[5] == Record(true, {0}, 1, 1)
    ensures Wired(sl, t, 1, 0)
  {
    assert Wired(sl, Plain(), 3, 2) && Wired(sl, Plain(), 4, 2) && Wired(sl, Leaf(), 5, 1);
    assert Wired(sl, x, 2, 1);
  }

  lemma UncleanTimes(t: Tree, x: Tree)
    requires x == Node(false, 0, Cable(20, Plain()), Cable(30, Plain()), Open)
    requires t == Node(true, 0, Cable(10, x), Cable(7, Leaf()), Open)
    ensures NoWrap(t, 0) && RootsReadable(t, 0) && PassesOver(t)
    ensures Departs(t, 0, 1) + t.on1.delay == 127
  {
  }

  lemma UncleanReadings(rs: seq<Latches>, t: Tree, x: Tree)
    requires x == Node(false, 0, Cable(20, Plain()), Cable(30, Plain()), Open)
    requires t == Node(true, 0, Cable(10, x), Cable(7, Leaf()), Open)
    requires |rs| == 6 && Latched(rs, t, 0, 1)
    ensures rs[1].a == 0 && rs[1].d == 120 && rs[1].b == 134 && rs[5].a == 127
  {
    assert ReadingOf(rs[1], t, 0) && Latched(rs, Leaf(), 127, 5);
  }

  /** The turn of a slave with two branches that the frame enters on port 0. */
  lemma RootOfTwo(rs: seq<Latches>, sl: seq<Slave>)
    requires |sl| == |rs| == 6 && sl[1] == Record(true, {0, 3, 1}, 3, 0)
    requires rs[1].a == 0 && rs[1].d == 120 && rs[1].b == 134
    ensures var (sl1, h) := Step(sl, 0, 1, rs[1]);
      && sl1[1].consumedports == {3, 1} && sl1[1].entryport == 0 && sl1[1].pdelay == 0 && sl1[1].hasdc
      && sl1[1].activeports == {0, 3, 1} && sl1[1].topology == 3 && sl1[1].rt == rs[1]
      && forall j :: 0 <= j < 6 && j != 1 ==> sl1[j] == sl[j]
  {
    assert EntryPort({0, 3, 1}, rs[1]) == 0;
    assert DcParent(sl, 1).0 == 0;
  }

  /** The turns of the branching slave, which is number 2, and of those behind it. */
  lemma InnerTurn(sl: seq<Slave>, hold: nat, i: nat, r: Latches)
    requires 1 < i < |sl| && hold < |sl| && !sl[i].hasdc
    requires sl[i].topology > 1 || (2 < i && sl[i].parent == 2 && sl[2].topology > 2)
    ensures var sl1 := Step(sl, hold, i, r).0;
      && (forall j :: 0 <= j < |sl| && j != i && j != 2 ==> sl1[j] == sl[j])
      && forall j :: 0 <= j < |sl| ==> SameWiring(sl1[j], sl[j])
  {
    StepKeepsNetwork(sl, hold, i, r);
    hide NextUnconsumed;
  }

  lemma AskewTurn(rs: seq<Latches>, sl: seq<Slave>, hold: nat)
    requires |sl| == |rs| == 6 && hold < 6 && sl[5] == Record(true, {0}, 1, 1)
    requires sl[1].consumedports == {3, 1} && sl[1].entryport == 0 && sl[1].pdelay == 0 && sl[1].hasdc
    requires sl[1].activeports == {0, 3, 1} && sl[1].topology == 3 && sl[1].rt == rs[1]
    requires rs[1].a == 0 && rs[1].d == 120 && rs[5].a == 127
    ensures Step(sl, hold, 5, rs[5]).0[5].pdelay == 60
  {
    assert EntryPort({0}, rs[5]) == 0;
    assert DcParent(sl, 5) == (1, 5);
    assert NextUnconsumed(sl[1]) == 3 && PrevPort({0, 3, 1}, 3) == 0;
  }

  /** A wrapping clock need not show: with two equal branches, one without clocks, the delay comes out right. */
  lemma WrapUnnoticed(rs: seq<Latches>, t: Tree, sl: seq<Slave>)
    requires t == Node(true, 0x7fff_fffc, Cable(5, Leaf()), Cable(5, Plain()), Open)
    requires sl == [Record(false, {}, 0, 0), Record(true, {0, 3, 1}, 3, 0), Record(true, {0}, 1, 1),
                    Record(false, {0}, 1, 1)]
    requires |rs| == 4 && Latched(rs, t, 0, 1)
    ensures Wired(sl, t, 1, 0) && !NoWrap(t, 0) && Delays(Run(sl, 0, rs, 1, 4).0, t, 0, 1, 0)
  {
    hide Wired, NoWrap, Latched, Run, ReadingOf, Step, Delays;
    UnnoticedNetwork(t, sl);
    UnnoticedReadings(rs, t);
    UnnoticedFirst(rs, sl);
    var sl1 := Step(sl, 0, 1, rs[1]).0;
    UnnoticedSecond(rs, sl1);
    var sl2 := Step(sl1, 0, 2, rs[2]).0;
    var (sl3, h3) := Step(sl2, 0, 3, rs[3]);
    StepKeepsDelay(sl2, 0, 3, rs[3], 1);
    StepKeepsDelay(sl2, 0, 3, rs[3], 2);
    RunFirst(sl, 0, rs, 1, 4);
    RunFirst(sl1, 0, rs, 2, 4);
    RunFirst(sl2, 0, rs, 3, 4);
    RunNothing(sl3, h3, rs, 4, 4);
    UnnoticedDelays(sl3, t);
  }

  lemma UnnoticedNetwork(t: Tree, sl: seq<Slave>)
    requires t == Node(true, 0x7fff_fffc, Cable(5, Leaf()), Cable(5, Plain()), Open)
    requires sl == [Record(false, {}, 0, 0), Record(true, {0, 3, 1}, 3, 0), Record(true, {0}, 1, 1),
                    Record(false, {0}, 1, 1)]
    ensures Wired(sl, t, 1, 0) && !NoWrap(t, 0)
  {
  }

  lemma UnnoticedDelays(sl: seq<Slave>, t: Tree)
    requires t == Node(true, 0x7fff_fffc, Cable(5, Leaf()), Cable(5, Plain()), Open)
    requires |sl| == 4 && sl[1].pdelay == 0 && sl[2].pdelay == 5
    ensures Delays(sl, t, 0, 1, 0)
  {
  }

  lemma UnnoticedReadings(rs: seq<Latches>, t: Tree)
    requires t == Node(true, 0x7fff_fffc, Cable(5, Leaf()), Cable(5, Plain()), Open)
    requires |rs| == 4 && Latched(rs, t, 0, 1)
    ensures rs[1].a == 0x7fff_fffc && rs[1].d == -0x7fff_fffa && rs[1].b == -0x7fff_fff0 && rs[2].a == 5
  {
    assert ReadingOf(rs[1], t, 0);
    assert Latched(rs, Leaf(), 5, 2) && ReadingOf(rs[2], Leaf(), 5);
  }

  lemma UnnoticedFirst(rs: seq<Latches>, sl: seq<Slave>)
    requires |sl| == |rs| == 4 && sl[1] == Record(true, {0, 3, 1}, 3, 0) && sl[2] == Record(true, {0}, 1, 1)
    requires rs[1].a == 0x7fff_fffc && rs[1].d == -0x7fff_fffa && rs[1].b == -0x7fff_fff0
    ensures var (sl1, h) := Step(sl, 0, 1, rs[1]);
      && h == 0 && sl1[1].consumedports == {0, 1} && sl1[1].entryport == 3 && sl1[1].pdelay == 0
      && sl1[1].activeports == {0, 3, 1} && sl1[1].hasdc && sl1[1].topology == 3 && sl1[1].rt == rs[1]
      && sl1[2] == sl[2]
  {
    assert EntryPort({0, 3, 1}, rs[1]) == 3;
    assert DcParent(sl, 1).0 == 0;
  }

  lemma UnnoticedSecond(rs: seq<Latches>, sl: seq<Slave>)
    requires |sl| == |rs| == 4 && sl[2] == Record(true, {0}, 1, 1)
    requires sl[1].consumedports == {0, 1} && sl[1].entryport == 3 && sl[1].pdelay == 0 && sl[1].rt == rs[1]
    requires sl[1].activeports == {0, 3, 1} && sl[1].hasdc && sl[1].topology == 3
    requires rs[1].d == -0x7fff_fffa && rs[1].b == -0x7fff_fff0 && rs[2].a == 5
    ensures var (sl2, h) := Step(sl, 0, 2, rs[2]); h == 0 && sl2[2].pdelay == 5 && sl2[1].pdelay == 0
  {
    assert EntryPort({0}, rs[2]) == 0;
    assert DcParent(sl, 2) == (1, 2);
    assert NextUnconsumed(sl[1]) == 1 && PrevPort({0, 3, 1}, 1) == 3;
  }
}
