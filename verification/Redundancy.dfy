/** Cable redundancy: a line of slaves with one network card at each end. The reroute decisions of the driver make
  * a broken cable disappear from what a caller sees. */
module Redundancy {
  import opened Basics
  import opened Nicdrv

  const BRD := 7

  /** The slaves in the order of the line. `work(i, s, f)` is what slave `i` (counted from 0) with memory `s` makes
    * of a frame that it processes: its new memory and the frame it passes on. */
  datatype Ring<!S(!new)> = Ring(n: nat, work: (nat, S, Frame) -> (S, Frame))
  {
    /** A slave leaves command and index alone, and a broadcast read does not touch its memory. */
    ghost predicate Obedient() {
      forall i, s, f :: var r := work(i, s, f);
        r.1[2] == f[2] && r.1[3] == f[3] && (f[2] == BRD ==> r.0 == s)
    }

    /** A frame processed once by each of the slaves `i` up to but not including `j`, in that order. */
    ghost function Along(memory: seq<S>, i: nat, j: nat, f: Frame): (r: (seq<S>, Frame))
      requires i <= j <= n == |memory|
      ensures |r.0| == n
      decreases j - i
    {
      if i == j then (memory, f)
      else
        var (s, g) := work(i, memory[i], f);
        Along(memory[i := s], i + 1, j, g)
    }

    lemma {:induction false} AlongSplit(memory: seq<S>, i: nat, j: nat, k: nat, f: Frame)
      requires i <= j <= k <= n == |memory|
      ensures var (m, g) := Along(memory, i, j, f); Along(memory, i, k, f) == Along(m, j, k, g)
      decreases j - i
    {
      if i < j {
        var (s, g) := work(i, memory[i], f);
        AlongSplit(memory[i := s], i + 1, j, k, g);
      }
    }

    lemma {:induction false} AlongObedient(memory: seq<S>, i: nat, j: nat, f: Frame)
      requires Obedient() && i <= j <= n == |memory|
      ensures var r := Along(memory, i, j, f);
        r.1[2] == f[2] && r.1[3] == f[3] && (f[2] == BRD ==> r.0 == memory)
      decreases j - i
    {
      if i < j {
        var (s, g) := work(i, memory[i], f);
        assert f[2] == BRD ==> memory[i := s] == memory;
        AlongObedient(memory[i := s], i + 1, j, g);
      }
    }
  }

  /** The cables are numbered from 0 at the primary card to `n` at the secondary one. Of the broken ones only the
    * first (`near`) and the last (`far`) matter. */
  datatype Line = Intact | Broken(near: nat, far: nat)
  {
    predicate Valid(n: nat) {
      Broken? ==> near <= far <= n
    }
  }

  datatype Trip<S> = Trip(memory: seq<S>, atPrim: Option<Packet>, atSec: Option<Packet>)

  /** A frame sent on each end. Frames are processed on the way from the primary card, and where the line is cut
    * they turn back; on the way to the primary card they only pass through. */
  ghost function SendBoth<S(!new)>(ring: Ring<S>, memory: seq<S>, line: Line, prim: Packet, sec: Packet): (t: Trip<S>)
    requires line.Valid(ring.n) && ring.n == |memory|
    ensures |t.memory| == ring.n
  {
    match line
    case Intact =>
      var (m, f) := ring.Along(memory, 0, ring.n, prim.frame);
      Trip(m, Some(sec), Some(prim.(frame := f)))
    case Broken(near, far) =>
      var (m, f) := ring.Along(memory, 0, near, prim.frame);
      var (m', g) := ring.Along(m, far, ring.n, sec.frame);
      Trip(m', if near > 0 then Some(prim.(frame := f)) else None,
           if far < ring.n then Some(sec.(frame := g)) else None)
  }

  /** A frame sent from the secondary card alone. */
  ghost function SendSec<S(!new)>(ring: Ring<S>, memory: seq<S>, line: Line, sec: Packet): (t: Trip<S>)
    requires line.Valid(ring.n) && ring.n == |memory|
    ensures |t.memory| == ring.n
  {
    match line
    case Intact => Trip(memory, Some(sec), None)
    case Broken(_, far) =>
      var (m, g) := ring.Along(memory, far, ring.n, sec.frame);
      Trip(m, None, if far < ring.n then Some(sec.(frame := g)) else None)
  }

  /** What the caller should see: the frame processed once, in order, by every slave that is still connected. */
  ghost function Reached<S(!new)>(ring: Ring<S>, memory: seq<S>, line: Line, f: Frame): (seq<S>, Frame)
    requires line.Valid(ring.n) && ring.n == |memory|
  {
    match line
    case Intact => ring.Along(memory, 0, ring.n, f)
    case Broken(near, far) =>
      var (m, g) := ring.Along(memory, 0, near, f);
      ring.Along(m, far, ring.n, g)
  }

  // ---------- hearing an answer ----------

  /** The frames with the index among those read. */
  function Own(column: seq<Option<Packet>>, idx: nat): seq<Packet> {
    if column == [] then []
    else (if column[0].Some? && For(column[0].value, idx) then [column[0].value] else []) + Own(column[1..], idx)
  }

  function AsSeq(answer: Option<Packet>): seq<Packet> {
    if answer.Some? then [answer.value] else []
  }

  /** The answer is still to come in time, once, in between any other frames, or someone else has stored it. */
  predicate Comes(slot: Slot, column: seq<Option<Packet>>, idx: nat, answer: Option<Packet>) {
    || (slot.status == Rcvd && answer == Some(Packet(true, slot.sa, slot.frame)))
    || (slot.status == Tx && Own(column, idx) == AsSeq(answer))
  }

  predicate Came(slot: Slot, wkc: int, answer: Option<Packet>) {
    answer.Some? && slot == Slot(Complete, answer.value.frame, answer.value.sa) && wkc == Wkc(answer.value.frame)
  }

  predicate Hears(slot: Slot, wkc: int, column: seq<Option<Packet>>, idx: nat, answer: Option<Packet>) {
    (wkc > NOFRAME && Came(slot, wkc, answer)) || (wkc <= NOFRAME && Comes(slot, column, idx, answer))
  }

  /** When time is up the answer is there exactly if there was one. */
  predicate Settled(slot: Slot, wkc: int, answer: Option<Packet>) {
    if answer.Some? then Came(slot, wkc, answer) else wkc <= NOFRAME
  }

  lemma PollHears(slots: seq<Slot>, idx: nat, column: seq<Option<Packet>>, answer: Option<Packet>)
    requires idx < |slots| && column != [] && Comes(slots[idx], column, idx, answer)
    requires answer.Some? ==> For(answer.value, idx)
    ensures var p := Poll(slots, idx, column[0]);
      Hears(p.slots[idx], p.rval, column[1..], idx, answer) && p.slots[idx].status != Rcvd
  {
    assert Own(column, idx)
      == (if column[0].Some? && For(column[0].value, idx) then [column[0].value] else []) + Own(column[1..], idx);
  }

  function Prims(script: seq<Arrivals>): seq<Option<Packet>> {
    seq(|script|, k requires 0 <= k < |script| => script[k].prim)
  }

  function Secs(script: seq<Arrivals>): seq<Option<Packet>> {
    seq(|script|, k requires 0 <= k < |script| => script[k].sec)
  }

  lemma {:induction false} ListenHears(h: Heard, idx: nat, script: seq<Arrivals>, prim: Option<Packet>,
                                       sec: Option<Packet>)
    requires idx < |h.prim| == |h.sec|
    requires Hears(h.prim[idx], h.wkc, Prims(script), idx, prim) && Hears(h.sec[idx], h.wkc2, Secs(script), idx, sec)
    requires prim.Some? ==> For(prim.value, idx)
    requires sec.Some? ==> For(sec.value, idx)
    requires script != [] || (h.prim[idx].status != Rcvd && h.sec[idx].status != Rcvd)
    ensures var r := Listen(h, idx, true, script);
      Settled(r.prim[idx], r.wkc, prim) && Settled(r.sec[idx], r.wkc2, sec)
    decreases |script|
  {
    hide Poll, For, Wkc;
    if script != [] {
      assert Prims(script)[1..] == Prims(script[1..]) && Secs(script)[1..] == Secs(script[1..]);
      if h.wkc <= NOFRAME {
        PollHears(h.prim, idx, Prims(script), prim);
      }
      if h.wkc2 <= NOFRAME {
        PollHears(h.sec, idx, Secs(script), sec);
      }
      var h' := Round(h, idx, true, script[0]);
      if !h'.Both() {
        ListenHears(h', idx, script[1..], prim, sec);
      }
    }
  }

  lemma {:induction false} ListenAgainHears(slots: seq<Slot>, idx: nat, wkc: int, script: seq<Option<Packet>>,
                                            answer: Option<Packet>)
    requires idx < |slots| && slots[idx].status == Tx && wkc <= NOFRAME && Own(script, idx) == AsSeq(answer)
    requires answer.Some? ==> For(answer.value, idx)
    ensures var (s, w) := ListenAgain(slots, idx, wkc, script); Settled(s[idx], w, answer)
    decreases |script|
  {
    hide Poll, For, Wkc;
    if script != [] {
      PollHears(slots, idx, script, answer);
      var p := Poll(slots, idx, script[0]);
      if p.rval <= NOFRAME {
        ListenAgainHears(p.slots, idx, p.rval, script[1..], answer);
      }
    }
  }

  // ---------- the main result ----------

  /** The frame is in the transmit buffer, the dummy is a broadcast read with the same index, and both are on their
    * way: they come in before time is up, among any other frames. */
  ghost predicate UnderWay<S(!new)>(ring: Ring<S>, memory: seq<S>, line: Line, s: State, idx: nat, dummy: Packet,
                              script: seq<Arrivals>)
  {
    && ring.Obedient() && line.Valid(ring.n) && ring.n == |memory| && ring.n > 0
    && s.Valid() && idx < |s.prim| && script != []
    && s.tx[idx].ethercat && s.tx[idx].sa == PRIM && s.tx[idx].frame[3] == idx
    && dummy.ethercat && dummy.sa == SEC && dummy.frame[3] == idx && dummy.frame[2] == BRD
    && var t := SendBoth(ring, memory, line, s.tx[idx], dummy);
       Comes(s.prim[idx], Prims(script), idx, t.atPrim) && Comes(s.sec[idx], Secs(script), idx, t.atSec)
  }

  lemma FirstWait<S(!new)>(ring: Ring<S>, memory: seq<S>, line: Line, s: State, idx: nat, dummy: Packet,
                           script: seq<Arrivals>)
    requires UnderWay(ring, memory, line, s, idx, dummy, script)
    ensures var t, h := SendBoth(ring, memory, line, s.tx[idx], dummy),
                        Listen(Heard(s.prim, s.sec, NOFRAME, NOFRAME), idx, true, script);
      && Settled(h.prim[idx], h.wkc, t.atPrim) && Settled(h.sec[idx], h.wkc2, t.atSec)
      && (t.atPrim.Some? ==> For(t.atPrim.value, idx)) && (t.atSec.Some? ==> For(t.atSec.value, idx))
      && t.memory == (if line.Intact? then ring.Along(memory, 0, ring.n, s.tx[idx].frame).0
                      else ring.Along(memory, 0, line.near, s.tx[idx].frame).0)
  {
    hide Comes, Listen;
    var f := s.tx[idx].frame;
    match line {
      case Intact =>
        ring.AlongObedient(memory, 0, ring.n, f);
      case Broken(near, far) =>
        ring.AlongObedient(memory, 0, near, f);
        ring.AlongObedient(ring.Along(memory, 0, near, f).0, far, ring.n, dummy.frame);
    }
    var t := SendBoth(ring, memory, line, s.tx[idx], dummy);
    ListenHears(Heard(s.prim, s.sec, NOFRAME, NOFRAME), idx, script, t.atPrim, t.atSec);
  }

  /** The memories of the slaves after all, and what comes back to the secondary card of a frame sent again. */
  ghost function AfterResend<S(!new)>(ring: Ring<S>, memory: seq<S>, line: Line, resent: Option<Packet>): (r: Trip<S>)
    requires line.Valid(ring.n) && ring.n == |memory|
  {
    if resent.Some? then SendSec(ring, memory, line, resent.value) else Trip(memory, None, None)
  }

  /** Main result. Wherever cables are broken, the caller gets the frame processed once, in order, by every slave
    * that is still connected to a card, the memories of the slaves are those after that one pass, and the working
    * counter is the one of that frame. Only with both cards cut off there is no frame. */
  lemma BreakHidden<S(!new)>(ring: Ring<S>, memory: seq<S>, line: Line, s: State, idx: nat, dummy: Packet,
                       script: seq<Arrivals>, again: seq<Option<Packet>>)
    requires UnderWay(ring, memory, line, s, idx, dummy, script)
    requires var t, w := SendBoth(ring, memory, line, s.tx[idx], dummy), Wait(s, idx, true, script, true, again);
      w.resent.Some? ==> Own(again, idx) == AsSeq(AfterResend(ring, t.memory, line, w.resent).atSec)
    ensures var t, w := SendBoth(ring, memory, line, s.tx[idx], dummy), Wait(s, idx, true, script, true, again);
      var (seen, f) := Reached(ring, memory, line, s.tx[idx].frame);
      && AfterResend(ring, t.memory, line, w.resent).memory == seen
      && (line != Broken(0, ring.n) ==> w.state.prim[idx].frame == f && w.wkc == Wkc(f))
      && (line == Broken(0, ring.n) ==> w.wkc <= NOFRAME)
  {
    hide Comes, Listen, ListenAgain, ring.Obedient;
    FirstWait(ring, memory, line, s, idx, dummy, script);
    var t, h := SendBoth(ring, memory, line, s.tx[idx], dummy),
                Listen(Heard(s.prim, s.sec, NOFRAME, NOFRAME), idx, true, script);
    var w := Wait(s, idx, true, script, true, again);
    if w.resent.Some? {
      var back := AfterResend(ring, t.memory, line, w.resent);
      ring.AlongObedient(t.memory, line.far, ring.n, w.resent.value.frame);
      ListenAgainHears(h.sec[idx := h.sec[idx].(status := Tx)], idx, NOFRAME, again, back.atSec);
    }
  }

  /** One broken cable, at either card or between any two slaves, is not noticed at all. */
  lemma OneBreakHidden<S(!new)>(ring: Ring<S>, memory: seq<S>, k: nat, f: Frame)
    requires k <= ring.n == |memory|
    ensures Reached(ring, memory, Broken(k, k), f) == ring.Along(memory, 0, ring.n, f)
  {
    ring.AlongSplit(memory, 0, k, ring.n, f);
  }

  /** If the frame sent again does not come back, the caller is given the one from the slaves before the break, and
    * the transmit buffer holds it too. */
  lemma LostResend<S(!new)>(ring: Ring<S>, memory: seq<S>, line: Line, s: State, idx: nat, dummy: Packet,
                      script: seq<Arrivals>, again: seq<Option<Packet>>)
    requires UnderWay(ring, memory, line, s, idx, dummy, script) && line.Broken? && 0 < line.near && line.far < ring.n
    requires Own(again, idx) == []
    ensures var w, f := Wait(s, idx, true, script, true, again), ring.Along(memory, 0, line.near, s.tx[idx].frame).1;
      w.resent.Some? && w.wkc == Wkc(f) && w.state.prim[idx].frame == f && w.state.tx[idx].frame == f
  {
    hide Comes, Listen, ListenAgain, ring.Obedient;
    FirstWait(ring, memory, line, s, idx, dummy, script);
    var h := Listen(Heard(s.prim, s.sec, NOFRAME, NOFRAME), idx, true, script);
    ListenAgainHears(h.sec[idx := h.sec[idx].(status := Tx)], idx, NOFRAME, again, None);
  }
}
