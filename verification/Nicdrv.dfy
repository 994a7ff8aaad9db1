/** The network driver (`oshw/linux/nicdrv.c`): frame indices, receive slots, and the way a frame takes when the
  * ring is redundant. What leaves and what arrives is given from outside. */
module Nicdrv {
  import opened Basics

  /** The part of a frame behind the Ethernet header: two bytes length field, a command, an index, the rest. */
  type Frame = f: seq<Byte> | |f| >= 4 witness [0, 0, 0, 0]

  /** A frame with what matters of its Ethernet header: the type and the middle word of the source address. */
  datatype Packet = Packet(ethercat: bool, sa: nat, frame: Frame)

  datatype Status = Empty | Alloc | Tx | Rcvd | Complete

  /** A receive slot: its state, the frame in it, and the source address the frame came with. */
  datatype Slot = Slot(status: Status, frame: Frame, sa: nat)

  const PRIM := 0x0101
  const SEC := 0x0404
  const NOFRAME := -1
  const OTHERFRAME := -2

  /** The length field says where the working counter is. */
  function Wkc(f: Frame): nat {
    var low: nat, high: nat := f[0], f[1];
    var l := low + high % 16 * 256;
    if l + 1 < |f| then
      var first: nat, second: nat := f[l], f[l + 1];
      first + second * 256
    else 0
  }

  predicate For(p: Packet, idx: nat) {
    p.ethercat && p.frame[3] == idx
  }

  // ---------- indices ----------

  function Wrapped(idx: nat, n: nat): (r: nat)
    requires n > 0
    ensures r < n
  {
    if idx < n then idx else 0
  }

  /** No free slot among the `cnt` from `start` on. */
  ghost predicate NoneFree(slots: seq<Slot>, start: nat, cnt: nat)
    requires start < |slots|
  {
    forall k :: 0 <= k < cnt && k < |slots| ==> !slots[Around(start, k, |slots|)].status.Empty?
  }

  /** The index handed out: the first free one behind the last used, or, if none is free, the one behind it. */
  ghost predicate NextIndex(slots: seq<Slot>, last: nat, idx: nat)
    requires slots != []
  {
    var start := Wrapped(last + 1, |slots|);
    || (exists k :: 0 <= k < |slots| && idx == Around(start, k, |slots|) && slots[idx].status.Empty?
                    && NoneFree(slots, start, k))
    || (idx == start && NoneFree(slots, start, |slots|))
  }

  /** Handing out an index takes a free one exactly if there is one; otherwise a slot in use is taken over. It is the
    * one behind the last, if that is free or none is. */
  lemma NextIndexFree(slots: seq<Slot>, last: nat, idx: nat)
    requires slots != [] && NextIndex(slots, last, idx)
    ensures idx < |slots|
    ensures slots[idx].status.Empty? <==> exists j :: 0 <= j < |slots| && slots[j].status.Empty?
    ensures var next := if last + 1 < |slots| then last + 1 else 0;
      slots[next].status.Empty? || !slots[idx].status.Empty? ==> idx == next
  {
    var n := |slots|;
    var start := Wrapped(last + 1, n);
    assert Around(start, 0, n) == start;
    if j :| 0 <= j < n && slots[j].status.Empty? {
      var k := if j >= start then j - start else j - start + n;
      assert Around(start, k, n) == j;
      assert NoneFree(slots, start, n) ==> k >= n;
    }
  }

  // ---------- one poll of a stack ----------

  /** What the slots become, what is returned, and whether the socket was read. */
  datatype Polled = Polled(slots: seq<Slot>, rval: int, read: bool)

  function Poll(slots: seq<Slot>, idx: nat, arrival: Option<Packet>): (r: Polled)
    requires idx < |slots|
    ensures |r.slots| == |slots|
  {
    if slots[idx].status == Rcvd then
      Polled(slots[idx := slots[idx].(status := Complete)], Wkc(slots[idx].frame), false)
    else if arrival == None then
      Polled(slots, NOFRAME, true)
    else
      var p, j := arrival.value, arrival.value.frame[3];
      if !p.ethercat then Polled(slots, OTHERFRAME, true)
      else if j == idx then Polled(slots[idx := Slot(Complete, p.frame, p.sa)], Wkc(p.frame), true)
      else if j < |slots| && slots[j].status == Tx then Polled(slots[j := Slot(Rcvd, p.frame, p.sa)], OTHERFRAME, true)
      else Polled(slots, OTHERFRAME, true)
  }

  // ---------- waiting on both stacks ----------

  /** What the sockets have to offer in one round of polling. */
  datatype Arrivals = Arrivals(prim: Option<Packet>, sec: Option<Packet>)

  datatype Heard = Heard(prim: seq<Slot>, sec: seq<Slot>, wkc: int, wkc2: int)
  {
    predicate Both() {
      wkc > NOFRAME && wkc2 > NOFRAME
    }
  }

  function Round(h: Heard, idx: nat, redundant: bool, a: Arrivals): (r: Heard)
    requires idx < |h.prim| == |h.sec|
    ensures |r.prim| == |h.prim| && |r.sec| == |h.sec|
  {
    var p := Poll(h.prim, idx, a.prim);
    var s := Poll(h.sec, idx, a.sec);
    var h' := if h.wkc <= NOFRAME then h.(prim := p.slots, wkc := p.rval) else h;
    if redundant && h.wkc2 <= NOFRAME then h'.(sec := s.slots, wkc2 := s.rval) else h'
  }

  /** Rounds of polling until both frames are in or time is up. */
  function Listen(h: Heard, idx: nat, redundant: bool, script: seq<Arrivals>): (r: Heard)
    requires idx < |h.prim| == |h.sec|
    ensures |r.prim| == |h.prim| && |r.sec| == |h.sec|
    decreases |script|
  {
    if script == [] then h
    else
      var h' := Round(h, idx, redundant, script[0]);
      if h'.Both() then h' else Listen(h', idx, redundant, script[1..])
  }

  /** Polling one stack until the frame is in or time is up. */
  function ListenAgain(slots: seq<Slot>, idx: nat, wkc: int, script: seq<Option<Packet>>): (r: (seq<Slot>, int))
    requires idx < |slots|
    ensures |r.0| == |slots|
    decreases |script|
  {
    if script == [] then (slots, wkc)
    else
      var p := Poll(slots, idx, script[0]);
      if p.rval > NOFRAME then (p.slots, p.rval) else ListenAgain(p.slots, idx, p.rval, script[1..])
  }

  /** Everything the driver remembers of frames: both stacks and the transmit buffers. */
  datatype State = State(prim: seq<Slot>, sec: seq<Slot>, tx: seq<Packet>)
  {
    predicate Valid() {
      |prim| == |sec| == |tx|
    }
  }

  /** How a wait ends: the state, the working counter, and what was sent again on the secondary cable. */
  datatype Waited = Waited(state: State, wkc: int, resent: Option<Packet>)

  /** What the frames that came in are worth: the source addresses tell which way each has taken. */
  function Settle(tx: seq<Packet>, h: Heard, idx: nat, sendOk: bool, again: seq<Option<Packet>>): Waited
    requires idx < |h.prim| == |h.sec| == |tx|
  {
    var primrx := if h.wkc > NOFRAME then h.prim[idx].sa else 0;
    var secrx := if h.wkc2 > NOFRAME then h.sec[idx].sa else 0;
    if primrx == SEC && secrx == PRIM then
      Waited(State(h.prim[idx := h.prim[idx].(frame := h.sec[idx].frame)], h.sec, tx), h.wkc2, None)
    else if (primrx == 0 || primrx == PRIM) && secrx == SEC then
      var packet := if primrx == PRIM then tx[idx].(frame := h.prim[idx].frame) else tx[idx];
      var sent := h.sec[idx := h.sec[idx].(status := if sendOk then Tx else Empty)];
      var (sec, wkc2) := ListenAgain(sent, idx, NOFRAME, again);
      if wkc2 > NOFRAME then
        Waited(State(h.prim[idx := h.prim[idx].(frame := sec[idx].frame)], sec, tx[idx := packet]), wkc2,
               if sendOk then Some(packet) else None)
      else
        Waited(State(h.prim, sec, tx[idx := packet]), h.wkc, if sendOk then Some(packet) else None)
    else
      Waited(State(h.prim, h.sec, tx), h.wkc, None)
  }

  /** `ecx_waitinframe_red` as a whole. */
  function Wait(s: State, idx: nat, redundant: bool, script: seq<Arrivals>, sendOk: bool, again: seq<Option<Packet>>)
      : Waited
    requires s.Valid() && idx < |s.prim|
  {
    var h := Listen(Heard(s.prim, s.sec, NOFRAME, if redundant then NOFRAME else 0), idx, redundant, script);
    if redundant then Settle(s.tx, h, idx, sendOk, again) else Waited(State(h.prim, h.sec, s.tx), h.wkc, None)
  }

  // ---------- the port ----------

  class Port {
    const primary: array<Slot>
    const secondary: array<Slot>
    const tx: array<Packet>
    const redundant: bool
    var dummy: Packet
    var lastidx: nat

    ghost predicate Valid()
      reads this
    {
      && 0 < primary.Length == secondary.Length == tx.Length <= 256 && lastidx < primary.Length
      && primary != secondary
    }

    ghost function Now(): State
      reads this, primary, secondary, tx
      requires Valid()
    {
      State(primary[..], secondary[..], tx[..])
    }

    constructor (n: nat, redundant: bool, dummy: Packet)
      requires 0 < n <= 256
      ensures Valid() && fresh(primary) && fresh(secondary) && fresh(tx)
      ensures this.redundant == redundant && this.dummy == dummy && primary.Length == n
      ensures forall i :: 0 <= i < n ==> primary[i].status == Empty && secondary[i].status == Empty
    {
      this.redundant, this.dummy, lastidx := redundant, dummy, 0;
      primary := new Slot[n](_ => Slot(Empty, [0, 0, 0, 0], 0));
      secondary := new Slot[n](_ => Slot(Empty, [0, 0, 0, 0], 0));
      tx := new Packet[n](_ => Packet(true, PRIM, [0, 0, 0, 0]));
    }

    /** `ecx_getindex` */
    method GetIndex() returns (idx: nat)
      requires Valid()
      modifies this`lastidx, primary, secondary
      ensures Valid() && NextIndex(old(primary[..]), old(lastidx), idx) && idx < primary.Length && lastidx == idx
      ensures primary[..] == old(primary[..])[idx := old(primary[idx]).(status := Alloc)]
      ensures secondary[..] == if redundant then old(secondary[..])[idx := old(secondary[idx]).(status := Alloc)]
                               else old(secondary[..])
    {
      idx := FindIndex();
      SetSlot(primary, idx, Alloc);
      if redundant {
        SetSlot(secondary, idx, Alloc);
      }
      lastidx := idx;
    }

    /** Its loop. */
    method FindIndex() returns (idx: nat)
      requires Valid()
      ensures idx < primary.Length && NextIndex(primary[..], lastidx, idx)
    {
      var n := primary.Length;
      idx := Wrapped(lastidx + 1, n);
      var cnt := 0;
      ghost var start, slots := idx, primary[..];
      while !primary[idx].status.Empty? && cnt < n
        invariant cnt <= n && idx == Around(start, cnt, n) < n
        invariant NoneFree(slots, start, cnt)
      {
        assert slots[idx] == primary[idx];
        idx := Wrapped(idx + 1, n);
        cnt := cnt + 1;
      }
      assert slots[idx] == primary[idx];
      assert cnt == n ==> idx == start;
    }

    /** `ecx_setbufstat` */
    method SetBufStat(idx: nat, status: Status)
      requires Valid() && idx < primary.Length
      modifies primary, secondary
      ensures primary[..] == old(primary[..])[idx := old(primary[idx]).(status := status)]
      ensures secondary[..] == if redundant then old(secondary[..])[idx := old(secondary[idx]).(status := status)]
                               else old(secondary[..])
    {
      SetSlot(primary, idx, status);
      if redundant {
        SetSlot(secondary, idx, status);
      }
    }

    static method SetSlot(stack: array<Slot>, idx: nat, status: Status)
      requires idx < stack.Length
      modifies stack
      ensures stack[..] == old(stack[..])[idx := old(stack[idx]).(status := status)]
    {
      stack[idx] := stack[idx].(status := status);
    }

    /** `ecx_outframe` on one of the stacks: the transmit buffer is the same for both. */
    method OutFrame(idx: nat, stack: array<Slot>, sendOk: bool) returns (sent: Option<Packet>)
      requires Valid() && idx < primary.Length && stack.Length == primary.Length
      modifies stack
      ensures stack[..] == old(stack[..])[idx := old(stack[idx]).(status := if sendOk then Tx else Empty)]
      ensures sent == if sendOk then Some(tx[idx]) else None
    {
      SetSlot(stack, idx, Tx);
      sent := Some(tx[idx]);
      if !sendOk {
        SetSlot(stack, idx, Empty);
        sent := None;
      }
    }

    /** `ecx_outframe_red`: the frame on the primary cable and, if redundant, a dummy with the same index on the
      * secondary one. */
    method OutFrameRed(idx: nat, primOk: bool, secOk: bool) returns (sent: Option<Packet>, sent2: Option<Packet>)
      requires Valid() && idx < primary.Length
      modifies tx, primary, secondary, this`dummy
      ensures tx[..] == old(tx[..])[idx := old(tx[idx]).(sa := PRIM)]
      ensures primary[..] == old(primary[..])[idx := old(primary[idx]).(status := if primOk then Tx else Empty)]
      ensures secondary[..]
        == if redundant then old(secondary[..])[idx := old(secondary[idx]).(status := if secOk then Tx else Empty)]
           else old(secondary[..])
      ensures sent == if primOk then Some(tx[idx]) else None
      ensures sent2 == if redundant && secOk then Some(dummy) else None
      ensures dummy == if redundant then Packet(old(dummy).ethercat, SEC, old(dummy).frame[3 := idx]) else old(dummy)
    {
      tx[idx] := tx[idx].(sa := PRIM);
      sent := OutFrame(idx, primary, primOk);
      sent2 := None;
      if redundant {
        dummy := Packet(dummy.ethercat, SEC, dummy.frame[3 := idx]);
        SetSlot(secondary, idx, if secOk then Tx else Empty);
        sent2 := if secOk then Some(dummy) else None;
      }
    }

    /** `ecx_inframe` on one of the stacks, with what the socket has to offer. */
    static method InFrame(idx: nat, stack: array<Slot>, arrival: Option<Packet>) returns (rval: int, read: bool)
      requires idx < stack.Length
      modifies stack
      ensures Polled(stack[..], rval, read) == Poll(old(stack[..]), idx, arrival)
    {
      rval, read := NOFRAME, false;
      if stack[idx].status == Rcvd {
        rval := Wkc(stack[idx].frame);
        SetSlot(stack, idx, Complete);
      } else {
        read := true;
        if arrival.Some? {
          rval := OTHERFRAME;
          var p := arrival.value;
          if p.ethercat {
            var idxf := p.frame[3];
            if idxf == idx {
              stack[idx] := Slot(Complete, p.frame, p.sa);
              rval := Wkc(stack[idx].frame);
            } else if idxf < stack.Length && stack[idxf].status == Tx {
              stack[idxf] := Slot(Rcvd, p.frame, p.sa);
            }
          }
        }
      }
    }

    /** `ecx_waitinframe_red`: `script` is what the sockets offer until the timer expires, `again` what the
      * secondary one offers after a frame was sent again, `sendOk` whether that sending succeeds. */
    method WaitInFrameRed(idx: nat, script: seq<Arrivals>, sendOk: bool, again: seq<Option<Packet>>)
        returns (wkc: int, resent: Option<Packet>)
      requires Valid() && idx < primary.Length && script != [] && again != []
      modifies primary, secondary, tx
      ensures Valid()
      ensures Waited(Now(), wkc, resent) == Wait(old(Now()), idx, redundant, script, sendOk, again)
    {
      hide Poll, Round;
      resent := None;
      var wkc2;
      wkc, wkc2 := Gather(idx, script);
      if redundant {
        var primrx := if wkc > NOFRAME then primary[idx].sa else 0;
        var secrx := if wkc2 > NOFRAME then secondary[idx].sa else 0;
        if primrx == SEC && secrx == PRIM {
          primary[idx] := primary[idx].(frame := secondary[idx].frame);
          wkc := wkc2;
        }
        if (primrx == 0 && secrx == SEC) || (primrx == PRIM && secrx == SEC) {
          if primrx == PRIM && secrx == SEC {
            tx[idx] := tx[idx].(frame := primary[idx].frame);
          }
          resent := OutFrame(idx, secondary, sendOk);
          wkc2 := GatherAgain(idx, again);
          if wkc2 > NOFRAME {
            primary[idx] := primary[idx].(frame := secondary[idx].frame);
            wkc := wkc2;
          }
        }
      }
    }

    /** Its first loop. */
    method Gather(idx: nat, script: seq<Arrivals>) returns (wkc: int, wkc2: int)
      requires Valid() && idx < primary.Length && script != []
      modifies primary, secondary
      ensures Heard(primary[..], secondary[..], wkc, wkc2) ==
        Listen(Heard(old(primary[..]), old(secondary[..]), NOFRAME, if redundant then NOFRAME else 0), idx, redundant,
               script)
    {
      hide Poll;
      wkc, wkc2 := NOFRAME, if redundant then NOFRAME else 0;
      var k := 0;
      ghost var start := Heard(primary[..], secondary[..], wkc, wkc2);
      while k < |script| && (k == 0 || wkc <= NOFRAME || wkc2 <= NOFRAME)
        invariant k <= |script|
        invariant k > 0 && wkc > NOFRAME && wkc2 > NOFRAME ==>
          Heard(primary[..], secondary[..], wkc, wkc2) == Listen(start, idx, redundant, script)
        invariant k == 0 || wkc <= NOFRAME || wkc2 <= NOFRAME ==>
          Listen(Heard(primary[..], secondary[..], wkc, wkc2), idx, redundant, script[k..])
          == Listen(start, idx, redundant, script)
      {
        var was, was2 := wkc, wkc2;
        assert script[k..][0] == script[k] && script[k..][1..] == script[k + 1..];
        if was <= NOFRAME {
          var read;
          wkc, read := InFrame(idx, primary, script[k].prim);
        }
        if redundant && was2 <= NOFRAME {
          var read;
          wkc2, read := InFrame(idx, secondary, script[k].sec);
        }
        k := k + 1;
      }
    }

    /** Its second loop. */
    method GatherAgain(idx: nat, script: seq<Option<Packet>>) returns (wkc2: int)
      requires Valid() && idx < primary.Length && script != []
      modifies secondary
      ensures (secondary[..], wkc2) == ListenAgain(old(secondary[..]), idx, NOFRAME, script)
    {
      hide Poll;
      wkc2 := NOFRAME;
      var k := 0;
      ghost var start := secondary[..];
      while k < |script| && (k == 0 || wkc2 <= NOFRAME)
        invariant k <= |script|
        invariant k > 0 && wkc2 > NOFRAME ==> (secondary[..], wkc2) == ListenAgain(start, idx, NOFRAME, script)
        invariant k == 0 || wkc2 <= NOFRAME ==>
          ListenAgain(secondary[..], idx, wkc2, script[k..]) == ListenAgain(start, idx, NOFRAME, script)
      {
        assert script[k..][0] == script[k] && script[k..][1..] == script[k + 1..];
        var read;
        wkc2, read := InFrame(idx, secondary, script[k]);
        k := k + 1;
      }
    }
  }
}
