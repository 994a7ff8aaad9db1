/** What the driver and the cyclic exchange read from a frame that came back: index, counters and data are where the
  * datagrams have them. */
module FrameCounters {
  import opened Basics
  import D = Datagrams
  import N = Nicdrv
  import P = ProcessData
  import R = Redundancy
  import S = Segments

  /** A received frame of the given datagrams that fits the length field. */
  ghost predicate Holds(f: N.Frame, ds: seq<D.Datagram>) {
    ds != [] && D.ValidAll(ds) && D.Total(ds) < 0x1000 && f == D.Frame(ds)
  }

  function Last(ds: seq<D.Datagram>): D.Datagram
    requires ds != []
  {
    ds[|ds| - 1]
  }

  /** The driver takes the index of the first datagram for that of the frame, and returns the counter of the last. */
  lemma CounterRead(f: N.Frame, ds: seq<D.Datagram>)
    requires Holds(f, ds)
    ensures N.Wkc(f) == Last(ds).wkc && f[2] == ds[0].command && f[3] == ds[0].index
  {
    D.CounterLocated(ds);
    D.FrameApart(ds);
    hide D.Frame, D.Flat, D.Total;
    assert f[2] == f[2..8][0] && f[3] == f[2..8][1];
    CounterBytes(f);
  }

  lemma CounterBytes(f: N.Frame)
    requires D.Word(f, 0) % 0x1000 + 2 == |f|
    ensures N.Wkc(f) == D.Word(f, D.Word(f, 0) % 0x1000)
  {
  }

  /** A poll that reads the frame, or finds it stored, returns the counter of its last datagram. */
  lemma PollReturns(slots: seq<N.Slot>, idx: nat, arrival: Option<N.Packet>, f: N.Frame, sa: nat, ds: seq<D.Datagram>)
    requires idx < |slots| && Holds(f, ds) && ds[0].index == idx
    requires (slots[idx].status == N.Rcvd && slots[idx].frame == f && slots[idx].sa == sa)
      || (slots[idx].status != N.Rcvd && arrival == Some(N.Packet(true, sa, f)))
    ensures N.Poll(slots, idx, arrival).rval == Last(ds).wkc
    ensures N.Poll(slots, idx, arrival).slots == slots[idx := N.Slot(N.Complete, f, sa)]
  {
    CounterRead(f, ds);
    hide D.Frame, D.Total, N.Wkc, D.ValidAll;
  }

  /** A poll that finds nothing returns -1; one that reads a frame for somebody else returns -2, and the frame is stored
    * exactly if a slot waits for it. */
  lemma PollMisses(slots: seq<N.Slot>, idx: nat, arrival: Option<N.Packet>)
    requires idx < |slots| && slots[idx].status != N.Rcvd
    requires arrival.Some? ==> !arrival.value.ethercat || arrival.value.frame[3] != idx
    ensures var p := N.Poll(slots, idx, arrival);
      if arrival.None? then p.rval == -1 && p.slots == slots
      else
        && p.rval == -2
        && var a, j := arrival.value, arrival.value.frame[3];
          p.slots == if a.ethercat && j < |slots| && slots[j].status == N.Tx
                     then slots[j := N.Slot(N.Rcvd, a.frame, a.sa)] else slots
  {
  }

  /** And so does the wait on a redundant line, whatever is broken: if the frame processed by all slaves still connected
    * holds these datagrams, the counter returned is that of the last of them. */
  lemma WaitReturns<S(!new)>(ring: R.Ring<S>, memory: seq<S>, line: R.Line, s: N.State, idx: nat, dummy: N.Packet,
                             script: seq<N.Arrivals>, again: seq<Option<N.Packet>>, ds: seq<D.Datagram>)
    requires R.UnderWay(ring, memory, line, s, idx, dummy, script) && line != R.Broken(0, ring.n)
    requires var t, w := R.SendBoth(ring, memory, line, s.tx[idx], dummy), N.Wait(s, idx, true, script, true, again);
      w.resent.Some? ==> R.Own(again, idx) == R.AsSeq(R.AfterResend(ring, t.memory, line, w.resent).atSec)
    requires Holds(R.Reached(ring, memory, line, s.tx[idx].frame).1, ds)
    ensures var w := N.Wait(s, idx, true, script, true, again);
      Holds(w.state.prim[idx].frame, ds) && w.wkc == Last(ds).wkc
  {
    R.BreakHidden(ring, memory, line, s, idx, dummy, script, again);
    CounterRead(R.Reached(ring, memory, line, s.tx[idx].frame).1, ds);
    hide R.UnderWay, R.SendBoth, N.Wait, R.Own, R.AfterResend, R.Reached, Holds;
  }

  /** What was sent with a clock datagram behind: data and counter of the first datagram, and the clock's data 24 bytes
    * behind the length of the first. */
  lemma ClockFrame(f: N.Frame, d: D.Datagram, c: D.Datagram)
    requires Holds(f, [d, c])
    ensures var n := |d.data|;
      && |f| == n + 24 + |c.data| + 2 && f[12..12 + n] == d.data && D.Word(f, 12 + n) == d.wkc
      && f[n + 24..n + 24 + |c.data|] == c.data && N.Wkc(f) == c.wkc
    ensures forall p: P.Datagram, idx: nat :: p.clock && p.length == |d.data| ==>
      P.EntryFor(p, idx).dcoffset == |d.data| + 24
  {
    CounterRead(f, [d, c]);
    TwoImages(d, c);
    D.Fields(d);
    D.Fields(c);
    D.ImageLength(d);
    D.ImageLength(c);
    var n := |d.data|;
    hide D.Frame, D.Datagram.Image, Le16;
    assert f[2..] == d.Image() + c.Image();
    assert f[12..12 + n] == d.Image()[10..10 + n];
    assert f[12 + n..14 + n] == d.Image()[10 + n..12 + n];
    assert f[n + 24..n + 24 + |c.data|] == c.Image()[10..10 + |c.data|];
    D.WordRoundTrip(f, 12 + n, d.wkc);
  }

  lemma TwoImages(d: D.Datagram, c: D.Datagram)
    ensures |D.Frame([d, c])| >= 2 && D.Frame([d, c])[2..] == d.Image() + c.Image()
  {
    assert [d, c][1..] == [c] && [c][1..] == [];
    assert D.Flat([c]) == c.Image();
  }

  /** The bounds of the segments are those of the line: with 14 bytes of Ethernet header and four of check sequence, the
    * frame of a segment is no longer than 1518 bytes exactly if the segment keeps its bound, the first one sharing its
    * frame with the clock. */
  lemma FramesFit(d: D.Datagram, c: D.Datagram)
    requires |c.data| == 8
    ensures 14 + |D.Frame([d])| + 4 <= 1518 <==> |d.data| <= S.MAX_LRW_DATA
    ensures 14 + |D.Frame([d, c])| + 4 <= 1518 <==> |d.data| <= S.FIRST_BOUND
  {
    D.ImageLength(d);
    D.ImageLength(c);
    TwoImages(d, c);
    assert [d][1..] == [] && D.Flat([d]) == d.Image();
    hide D.Flat, D.Datagram.Image;
    assert |D.Frame([d])| == 2 + |D.Flat([d])| && |D.Frame([d, c])| == 2 + |d.Image()| + |c.Image()|;
  }

  /** Without redundancy: the own frame, when it is read in between any others, is returned with that counter. */
  lemma {:induction false} PlainWait(s: N.State, idx: nat, script: seq<N.Arrivals>, f: N.Frame, sa: nat,
                                     ds: seq<D.Datagram>)
    requires s.Valid() && idx < |s.prim| && s.prim[idx].status == N.Tx && Holds(f, ds) && ds[0].index == idx
    requires R.Own(R.Prims(script), idx) == [N.Packet(true, sa, f)]
    ensures var w := N.Wait(s, idx, false, script, false, []);
      && w.wkc == Last(ds).wkc && w.state.prim[idx] == N.Slot(N.Complete, f, sa) && w.state.tx == s.tx
      && w.resent.None?
    decreases |script|
  {
    PlainListen(N.Heard(s.prim, s.sec, N.NOFRAME, 0), idx, script, f, sa, ds);
    hide N.Listen, Holds, R.Own, R.Prims;
  }

  lemma {:induction false} PlainListen(h: N.Heard, idx: nat, script: seq<N.Arrivals>, f: N.Frame, sa: nat,
                                       ds: seq<D.Datagram>)
    requires idx < |h.prim| == |h.sec| && h.wkc <= N.NOFRAME && h.wkc2 == 0 && h.prim[idx].status == N.Tx
    requires Holds(f, ds) && ds[0].index == idx && R.Own(R.Prims(script), idx) == [N.Packet(true, sa, f)]
    ensures var h' := N.Listen(h, idx, false, script);
      h'.wkc == Last(ds).wkc && h'.prim[idx] == N.Slot(N.Complete, f, sa)
    decreases |script|
  {
    CounterRead(f, ds);
    hide Holds, N.Wkc;
    var h', column := N.Round(h, idx, false, script[0]), R.Prims(script);
    assert column[0] == script[0].prim && column[1..] == R.Prims(script[1..]);
    if column[0].Some? && N.For(column[0].value, idx) {
      assert R.Own(column, idx)[0] == column[0].value;
    } else {
      PlainListen(h', idx, script[1..], f, sa, ds);
    }
  }
}
