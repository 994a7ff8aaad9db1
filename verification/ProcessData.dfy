/** The cyclic exchange of process data: `ecx_send_processdata_group`, `ecx_receive_processdata_group` and
  * the index stack that ties the two together, for a group mapped without overlap. */
module ProcessData {
  import opened Basics
  import opened Segments

  datatype Command = Lrd | Lwr | Lrw

  /** A process data datagram: its logical address, the place of its bytes in the IOmap, and whether the
    * clock datagram travels with it. */
  datatype Datagram = Datagram(command: Command, logAddr: nat, offset: nat, length: nat, clock: bool)

  /** What came back for a datagram: its bytes, its own working counter, and the last one in the frame. */
  datatype Reply = NoReply | Reply(command: Command, data: seq<Byte>, wkc: nat, lastWkc: nat)

  /** A frame on its way out: the process data datagram and the bytes it carries. */
  datatype Frame = Frame(datagram: Datagram, bytes: seq<Byte>)

  /** An entry of the index stack. */
  datatype Entry = Entry(idx: nat, data: nat, length: nat, dcoffset: nat)

  /** A mapped group; `segments` are the entries of `IOsegment` in use, `status` is `mbxstatuslength`. */
  datatype GroupIo = GroupIo(start: nat, obytes: nat, ibytes: nat, status: nat, segments: seq<nat>,
                             isegment: nat, ioffset: nat, blockLRW: bool, hasdc: bool)
  {
    function Length(): nat {
      obytes + ibytes + status
    }

    /** The most frames that a cycle may take. */
    function MostFrames(): nat {
      (if blockLRW then 2 else 1) * |segments|
    }

    /** What mapping a group establishes. */
    ghost predicate Valid() {
      && Sum(segments) == Length() && isegment < |segments| && ioffset <= segments[isegment]
      && Sum(segments[..isegment]) + ioffset == obytes
      && forall k :: 0 <= k < |segments| - 1 ==> segments[k] > 0
    }

    /** The segments from the first input on. */
    function ReadSegments(): (rs: seq<nat>)
      requires isegment < |segments| && ioffset <= segments[isegment]
      ensures rs != [] && |rs| <= |segments|
    {
      [segments[isegment] - ioffset] + segments[isegment + 1..]
    }

    /** Without combined accesses: what is read, and what is written. */
    function Reads(): seq<Datagram>
      requires isegment < |segments| && ioffset <= segments[isegment]
    {
      if ibytes == 0 then []
      else Carry(Lrd, Chunks(ReadSegments(), ibytes), start + obytes, obytes, hasdc)
    }

    function Writes(): seq<Datagram> {
      if obytes == 0 then []
      else Carry(Lwr, CappedChunks(segments, obytes), start, 0, hasdc && ibytes == 0)
    }

    /** The datagrams of one cycle. */
    function Plan(): seq<Datagram>
      requires isegment < |segments| && ioffset <= segments[isegment]
    {
      if Length() == 0 then []
      else if blockLRW then Reads() + Writes()
      else Carry(Lrw, Chunks(segments, Length()), start, 0, hasdc)
    }
  }

  // ---------- which datagrams are sent ----------

  /** The lengths sent by a loop that takes segment after segment until exactly nothing of `length` is left. */
  function Chunks(segments: seq<nat>, length: int): (cs: seq<nat>)
    ensures |cs| <= |segments| && cs == segments[..|cs|]
  {
    if segments == [] then []
    else if length == segments[0] then [segments[0]]
    else [segments[0]] + Chunks(segments[1..], length - segments[0])
  }

  /** The same, but never sending more than is left. */
  function CappedChunks(segments: seq<nat>, length: nat): (cs: seq<nat>)
    ensures |cs| <= |segments|
  {
    if segments == [] then []
    else if length <= segments[0] then [length]
    else [segments[0]] + CappedChunks(segments[1..], length - segments[0])
  }

  /** The datagrams carrying the chunks, from logical address `logAddr` and IOmap offset `offset` on. */
  function Carry(command: Command, cs: seq<nat>, logAddr: nat, offset: nat, clock: bool): (ds: seq<Datagram>)
    ensures |ds| == |cs|
  {
    if cs == [] then []
    else
      [Datagram(command, logAddr, offset, cs[0], clock)]
      + Carry(command, cs[1..], logAddr + cs[0], offset + cs[0], false)
  }

  lemma {:induction false} SumFirst(s: seq<nat>)
    requires s != []
    ensures Sum(s) == s[0] + Sum(s[1..])
    decreases |s|
  {
    if |s| > 1 {
      var init := s[..|s| - 1];
      SumFirst(init);
      assert init[1..] == s[1..][..|s| - 2];
    } else {
      assert s[..0] == [];
    }
  }

  /** Datagrams follow one another in the logical address space and in the IOmap alike. */
  lemma {:induction false} CarryAt(command: Command, cs: seq<nat>, logAddr: nat, offset: nat, clock: bool, k: nat)
    requires k < |cs|
    ensures var d := Carry(command, cs, logAddr, offset, clock)[k];
      d == Datagram(command, logAddr + Sum(cs[..k]), offset + Sum(cs[..k]), cs[k], clock && k == 0)
    decreases k
  {
    if k > 0 {
      CarryAt(command, cs[1..], logAddr + cs[0], offset + cs[0], false, k - 1);
      SumFirst(cs[..k]);
      assert cs[..k][1..] == cs[1..][..k - 1];
    }
  }

  /** If the segments add up to the length and only the last may be empty, the loop sends them all, except
    * an empty last one, and what it sends adds up to the length. */
  lemma {:induction false} ChunksComplete(segments: seq<nat>, length: nat)
    requires length > 0 && Sum(segments) == length
    requires forall k :: 0 <= k < |segments| - 1 ==> segments[k] > 0
    ensures Sum(Chunks(segments, length)) == length
    ensures |Chunks(segments, length)| == if segments[|segments| - 1] == 0 then |segments| - 1 else |segments|
    decreases |segments|
  {
    SumFirst(segments);
    if length == segments[0] {
      SumZero(segments[1..]);
    } else {
      ChunksComplete(segments[1..], length - segments[0]);
      SumFirst(Chunks(segments, length));
      assert Chunks(segments, length)[1..] == Chunks(segments[1..], length - segments[0]);
    }
  }

  lemma {:induction false} SumZero(s: seq<nat>)
    requires Sum(s) == 0
    ensures forall k :: 0 <= k < |s| ==> s[k] == 0
  {
    if s != [] {
      SumZero(s[..|s| - 1]);
    }
  }

  /** Sending stops at `length` if a segment ends there, and otherwise goes on to the last segment. */
  lemma {:induction false} ChunksStop(segments: seq<nat>, length: int)
    ensures var cs := Chunks(segments, length);
      (|cs| < |segments| ==> |cs| > 0 && Sum(cs) == length)
      && forall k :: 0 < k < |cs| ==> Sum(segments[..k]) != length
    decreases |segments|
  {
    if segments != [] {
      var cs := Chunks(segments, length);
      SumFirst(cs);
      if length != segments[0] {
        ChunksStop(segments[1..], length - segments[0]);
        assert cs[1..] == Chunks(segments[1..], length - segments[0]);
      }
      forall k | 0 < k < |cs| ensures Sum(segments[..k]) != length {
        SumFirst(segments[..k]);
        assert segments[..k][1..] == segments[1..][..k - 1];
        if k == 1 {
          assert segments[1..][..0] == [];
        }
      }
    }
  }

  lemma {:induction false} CappedComplete(segments: seq<nat>, length: nat)
    requires Sum(segments) >= length > 0
    ensures Sum(CappedChunks(segments, length)) == length
    decreases |segments|
  {
    SumFirst(segments);
    var cs := CappedChunks(segments, length);
    SumFirst(cs);
    if length > segments[0] {
      CappedComplete(segments[1..], length - segments[0]);
      assert cs[1..] == CappedChunks(segments[1..], length - segments[0]);
    }
  }

  // ---------- what the receiver makes of the replies ----------

  /** The IOmap, the working counter so far, and whether any frame came back. */
  datatype Received = Received(iomap: seq<Byte>, wkc: nat, valid: bool)

  ghost predicate Fits(e: Entry, r: Reply, size: nat) {
    e.data + e.length <= size && (r.Reply? ==> |r.data| == e.length)
  }

  /** One pulled entry. The clock frame sets the working counter, every other adds to it. */
  function ReceiveOne(st: Received, e: Entry, r: Reply): (st': Received)
    requires Fits(e, r, |st.iomap|)
    ensures |st'.iomap| == |st.iomap|
  {
    if r.NoReply? then st
    else if r.command != Lwr then
      Received(Overwrite(st.iomap, e.data, r.data), if e.dcoffset > 0 then r.wkc else st.wkc + r.lastWkc, true)
    else
      Received(st.iomap, if e.dcoffset > 0 then r.wkc * 2 else st.wkc + r.lastWkc * 2, true)
  }

  /** What came back for each entry. */
  function Answered(es: seq<Entry>, answers: nat -> Reply): (rs: seq<Reply>)
    ensures |rs| == |es|
  {
    seq(|es|, k requires 0 <= k < |es| => answers(es[k].idx))
  }

  function ReceiveAll(st: Received, es: seq<Entry>, rs: seq<Reply>): (st': Received)
    requires |es| <= |rs| && forall k :: 0 <= k < |es| ==> Fits(es[k], rs[k], |st.iomap|)
    ensures |st'.iomap| == |st.iomap|
    decreases |es|
  {
    if es == [] then st
    else ReceiveOne(ReceiveAll(st, es[..|es| - 1], rs), es[|es| - 1], rs[|es| - 1])
  }

  /** Each datagram is given the answer to the frame with the index it was sent under. */
  lemma AnsweredByIndex(ds: seq<Datagram>, indices: seq<nat>, answers: nat -> Reply, rs: seq<Reply>)
    requires |rs| == |ds| <= |indices| && forall k :: 0 <= k < |ds| ==> rs[k] == answers(indices[k])
    ensures Answered(Entries(ds, indices), answers) == rs
  {
  }

  /** The stack entries for a run of datagrams, sent under the given indices. */
  function Entries(ds: seq<Datagram>, indices: seq<nat>): (es: seq<Entry>)
    requires |ds| <= |indices|
    ensures |es| == |ds|
  {
    seq(|ds|, k requires 0 <= k < |ds| => EntryFor(ds[k], indices[k]))
  }

  /** The clock datagram's data lies 24 bytes behind the process data: working counter, header and all. */
  function EntryFor(d: Datagram, idx: nat): Entry {
    Entry(idx, d.offset, d.length, if d.clock then d.length + 24 else 0)
  }

  /** What is put on the wire for a datagram: reads go out blank. */
  function FrameFor(d: Datagram, iomap: seq<Byte>): Frame
    requires d.offset + d.length <= |iomap|
  {
    Frame(d, if d.command == Lrd then seq(d.length, _ => 0) else iomap[d.offset..d.offset + d.length])
  }

  /** The IOmap with the mailbox status bytes behind the inputs at zero. */
  function Cleared(g: GroupIo, m: seq<Byte>): (r: seq<Byte>)
    requires g.Length() <= |m|
    ensures |r| == |m|
  {
    Overwrite(m, g.obytes + g.ibytes, Zeros(g.status))
  }

  class Exchange {
    const iomap: array<Byte>
    const idx: array<nat>
    const data: array<nat>
    const length: array<nat>
    const dcoffset: array<nat>
    var pushed: nat
    var pulled: nat

    ghost predicate Valid()
      reads this
    {
      && idx.Length == data.Length == length.Length == dcoffset.Length
      && idx != data && idx != length && idx != dcoffset && data != length && data != dcoffset && length != dcoffset
      && iomap as object !in {idx as object, data, length, dcoffset}
      && pulled <= pushed <= idx.Length
    }

    /** The entries pushed so far. */
    ghost function Stack(): (es: seq<Entry>)
      requires Valid()
      reads this, idx, data, length, dcoffset
      ensures |es| == pushed
    {
      seq(pushed, k requires 0 <= k < pushed && Valid() reads this, idx, data, length, dcoffset
                  => Entry(idx[k], data[k], length[k], dcoffset[k]))
    }

    constructor (size: nat, maxbuf: nat)
      ensures Valid() && Stack() == [] && iomap.Length == size && idx.Length == maxbuf && pulled == 0
      ensures fresh({iomap as object, idx, data, length, dcoffset})
    {
      iomap := new Byte[size];
      idx := new nat[maxbuf];
      data := new nat[maxbuf];
      length := new nat[maxbuf];
      dcoffset := new nat[maxbuf];
      pushed := 0;
      pulled := 0;
    }

    /** `ecx_pushindex`: silently ignored when the stack is full. */
    method PushIndex(e: Entry)
      requires Valid()
      modifies this`pushed, idx, data, length, dcoffset
      ensures Valid()
      ensures Stack() == if old(pushed) < idx.Length then old(Stack()) + [e] else old(Stack())
    {
      if pushed < idx.Length {
        idx[pushed] := e.idx;
        data[pushed] := e.data;
        length[pushed] := e.length;
        dcoffset[pushed] := e.dcoffset;
        pushed := pushed + 1;
      }
    }

    /** `ecx_pullindex`: the next stack location, or -1. */
    method PullIndex() returns (pos: int)
      requires Valid()
      modifies this`pulled
      ensures Valid()
      ensures old(pulled) < pushed ==> pos == old(pulled) && pulled == old(pulled) + 1
      ensures old(pulled) == pushed ==> pos == -1 && pulled == old(pulled)
    {
      pos := -1;
      if pulled < pushed {
        pos := pulled;
        pulled := pulled + 1;
      }
    }

    /** Builds one frame and pushes its entry. */
    method SendOne(d: Datagram, index: nat) returns (frame: Frame)
      requires Valid() && pushed < idx.Length && d.offset + d.length <= iomap.Length
      modifies this`pushed, idx, data, length, dcoffset
      ensures Valid() && frame == FrameFor(d, iomap[..]) && Stack() == old(Stack()) + [EntryFor(d, index)]
      ensures iomap[..] == old(iomap[..])
    {
      var bytes: seq<Byte> := if d.command == Lrd then seq(d.length, _ => 0) else iomap[d.offset..d.offset + d.length];
      frame := Frame(d, bytes);
      PushIndex(EntryFor(d, index));
    }

    /** The loop shared by reads, writes and combined accesses. `capped` is the variant for writes, which
      * never sends more than is left. */
    method SendSegments(command: Command, segments: seq<nat>, amount: nat, capped: bool, start: nat, at: nat,
                        clock: bool, indices: seq<nat>) returns (frames: seq<Frame>)
      requires Valid() && segments != [] && pushed + |segments| <= idx.Length && |segments| <= |indices|
      requires amount > 0 && at + (if capped then amount else Sum(segments)) <= iomap.Length
      modifies this`pushed, idx, data, length, dcoffset
      ensures Valid() && iomap[..] == old(iomap[..])
      ensures var job := Job(command, segments, amount, capped, start, at, clock, indices, iomap[..], old(Stack()));
        var ds := job.Datagrams();
        && |ds| <= |indices| && InMap(ds, iomap.Length)
        && frames == Frames(ds, iomap[..]) && |frames| == |ds|
        && Stack() == old(Stack()) + Entries(ds, indices)
    {
      hide Carry, Chunks, CappedChunks, Frames, Entries, InMap, Sum, ToSend, Job.Progress, Job.Datagrams, Job.Lengths;
      ghost var j := Job(command, segments, amount, capped, start, at, clock, indices, iomap[..], Stack());
      j.Begin();
      hide *;
      frames := [];
      var left: int, logAdr: nat, place: nat, first: bool, current: nat := amount, start, at, clock, 0;
      while left != 0 && current < |segments|
        invariant Valid() && pushed == |j.before| + current && current <= |segments| && iomap[..] == j.iomap
        invariant j.Progress(current, left, logAdr, place, first, frames, Stack())
        decreases |segments| - current
      {
        var sublength := if capped && left < segments[current] then left else segments[current];
        j.Next(current, left, logAdr, place, first, frames, Stack());
        var d := Datagram(command, logAdr, place, sublength, first);
        var f := SendOne(d, indices[current]);
        frames := frames + [f];
        first := false;
        current := current + 1;
        left := left - sublength;
        logAdr := logAdr + sublength;
        place := place + sublength;
      }
      j.End(current, left, logAdr, place, first, frames, Stack());
    }

    /** `ecx_clearmbxstatus` */
    method ClearStatus(g: GroupIo)
      requires Valid() && g.Length() <= iomap.Length
      modifies iomap
      ensures Valid() && iomap[..] == Cleared(g, old(iomap[..]))
    {
      if g.status > 0 {
        for k := 0 to g.status
          invariant Valid()
          invariant iomap[..] == Overwrite(old(iomap[..]), g.obytes + g.ibytes, Zeros(k))
        {
          iomap[g.obytes + g.ibytes + k] := 0;
        }
      }
    }

    /** `ecx_send_processdata_group`. */
    method Send(g: GroupIo, indices: seq<nat>) returns (sent: bool, frames: seq<Frame>)
      requires Valid() && g.Valid() && g.Length() <= iomap.Length
      requires pushed + g.MostFrames() <= idx.Length && g.MostFrames() <= |indices|
      modifies this`pushed, iomap, idx, data, length, dcoffset
      ensures Valid() && iomap[..] == Cleared(g, old(iomap[..]))
      ensures sent == (g.Length() > 0)
      ensures var ds := g.Plan();
        && |ds| <= |indices| && InMap(ds, iomap.Length) && frames == Frames(ds, iomap[..])
        && Stack() == old(Stack()) + Entries(ds, indices)
      ensures OutputsCarried(g, iomap[..], frames) && Blank(frames) && Ordered(g, frames)
      ensures |Stack()| == |old(Stack())| + |frames| && |frames| <= |indices|
      ensures forall k :: 0 <= k < |frames| ==>
        var e, d := Stack()[|old(Stack())| + k], frames[k].datagram;
        && e.idx == indices[k] && e.data == d.logAddr - g.start && e.length == |frames[k].bytes|
        && e.dcoffset == if d.clock then |frames[k].bytes| + 24 else 0
    {
      hide Carry, Chunks, CappedChunks, Sum, Frames, Entries, InMap, Cleared, OutputsCarried, Blank, Ordered;
      ClearStatus(g);
      hide Stack;
      frames, sent := [], false;
      PlanInMap(g);
      NothingSent(g, indices, iomap[..], Stack());
      if g.Length() > 0 {
        sent := true;
        if g.blockLRW {
          frames := SendSplit(g, indices);
        } else {
          frames := SendSegments(Lrw, g.segments, g.Length(), false, g.start, 0, g.hasdc, indices);
        }
      }
      SentRight(g, iomap[..], indices);
    }

    /** The reads, if there are inputs, and then the writes, if there are outputs. */
    method SendSplit(g: GroupIo, indices: seq<nat>) returns (frames: seq<Frame>)
      requires Valid() && g.Valid() && g.Length() <= iomap.Length && g.blockLRW
      requires pushed + g.MostFrames() <= idx.Length && g.MostFrames() <= |indices|
      modifies this`pushed, idx, data, length, dcoffset
      ensures Valid() && iomap[..] == old(iomap[..])
      ensures var ds := g.Reads() + g.Writes();
        && |ds| <= |indices| && InMap(ds, iomap.Length) && frames == Frames(ds, iomap[..])
        && Stack() == old(Stack()) + Entries(ds, indices)
    {
      hide Carry, Chunks, CappedChunks, Sum, Frames, Entries, Stack, InMap;
      ReadSegmentsSum(g);
      NothingSent(g, indices, iomap[..], Stack());
      ghost var before, lrds, lwrs := Stack(), g.Reads(), g.Writes();
      frames := [];
      var first := g.hasdc;
      var used := 0;
      if g.ibytes > 0 {
        frames := SendSegments(Lrd, g.ReadSegments(), g.ibytes, false, g.start + g.obytes, g.obytes, first, indices);
        first := false;
        used := |frames|;
      }
      ghost var middle := Stack();
      assert used == |lrds| && middle == before + Entries(lrds, indices) && InMap(lrds, iomap.Length);
      var more := [];
      if g.obytes > 0 {
        more := SendSegments(Lwr, g.segments, g.obytes, true, g.start, 0, first, indices[used..]);
      }
      assert InMap(lwrs, iomap.Length) && more == Frames(lwrs, iomap[..]);
      assert Stack() == middle + Entries(lwrs, indices[used..]);
      EntriesConcat(lrds, lwrs, indices);
      FramesConcat(lrds, lwrs, iomap[..]);
      frames := frames + more;
    }

    /** `ecx_receive_processdata_group`; `answers(i)` is what came back in the frame with index `i`. */
    method Receive(answers: nat -> Reply) returns (wkc: int)
      requires Valid() && pulled == 0
      requires forall k :: 0 <= k < pushed ==> Fits(Stack()[k], answers(Stack()[k].idx), iomap.Length)
      modifies this`pushed, this`pulled, iomap
      ensures Valid() && Stack() == [] && pulled == 0
      ensures var replies := Answered(old(Stack()), answers);
        var r := ReceiveAll(Received(old(iomap[..]), 0, false), old(Stack()), replies);
        iomap[..] == r.iomap && wkc == if r.valid then r.wkc else -1
    {
      ghost var replies := Answered(Stack(), answers);
      hide ReceiveAll;
      var validWkc := false;
      wkc := 0;
      ghost var es, start := Stack(), Received(iomap[..], 0, false);
      assert es[..0] == [];
      ReceiveNothing(start, replies);
      var pos := PullIndex();
      while pos >= 0
        invariant Valid() && Stack() == es && 0 <= wkc
        invariant pos >= 0 ==> pos + 1 == pulled <= pushed
        invariant pos < 0 ==> pulled == pushed
        invariant var done := if pos >= 0 then pos else pushed;
          Received(iomap[..], wkc, validWkc) == ReceiveAll(start, es[..done], replies)
        decreases pushed - pulled, pos
      {
        ReceiveNext(start, es, replies, pos);
        var r := answers(idx[pos]);
        if r.Reply? {
          if r.command != Lwr {
            CopyInto(iomap, data[pos], r.data);
            wkc := if dcoffset[pos] > 0 then r.wkc else wkc + r.lastWkc;
          } else {
            wkc := if dcoffset[pos] > 0 then r.wkc * 2 else wkc + r.lastWkc * 2;
          }
          validWkc := true;
        }
        pos := PullIndex();
      }
      assert es[..pushed] == es;
      pushed := 0;
      pulled := 0;
      if !validWkc {
        wkc := -1;
      }
    }
  }

  // ---------- what the frames carry ----------

  /** The frame writes to the logical byte at `at`. */
  predicate WritesTo(f: Frame, at: int) {
    f.datagram.command != Lrd && f.datagram.logAddr <= at < f.datagram.logAddr + |f.bytes|
  }

  /** Exactly one of the frames does, and it brings `v` there. */
  ghost predicate WrittenOnce(frames: seq<Frame>, at: int, v: Byte) {
    exists k :: 0 <= k < |frames| && WritesTo(frames[k], at) && frames[k].bytes[at - frames[k].datagram.logAddr] == v
      && forall j :: 0 <= j < |frames| && WritesTo(frames[j], at) ==> j == k
  }

  /** Every byte of the outputs goes to its logical address, once and with the value it has in the IOmap. With combined
    * accesses so does everything behind them; otherwise nothing else is written. */
  ghost predicate OutputsCarried(g: GroupIo, iomap: seq<Byte>, frames: seq<Frame>) {
    var n := if g.blockLRW then g.obytes else g.Length();
    && n <= |iomap|
    && (forall a :: 0 <= a < n ==> WrittenOnce(frames, g.start + a, iomap[a]))
    && forall k, at :: 0 <= k < |frames| && WritesTo(frames[k], at) ==> g.start <= at < g.start + n
  }

  /** Reads go out as zeros. */
  ghost predicate Blank(frames: seq<Frame>) {
    forall k, j :: 0 <= k < |frames| && frames[k].datagram.command == Lrd && 0 <= j < |frames[k].bytes| ==>
      frames[k].bytes[j] == 0
  }

  /** Each frame is as long as its datagram says, the place of its bytes in the IOmap is that of its logical address in
    * the group, and the clock datagram travels with the first frame of a group with clocks, and with no other. */
  ghost predicate Ordered(g: GroupIo, frames: seq<Frame>) {
    forall k :: 0 <= k < |frames| ==>
      var d := frames[k].datagram;
      && |frames[k].bytes| == d.length && d.offset == d.logAddr - g.start && (d.clock <==> k == 0 && g.hasdc)
      && (d.command == Lrw <==> !g.blockLRW)
  }

  lemma NothingSent(g: GroupIo, indices: seq<nat>, iomap: seq<Byte>, before: seq<Entry>)
    ensures InMap([], |iomap|) && Frames([], iomap) == [] && Entries([], indices) == [] && before + [] == before
  {
  }

  lemma EntriesConcat(a: seq<Datagram>, b: seq<Datagram>, indices: seq<nat>)
    requires |a| + |b| <= |indices|
    ensures Entries(a + b, indices) == Entries(a, indices) + Entries(b, indices[|a|..])
  {
  }

  lemma FramesConcat(a: seq<Datagram>, b: seq<Datagram>, iomap: seq<Byte>)
    requires InMap(a, |iomap|) && InMap(b, |iomap|)
    ensures InMap(a + b, |iomap|) && Frames(a + b, iomap) == Frames(a, iomap) + Frames(b, iomap)
  {
  }

  /** Everything a well mapped group sends lies in its part of the IOmap. */
  lemma PlanInMap(g: GroupIo)
    requires g.Valid()
    ensures InMap(g.Plan(), g.Length()) && |g.Plan()| <= g.MostFrames()
  {
    hide Carry, Chunks, CappedChunks, Sum;
    ReadSegmentsSum(g);
    if g.blockLRW {
      CarryInMap(Lrd, g.ReadSegments(), g.ibytes, false, g.start + g.obytes, g.obytes, g.hasdc, g.Length());
      CarryInMap(Lwr, g.segments, g.obytes, true, g.start, 0, g.hasdc && g.ibytes == 0, g.Length());
    } else {
      CarryInMap(Lrw, g.segments, g.Length(), false, g.start, 0, g.hasdc, g.Length());
    }
  }

  lemma {:induction false} SumConcat(a: seq<nat>, b: seq<nat>)
    ensures Sum(a + b) == Sum(a) + Sum(b)
    decreases |b|
  {
    if b == [] {
      assert a + b == a;
    } else {
      var n := |b| - 1;
      SumConcat(a, b[..n]);
      assert a + b == (a + b[..n]) + [b[n]];
      SumAppend(a + b[..n], b[n]);
    }
  }

  /** The read segments are what lies behind the outputs. */
  lemma ReadSegmentsSum(g: GroupIo)
    requires g.Valid()
    ensures Sum(g.ReadSegments()) == g.ibytes + g.status
  {
    var s, i := g.segments, g.isegment;
    assert s == s[..i] + s[i..];
    SumConcat(s[..i], s[i..]);
    SumFirst(s[i..]);
    assert s[i..][1..] == s[i + 1..];
    SumFirst(g.ReadSegments());
    assert g.ReadSegments()[1..] == s[i + 1..];
  }

  /** One run of the sending loop: what it is to send, from what IOmap, onto what stack. */
  datatype Job = Job(command: Command, segments: seq<nat>, amount: nat, capped: bool, start: nat, at: nat,
                     clock: bool, indices: seq<nat>, iomap: seq<Byte>, before: seq<Entry>)
  {
    function Lengths(): seq<nat> {
      if capped then CappedChunks(segments, amount) else Chunks(segments, amount)
    }

    function Datagrams(): (ds: seq<Datagram>)
      ensures |ds| <= |segments|
    {
      Carry(command, Lengths(), start, at, clock)
    }

    predicate Valid() {
      segments != [] && |segments| <= |indices| && amount > 0
      && at + (if capped then amount else Sum(segments)) <= |iomap|
    }

    /** `k` datagrams are sent. */
    ghost predicate Progress(k: nat, left: int, logAdr: nat, place: nat, first: bool, frames: seq<Frame>,
                             stack: seq<Entry>)
    {
      var cs, ds := Lengths(), Datagrams();
      && Valid() && k <= |cs| <= |segments| && (capped ==> left >= 0) && (left == 0 ==> k > 0)
      && cs[k..] == ToSend(segments, left, k, capped)
      && logAdr == start + Sum(cs[..k]) && place == at + Sum(cs[..k]) && first == (clock && k == 0)
      && InMap(ds, |iomap|) && frames == Frames(ds[..k], iomap) && stack == before + Entries(ds[..k], indices)
    }

    lemma Begin()
      requires Valid()
      ensures Progress(0, amount, start, at, clock, [], before)
    {
      CarryInMap(command, segments, amount, capped, start, at, clock, |iomap|);
      ToSendEnds(segments, amount, capped);
      FramesStart(Datagrams(), indices, iomap);
      assert before + [] == before;
      hide Carry, Chunks, CappedChunks, ToSend, Frames, Entries, InMap;
    }

    lemma Next(k: nat, left: int, logAdr: nat, place: nat, first: bool, frames: seq<Frame>, stack: seq<Entry>)
      requires Progress(k, left, logAdr, place, first, frames, stack) && left != 0 && k < |segments|
      ensures k < |indices|
      ensures var sub := if capped && left < segments[k] then left else segments[k];
        var d := Datagram(command, logAdr, place, sub, first);
        && sub >= 0 && place + sub <= |iomap|
        && Progress(k + 1, left - sub, logAdr + sub, place + sub, false,
                    frames + [FrameFor(d, iomap)], stack + [EntryFor(d, indices[k])])
    {
      hide Carry, Chunks, CappedChunks, ToSend, Frames, Entries, InMap, Sum, FrameFor, EntryFor, Lengths;
      var cs, ds := Lengths(), Datagrams();
      SendNext(command, cs, start, at, clock, segments, left, k, capped);
      FramesNext(ds, indices, iomap, k);
      var sub := if capped && left < segments[k] then left else segments[k];
      assert ds[k] == Datagram(command, logAdr, place, sub, first);
      assert frames + [FrameFor(ds[k], iomap)] == Frames(ds[..k + 1], iomap);
      assert stack + [EntryFor(ds[k], indices[k])] == before + Entries(ds[..k + 1], indices);
    }

    lemma End(k: nat, left: int, logAdr: nat, place: nat, first: bool, frames: seq<Frame>, stack: seq<Entry>)
      requires Progress(k, left, logAdr, place, first, frames, stack) && (left == 0 || k >= |segments|)
      ensures InMap(Datagrams(), |iomap|) && |Datagrams()| <= |indices|
      ensures frames == Frames(Datagrams(), iomap) && |frames| == |Datagrams()|
      ensures stack == before + Entries(Datagrams(), indices)
    {
      ToSendEnd(segments, left, k, capped);
      assert Lengths()[k..] == [];
      assert Datagrams()[..k] == Datagrams();
      hide Carry, Chunks, CappedChunks, ToSend, Frames, Entries, InMap, Sum;
    }
  }

  /** What the sending loop still has to send, when `k` segments are done and `left` bytes are left. */
  function ToSend(segments: seq<nat>, left: int, k: nat, capped: bool): seq<nat>
    requires k <= |segments| && (capped ==> left >= 0)
  {
    if left == 0 && k > 0 then []
    else if capped then CappedChunks(segments[k..], left)
    else Chunks(segments[k..], left)
  }

  lemma FramesStart(ds: seq<Datagram>, indices: seq<nat>, iomap: seq<Byte>)
    requires |ds| <= |indices| && InMap(ds, |iomap|)
    ensures Frames(ds[..0], iomap) == [] && Entries(ds[..0], indices) == []
    ensures ds[..|ds|] == ds
  {
  }

  /** One more datagram, for the frames, the stack and the bounds. */
  lemma FramesNext(ds: seq<Datagram>, indices: seq<nat>, iomap: seq<Byte>, k: nat)
    requires k < |ds| <= |indices| && InMap(ds, |iomap|)
    ensures InMap(ds[..k], |iomap|) && InMap(ds[..k + 1], |iomap|) && ds[k].offset + ds[k].length <= |iomap|
    ensures Frames(ds[..k + 1], iomap) == Frames(ds[..k], iomap) + [FrameFor(ds[k], iomap)]
    ensures Entries(ds[..k + 1], indices) == Entries(ds[..k], indices) + [EntryFor(ds[k], indices[k])]
  {
    hide FrameFor, EntryFor;
  }

  /** The next chunk is what the loop takes, and the datagram for it is the next one. */
  lemma SendNext(command: Command, cs: seq<nat>, start: nat, at: nat, clock: bool,
                 segments: seq<nat>, left: int, k: nat, capped: bool)
    requires k < |segments| && left != 0 && (capped ==> left >= 0)
    requires k <= |cs| && cs[k..] == ToSend(segments, left, k, capped)
    ensures var sub := if capped && left < segments[k] then left else segments[k];
      && k < |cs| && cs[k + 1..] == ToSend(segments, left - sub, k + 1, capped)
      && Sum(cs[..k + 1]) == Sum(cs[..k]) + sub
      && Carry(command, cs, start, at, clock)[k]
         == Datagram(command, start + Sum(cs[..k]), at + Sum(cs[..k]), sub, clock && k == 0)
  {
    ToSendNext(segments, left, k, capped);
    assert cs[k..] != [];
    assert cs[k] == cs[k..][0];
    assert cs[k + 1..] == cs[k..][1..];
    hide Carry, ToSend;
    CarryAt(command, cs, start, at, clock, k);
    assert cs[..k + 1] == cs[..k] + [cs[k]];
    SumAppend(cs[..k], cs[k]);
  }

  lemma ToSendEnds(segments: seq<nat>, amount: nat, capped: bool)
    requires segments != []
    ensures var cs := if capped then CappedChunks(segments, amount) else Chunks(segments, amount);
      cs == cs[0..] == ToSend(segments, amount, 0, capped) && |cs| <= |segments| && Sum(cs[..0]) == 0
  {
    assert segments[0..] == segments;
  }

  lemma ToSendEnd(segments: seq<nat>, left: int, k: nat, capped: bool)
    requires k <= |segments| && (capped ==> left >= 0) && ((left == 0 && k > 0) || k == |segments|)
    ensures ToSend(segments, left, k, capped) == []
  {
  }

  lemma ToSendNext(segments: seq<nat>, left: int, k: nat, capped: bool)
    requires k < |segments| && left != 0 && (capped ==> left >= 0)
    ensures var sub := if capped && left < segments[k] then left else segments[k];
      ToSend(segments, left, k, capped) == [sub] + ToSend(segments, left - sub, k + 1, capped)
  {
    assert segments[k..][1..] == segments[k + 1..] && segments[k..][0] == segments[k];
    if capped {
      CappedNext(segments[k..], left);
    } else {
      ChunksNext(segments[k..], left);
    }
    hide Chunks, CappedChunks;
  }

  lemma ChunksNext(s: seq<nat>, left: int)
    requires s != []
    ensures Chunks(s, left) == [s[0]] + if left == s[0] then [] else Chunks(s[1..], left - s[0])
  {
  }

  lemma CappedNext(s: seq<nat>, left: nat)
    requires s != []
    ensures left <= s[0] ==> CappedChunks(s, left) == [left]
    ensures left > s[0] ==> CappedChunks(s, left) == [s[0]] + CappedChunks(s[1..], left - s[0])
  {
  }

  lemma {:induction false} SumPrefixBound(s: seq<nat>, k: nat)
    requires k <= |s|
    ensures Sum(s[..k]) <= Sum(s)
    decreases |s|
  {
    if k == |s| {
      assert s[..k] == s;
    } else {
      SumPrefixBound(s[..|s| - 1], k);
      assert s[..|s| - 1][..k] == s[..k];
    }
  }

  lemma {:induction false} CappedBound(segments: seq<nat>, length: nat)
    ensures Sum(CappedChunks(segments, length)) <= length
    decreases |segments|
  {
    var cs := CappedChunks(segments, length);
    if cs != [] {
      SumFirst(cs);
      if length > segments[0] {
        CappedBound(segments[1..], length - segments[0]);
        assert cs[1..] == CappedChunks(segments[1..], length - segments[0]);
      } else {
        assert cs[1..] == [];
      }
    }
  }

  /** What is sent lies in the IOmap. */
  lemma CarryInMap(command: Command, segments: seq<nat>, amount: nat, capped: bool, start: nat, at: nat, clock: bool,
                   size: nat)
    requires at + (if capped then amount else Sum(segments)) <= size
    ensures var cs := if capped then CappedChunks(segments, amount) else Chunks(segments, amount);
      InMap(Carry(command, cs, start, at, clock), size)
  {
    var cs := if capped then CappedChunks(segments, amount) else Chunks(segments, amount);
    if capped {
      CappedBound(segments, amount);
    } else {
      SumPrefixBound(segments, |cs|);
    }
    forall k | 0 <= k < |cs|
      ensures Carry(command, cs, start, at, clock)[k].offset + Carry(command, cs, start, at, clock)[k].length <= size
    {
      CarryAt(command, cs, start, at, clock, k);
      SumGrows(cs, k);
    }
  }

  ghost predicate InMap(ds: seq<Datagram>, size: nat) {
    forall k :: 0 <= k < |ds| ==> ds[k].offset + ds[k].length <= size
  }

  function Frames(ds: seq<Datagram>, iomap: seq<Byte>): seq<Frame>
    requires InMap(ds, |iomap|)
  {
    seq(|ds|, k requires 0 <= k < |ds| => FrameFor(ds[k], iomap))
  }

  /** The frames carry the chunks, one each, to logical addresses from `start` on and from the IOmap from `at` on. */
  ghost predicate SentRun(frames: seq<Frame>, command: Command, cs: seq<nat>, start: nat, at: nat, clock: bool,
                          iomap: seq<Byte>)
  {
    |frames| == |cs| && forall k :: 0 <= k < |cs| ==> SentChunk(frames[k], command, cs, start, at, clock, iomap, k)
  }

  ghost predicate SentChunk(f: Frame, command: Command, cs: seq<nat>, start: nat, at: nat, clock: bool,
                            iomap: seq<Byte>, k: nat)
    requires k < |cs|
  {
    var place := Sum(cs[..k]);
    && f.datagram == Datagram(command, start + place, at + place, cs[k], clock && k == 0)
    && at + place + cs[k] <= |iomap| && |f.bytes| == cs[k]
    && forall j :: 0 <= j < cs[k] ==> f.bytes[j] == if command == Lrd then 0 else iomap[at + place + j]
  }

  lemma CarryRun(command: Command, cs: seq<nat>, start: nat, at: nat, clock: bool, iomap: seq<Byte>)
    requires InMap(Carry(command, cs, start, at, clock), |iomap|)
    ensures SentRun(Frames(Carry(command, cs, start, at, clock), iomap), command, cs, start, at, clock, iomap)
  {
    var ds := Carry(command, cs, start, at, clock);
    var fs := Frames(ds, iomap);
    forall k | 0 <= k < |cs| ensures SentChunk(fs[k], command, cs, start, at, clock, iomap, k) {
      CarryAt(command, cs, start, at, clock, k);
      hide Carry, Sum;
      assert fs[k] == FrameFor(ds[k], iomap);
    }
  }

  /** A run of writing frames brings every byte to its place once. */
  lemma RunWrites(fs: seq<Frame>, command: Command, cs: seq<nat>, start: nat, at: nat, clock: bool, iomap: seq<Byte>,
                  a: nat)
    requires SentRun(fs, command, cs, start, at, clock, iomap) && command != Lrd && a < Sum(cs) && at + a < |iomap|
    ensures WrittenOnce(fs, start + a, iomap[at + a])
  {
    var k := ChunkOf(cs, a);
    forall j | 0 <= j < |cs| && WritesTo(fs[j], start + a) ensures j == k {
      assert SentChunk(fs[j], command, cs, start, at, clock, iomap, j);
      if j < k {
        CarriedApart(cs, 0, j, k);
      } else if k < j {
        CarriedApart(cs, 0, k, j);
      }
      hide Sum;
    }
    hide Sum;
    assert SentChunk(fs[k], command, cs, start, at, clock, iomap, k);
    assert WritesTo(fs[k], start + a) && fs[k].bytes[start + a - fs[k].datagram.logAddr] == iomap[at + a];
  }

  /** And nowhere else; what a run of frames looks like. */
  lemma RunWithin(fs: seq<Frame>, command: Command, cs: seq<nat>, start: nat, at: nat, clock: bool, iomap: seq<Byte>,
                  k: nat)
    requires SentRun(fs, command, cs, start, at, clock, iomap) && k < |cs|
    ensures var f := fs[k];
      && f.datagram.command == command && |f.bytes| == f.datagram.length
      && start <= f.datagram.logAddr && f.datagram.logAddr + |f.bytes| <= start + Sum(cs)
      && f.datagram.offset == at + f.datagram.logAddr - start && (f.datagram.clock <==> clock && k == 0)
      && (command == Lrd ==> forall j :: 0 <= j < |f.bytes| ==> f.bytes[j] == 0)
  {
    SumGrows(cs, k);
    hide Sum;
    assert SentChunk(fs[k], command, cs, start, at, clock, iomap, k);
  }

  /** A run of writing frames that starts with the group. */
  lemma RunCarries(g: GroupIo, fs: seq<Frame>, command: Command, cs: seq<nat>, clock: bool, iomap: seq<Byte>)
    requires SentRun(fs, command, cs, g.start, 0, clock, iomap) && command != Lrd && Sum(cs) <= |iomap|
    requires Sum(cs) == if g.blockLRW then g.obytes else g.Length()
    ensures OutputsCarried(g, iomap, fs)
  {
    hide SentRun, WrittenOnce;
    RunMany(fs, command, cs, g.start, 0, clock, iomap);
    forall a: nat | a < Sum(cs) ensures WrittenOnce(fs, g.start + a, iomap[a]) {
      RunWrites(fs, command, cs, g.start, 0, clock, iomap, a);
    }
    forall k, at | 0 <= k < |fs| && WritesTo(fs[k], at) ensures g.start <= at < g.start + Sum(cs) {
      RunWithin(fs, command, cs, g.start, 0, clock, iomap, k);
    }
    hide Sum;
  }

  lemma RunMany(fs: seq<Frame>, command: Command, cs: seq<nat>, start: nat, at: nat, clock: bool, iomap: seq<Byte>)
    requires SentRun(fs, command, cs, start, at, clock, iomap)
    ensures |fs| == |cs|
  {
  }

  lemma RunBlank(fs: seq<Frame>, command: Command, cs: seq<nat>, start: nat, at: nat, clock: bool, iomap: seq<Byte>)
    requires SentRun(fs, command, cs, start, at, clock, iomap)
    ensures Blank(fs)
  {
    hide SentRun;
    RunMany(fs, command, cs, start, at, clock, iomap);
    forall k, j | 0 <= k < |fs| && fs[k].datagram.command == Lrd && 0 <= j < |fs[k].bytes| ensures fs[k].bytes[j] == 0 {
      RunWithin(fs, command, cs, start, at, clock, iomap, k);
    }
  }

  /** Main result: what is sent is right. */
  lemma SentRight(g: GroupIo, iomap: seq<Byte>, indices: seq<nat>)
    requires g.Valid() && g.Length() <= |iomap| && InMap(g.Plan(), |iomap|) && |g.Plan()| <= |indices|
    ensures var frames := Frames(g.Plan(), iomap);
      && OutputsCarried(g, iomap, frames) && Blank(frames) && Ordered(g, frames) && |frames| == |g.Plan()|
      && forall k :: 0 <= k < |frames| ==>
           var e, d := Entries(g.Plan(), indices)[k], frames[k].datagram;
           && e.idx == indices[k] && e.data == d.logAddr - g.start && e.length == |frames[k].bytes|
           && e.dcoffset == if d.clock then |frames[k].bytes| + 24 else 0
  {
    if g.Length() == 0 {
      NothingRight(g, iomap);
    } else if g.blockLRW {
      SentSplit(g, iomap);
    } else {
      SentCombined(g, iomap);
    }
    hide Carry, Chunks, CappedChunks, Sum, OutputsCarried, Blank, GroupIo.Plan, GroupIo.Valid;
  }

  lemma NothingRight(g: GroupIo, iomap: seq<Byte>)
    requires g.Valid() && g.Length() == 0
    ensures InMap(g.Plan(), |iomap|)
    ensures var frames := Frames(g.Plan(), iomap);
      OutputsCarried(g, iomap, frames) && Blank(frames) && Ordered(g, frames)
  {
  }

  lemma SentCombined(g: GroupIo, iomap: seq<Byte>)
    requires g.Valid() && 0 < g.Length() <= |iomap| && InMap(g.Plan(), |iomap|) && !g.blockLRW
    ensures var frames := Frames(g.Plan(), iomap);
      OutputsCarried(g, iomap, frames) && Blank(frames) && Ordered(g, frames)
  {
    var cs := Chunks(g.segments, g.Length());
    ChunksComplete(g.segments, g.Length());
    hide Carry, Chunks, Sum, Frames, InMap, SentRun, OutputsCarried, Blank;
    CarryRun(Lrw, cs, g.start, 0, g.hasdc, iomap);
    var fs := Frames(g.Plan(), iomap);
    RunCarries(g, fs, Lrw, cs, g.hasdc, iomap);
    RunBlank(fs, Lrw, cs, g.start, 0, g.hasdc, iomap);
    RunMany(fs, Lrw, cs, g.start, 0, g.hasdc, iomap);
    forall k | 0 <= k < |fs|
      ensures var d := fs[k].datagram;
        && |fs[k].bytes| == d.length && d.offset == d.logAddr - g.start && (d.clock <==> k == 0 && g.hasdc)
        && d.command == Lrw
    {
      RunWithin(fs, Lrw, cs, g.start, 0, g.hasdc, iomap, k);
    }
    hide GroupIo.Valid, GroupIo.Plan;
  }

  lemma SentSplit(g: GroupIo, iomap: seq<Byte>)
    requires g.Valid() && 0 < g.Length() <= |iomap| && InMap(g.Plan(), |iomap|) && g.blockLRW
    ensures var frames := Frames(g.Plan(), iomap);
      OutputsCarried(g, iomap, frames) && Blank(frames) && Ordered(g, frames)
  {
    hide *;
    SplitPlan(g, |iomap|);
    FramesConcat(g.Reads(), g.Writes(), iomap);
    SentReads(g, iomap);
    SentWrites(g, iomap);
    SentTogether(g, iomap, Frames(g.Reads(), iomap), Frames(g.Writes(), iomap));
  }

  lemma SplitPlan(g: GroupIo, size: nat)
    requires g.Valid() && g.Length() > 0 && g.blockLRW
    ensures g.isegment < |g.segments| && g.ioffset <= g.segments[g.isegment]
    ensures g.Plan() == g.Reads() + g.Writes()
    ensures InMap(g.Plan(), size) ==> InMap(g.Reads(), size) && InMap(g.Writes(), size)
  {
    hide Carry, Chunks, CappedChunks, Sum, GroupIo.Reads, GroupIo.Writes;
    PartsInMap(g.Reads(), g.Writes(), size);
  }

  lemma PartsInMap(a: seq<Datagram>, b: seq<Datagram>, size: nat)
    ensures InMap(a + b, size) ==> InMap(a, size) && InMap(b, size)
  {
    if InMap(a + b, size) {
      forall k | 0 <= k < |a| ensures a[k].offset + a[k].length <= size {
        assert (a + b)[k] == a[k];
      }
      forall k | 0 <= k < |b| ensures b[k].offset + b[k].length <= size {
        assert (a + b)[|a| + k] == b[k];
      }
    }
  }

  /** The reading frames. */
  lemma SentReads(g: GroupIo, iomap: seq<Byte>)
    requires g.Valid() && g.blockLRW && InMap(g.Reads(), |iomap|)
    ensures var frames := Frames(g.Reads(), iomap);
      && Ordered(g, frames) && Blank(frames) && (frames == [] <==> g.ibytes == 0)
      && forall k :: 0 <= k < |frames| ==> frames[k].datagram.command == Lrd
  {
    if g.ibytes > 0 {
      ReadsSomething(g);
      var cs, start := Chunks(g.ReadSegments(), g.ibytes), g.start + g.obytes;
      hide Carry, Chunks, Sum, Frames, InMap, GroupIo.Valid, SentRun, Blank;
      CarryRun(Lrd, cs, start, g.obytes, g.hasdc, iomap);
      var fs := Frames(g.Reads(), iomap);
      RunBlank(fs, Lrd, cs, start, g.obytes, g.hasdc, iomap);
      RunMany(fs, Lrd, cs, start, g.obytes, g.hasdc, iomap);
      forall k | 0 <= k < |fs|
        ensures var d := fs[k].datagram;
          && |fs[k].bytes| == d.length && d.offset == d.logAddr - g.start && (d.clock <==> k == 0 && g.hasdc)
          && d.command == Lrd
      {
        RunWithin(fs, Lrd, cs, start, g.obytes, g.hasdc, iomap, k);
      }
    }
  }

  /** The writing frames. */
  lemma SentWrites(g: GroupIo, iomap: seq<Byte>)
    requires g.Valid() && g.blockLRW && InMap(g.Writes(), |iomap|) && g.Length() <= |iomap|
    ensures var frames := Frames(g.Writes(), iomap);
      && OutputsCarried(g, iomap, frames)
      && forall k :: 0 <= k < |frames| ==>
           var d := frames[k].datagram;
           && |frames[k].bytes| == d.length && d.command == Lwr && d.offset == d.logAddr - g.start
           && (d.clock <==> k == 0 && g.hasdc && g.ibytes == 0)
  {
    if g.obytes > 0 {
      var cs, clock := CappedChunks(g.segments, g.obytes), g.hasdc && g.ibytes == 0;
      CappedComplete(g.segments, g.obytes);
      hide Carry, CappedChunks, Sum, Frames, InMap, GroupIo.Valid, SentRun, OutputsCarried;
      CarryRun(Lwr, cs, g.start, 0, clock, iomap);
      var fs := Frames(g.Writes(), iomap);
      RunCarries(g, fs, Lwr, cs, clock, iomap);
      RunMany(fs, Lwr, cs, g.start, 0, clock, iomap);
      forall k | 0 <= k < |fs|
        ensures var d := fs[k].datagram;
          && |fs[k].bytes| == d.length && d.command == Lwr && d.offset == d.logAddr - g.start
          && (d.clock <==> k == 0 && clock)
      {
        RunWithin(fs, Lwr, cs, g.start, 0, clock, iomap, k);
      }
    }
  }

  lemma SentTogether(g: GroupIo, iomap: seq<Byte>, lrds: seq<Frame>, lwrs: seq<Frame>)
    requires g.blockLRW && Ordered(g, lrds) && Blank(lrds) && (lrds == [] <==> g.ibytes == 0)
    requires forall k :: 0 <= k < |lrds| ==> lrds[k].datagram.command == Lrd
    requires OutputsCarried(g, iomap, lwrs)
    requires forall k :: 0 <= k < |lwrs| ==>
      var d := lwrs[k].datagram;
      && |lwrs[k].bytes| == d.length && d.command == Lwr && d.offset == d.logAddr - g.start
      && (d.clock <==> k == 0 && g.hasdc && g.ibytes == 0)
    ensures OutputsCarried(g, iomap, lrds + lwrs) && Blank(lrds + lwrs) && Ordered(g, lrds + lwrs)
  {
    var all, n := lrds + lwrs, |lrds|;
    forall k | n <= k < |all| ensures all[k] == lwrs[k - n] {
    }
    forall a | 0 <= a < g.obytes ensures WrittenOnce(all, g.start + a, iomap[a]) {
      var at := g.start + a;
      assert WrittenOnce(lwrs, at, iomap[a]);
      var k :| 0 <= k < |lwrs| && WritesTo(lwrs[k], at)
        && lwrs[k].bytes[at - lwrs[k].datagram.logAddr] == iomap[a]
        && forall j :: 0 <= j < |lwrs| && WritesTo(lwrs[j], at) ==> j == k;
      assert all[n + k] == lwrs[k];
      forall j | 0 <= j < |all| && WritesTo(all[j], at) ensures j == n + k {
        if j >= n {
          assert all[j] == lwrs[j - n];
        }
      }
    }
    forall k, at | 0 <= k < |all| && WritesTo(all[k], at) ensures g.start <= at < g.start + g.obytes {
      if k >= n {
        assert all[k] == lwrs[k - n];
      }
    }
  }

  // ---------- one full cycle ----------

  ghost predicate AllFit(es: seq<Entry>, rs: seq<Reply>, size: nat) {
    |es| <= |rs| && forall k :: 0 <= k < |es| ==> Fits(es[k], rs[k], size)
  }

  /** Byte `a` belongs to entry `k`. */
  predicate In(e: Entry, a: int) {
    e.data <= a < e.data + e.length
  }

  /** The entry's bytes came back and are copied. */
  predicate Reading(r: Reply) {
    r.Reply? && r.command != Lwr
  }

  /** Receiving puts each byte read in the place of its entry, and leaves the bytes of lost frames, of writes, and
    * all others as they were. */
  lemma {:induction false} ReceiveScatters(st: Received, es: seq<Entry>, rs: seq<Reply>, a: nat)
    requires AllFit(es, rs, |st.iomap|) && a < |st.iomap|
    requires forall j, k :: 0 <= j < k < |es| && Reading(rs[j]) && Reading(rs[k]) ==> !(In(es[j], a) && In(es[k], a))
    ensures forall k :: 0 <= k < |es| && Reading(rs[k]) && In(es[k], a) ==>
      ReceiveAll(st, es, rs).iomap[a] == rs[k].data[a - es[k].data]
    ensures (forall k :: 0 <= k < |es| && Reading(rs[k]) ==> !In(es[k], a)) ==>
      ReceiveAll(st, es, rs).iomap[a] == st.iomap[a]
    decreases |es|
  {
    hide ReceiveAll, ReceiveOne;
    if es == [] {
      ReceiveNothing(st, rs);
    } else {
      var n := |es| - 1;
      var init := es[..n];
      assert AllFit(init, rs, |st.iomap|);
      ReceiveScatters(st, init, rs, a);
      ReceiveLast(st, es, rs, a);
      forall k | 0 <= k < n
        ensures init[k] == es[k] && !(Reading(rs[k]) && Reading(rs[n]) && In(init[k], a) && In(es[n], a))
      {
      }
    }
  }

  /** A status byte that no frame brings back is zero after the cycle, whatever it was before. */
  lemma StatusLost(g: GroupIo, m: seq<Byte>, es: seq<Entry>, rs: seq<Reply>, a: nat)
    requires g.Length() <= |m| && AllFit(es, rs, |m|) && g.obytes + g.ibytes <= a < g.Length()
    requires forall k :: 0 <= k < |es| && Reading(rs[k]) ==> !In(es[k], a)
    ensures ReceiveAll(Received(Cleared(g, m), 0, false), es, rs).iomap[a] == 0
  {
    hide ReceiveAll;
    ReceiveScatters(Received(Cleared(g, m), 0, false), es, rs, a);
  }

  lemma ReceiveNothing(st: Received, rs: seq<Reply>)
    ensures ReceiveAll(st, [], rs) == st
  {
  }

  lemma ReceiveNext(st: Received, es: seq<Entry>, rs: seq<Reply>, k: nat)
    requires AllFit(es, rs, |st.iomap|) && k < |es|
    ensures Fits(es[k], rs[k], |st.iomap|)
    ensures ReceiveAll(st, es[..k + 1], rs) == ReceiveOne(ReceiveAll(st, es[..k], rs), es[k], rs[k])
  {
    assert es[..k + 1][..k] == es[..k];
  }

  /** What the last entry does to one byte. */
  lemma ReceiveLast(st: Received, es: seq<Entry>, rs: seq<Reply>, a: nat)
    requires AllFit(es, rs, |st.iomap|) && es != [] && a < |st.iomap|
    ensures var n := |es| - 1;
      && AllFit(es[..n], rs, |st.iomap|)
      && ReceiveAll(st, es, rs).iomap[a]
         == if Reading(rs[n]) && In(es[n], a) then rs[n].data[a - es[n].data] else ReceiveAll(st, es[..n], rs).iomap[a]
  {
    assert forall k :: 0 <= k < |es| - 1 ==> es[..|es| - 1][k] == es[k];
  }

  /** The sum of the working counters of the process data datagrams that came back; writes count twice. */
  function WkcSum(rs: seq<Reply>): nat {
    if rs == [] then 0
    else
      var r := rs[|rs| - 1];
      WkcSum(rs[..|rs| - 1]) + if r.NoReply? then 0 else if r.command == Lwr then 2 * r.wkc else r.wkc
  }

  /** With a clock datagram only in the first frame, the returned working counter is that sum, the clock
    * datagram's own count left out. */
  lemma {:induction false} ReceiveCounts(m: seq<Byte>, es: seq<Entry>, rs: seq<Reply>)
    requires AllFit(es, rs, |m|) && |es| == |rs|
    requires forall k :: 0 < k < |es| ==> es[k].dcoffset == 0
    requires forall k :: 0 <= k < |es| && rs[k].Reply? && es[k].dcoffset == 0 ==> rs[k].lastWkc == rs[k].wkc
    ensures ReceiveAll(Received(m, 0, false), es, rs).wkc == WkcSum(rs)
    ensures ReceiveAll(Received(m, 0, false), es, rs).valid <==> exists k :: 0 <= k < |es| && rs[k].Reply?
    decreases |es|
  {
    if es != [] {
      var n := |es| - 1;
      assert AllFit(es[..n], rs[..n], |m|);
      ReceiveCounts(m, es[..n], rs[..n]);
      ReceivePrefix(Received(m, 0, false), es[..n], rs[..n], rs);
      if n > 0 {
        assert es[n].dcoffset == 0;
      } else {
        assert rs[..0] == [];
      }
    }
  }

  lemma {:induction false} ReceivePrefix(st: Received, es: seq<Entry>, rs: seq<Reply>, rs2: seq<Reply>)
    requires AllFit(es, rs, |st.iomap|) && AllFit(es, rs2, |st.iomap|)
    requires forall k :: 0 <= k < |es| ==> rs[k] == rs2[k]
    ensures ReceiveAll(st, es, rs) == ReceiveAll(st, es, rs2)
    decreases |es|
  {
    if es != [] {
      var init := es[..|es| - 1];
      assert AllFit(init, rs, |st.iomap|) && AllFit(init, rs2, |st.iomap|);
      ReceivePrefix(st, init, rs, rs2);
    }
  }

  /** Every byte position below the sum falls into one chunk. */
  lemma {:induction false} ChunkOf(cs: seq<nat>, a: nat) returns (k: nat)
    requires a < Sum(cs)
    ensures k < |cs| && Sum(cs[..k]) <= a < Sum(cs[..k]) + cs[k]
    decreases |cs|
  {
    var n := |cs| - 1;
    if a < Sum(cs[..n]) {
      k := ChunkOf(cs[..n], a);
      assert cs[..n][..k] == cs[..k];
    } else {
      k := n;
    }
  }

  /** The reply to a datagram as the slaves leave it: `net` tells what comes back for each logical byte. */
  ghost predicate Answers(d: Datagram, r: Reply, net: nat -> Byte) {
    r.Reply? ==>
      && r.command == d.command && |r.data| == d.length && (!d.clock ==> r.lastWkc == r.wkc)
      && (d.command != Lwr ==> forall j :: 0 <= j < d.length ==> r.data[j] == net(d.logAddr + j))
  }

  /** The replies are those of a full cycle with no frame lost. */
  ghost predicate FullCycle(g: GroupIo, indices: seq<nat>, size: nat, rs: seq<Reply>, net: nat -> Byte) {
    && g.Valid() && 0 < g.Length() <= size && |g.Plan()| == |rs| <= |indices|
    && forall k :: 0 <= k < |rs| ==> rs[k].Reply? && Answers(g.Plan()[k], rs[k], net)
  }

  lemma FullCycleBounds(g: GroupIo, indices: seq<nat>, size: nat, rs: seq<Reply>, net: nat -> Byte)
    requires FullCycle(g, indices, size, rs, net)
    ensures g.Valid() && g.isegment < |g.segments| && g.ioffset <= g.segments[g.isegment]
    ensures |g.Plan()| == |rs| <= |indices| && 0 < g.Length() <= size
  {
  }

  /** Where the bytes come from that a cycle reads: the lengths of the reading datagrams, and where they start. */
  function Lengths(g: GroupIo): seq<nat>
    requires g.isegment < |g.segments| && g.ioffset <= g.segments[g.isegment]
  {
    if !g.blockLRW then Chunks(g.segments, g.Length())
    else if g.ibytes == 0 then []
    else Chunks(g.ReadSegments(), g.ibytes)
  }

  function ReadFrom(g: GroupIo): nat {
    if g.blockLRW then g.obytes else 0
  }

  /** The entries of a cycle: the reading ones come first and lie behind one another; only the first of all may carry
    * the clock datagram. */
  ghost predicate CycleStack(g: GroupIo, es: seq<Entry>)
    requires g.isegment < |g.segments| && g.ioffset <= g.segments[g.isegment]
  {
    var cs, n := Lengths(g), |Lengths(g)|;
    && |g.Plan()| == |es| >= n
    && (forall k :: 0 <= k < |es| ==> (g.Plan()[k].command != Lwr <==> k < n))
    && (forall k :: 0 <= k < |es| ==> es[k].data == g.Plan()[k].offset && es[k].length == g.Plan()[k].length)
    && (forall k :: 0 <= k < |es| ==> (es[k].dcoffset > 0 <==> g.Plan()[k].clock) && (es[k].dcoffset > 0 ==> k == 0))
    && (forall k :: 0 <= k < n ==>
          g.Plan()[k].logAddr == g.start + ReadFrom(g) + Sum(cs[..k]) && es[k].data == ReadFrom(g) + Sum(cs[..k])
          && es[k].length == cs[k])
    && (forall j, k :: 0 <= j < k < n ==> es[j].data + es[j].length <= es[k].data)
  }

  lemma CarriedOnce(command: Command, cs: seq<nat>, start: nat, at: nat, clock: bool, k: nat)
    requires k < |cs|
    ensures var d := Carry(command, cs, start, at, clock)[k];
      && d.command == command && d.logAddr == start + Sum(cs[..k]) && d.offset == at + Sum(cs[..k])
      && d.length == cs[k] && (d.clock <==> clock && k == 0)
  {
    hide Carry, Sum;
    CarryAt(command, cs, start, at, clock, k);
  }

  lemma CarriedApart(cs: seq<nat>, at: nat, j: nat, k: nat)
    requires j < k < |cs|
    ensures at + Sum(cs[..j]) + cs[j] <= at + Sum(cs[..k])
  {
    hide Sum;
    SumGrows(cs[..k], j);
    SumPrefix(cs, k, j);
  }

  /** The entries of a cycle with combined accesses are as described. */
  lemma CombinedStack(g: GroupIo, indices: seq<nat>)
    requires g.Valid() && g.Length() > 0 && !g.blockLRW && |g.Plan()| <= |indices|
    ensures CycleStack(g, Entries(g.Plan(), indices))
  {
    hide Carry, Chunks, Sum, CappedChunks;
    var cs, es := Lengths(g), Entries(g.Plan(), indices);
    forall k | 0 <= k < |cs| ensures var d := g.Plan()[k];
      && d.command == Lrw && d.logAddr == g.start + Sum(cs[..k]) && d.offset == Sum(cs[..k])
      && d.length == cs[k] && (d.clock ==> k == 0)
    {
      CarriedOnce(Lrw, cs, g.start, 0, g.hasdc, k);
    }
    forall j, k | 0 <= j < k < |cs| ensures Sum(cs[..j]) + cs[j] <= Sum(cs[..k]) {
      CarriedApart(cs, 0, j, k);
    }
  }

  /** And so are those of a cycle with separate reads and writes. */
  lemma SplitStack(g: GroupIo, indices: seq<nat>)
    requires g.Valid() && g.Length() > 0 && g.blockLRW && |g.Plan()| <= |indices|
    ensures CycleStack(g, Entries(g.Plan(), indices))
  {
    hide Carry, Chunks, Sum, CappedChunks;
    var cs, es := Lengths(g), Entries(g.Plan(), indices);
    var n := |cs|;
    forall k | 0 <= k < |es| ensures var d := g.Plan()[k]; (d.command != Lwr <==> k < n) && (d.clock ==> k == 0)
    {
      SplitPlanAt(g, k);
    }
    forall k | 0 <= k < n ensures var d := g.Plan()[k];
      && d.logAddr == g.start + g.obytes + Sum(cs[..k]) && d.offset == g.obytes + Sum(cs[..k]) && d.length == cs[k]
    {
      SplitPlanAt(g, k);
    }
    forall j, k | 0 <= j < k < n ensures g.obytes + Sum(cs[..j]) + cs[j] <= g.obytes + Sum(cs[..k]) {
      CarriedApart(cs, g.obytes, j, k);
    }
    hide GroupIo.Plan, Lengths, EntryFor;
    forall k | 0 <= k < |es| ensures es[k] == EntryFor(g.Plan()[k], indices[k]) {
    }
    EntriesClock(g.Plan(), indices);
  }

  lemma EntriesClock(ds: seq<Datagram>, indices: seq<nat>)
    requires |ds| <= |indices|
    ensures forall k :: 0 <= k < |ds| ==> var e := Entries(ds, indices)[k];
      e.data == ds[k].offset && e.length == ds[k].length && (e.dcoffset > 0 <==> ds[k].clock)
  {
  }

  /** The datagrams of a cycle with separate reads and writes, one by one. */
  lemma SplitPlanAt(g: GroupIo, k: nat)
    requires g.Valid() && g.Length() > 0 && g.blockLRW && k < |g.Plan()|
    ensures var d, cs := g.Plan()[k], Lengths(g);
      && (d.command != Lwr <==> k < |cs|) && (d.clock ==> k == 0) && |cs| <= |g.Plan()|
      && (k < |cs| ==> d.logAddr == g.start + g.obytes + Sum(cs[..k]) && d.offset == g.obytes + Sum(cs[..k])
                       && d.length == cs[k])
  {
    hide Carry, Chunks, Sum, CappedChunks;
    var cs, ws := Lengths(g), CappedChunks(g.segments, g.obytes);
    if k < |cs| {
      CarriedOnce(Lrd, cs, g.start + g.obytes, g.obytes, g.hasdc, k);
    } else {
      CarriedOnce(Lwr, ws, g.start, 0, g.hasdc && g.ibytes == 0, k - |cs|);
      if g.ibytes > 0 {
        ReadsSomething(g);
      }
    }
  }

  lemma ReadsSomething(g: GroupIo)
    requires g.Valid() && g.ibytes > 0
    ensures |Chunks(g.ReadSegments(), g.ibytes)| > 0
  {
  }

  /** Each reply fits its entry, and the reading ones bring what the slaves have left. */
  lemma CycleReply(g: GroupIo, indices: seq<nat>, size: nat, rs: seq<Reply>, net: nat -> Byte, es: seq<Entry>, k: nat)
    requires FullCycle(g, indices, size, rs, net) && k < |rs| && CycleStack(g, es) && InMap(g.Plan(), g.Length())
    ensures k < |es| && Fits(es[k], rs[k], size) && rs[k].Reply? && (Reading(rs[k]) <==> k < |Lengths(g)|)
    ensures es[k].dcoffset == 0 ==> rs[k].lastWkc == rs[k].wkc
    ensures Reading(rs[k]) ==>
      forall j :: 0 <= j < es[k].length ==> rs[k].data[j] == net(g.start + es[k].data + j)
  {
    hide Carry, Chunks, Sum, CappedChunks;
    var d := g.Plan()[k];
    assert Answers(d, rs[k], net);
    hide GroupIo.Plan, GroupIo.Length, GroupIo.Valid, Lengths;
    if Reading(rs[k]) {
      forall j | 0 <= j < es[k].length ensures rs[k].data[j] == net(g.start + es[k].data + j) {
        assert d.logAddr + j == g.start + es[k].data + j;
      }
    }
  }

  lemma ReplyByte(g: GroupIo, indices: seq<nat>, size: nat, rs: seq<Reply>, net: nat -> Byte, es: seq<Entry>,
                  k: nat, j: nat)
    requires FullCycle(g, indices, size, rs, net) && CycleStack(g, es) && InMap(g.Plan(), g.Length())
    requires k < |Lengths(g)| && k < |es| == |rs| && j < es[k].length
    ensures Reading(rs[k]) && j < |rs[k].data| && rs[k].data[j] == net(g.start + es[k].data + j)
  {
    CycleReply(g, indices, size, rs, net, es, k);
    hide FullCycle, CycleStack, InMap, GroupIo.Plan, Lengths;
  }

  lemma CycleFits(g: GroupIo, indices: seq<nat>, size: nat, rs: seq<Reply>, net: nat -> Byte, es: seq<Entry>)
    requires FullCycle(g, indices, size, rs, net) && CycleStack(g, es)
    ensures AllFit(es, rs, size) && |es| == |rs| && forall k :: 0 <= k < |rs| ==> rs[k].Reply?
    ensures forall k :: 0 <= k < |es| && es[k].dcoffset == 0 ==> rs[k].lastWkc == rs[k].wkc
    ensures forall k :: 0 < k < |es| ==> es[k].dcoffset == 0
  {
    PlanInMap(g);
    hide InMap, GroupIo.Plan, GroupIo.Length, GroupIo.Valid, Lengths, Fits;
    forall k | 0 <= k < |rs|
      ensures Fits(es[k], rs[k], size) && rs[k].Reply? && (es[k].dcoffset == 0 ==> rs[k].lastWkc == rs[k].wkc)
    {
      CycleReply(g, indices, size, rs, net, es, k);
    }
  }

  /** What a full cycle makes of one byte of the IOmap. */
  lemma CycleByte(g: GroupIo, indices: seq<nat>, m: seq<Byte>, rs: seq<Reply>, net: nat -> Byte, es: seq<Entry>, a: nat)
    requires FullCycle(g, indices, |m|, rs, net) && CycleStack(g, es) && a < |m| && AllFit(es, rs, |m|)
    ensures ReceiveAll(Received(m, 0, false), es, rs).iomap[a]
      == if ReadFrom(g) <= a < ReadFrom(g) + Sum(Lengths(g)) then net(g.start + a) else m[a]
  {
    hide *;
    FullCycleBounds(g, indices, |m|, rs, net);
    PlanInMap(g);
    var cs, from, n := Lengths(g), ReadFrom(g), |Lengths(g)|;
    StackLength(g, es);
    forall k | 0 <= k < |es| ensures Reading(rs[k]) <==> k < n {
      CycleReply(g, indices, |m|, rs, net, es, k);
    }
    StackApart(g, es, rs, a);
    ReceiveScatters(Received(m, 0, false), es, rs, a);
    if from <= a < from + Sum(cs) {
      var k := ChunkOf(cs, a - from);
      StackPlace(g, es, k, a);
      ReplyByte(g, indices, |m|, rs, net, es, k, a - es[k].data);
    } else {
      forall k | 0 <= k < |es| && Reading(rs[k]) ensures !In(es[k], a) {
        SumGrows(cs, k);
        StackPlace(g, es, k, a);
      }
    }
  }

  lemma StackLength(g: GroupIo, es: seq<Entry>)
    requires g.isegment < |g.segments| && g.ioffset <= g.segments[g.isegment] && CycleStack(g, es)
    ensures |es| == |g.Plan()| && |es| >= |Lengths(g)|
  {
    hide GroupIo.Plan, Lengths, Sum;
  }

  lemma StackApart(g: GroupIo, es: seq<Entry>, rs: seq<Reply>, a: nat)
    requires g.isegment < |g.segments| && g.ioffset <= g.segments[g.isegment] && CycleStack(g, es) && |es| <= |rs|
    requires forall k :: 0 <= k < |es| ==> (Reading(rs[k]) <==> k < |Lengths(g)|)
    ensures forall j, k :: 0 <= j < k < |es| && Reading(rs[j]) && Reading(rs[k]) ==> !(In(es[j], a) && In(es[k], a))
  {
    hide GroupIo.Plan, Lengths, Sum, Reading;
  }

  lemma StackPlace(g: GroupIo, es: seq<Entry>, k: nat, a: nat)
    requires g.isegment < |g.segments| && g.ioffset <= g.segments[g.isegment] && CycleStack(g, es) && k < |Lengths(g)|
    ensures var cs := Lengths(g);
      && k < |es| && es[k].length == cs[k] && es[k].data == ReadFrom(g) + Sum(cs[..k])
      && (In(es[k], a) <==> ReadFrom(g) + Sum(cs[..k]) <= a < ReadFrom(g) + Sum(cs[..k]) + cs[k])
  {
    hide GroupIo.Plan, Lengths, Sum;
  }

  /** What a full cycle leaves in the IOmap and returns: the bytes read come back to their places, and the working
    * counters add up. */
  lemma CycleResult(g: GroupIo, indices: seq<nat>, m: seq<Byte>, rs: seq<Reply>, net: nat -> Byte, es: seq<Entry>)
    requires FullCycle(g, indices, |m|, rs, net) && CycleStack(g, es)
    ensures AllFit(es, rs, |m|)
    ensures var r, from := ReceiveAll(Received(m, 0, false), es, rs), ReadFrom(g);
      && (forall a :: 0 <= a < |m| ==>
            r.iomap[a] == if from <= a < from + Sum(Lengths(g)) then net(g.start + a) else m[a])
      && r.wkc == WkcSum(rs) && (r.valid <==> rs != [])
  {
    hide FullCycle, CycleStack, ReceiveAll, Lengths, Sum, GroupIo.Plan, WkcSum;
    FullCycleBounds(g, indices, |m|, rs, net);
    CycleFits(g, indices, |m|, rs, net, es);
    ReceiveCounts(m, es, rs);
    assert rs != [] ==> rs[0].Reply?;
    forall a: nat | a < |m|
      ensures ReceiveAll(Received(m, 0, false), es, rs).iomap[a]
        == if ReadFrom(g) <= a < ReadFrom(g) + Sum(Lengths(g)) then net(g.start + a) else m[a]
    {
      CycleByte(g, indices, m, rs, net, es, a);
    }
  }

  /** A full cycle with combined accesses and no frame lost: every byte of the group, mailbox status
    * included, comes back to its place in the IOmap, and the working counters add up. */
  lemma CycleComplete(g: GroupIo, indices: seq<nat>, m: seq<Byte>, rs: seq<Reply>, net: nat -> Byte)
    requires FullCycle(g, indices, |m|, rs, net) && !g.blockLRW
    ensures var es := Entries(g.Plan(), indices);
      && AllFit(es, rs, |m|)
      && var r := ReceiveAll(Received(m, 0, false), es, rs);
      && (forall a :: 0 <= a < |m| ==> r.iomap[a] == if a < g.Length() then net(g.start + a) else m[a])
      && r.valid && r.wkc == WkcSum(rs)
  {
    hide Carry, Chunks, Sum, Entries, ReceiveAll, CycleStack, WkcSum;
    CombinedStack(g, indices);
    CycleResult(g, indices, m, rs, net, Entries(g.Plan(), indices));
    ChunksComplete(g.segments, g.Length());
    EmptySum();
  }

  lemma EmptySum()
    ensures Sum([]) == 0
  {
  }

  // ---------- separate reads and writes ----------

  /** Each byte of a range is carried exactly once, at its place in the IOmap, in order. */
  ghost predicate Tiles(ds: seq<Datagram>, command: Command, logAddr: nat, offset: nat, n: int) {
    if ds == [] then n == 0
    else
      && ds[0].command == command && ds[0].logAddr == logAddr && ds[0].offset == offset && ds[0].length <= n
      && Tiles(ds[1..], command, logAddr + ds[0].length, offset + ds[0].length, n - ds[0].length)
  }

  lemma {:induction false} CarryTiles(command: Command, cs: seq<nat>, logAddr: nat, offset: nat, clock: bool)
    ensures Tiles(Carry(command, cs, logAddr, offset, clock), command, logAddr, offset, Sum(cs))
    decreases |cs|
  {
    if cs == [] {
      EmptySum();
    } else {
      SumFirst(cs);
      var ds := Carry(command, cs, logAddr, offset, clock);
      CarryTiles(command, cs[1..], logAddr + cs[0], offset + cs[0], false);
      assert ds[1..] == Carry(command, cs[1..], logAddr + cs[0], offset + cs[0], false);
    }
  }

  /** With combined accesses the whole group is carried exactly once. */
  lemma CombinedTiles(g: GroupIo)
    requires g.Valid() && !g.blockLRW
    ensures Tiles(g.Plan(), Lrw, g.start, 0, g.Length())
  {
    hide Chunks, Sum, Carry;
    if g.Length() > 0 {
      ChunksComplete(g.segments, g.Length());
      CarryTiles(Lrw, Chunks(g.segments, g.Length()), g.start, 0, g.hasdc);
    }
  }

  /** Without combined accesses the outputs are still written exactly once. */
  lemma SplitWritesOutputs(g: GroupIo)
    requires g.Valid()
    ensures Tiles(g.Writes(), Lwr, g.start, 0, g.obytes)
  {
    hide CappedChunks, Sum, Carry;
    if g.obytes > 0 {
      CappedComplete(g.segments, g.obytes);
      CarryTiles(Lwr, CappedChunks(g.segments, g.obytes), g.start, 0, g.hasdc && g.ibytes == 0);
    }
  }

  /** How many bytes behind the outputs are read. */
  function ReadLength(g: GroupIo): nat
    requires g.isegment < |g.segments| && g.ioffset <= g.segments[g.isegment]
  {
    if g.ibytes == 0 then 0 else Sum(Chunks(g.ReadSegments(), g.ibytes))
  }

  /** The reads carry that many bytes exactly once, and never fewer than the inputs. */
  lemma SplitReadsInputs(g: GroupIo)
    requires g.Valid()
    ensures Tiles(g.Reads(), Lrd, g.start + g.obytes, g.obytes, ReadLength(g))
    ensures g.ibytes <= ReadLength(g) <= g.ibytes + g.status
  {
    hide Chunks, Sum, Carry;
    if g.ibytes > 0 {
      var rs, cs := g.ReadSegments(), Chunks(g.ReadSegments(), g.ibytes);
      CarryTiles(Lrd, cs, g.start + g.obytes, g.obytes, g.hasdc);
      ReadSegmentsSum(g);
      ChunksStop(rs, g.ibytes);
      SumPrefixBound(rs, |cs|);
      assert rs[..|rs|] == rs;
    }
  }

  /** But the status bytes behind the inputs are read exactly if there are none, or there are inputs and no segment
    * ends where the inputs end. */
  lemma SplitReadsStatus(g: GroupIo)
    requires g.Valid()
    ensures var rs := g.ReadSegments();
      (ReadLength(g) == g.ibytes + g.status
       <==> g.status == 0 || (g.ibytes > 0 && forall k :: 0 < k <= |rs| ==> Sum(rs[..k]) != g.ibytes))
  {
    hide Chunks, Sum;
    ReadSegmentsSum(g);
    var rs := g.ReadSegments();
    var cs := Chunks(rs, g.ibytes);
    ChunksStop(rs, g.ibytes);
    assert rs[..|rs|] == rs;
    if |cs| < |rs| {
      assert Sum(rs[..|cs|]) == g.ibytes;
    }
  }

  /** A group of one slave with `n` bytes of outputs and a mailbox: its status byte is never read, for want of
    * inputs. */
  lemma StatusUnreadWithoutInputs(n: nat)
    ensures var g := GroupIo(0, n, 0, 1, [n + 1], 0, n, true, false);
      g.Valid() && g.Reads() == [] && ReadLength(g) == 0
  {
    hide Carry, Chunks, Sum;
    OneSum(n + 1);
  }

  lemma OneSum(n: nat)
    ensures Sum([n]) == n && [n][..0] == [] && Sum([n][..0]) == 0
  {
  }

  /** And one of `n` bytes of inputs, whose first segment ends with them. */
  lemma StatusUnreadBehindInputs(n: nat)
    requires n > 0
    ensures var g := GroupIo(0, 0, n, 1, [n, 1], 0, 0, true, false);
      g.Valid() && Tiles(g.Reads(), Lrd, 0, 0, n) && ReadLength(g) == n
  {
    hide Carry, Tiles, Sum;
    OneSum(n);
    SumAppend([n], 1);
    assert [n] + [1] == [n, 1] && [n, 1][..0] == [] == [n][..0] && [n, 1][1..] == [1];
    var g := GroupIo(0, 0, n, 1, [n, 1], 0, 0, true, false);
    assert g.ReadSegments() == [n, 1];
    SplitReadsInputs(g);
  }

  /** A full cycle with separate reads and writes and no frame lost: the bytes read, and only those, come back to
    * their places, and the working counters add up, those of the writes twice. */
  lemma SplitCycleComplete(g: GroupIo, indices: seq<nat>, m: seq<Byte>, rs: seq<Reply>, net: nat -> Byte)
    requires FullCycle(g, indices, |m|, rs, net) && g.blockLRW
    ensures var es := Entries(g.Plan(), indices);
      && AllFit(es, rs, |m|)
      && var r := ReceiveAll(Received(m, 0, false), es, rs);
      && (forall a :: 0 <= a < |m| ==>
            r.iomap[a] == if g.obytes <= a < g.obytes + ReadLength(g) then net(g.start + a) else m[a])
      && r.wkc == WkcSum(rs) && (r.valid <==> rs != [])
  {
    hide Carry, Chunks, Sum, Entries, ReceiveAll, CycleStack, WkcSum;
    SplitStack(g, indices);
    CycleResult(g, indices, m, rs, net, Entries(g.Plan(), indices));
    EmptySum();
  }
}
