/** Ethernet over EtherCAT: cutting a frame into fragments (`ecx_EOEsend`) and putting it together again
  * (`ecx_EOEreadfragment`). Fragments are described in section 5.7 of ETG.1000.6. */
module Eoe {
  import opened Basics

  /** The parts of a mailbox that matter: its length field, the two header words and the data. */
  datatype Fragment = Fragment(length: nat, frameinfo1: nat, frameinfo2: nat, data: seq<Byte>)

  // ---------- header fields ----------

  /** frameinfo1: frame type in bits 0-3, port in 4-7, last fragment in 8, time appended in 9. */
  function Info1(port: nat, last: bool): nat {
    (port % 16) * 16 + if last then 256 else 0
  }

  function PortOf(info1: nat): nat {
    info1 / 16 % 16
  }

  function IsLast(info1: nat): bool {
    info1 / 256 % 2 == 1
  }

  function TimeAppended(info1: nat): bool {
    info1 / 512 % 2 == 1
  }

  /** frameinfo2: fragment number in bits 0-5, offset or frame size in blocks in 6-11, frame number in 12-15. */
  function Info2(fragmentNo: nat, blocks: nat, frameNo: nat): nat {
    fragmentNo % 64 + (blocks % 64) * 64 + (frameNo % 16) * 4096
  }

  function FragmentNo(info2: nat): (n: nat)
    ensures n < 64
  {
    info2 % 64
  }

  function Blocks(info2: nat): (n: nat)
    ensures n < 64
  {
    info2 / 64 % 64
  }

  function FrameNo(info2: nat): nat {
    info2 / 4096 % 16
  }

  /** The fields of either header word come back as they were put in, cut to their widths. */
  lemma FieldsRoundTrip(port: nat, last: bool, fragmentNo: nat, blocks: nat, frameNo: nat)
    ensures PortOf(Info1(port, last)) == port % 16 && IsLast(Info1(port, last)) == last
    ensures !TimeAppended(Info1(port, last))
    ensures FragmentNo(Info2(fragmentNo, blocks, frameNo)) == fragmentNo % 64
    ensures Blocks(Info2(fragmentNo, blocks, frameNo)) == blocks % 64
    ensures FrameNo(Info2(fragmentNo, blocks, frameNo)) == frameNo % 16
  {
  }

  // ---------- sending ----------

  /** What the sender sends of one frame: `maxdata` is the room for data in a mailbox. */
  datatype Sending = Sending(frame: seq<Byte>, maxdata: nat, port: nat, frameNo: nat)
  {
    predicate Valid() {
      maxdata >= 32 || |frame| <= maxdata
    }

    /** Length of the fragment at an offset: the rest, or as many whole blocks of 32 as there is room for. */
    function SizeAt(offset: nat): (n: nat)
      requires offset <= |frame|
      ensures offset + n <= |frame|
    {
      if |frame| - offset > maxdata then maxdata / 32 * 32 else |frame| - offset
    }

    function FragmentAt(offset: nat, no: nat): Fragment
      requires offset <= |frame|
    {
      var size := SizeAt(offset);
      Fragment(4 + size, Info1(port, size == |frame| - offset),
               Info2(no, if no > 0 then offset / 32 else (|frame| + 31) / 32, frameNo),
               frame[offset..offset + size])
    }

    function Fragments(offset: nat, no: nat): (fs: seq<Fragment>)
      requires Valid() && offset <= |frame|
      ensures fs != []
      decreases |frame| - offset
    {
      var size := SizeAt(offset);
      if size == |frame| - offset then [FragmentAt(offset, no)]
      else [FragmentAt(offset, no)] + Fragments(offset + size, (no + 1) % 256)
    }

    /** Sending has come as far as `sent`; unless it is over, it goes on at `offset` with number `no`. */
    ghost predicate Underway(wkcs: seq<int>, sent: seq<Fragment>, offset: nat, no: nat, notLast: bool, wkc: int) {
      && Valid() && |wkcs| >= |Fragments(0, 0)| && offset <= |frame|
      && (sent == [] ==> notLast && wkc > 0)
      && (sent != [] ==> |sent| <= |wkcs| && wkc == wkcs[|sent| - 1] && forall k :: 0 <= k < |sent| - 1 ==> wkcs[k] > 0)
      && (notLast && wkc > 0 ==> Fragments(0, 0) == sent + Fragments(offset, no))
      && sent <= Fragments(0, 0) && (!notLast ==> sent == Fragments(0, 0))
    }

    /** Sending is over: it stopped behind the last fragment or at the first failure. */
    ghost predicate Over(wkcs: seq<int>, sent: seq<Fragment>, wkc: int)
      requires Valid()
    {
      var all := Fragments(0, 0);
      && 0 < |sent| <= |all| && sent == all[..|sent|] && |sent| <= |wkcs| && wkc == wkcs[|sent| - 1]
      && (forall k :: 0 <= k < |sent| - 1 ==> wkcs[k] > 0)
      && (wkc > 0 ==> sent == all)
    }

    lemma Begin(wkcs: seq<int>)
      requires Valid() && |wkcs| >= |Fragments(0, 0)|
      ensures Underway(wkcs, [], 0, 0, true, 1)
    {
      assert [] + Fragments(0, 0) == Fragments(0, 0);
    }

    lemma Next(wkcs: seq<int>, sent: seq<Fragment>, offset: nat, no: nat, wkc: int)
      requires wkc > 0 && Underway(wkcs, sent, offset, no, true, wkc)
      ensures offset <= |frame| && |sent| < |wkcs|
      ensures var f, w, last := FragmentAt(offset, no), wkcs[|sent|], SizeAt(offset) == |frame| - offset;
        && (last || w <= 0 ==> Underway(wkcs, sent + [f], offset, no, !last, w))
        && (!last && w > 0 ==>
             (SizeAt(offset) > 0 && Underway(wkcs, sent + [f], offset + SizeAt(offset), (no + 1) % 256, true, w)))
    {
      var f, rest := FragmentAt(offset, no), Fragments(offset, no);
      assert rest[0] == f && (SizeAt(offset) == |frame| - offset ==> rest == [f]);
      var more := sent + [f];
      assert more <= Fragments(0, 0);
      if SizeAt(offset) != |frame| - offset {
        assert Fragments(0, 0) == more + Fragments(offset + SizeAt(offset), (no + 1) % 256);
      }
      hide FragmentAt, Fragments;
    }

    lemma End(wkcs: seq<int>, sent: seq<Fragment>, offset: nat, no: nat, notLast: bool, wkc: int)
      requires Underway(wkcs, sent, offset, no, notLast, wkc) && !(notLast && wkc > 0)
      ensures Over(wkcs, sent, wkc)
    {
    }
  }

  /** `ecx_EOEsend` to a slave with the given mailbox length; `wkcs[k]` is the outcome of sending the `k`-th
    * mailbox. The result is the last outcome, or -1 if the mailbox has no room for the headers. */
  method Send(frame: seq<Byte>, mailbox: nat, port: nat, frameNo: nat, wkcs: seq<int>)
      returns (sent: seq<Fragment>, wkc: int)
    requires mailbox >= 10 ==>
      Sending(frame, mailbox - 10, port, frameNo).Valid()
      && |wkcs| >= |Sending(frame, mailbox - 10, port, frameNo).Fragments(0, 0)|
    ensures mailbox < 10 ==> sent == [] && wkc == -1
    ensures mailbox >= 10 ==> Sending(frame, mailbox - 10, port, frameNo).Over(wkcs, sent, wkc)
  {
    if mailbox < 10 {
      return [], -1;
    }
    sent, wkc := SendFragments(frame, mailbox - 10, port, frameNo, wkcs);
  }

  /** The loop of `ecx_EOEsend`. */
  method SendFragments(frame: seq<Byte>, maxdata: nat, port: nat, frameNo: nat, wkcs: seq<int>)
      returns (sent: seq<Fragment>, wkc: int)
    requires Sending(frame, maxdata, port, frameNo).Valid()
    requires |wkcs| >= |Sending(frame, maxdata, port, frameNo).Fragments(0, 0)|
    ensures Sending(frame, maxdata, port, frameNo).Over(wkcs, sent, wkc)
  {
    hide *;
    ghost var s := Sending(frame, maxdata, port, frameNo);
    var txfragmentno: nat, txframeoffset: nat, notLast: bool := 0, 0, true;
    sent, wkc := [], 1;
    s.Begin(wkcs);
    while notLast && wkc > 0
      invariant txframeoffset <= |frame| && s.Underway(wkcs, sent, txframeoffset, txfragmentno, notLast, wkc)
      decreases notLast && wkc > 0, |frame| - txframeoffset
    {
      s.Next(wkcs, sent, txframeoffset, txfragmentno, wkc);
      var f, txframesize := Build(frame, maxdata, port, frameNo, txframeoffset, txfragmentno);
      notLast := txframesize != |frame| - txframeoffset;
      wkc := wkcs[|sent|];
      sent := sent + [f];
      if notLast && wkc > 0 {
        txframeoffset := txframeoffset + txframesize;
        txfragmentno := (txfragmentno + 1) % 256;
      }
    }
    s.End(wkcs, sent, txframeoffset, txfragmentno, notLast, wkc);
  }

  /** The filling of one mailbox. */
  method Build(frame: seq<Byte>, maxdata: nat, port: nat, frameNo: nat, offset: nat, no: nat)
      returns (f: Fragment, txframesize: nat)
    requires offset <= |frame|
    ensures var s := Sending(frame, maxdata, port, frameNo);
      txframesize == s.SizeAt(offset) && f == s.FragmentAt(offset, no)
    ensures var rest := |frame| - offset;
      && txframesize == (if rest <= maxdata then rest else maxdata - maxdata % 32)
      && f.data == frame[offset..offset + txframesize] && f.length == txframesize + 4
      && f.frameinfo1 % 16 == 0 && f.frameinfo1 / 16 % 16 == port % 16
      && f.frameinfo1 / 256 == (if txframesize == rest then 1 else 0)
      && f.frameinfo2 % 64 == no % 64 && f.frameinfo2 / 4096 == frameNo % 16
      && f.frameinfo2 / 64 % 64 == (if no > 0 then offset / 32 else (|frame| + 31) / 32) % 64
  {
    txframesize := |frame| - offset;
    if txframesize > maxdata {
      txframesize := maxdata / 32 * 32;
    }
    var frameinfo1 := Info1(port, txframesize == |frame| - offset);
    var frameinfo2 := if no > 0 then Info2(no, offset / 32, frameNo) else Info2(no, (|frame| + 31) / 32, frameNo);
    f := Fragment(4 + txframesize, frameinfo1, frameinfo2, frame[offset..offset + txframesize]);
    Info1Fields(port, txframesize == |frame| - offset);
    Info2Fields(no, if no > 0 then offset / 32 else (|frame| + 31) / 32, frameNo);
    hide Info1, Info2;
  }

  lemma Info1Fields(port: nat, last: bool)
    ensures var i := Info1(port, last);
      i % 16 == 0 && i / 16 % 16 == port % 16 && i / 256 == if last then 1 else 0
  {
  }

  lemma Info2Fields(no: nat, blocks: nat, frameNo: nat)
    ensures var i := Info2(no, blocks, frameNo);
      i % 64 == no % 64 && i / 64 % 64 == blocks % 64 && i / 4096 == frameNo % 16
  {
    var n, b, w := no % 64, blocks % 64, frameNo % 16;
    assert Info2(no, blocks, frameNo) == n + 64 * (b + 64 * w);
  }

  /** Without room for a block the sender of a longer frame would send empty fragments for ever. */
  lemma NoRoomNoProgress(s: Sending, offset: nat)
    requires offset <= |s.frame|
    ensures s.SizeAt(offset) == 0 && offset < |s.frame| <==> s.maxdata < 32 && |s.frame| - offset > s.maxdata
  {
  }

  // ---------- reassembly ----------

  /** The four working variables, the size variable and the frame buffer. */
  datatype Assembly = Assembly(
    fragmentNo: nat,
    frameSize: nat,
    offset: nat,
    frameNo: nat,
    psize: int,
    buffer: seq<Byte>)
  {
    function Reset(): Assembly {
      this.(fragmentNo := 0, frameSize := 0, offset := 0, frameNo := 0)
    }
  }

  const INVALID_DATA := -11

  /** The data is as long as the 16-bit length field says, the header words taken off. */
  predicate Proper(f: Fragment) {
    |f.data| == (f.length + 65532) % 65536
  }

  /** The copy of a fragment's data, if it stays within the expected frame and the buffer. */
  function Copied(a: Assembly, f: Fragment): Assembly
    requires a.psize <= |a.buffer| && Proper(f)
  {
    var size := |f.data|;
    if a.offset + size <= a.frameSize && a.offset + size <= a.psize then
      a.(buffer := a.buffer[..a.offset] + f.data + a.buffer[a.offset + size..],
         offset := (a.offset + size) % 65536, fragmentNo := (a.fragmentNo + 1) % 256)
    else a
  }

  /** The last fragment hands the frame over. */
  function Finished(a: Assembly, f: Fragment): (int, Assembly) {
    if IsLast(f.frameinfo1) then
      (1, a.Reset().(psize := if TimeAppended(f.frameinfo1) then (a.offset + 65532) % 65536 else a.offset))
    else (0, a)
  }

  /** The header checks: whether the fragment is refused, and the assembly ready for its data. */
  function Checked(a: Assembly, f: Fragment): (bool, Assembly) {
    var no := FragmentNo(f.frameinfo2);
    if a.fragmentNo != no && no > 0 then (false, if a.fragmentNo != 0 then a.Reset() else a)
    else
      var b := if a.fragmentNo != no then a.Reset() else a;
      if b.fragmentNo == 0 then
        (true, b.(frameSize := Blocks(f.frameinfo2) * 32, offset := 0, frameNo := FrameNo(f.frameinfo2)))
      else if b.frameNo != FrameNo(f.frameinfo2) || b.offset != Blocks(f.frameinfo2) * 32 then (false, b.Reset())
      else (true, b)
  }

  /** What `ecx_EOEreadfragment` does with an EoE mailbox. */
  function Read(a: Assembly, f: Fragment): (int, Assembly)
    requires a.psize <= |a.buffer| && Proper(f)
  {
    var (ok, b) := Checked(a, f);
    if ok then Finished(Copied(b, f), f) else (INVALID_DATA, b)
  }

  /** Which fragments are refused: one that is neither the expected nor a first one, and one in the middle that belongs
    * to another frame or to another place. Then the working variables are zero and the buffer is as it was. Any other
    * fragment completes the frame exactly if it is marked as the last; its data is copied if it stays within the frame
    * and the buffer. Number, block and frame number are bits 0-5, 6-11 and 12-15 of the second header word, the mark is
    * bit 8 of the first, and bit 9 tells of a time stamp. */
  lemma ReadRefuses(a: Assembly, f: Fragment)
    requires a.psize <= |a.buffer| && Proper(f)
    ensures var no, block, frameNo := f.frameinfo2 % 64, f.frameinfo2 / 64 % 64, f.frameinfo2 / 4096 % 16;
      var (w, b) := Read(a, f);
      var refused := (no > 0 && no != a.fragmentNo)
                     || (no > 0 && no == a.fragmentNo && (frameNo != a.frameNo || 32 * block != a.offset));
      && (w == -11 <==> refused)
      && (refused ==> b.buffer == a.buffer && b.psize == a.psize && b.fragmentNo == 0
                      && (a.fragmentNo > 0 ==> b.frameSize == 0 && b.offset == 0 && b.frameNo == 0))
      && (!refused ==> w == if f.frameinfo1 / 256 % 2 == 1 then 1 else 0)
  {
  }

  /** What becomes of the data of a fragment that is not refused: it goes behind what is there, a first one to the
    * front, unless it leads beyond the blocks announced with the first one or beyond the buffer. A last one, whether or
    * not it was stored, makes the size of the frame known, less the four bytes of a time stamp. */
  lemma ReadStores(a: Assembly, f: Fragment)
    requires a.psize <= |a.buffer| && Proper(f) && Read(a, f).0 != -11
    requires a.offset < 65536 && a.fragmentNo < 256
    ensures var (w, b) := Read(a, f);
      var first, n := f.frameinfo2 % 64 == 0, |f.data|;
      var start, size := if first then 0 else a.offset, if first then f.frameinfo2 / 64 % 64 * 32 else a.frameSize;
      var fits := start + n <= size && start + n <= a.psize;
      var end := if fits then (start + n) % 65536 else start;
      && b.buffer == (if fits then a.buffer[..start] + f.data + a.buffer[start + n..] else a.buffer)
      && (w == 0 ==>
           && b.frameSize == size && b.offset == end && b.psize == a.psize
           && b.frameNo == (if first then f.frameinfo2 / 4096 % 16 else a.frameNo)
           && b.fragmentNo == (var no := if first then 0 else a.fragmentNo; if fits then (no + 1) % 256 else no))
      && (w == 1 ==>
           && b.fragmentNo == 0 && b.frameSize == 0 && b.offset == 0 && b.frameNo == 0
           && b.psize == if f.frameinfo1 / 512 % 2 == 1 then (end + 65536 - 4) % 65536 else end)
  {
  }

  /** The working variables as the caller of `ecx_EOEreadfragment` keeps them, one for each pointer. */
  class Receiver {
    var rxfragmentno: nat
    var rxframesize: nat
    var rxframeoffset: nat
    var rxframeno: nat
    var psize: int
    const buffer: array<Byte>

    constructor (capacity: nat)
      ensures fresh(buffer) && buffer.Length == capacity && psize == capacity
    {
      buffer := new Byte[capacity];
      psize := capacity;
    }

    ghost function State(): Assembly
      reads this, buffer
    {
      Assembly(rxfragmentno, rxframesize, rxframeoffset, rxframeno, psize, buffer[..])
    }

    method Forget()
      modifies this
      ensures State() == old(State()).Reset()
    {
      rxfragmentno := 0;
      rxframesize := 0;
      rxframeoffset := 0;
      rxframeno := 0;
    }

    /** `ecx_EOEreadfragment` for a mailbox of EoE type. */
    method ReadFragment(f: Fragment) returns (wkc: int)
      requires psize <= buffer.Length && Proper(f)
      modifies this, buffer
      ensures (wkc, State()) == Read(old(State()), f)
    {
      hide Checked, Copied, Finished;
      var ok := Check(f);
      if !ok {
        return INVALID_DATA;
      }
      Store(f);
      wkc := Finish(f);
    }

    /** Is it the fragment that is expected, or the first of a new frame? */
    method Check(f: Fragment) returns (ok: bool)
      modifies this
      ensures (ok, State()) == Checked(old(State()), f) && psize == old(psize)
    {
      hide FragmentNo, Blocks, FrameNo;
      if rxfragmentno != FragmentNo(f.frameinfo2) {
        if rxfragmentno != 0 {
          Forget();
        }
        if FragmentNo(f.frameinfo2) > 0 {
          return false;
        }
      }
      if rxfragmentno == 0 {
        rxframesize := Blocks(f.frameinfo2) * 32;
        rxframeoffset := 0;
        rxframeno := FrameNo(f.frameinfo2);
      } else if rxframeno != FrameNo(f.frameinfo2) {
        Forget();
        return false;
      } else if rxframeoffset != Blocks(f.frameinfo2) * 32 {
        Forget();
        return false;
      }
      ok := true;
    }

    /** The copy, if it stays inside the expected frame size. */
    method Store(f: Fragment)
      requires psize <= buffer.Length && Proper(f)
      modifies this, buffer
      ensures State() == Copied(old(State()), f)
    {
      if rxframeoffset + |f.data| <= rxframesize && rxframeoffset + |f.data| <= psize {
        CopyInto(buffer, rxframeoffset, f.data);
        rxframeoffset := (rxframeoffset + |f.data|) % 65536;
        rxfragmentno := (rxfragmentno + 1) % 256;
      }
    }

    /** Is it the last fragment? */
    method Finish(f: Fragment) returns (wkc: int)
      modifies this
      ensures (wkc, State()) == Finished(old(State()), f)
    {
      wkc := 0;
      if IsLast(f.frameinfo1) {
        if TimeAppended(f.frameinfo1) {
          rxframeoffset := (rxframeoffset + 65532) % 65536;
        }
        psize := rxframeoffset;
        Forget();
        wkc := 1;
      }
    }
  }

  // ---------- round trip ----------

  /** A data fragment without a time stamp. */
  predicate WellFormed(f: Fragment) {
    |f.data| + 4 == f.length < 65536 && Proper(f) && !TimeAppended(f.frameinfo1)
  }

  /** The size variable does not exceed the buffer, nor does the offset in the middle of a frame. */
  predicate Sane(a: Assembly) {
    a.psize <= |a.buffer| && (a.fragmentNo > 0 ==> a.offset <= |a.buffer|)
  }

  /** The results of reading a list of fragments, one after the other, and the final assembly. A first
    * fragment may meet any values of the working variables. */
  function ReadAll(a: Assembly, fs: seq<Fragment>): (r: (seq<int>, Assembly))
    requires forall k :: 0 <= k < |fs| ==> WellFormed(fs[k])
    requires Sane(a) || (a.psize <= |a.buffer| && fs != [] && FragmentNo(fs[0].frameinfo2) == 0)
    ensures |r.0| == |fs|
    decreases |fs|
  {
    if fs == [] then ([], a)
    else
      ReadKeepsSane(a, fs[0]);
      var (w, b) := Read(a, fs[0]);
      var (ws, c) := ReadAll(b, fs[1..]);
      ([w] + ws, c)
  }

  lemma ReadKeepsSane(a: Assembly, f: Fragment)
    requires WellFormed(f) && (Sane(a) || (a.psize <= |a.buffer| && FragmentNo(f.frameinfo2) == 0))
    ensures Proper(f)
    ensures var (w, b) := Read(a, f); Sane(b) && |b.buffer| == |a.buffer|
  {
    hide FragmentNo, Blocks, FrameNo, IsLast;
  }

  /** All zeros but the last, which is 1. */
  ghost predicate AllButLast(ws: seq<int>) {
    ws != [] && ws[|ws| - 1] == 1 && forall k :: 0 <= k < |ws| - 1 ==> ws[k] == 0
  }

  ghost predicate Delivered(r: (seq<int>, Assembly), frame: seq<Byte>) {
    && AllButLast(r.0) && r.1.psize == |frame| <= |r.1.buffer| && r.1.buffer[..|frame|] == frame
  }

  const MAX_BLOCKS := 63

  /** Ready for fragment number `no`, which continues at the offset. */
  ghost predicate ReadyFor(a: Assembly, s: Sending, offset: nat, no: nat) {
    && a.fragmentNo == no && a.frameSize == (|s.frame| + 31) / 32 * 32 && a.offset == offset <= |s.frame|
    && a.frameNo == s.frameNo % 16 && |s.frame| <= a.psize <= |a.buffer| && a.buffer[..offset] == s.frame[..offset]
    && offset % 32 == 0 && 32 * no <= offset
  }

  /** What reading fragment `no` comes to. */
  ghost predicate Good(r: (int, Assembly), a: Assembly, s: Sending, offset: nat, no: nat)
    requires offset <= |s.frame|
  {
    var size := s.SizeAt(offset);
    if size < |s.frame| - offset then
      r.0 == 0 && ReadyFor(r.1, s, offset + size, no + 1) && r.1.psize == a.psize
    else
      r.0 == 1 && r.1.psize == |s.frame| <= |r.1.buffer| && r.1.buffer[..|s.frame|] == s.frame
  }

  /** An expected fragment is copied behind what is there. */
  lemma CopyInTurn(a: Assembly, s: Sending, offset: nat, no: nat)
    requires |s.frame| <= 32 * MAX_BLOCKS && s.Valid() && ReadyFor(a, s, offset, no)
    requires offset < |s.frame| || no == 0
    ensures var f := s.FragmentAt(offset, no);
      Proper(f) && no < 64 && Good(Finished(Copied(a, f), f), a, s, offset, no)
  {
    CopiedInTurn(a, s, offset, no);
    FragmentFlags(s, offset, no);
    SizesFit(s, offset);
    hide IsLast, TimeAppended, Sending.SizeAt, Sending.FragmentAt, Copied, Proper;
  }

  lemma FragmentFlags(s: Sending, offset: nat, no: nat)
    requires offset <= |s.frame|
    ensures var f := s.FragmentAt(offset, no);
      (IsLast(f.frameinfo1) <==> s.SizeAt(offset) == |s.frame| - offset) && !TimeAppended(f.frameinfo1)
  {
    FieldsRoundTrip(s.port, s.SizeAt(offset) == |s.frame| - offset, no, offset / 32, s.frameNo);
    hide Info1, Info2, IsLast, TimeAppended;
  }

  lemma CopiedInTurn(a: Assembly, s: Sending, offset: nat, no: nat)
    requires |s.frame| <= 32 * MAX_BLOCKS && s.Valid() && ReadyFor(a, s, offset, no)
    requires offset < |s.frame| || no == 0
    ensures var f, size := s.FragmentAt(offset, no), s.SizeAt(offset);
      && Proper(f) && no < 64
      && var c := Copied(a, f);
         c == a.(buffer := c.buffer, offset := offset + size, fragmentNo := no + 1)
         && |c.buffer| == |a.buffer| && c.buffer[..offset + size] == s.frame[..offset + size]
  {
    var size := s.SizeAt(offset);
    SizesFit(s, offset);
    hide Info1, Info2, Sending.SizeAt;
    Placed(a.buffer, s.frame, offset, size);
  }

  lemma SizesFit(s: Sending, offset: nat)
    requires |s.frame| <= 32 * MAX_BLOCKS && s.Valid() && offset <= |s.frame| && offset % 32 == 0
    ensures var size := s.SizeAt(offset);
      && offset + size <= (|s.frame| + 31) / 32 * 32 <= 2016
      && (size < |s.frame| - offset ==> size >= 32 && size % 32 == 0)
  {
  }

  lemma Placed(buffer: seq<Byte>, frame: seq<Byte>, offset: nat, size: nat)
    requires offset + size <= |frame| <= |buffer| && buffer[..offset] == frame[..offset]
    ensures (buffer[..offset] + frame[offset..offset + size] + buffer[offset + size..])[..offset + size]
      == frame[..offset + size]
  {
  }

  /** A fragment that comes in its turn. */
  lemma ReadInTurn(a: Assembly, s: Sending, offset: nat, no: nat)
    requires |s.frame| <= 32 * MAX_BLOCKS && s.Valid() && ReadyFor(a, s, offset, no) && no > 0 && offset < |s.frame|
    ensures var f := s.FragmentAt(offset, no);
      Proper(f) && Good(Read(a, f), a, s, offset, no)
  {
    CopyInTurn(a, s, offset, no);
    FieldsRoundTrip(s.port, s.SizeAt(offset) == |s.frame| - offset, no, offset / 32, s.frameNo);
    hide Info1, Info2, FragmentNo, Blocks, FrameNo, Copied, Finished, Good, Proper;
    assert Checked(a, s.FragmentAt(offset, no)) == (true, a);
  }

  /** The first fragment starts a frame whatever the working variables were. */
  lemma ReadFirst(a: Assembly, s: Sending)
    requires |s.frame| <= 32 * MAX_BLOCKS && s.Valid() && |s.frame| <= a.psize <= |a.buffer|
    ensures var f := s.FragmentAt(0, 0);
      Proper(f) && Good(Read(a, f), a, s, 0, 0)
  {
    var c := Assembly(0, (|s.frame| + 31) / 32 * 32, 0, s.frameNo % 16, a.psize, a.buffer);
    CopyInTurn(c, s, 0, 0);
    FieldsRoundTrip(s.port, s.SizeAt(0) == |s.frame|, 0, (|s.frame| + 31) / 32, s.frameNo);
    hide Info1, Info2, FragmentNo, Blocks, FrameNo, Copied, Finished, Proper;
    assert Checked(a, s.FragmentAt(0, 0)) == (true, c);
  }

  lemma {:induction false} FragmentsWellFormed(s: Sending, offset: nat, no: nat)
    requires s.Valid() && offset <= |s.frame| < 65532
    ensures forall k :: 0 <= k < |s.Fragments(offset, no)| ==> WellFormed(s.Fragments(offset, no)[k])
    decreases |s.frame| - offset
  {
    hide Info1, Info2, TimeAppended;
    var size := s.SizeAt(offset);
    FieldsRoundTrip(s.port, size == |s.frame| - offset, no, offset / 32, s.frameNo);
    if size != |s.frame| - offset {
      FragmentsWellFormed(s, offset + size, (no + 1) % 256);
    }
  }

  lemma {:induction false} ReadRest(a: Assembly, s: Sending, offset: nat, no: nat)
    requires |s.frame| <= 32 * MAX_BLOCKS && s.Valid() && ReadyFor(a, s, offset, no) && no > 0 && offset < |s.frame|
    ensures Sane(a) && forall k :: 0 <= k < |s.Fragments(offset, no)| ==> WellFormed(s.Fragments(offset, no)[k])
    ensures Delivered(ReadAll(a, s.Fragments(offset, no)), s.frame)
    decreases |s.frame| - offset
  {
    hide Read, WellFormed, Proper, ReadAll, Delivered, Sending.FragmentAt;
    FragmentsWellFormed(s, offset, no);
    ReadInTurn(a, s, offset, no);
    CopyInTurn(a, s, offset, no);
    var fs, f, size := s.Fragments(offset, no), s.FragmentAt(offset, no), s.SizeAt(offset);
    assert fs[0] == f;
    ReadKeepsSane(a, f);
    var (w, b) := Read(a, f);
    if size < |s.frame| - offset {
      ReadRest(b, s, offset + size, no + 1);
      assert fs[1..] == s.Fragments(offset + size, no + 1);
      DeliveredFirst(a, fs, f, w, b, s.frame);
    } else {
      DeliveredLast(a, fs, f, w, b, s.frame);
    }
  }

  /** A fragment read with result 0 before a delivery belongs to it, and one read with result 1 may complete it. */
  lemma DeliveredFirst(a: Assembly, fs: seq<Fragment>, f: Fragment, w: int, b: Assembly, frame: seq<Byte>)
    requires fs != [] && fs[0] == f && forall k :: 0 <= k < |fs| ==> WellFormed(fs[k])
    requires Sane(a) || (a.psize <= |a.buffer| && FragmentNo(f.frameinfo2) == 0)
    requires Proper(f) && Sane(b) && Read(a, f) == (w, b) && w == 0
    requires Delivered(ReadAll(b, fs[1..]), frame)
    ensures Delivered(ReadAll(a, fs), frame)
  {
    hide Read, WellFormed, FragmentNo, Proper;
  }

  lemma DeliveredLast(a: Assembly, fs: seq<Fragment>, f: Fragment, w: int, b: Assembly, frame: seq<Byte>)
    requires fs == [f] && WellFormed(f)
    requires Sane(a) || (a.psize <= |a.buffer| && FragmentNo(f.frameinfo2) == 0)
    requires Proper(f) && Read(a, f) == (w, b) && w == 1
    requires b.psize == |frame| <= |b.buffer| && b.buffer[..|frame|] == frame
    ensures Delivered(ReadAll(a, fs), frame)
  {
    hide Read, WellFormed, FragmentNo, Proper;
    assert fs[1..] == [];
  }

  /** Whatever the working variables were, the fragments of a frame of at most 63 blocks are put together to
    * exactly that frame: every result but the last is 0, the last is 1. */
  lemma RoundTrip(a: Assembly, s: Sending)
    requires s.Valid() && |s.frame| <= 32 * MAX_BLOCKS && |s.frame| <= a.psize <= |a.buffer|
    ensures forall k :: 0 <= k < |s.Fragments(0, 0)| ==> WellFormed(s.Fragments(0, 0)[k])
    ensures FragmentNo(s.Fragments(0, 0)[0].frameinfo2) == 0
    ensures Delivered(ReadAll(a, s.Fragments(0, 0)), s.frame)
  {
    hide Read, FragmentNo, WellFormed, Proper, Sane, Delivered, ReadAll, Sending.FragmentAt, ReadyFor;
    FragmentsWellFormed(s, 0, 0);
    FirstFragment(s);
    ReadFirst(a, s);
    var fs, f, size := s.Fragments(0, 0), s.FragmentAt(0, 0), s.SizeAt(0);
    ReadKeepsSane(a, f);
    var (w, b) := Read(a, f);
    if size < |s.frame| {
      ReadRest(b, s, size, 1);
      DeliveredFirst(a, fs, f, w, b, s.frame);
    } else {
      DeliveredLast(a, fs, f, w, b, s.frame);
    }
  }

  lemma FirstFragment(s: Sending)
    requires s.Valid()
    ensures var fs, f, size := s.Fragments(0, 0), s.FragmentAt(0, 0), s.SizeAt(0);
      fs[0] == f && FragmentNo(f.frameinfo2) == 0 && (size < |s.frame| ==> fs[1..] == s.Fragments(size, 1))
      && (size == |s.frame| ==> fs == [f])
  {
    FieldsRoundTrip(s.port, s.SizeAt(0) == |s.frame|, 0, (|s.frame| + 31) / 32, s.frameNo);
    hide Info1, Info2;
  }

  /** No frame of more than 63 blocks is ever reported complete with its length: the receiver knows of 63 at most. */
  ghost predicate Bounded(a: Assembly) {
    a.offset <= a.frameSize <= 32 * MAX_BLOCKS
  }

  lemma ReadBounded(a: Assembly, f: Fragment)
    requires WellFormed(f) && a.psize <= |a.buffer| && (Bounded(a) || FragmentNo(f.frameinfo2) == 0)
    ensures var (w, b) := Read(a, f);
      Bounded(b) && (w == 1 ==> b.psize <= 32 * MAX_BLOCKS) && (w != 1 ==> b.psize == a.psize)
  {
    hide FragmentNo, Blocks, FrameNo, IsLast;
  }

  lemma {:induction false} ReadAllBounded(a: Assembly, fs: seq<Fragment>)
    requires forall k :: 0 <= k < |fs| ==> WellFormed(fs[k])
    requires Sane(a) || (a.psize <= |a.buffer| && fs != [] && FragmentNo(fs[0].frameinfo2) == 0)
    requires Bounded(a) || (fs != [] && FragmentNo(fs[0].frameinfo2) == 0)
    ensures var (ws, b) := ReadAll(a, fs);
      (exists k :: 0 <= k < |ws| && ws[k] == 1) ==> b.psize <= 32 * MAX_BLOCKS
    ensures var (ws, b) := ReadAll(a, fs);
      (forall k :: 0 <= k < |ws| ==> ws[k] != 1) ==> b.psize == a.psize
    decreases |fs|
  {
    if fs != [] {
      ReadKeepsSane(a, fs[0]);
      ReadBounded(a, fs[0]);
      var (w, b) := Read(a, fs[0]);
      ReadAllBounded(b, fs[1..]);
      hide Read;
      var (ws, c) := ReadAll(b, fs[1..]);
      var all := ReadAll(a, fs).0;
      assert all == [w] + ws;
      assert forall k :: 0 <= k < |ws| ==> all[k + 1] == ws[k];
      if exists k :: 0 <= k < |all| && all[k] == 1 {
        var k :| 0 <= k < |all| && all[k] == 1;
        assert k == 0 || ws[k - 1] == 1;
      }
      assert all[0] == w;
    }
  }

  /** So the round trip works exactly for frames of at most 63 blocks of 32 bytes. */
  lemma RoundTripExactly(a: Assembly, s: Sending)
    requires s.Valid() && |s.frame| < 65532 && |s.frame| <= a.psize <= |a.buffer|
    ensures forall k :: 0 <= k < |s.Fragments(0, 0)| ==> WellFormed(s.Fragments(0, 0)[k])
    ensures FragmentNo(s.Fragments(0, 0)[0].frameinfo2) == 0
    ensures Delivered(ReadAll(a, s.Fragments(0, 0)), s.frame) <==> |s.frame| <= 32 * MAX_BLOCKS
  {
    FragmentsWellFormed(s, 0, 0);
    FieldsRoundTrip(s.port, s.SizeAt(0) == |s.frame|, 0, (|s.frame| + 31) / 32, s.frameNo);
    assert s.Fragments(0, 0)[0] == s.FragmentAt(0, 0);
    if |s.frame| <= 32 * MAX_BLOCKS {
      RoundTrip(a, s);
    } else {
      hide Read, WellFormed, Sending.Fragments, ReadAll;
      ReadAllBounded(a, s.Fragments(0, 0));
      var ws := ReadAll(a, s.Fragments(0, 0)).0;
      if AllButLast(ws) {
        assert ws[|ws| - 1] == 1;
      }
    }
  }
}
