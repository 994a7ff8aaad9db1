/** Mapping all slaves of a group, outputs first, then inputs, then mailbox status bytes:
  * `ecx_main_config_map_group`. */
module GroupMapping {
  import opened Basics
  import opened FmmuMapping
  import opened Segments

  const OUTPUTS := 3
  const INPUTS := 4

  /** What the mapping needs to know of a slave; `status` tells whether it has a mailbox and an FMMU to spare. */
  datatype SlaveIo = SlaveIo(sms: seq<SyncManager>, obits: nat, ibits: nat, status: bool)
  {
    ghost predicate Productive() {
      && |sms| > 0
      && (obits > 7 ==> FmmuMapping.Productive(sms, OUTPUTS, 0, 0))
      && (ibits > 7 ==> FmmuMapping.Productive(sms, INPUTS, 0, 0))
    }
  }

  function RoundUp(at: nat): (r: nat)
    ensures at <= r < at + 8 && r % 8 == 0
  {
    (at + 7) / 8 * 8
  }

  /** Where the cursor, a bit position, stands after a slave; unpacked slaves end on a byte boundary. */
  function Advance(at: nat, bits: nat, packed: bool): nat {
    if bits == 0 then at else if packed then EndOf(at, bits) else RoundUp(EndOf(at, bits))
  }

  /** Where the cursor stands when it is slave `i`'s turn. */
  function Turn(bits: seq<nat>, at: nat, packed: bool, i: nat): (a: nat)
    requires i <= |bits|
    ensures a >= at
  {
    if i == 0 then at else
      AdvanceGrows(Turn(bits, at, packed, i - 1), bits[i - 1], packed);
      Advance(Turn(bits, at, packed, i - 1), bits[i - 1], packed)
  }

  lemma AdvanceGrows(at: nat, bits: nat, packed: bool)
    ensures at <= StartOf(at, bits) <= EndOf(at, bits)
    ensures bits > 0 ==> EndOf(at, bits) <= Advance(at, bits, packed)
    ensures Advance(at, bits, packed) >= at && (!packed && at % 8 == 0 ==> Advance(at, bits, packed) % 8 == 0)
  {
  }

  // ---------- places in the logical address space ----------

  lemma {:induction false} TurnsGrow(bits: seq<nat>, at: nat, packed: bool, i: nat, j: nat)
    requires i < j <= |bits| && bits[i] > 0
    ensures EndOf(Turn(bits, at, packed, i), bits[i]) <= Turn(bits, at, packed, j)
    decreases j
  {
    AdvanceGrows(Turn(bits, at, packed, j - 1), bits[j - 1], packed);
    if i < j - 1 {
      TurnsGrow(bits, at, packed, i, j - 1);
    }
  }

  /** The bits of the slaves of one direction, from first to last, lie behind one another. */
  lemma PlacesDisjoint(bits: seq<nat>, at: nat, packed: bool, i: nat, j: nat)
    requires i < j < |bits| && bits[i] > 0
    ensures EndOf(Turn(bits, at, packed, i), bits[i]) <= StartOf(Turn(bits, at, packed, j), bits[j])
  {
    TurnsGrow(bits, at, packed, i, j);
    AdvanceGrows(Turn(bits, at, packed, j), bits[j], packed);
  }

  lemma {:induction false} TurnPrefix(bits: seq<nat>, n: nat, at: nat, packed: bool, i: nat)
    requires i <= n <= |bits|
    ensures Turn(bits[..n], at, packed, i) == Turn(bits, at, packed, i)
    decreases i
  {
    if i > 0 {
      TurnPrefix(bits, n, at, packed, i - 1);
    }
  }

  lemma {:induction false} TurnUpTo(bits: seq<nat>, at: nat, packed: bool, i: nat)
    requires i <= |bits|
    ensures Turn(bits, at, packed, i) <= Turn(bits, at, packed, |bits|)
    ensures !packed && at % 8 == 0 ==> Turn(bits, at, packed, i) % 8 == 0
    decreases |bits|
  {
    if bits != [] {
      var n := |bits| - 1;
      AdvanceGrows(Turn(bits, at, packed, n), bits[n], packed);
      TurnPrefix(bits, n, at, packed, n);
      if i < |bits| {
        TurnUpTo(bits[..n], at, packed, i);
        TurnPrefix(bits, n, at, packed, i);
      } else {
        TurnUpTo(bits[..n], at, packed, n);
      }
    }
  }

  /** The whole bytes slave `i` moves the cursor over. */
  function Extent(bits: seq<nat>, at: nat, packed: bool, i: nat): nat
    requires i < |bits|
  {
    AdvanceGrows(Turn(bits, at, packed, i), bits[i], packed);
    assert Turn(bits, at, packed, i) / 8 <= Turn(bits, at, packed, i + 1) / 8;
    Turn(bits, at, packed, i + 1) / 8 - Turn(bits, at, packed, i) / 8
  }

  function Extents(bits: seq<nat>, at: nat, packed: bool): (ds: seq<nat>)
    ensures |ds| == |bits|
  {
    seq(|bits|, i requires 0 <= i < |bits| => Extent(bits, at, packed, i))
  }

  lemma {:induction false} ExtentsSum(bits: seq<nat>, at: nat, packed: bool, i: nat)
    requires i <= |bits|
    ensures Sum(Extents(bits, at, packed)[..i]) == Turn(bits, at, packed, i) / 8 - at / 8
    decreases i
  {
    if i > 0 {
      var ds := Extents(bits, at, packed);
      ExtentsSum(bits, at, packed, i - 1);
      assert ds[..i] == ds[..i - 1] + [ds[i - 1]];
      SumAppend(ds[..i - 1], ds[i - 1]);
      hide Turn;
    }
  }

  /** Unpacked, a slave takes whole bytes: as many as its bits need. */
  lemma UnpackedExtent(bits: seq<nat>, at: nat, i: nat)
    requires i < |bits| && at % 8 == 0
    ensures Extent(bits, at, false, i) == BytesOf(bits[i])
    ensures StartOf(Turn(bits, at, false, i), bits[i]) == Turn(bits, at, false, i)
  {
    TurnUpTo(bits, at, false, i);
    var t := Turn(bits, at, false, i);
    assert Turn(bits, at, false, i + 1) == Advance(t, bits[i], false);
    hide Turn;
  }

  /** Bytes needed by slaves that share none. */
  function BytesTogether(bits: seq<nat>): nat {
    if bits == [] then 0 else BytesTogether(bits[..|bits| - 1]) + (bits[|bits| - 1] + 7) / 8
  }

  /** Unpacked, a slave stands behind the whole bytes of those before it. */
  lemma {:induction false} UnpackedTurn(bits: seq<nat>, at: nat, i: nat)
    requires i <= |bits|
    ensures Turn(bits, 8 * at, false, i) == 8 * (at + BytesTogether(bits[..i]))
    decreases i
  {
    if i > 0 {
      UnpackedTurn(bits, at, i - 1);
      assert bits[..i][..i - 1] == bits[..i - 1];
      hide Turn, BytesTogether;
      UnpackedAdvance(at + BytesTogether(bits[..i - 1]), bits[i - 1]);
      LastTurn(bits, 8 * at, i);
    }
  }

  lemma UnpackedAdvance(at: nat, bits: nat)
    ensures Advance(8 * at, bits, false) == 8 * (at + (bits + 7) / 8)
  {
  }

  lemma LastTurn(bits: seq<nat>, at: nat, i: nat)
    requires 0 < i <= |bits|
    ensures Turn(bits, at, false, i) == Advance(Turn(bits, at, false, i - 1), bits[i - 1], false)
    ensures BytesTogether(bits[..i]) == BytesTogether(bits[..i][..i - 1]) + (bits[i - 1] + 7) / 8
  {
    hide Advance;
  }

  // ---------- one direction ----------

  /** The rounded-up end of a direction: a byte begun but not finished counts as a whole one. */
  function EndOfAll(bits: seq<nat>, at: nat, packed: bool): nat {
    RoundUp(Turn(bits, at, packed, |bits|))
  }

  function PackAll(bits: seq<nat>, at: nat, packed: bool, p: Packer, limit: nat): Packer
    requires p.max > 0
  {
    var q := Pack(Extents(bits, at, packed), p, limit);
    if Turn(bits, at, packed, |bits|) % 8 > 0 then AddRest(q, limit) else q
  }

  lemma PackAllValid(bits: seq<nat>, at: nat, packed: bool, p: Packer, limit: nat)
    requires p.Valid(limit) && at % 8 == 0
    ensures var q := PackAll(bits, at, packed, p, limit);
      && q.Valid(limit) && q.Total() == p.Total() + (EndOfAll(bits, at, packed) / 8 - at / 8)
      && at <= EndOfAll(bits, at, packed)
  {
    hide Turn, Pack, AddRest;
    var ds := Extents(bits, at, packed);
    PackValid(ds, p, limit);
    ExtentsSum(bits, at, packed, |bits|);
    assert ds[..|bits|] == ds;
    AddRestValid(Pack(ds, p, limit), limit);
  }

  // ---------- the group ----------

  function OutBits(slaves: seq<SlaveIo>): (bits: seq<nat>)
    ensures |bits| == |slaves|
  {
    seq(|slaves|, i requires 0 <= i < |slaves| => slaves[i].obits)
  }

  function InBits(slaves: seq<SlaveIo>): (bits: seq<nat>)
    ensures |bits| == |slaves|
  {
    seq(|slaves|, i requires 0 <= i < |slaves| => slaves[i].ibits)
  }

  function StatusBytes(slaves: seq<SlaveIo>): nat {
    if slaves == [] then 0
    else StatusBytes(slaves[..|slaves| - 1]) + if slaves[|slaves| - 1].status then 1 else 0
  }

  function PackStatus(slaves: seq<SlaveIo>, p: Packer, limit: nat): Packer {
    if slaves == [] then p
    else
      var last := slaves[|slaves| - 1];
      AddStatus(PackStatus(slaves[..|slaves| - 1], p, limit), if last.status then 1 else 0, limit)
  }

  /** The packing after the outputs, after the inputs, and after the status bytes; the group starts at
    * logical address `start`. */
  function AfterOutputs(slaves: seq<SlaveIo>, start: nat, packed: bool, limit: nat): Packer {
    PackAll(OutBits(slaves), 8 * start, packed, Packer([], 0, FIRST_BOUND, 0), limit)
  }

  function InputsAt(slaves: seq<SlaveIo>, start: nat, packed: bool): nat {
    EndOfAll(OutBits(slaves), 8 * start, packed)
  }

  lemma AfterOutputsValid(slaves: seq<SlaveIo>, start: nat, packed: bool, limit: nat)
    ensures AfterOutputs(slaves, start, packed, limit).Valid(limit)
    ensures AfterOutputs(slaves, start, packed, limit).Total() == InputsAt(slaves, start, packed) / 8 - start >= 0
  {
    var p := Packer([], 0, FIRST_BOUND, 0);
    assert p.Valid(limit);
    PackAllValid(OutBits(slaves), 8 * start, packed, p, limit);
    hide PackAll, EndOfAll;
  }

  function AfterInputs(slaves: seq<SlaveIo>, start: nat, packed: bool, limit: nat): Packer {
    AfterOutputsValid(slaves, start, packed, limit);
    PackAll(InBits(slaves), InputsAt(slaves, start, packed), packed,
            AfterOutputs(slaves, start, packed, limit).(wkc := 0), limit)
  }

  function StatusAt(slaves: seq<SlaveIo>, start: nat, packed: bool): nat {
    EndOfAll(InBits(slaves), InputsAt(slaves, start, packed), packed)
  }

  function AfterStatus(slaves: seq<SlaveIo>, start: nat, packed: bool, limit: nat): Packer {
    PackStatus(slaves, AfterInputs(slaves, start, packed, limit), limit)
  }

  lemma {:induction false} PackStatusValid(slaves: seq<SlaveIo>, p: Packer, limit: nat)
    requires p.Valid(limit) && |PackStatus(slaves, p, limit).closed| + 1 < limit
    ensures var q := PackStatus(slaves, p, limit);
      q.Valid(limit) && q.Total() == p.Total() + StatusBytes(slaves)
    decreases |slaves|
  {
    if slaves != [] {
      hide AddStatus;
      var n := |slaves| - 1;
      var m := if slaves[n].status then 1 else 0;
      AddStatusKeeps(PackStatus(slaves[..n], p, limit), m, limit);
      PackStatusValid(slaves[..n], p, limit);
      AddStatusValid(PackStatus(slaves[..n], p, limit), m, limit);
    }
  }

  lemma AddStatusKeeps(p: Packer, m: nat, limit: nat)
    ensures |p.closed| <= |AddStatus(p, m, limit).closed|
  {
  }

  /** With segments left over, the segments of a group together are exactly as long as its outputs, inputs
    * and status bytes; the first leaves room for the clock datagram, and none is too long for a frame. */
  lemma SegmentsFit(slaves: seq<SlaveIo>, start: nat, packed: bool, limit: nat)
    requires |AfterStatus(slaves, start, packed, limit).closed| + 1 < limit
    ensures var segments := All(AfterStatus(slaves, start, packed, limit));
      && Sum(segments) == StatusAt(slaves, start, packed) / 8 - start + StatusBytes(slaves)
      && segments[0] <= FIRST_BOUND
      && (forall k :: 0 <= k < |segments| ==> segments[k] <= MAX_LRW_DATA)
      && (forall k :: 0 <= k < |segments| - 1 ==> segments[k] > 0)
  {
    hide AfterOutputs, PackAll, EndOfAll, PackStatus, Sum;
    EndsAligned(slaves, start, packed);
    AfterOutputsValid(slaves, start, packed, limit);
    var p := AfterOutputs(slaves, start, packed, limit).(wkc := 0);
    PackAllValid(InBits(slaves), InputsAt(slaves, start, packed), packed, p, limit);
    PackStatusValid(slaves, AfterInputs(slaves, start, packed, limit), limit);
    var q := AfterStatus(slaves, start, packed, limit);
    SumAppend(q.closed, q.size);
  }

  // ---------- what this means for a slave ----------

  /** Outputs of all slaves, then inputs of all slaves: every slave's bits lie behind those of the slaves
    * before it, outputs before inputs, and all within the group. */
  lemma GroupPlaces(slaves: seq<SlaveIo>, start: nat, packed: bool, i: nat, j: nat)
    requires i < |slaves| && j < |slaves|
    ensures var out, inp := OutBits(slaves), InBits(slaves);
      var ins, end := InputsAt(slaves, start, packed), StatusAt(slaves, start, packed);
      && (out[i] > 0 && i < j ==>
           8 * start <= EndOf(Turn(out, 8 * start, packed, i), out[i])
             <= StartOf(Turn(out, 8 * start, packed, j), out[j]))
      && (out[i] > 0 ==> EndOf(Turn(out, 8 * start, packed, i), out[i]) <= ins)
      && ins % 8 == 0 && ins <= StartOf(Turn(inp, ins, packed, j), inp[j])
      && (inp[i] > 0 && i < j ==>
           EndOf(Turn(inp, ins, packed, i), inp[i]) <= StartOf(Turn(inp, ins, packed, j), inp[j]))
      && (inp[i] > 0 ==> EndOf(Turn(inp, ins, packed, i), inp[i]) <= end)
  {
    var out, inp, ins := OutBits(slaves), InBits(slaves), InputsAt(slaves, start, packed);
    hide Turn;
    if out[i] > 0 {
      TurnsGrow(out, 8 * start, packed, i, |out|);
      AdvanceGrows(Turn(out, 8 * start, packed, i), out[i], packed);
      if i < j {
        PlacesDisjoint(out, 8 * start, packed, i, j);
      }
    }
    if inp[i] > 0 {
      TurnsGrow(inp, ins, packed, i, |inp|);
      if i < j {
        PlacesDisjoint(inp, ins, packed, i, j);
      }
    }
  }

  lemma AddRestGrows(p: Packer, limit: nat)
    ensures Grown(p, AddRest(p, limit))
  {
    GrownReflexive(p);
    CloseGrows(p, p.size, 1, MAX_LRW_DATA, p.wkc + 1);
    hide Sum;
  }

  lemma PackAllGrows(bits: seq<nat>, at: nat, packed: bool, p: Packer, limit: nat)
    requires p.Valid(limit)
    ensures Grown(p, PackAll(bits, at, packed, p, limit))
  {
    hide Pack, Grown, AddRest, Turn;
    var ds := Extents(bits, at, packed);
    var q := Pack(ds, p, limit);
    PackGrows(ds, p, limit);
    AddRestGrows(q, limit);
    GrownTrans(p, q, AddRest(q, limit));
  }

  lemma AddStatusGrows(p: Packer, m: nat, limit: nat)
    ensures Grown(p, AddStatus(p, m, limit))
  {
    GrownReflexive(p);
    CloseGrows(p, p.size, m, MAX_LRW_DATA, p.wkc);
    hide Sum;
  }

  lemma {:induction false} PackStatusGrows(slaves: seq<SlaveIo>, p: Packer, limit: nat)
    ensures Grown(p, PackStatus(slaves, p, limit))
    decreases |slaves|
  {
    hide Grown, AddStatus;
    GrownReflexive(p);
    if slaves != [] {
      var n := |slaves| - 1;
      var q := PackStatus(slaves[..n], p, limit);
      PackStatusGrows(slaves[..n], p, limit);
      AddStatusGrows(q, if slaves[n].status then 1 else 0, limit);
      GrownTrans(p, q, PackStatus(slaves, p, limit));
    }
  }

  /** From the end of the outputs to the end of the mapping. */
  lemma GrownToEnd(slaves: seq<SlaveIo>, start: nat, packed: bool, limit: nat)
    ensures Grown(AfterOutputs(slaves, start, packed, limit), AfterInputs(slaves, start, packed, limit))
    ensures Grown(AfterInputs(slaves, start, packed, limit), AfterStatus(slaves, start, packed, limit))
    ensures Grown(AfterOutputs(slaves, start, packed, limit), AfterStatus(slaves, start, packed, limit))
    ensures AfterOutputs(slaves, start, packed, limit).(wkc := 0).Valid(limit)
  {
    hide PackAll, AfterOutputs, EndOfAll, PackStatus;
    AfterOutputsValid(slaves, start, packed, limit);
    var o, p := AfterOutputs(slaves, start, packed, limit), AfterOutputs(slaves, start, packed, limit).(wkc := 0);
    PackAllGrows(InBits(slaves), InputsAt(slaves, start, packed), packed, p, limit);
    PackStatusGrows(slaves, AfterInputs(slaves, start, packed, limit), limit);
    assert Grown(o, AfterInputs(slaves, start, packed, limit)) by {
      assert o.closed == p.closed && o.size == p.size;
    }
    hide Grown;
    GrownTrans(o, AfterInputs(slaves, start, packed, limit), AfterStatus(slaves, start, packed, limit));
  }

  /** Packing one direction without packed mode. */
  lemma UnpackedPack(bits: seq<nat>, at: nat, p: Packer, limit: nat)
    requires p.Valid(limit) && at % 8 == 0
    ensures var ds := Extents(bits, at, false);
      && PackAll(bits, at, false, p, limit) == Pack(ds, p, limit)
      && forall i :: 0 <= i < |bits| ==>
           ds[i] == BytesOf(bits[i]) && Sum(ds[..i]) == Turn(bits, at, false, i) / 8 - at / 8
  {
    TurnUpTo(bits, at, false, |bits|);
    hide Pack, Turn, Sum;
    forall i | 0 <= i < |bits|
      ensures Extents(bits, at, false)[i] == BytesOf(bits[i])
        && Sum(Extents(bits, at, false)[..i]) == Turn(bits, at, false, i) / 8 - at / 8
    {
      UnpackedExtent(bits, at, i);
      ExtentsSum(bits, at, false, i);
    }
  }

  lemma EmptyPacker(limit: nat)
    ensures var p := Packer([], 0, FIRST_BOUND, 0); p.Valid(limit) && p.Total() == 0 && p.max > 0
  {
  }

  lemma OutputsPacked(slaves: seq<SlaveIo>, start: nat, limit: nat)
    ensures var bits, p := OutBits(slaves), Packer([], 0, FIRST_BOUND, 0);
      var ds := Extents(bits, 8 * start, false);
      && p.Valid(limit) && |ds| == |slaves| && AfterOutputs(slaves, start, false, limit) == Pack(ds, p, limit)
      && forall i :: 0 <= i < |slaves| ==>
           ds[i] == BytesOf(slaves[i].obits) && Sum(ds[..i]) == Turn(bits, 8 * start, false, i) / 8 - start
  {
    EmptyPacker(limit);
    UnpackedPack(OutBits(slaves), 8 * start, Packer([], 0, FIRST_BOUND, 0), limit);
    hide Pack, PackAll, Turn, Sum, BytesOf, Extents;
  }

  /** Unpacked, the inputs begin behind the whole bytes of all outputs, and the status behind those of all inputs. */
  lemma UnpackedBytes(slaves: seq<SlaveIo>, start: nat)
    ensures var outs, ins := BytesTogether(OutBits(slaves)), BytesTogether(InBits(slaves));
      && InputsAt(slaves, start, false) == 8 * (start + outs)
      && StatusAt(slaves, start, false) == 8 * (start + outs + ins)
  {
    var out, inp := OutBits(slaves), InBits(slaves);
    UnpackedTurn(out, start, |slaves|);
    UnpackedTurn(inp, start + BytesTogether(out), |slaves|);
    assert out[..|slaves|] == out && inp[..|slaves|] == inp;
    hide Turn, BytesTogether;
  }

  /** Unpacked, outputs that fit into the first segment end up in a single segment. */
  lemma OutputsUncut(slaves: seq<SlaveIo>, start: nat, limit: nat, i: nat)
    requires i < |slaves| && BytesOf(slaves[i].obits) <= FIRST_BOUND
    ensures var from := Turn(OutBits(slaves), 8 * start, false, i) / 8 - start;
      from >= 0 && Uncut(AfterStatus(slaves, start, false, limit).closed, from, from + BytesOf(slaves[i].obits))
  {
    hide *;
    var bits, p := OutBits(slaves), Packer([], 0, FIRST_BOUND, 0);
    EmptyPacker(limit);
    OutputsPacked(slaves, start, limit);
    var ds := Extents(bits, 8 * start, false);
    var from := Sum(ds[..i]);
    SmallSlaveUncut(ds, p, limit, i);
    PackValid(ds, p, limit);
    SumGrows(ds, i);
    UncutInTheEnd(slaves, start, limit, from, ds[i]);
  }

  lemma UncutInTheEnd(slaves: seq<SlaveIo>, start: nat, limit: nat, from: nat, d: nat)
    requires Uncut(AfterOutputs(slaves, start, false, limit).closed, from, from + d)
    requires from + d <= AfterOutputs(slaves, start, false, limit).Total()
    ensures Uncut(AfterStatus(slaves, start, false, limit).closed, from, from + d)
  {
    hide AfterOutputs, AfterStatus;
    GrownToEnd(slaves, start, false, limit);
    UncutStays(AfterOutputs(slaves, start, false, limit), AfterStatus(slaves, start, false, limit), from, from + d);
  }

  /** The same for inputs. */
  lemma InputsUncut(slaves: seq<SlaveIo>, start: nat, limit: nat, i: nat)
    requires i < |slaves| && BytesOf(slaves[i].ibits) <= FIRST_BOUND
    ensures var from := Turn(InBits(slaves), InputsAt(slaves, start, false), false, i) / 8 - start;
      from >= 0 && Uncut(AfterStatus(slaves, start, false, limit).closed, from, from + BytesOf(slaves[i].ibits))
  {
    AfterOutputsValid(slaves, start, false, limit);
    GrownToEnd(slaves, start, false, limit);
    var bits, at := InBits(slaves), InputsAt(slaves, start, false);
    hide AfterOutputs, AfterStatus, PackAll, Pack, Turn, Grown, Uncut, Sum, AddExtent;
    var p := AfterOutputs(slaves, start, false, limit).(wkc := 0);
    assert p.Total() == at / 8 - start;
    UnpackedPack(bits, at, p, limit);
    var ds := Extents(bits, at, false);
    SmallSlaveUncut(ds, p, limit, i);
    PackValid(ds, p, limit);
    SumGrows(ds, i);
    UncutStays(AfterInputs(slaves, start, false, limit), AfterStatus(slaves, start, false, limit),
      p.Total() + Sum(ds[..i]), p.Total() + Sum(ds[..i]) + ds[i]);
  }

  /** Unpacked and with every slave's outputs fitting into the first segment, the expected output working
    * counter is the number of slaves with outputs. */
  lemma OutputsWkcCountsSlaves(slaves: seq<SlaveIo>, start: nat, limit: nat)
    requires forall i :: 0 <= i < |slaves| ==> BytesOf(slaves[i].obits) <= FIRST_BOUND
    ensures AfterOutputs(slaves, start, false, limit).wkc == Active(OutBits(slaves))
  {
    var bits, p := OutBits(slaves), Packer([], 0, FIRST_BOUND, 0);
    assert p.Valid(limit);
    UnpackedPack(bits, 8 * start, p, limit);
    hide PackAll, Pack, Turn, Sum;
    var ds := Extents(bits, 8 * start, false);
    WkcCountsSlaves(ds, p, limit);
    ActiveSame(ds, bits);
  }

  lemma {:induction false} ActiveSame(ds: seq<nat>, bits: seq<nat>)
    requires |ds| == |bits| && forall i :: 0 <= i < |ds| ==> ds[i] == BytesOf(bits[i])
    ensures Active(ds) == Active(bits)
  {
    if ds != [] {
      ActiveSame(ds[..|ds| - 1], bits[..|bits| - 1]);
    }
  }

  /** For slaves of any size, the expected output working counter is the number of meetings of a datagram with
    * a slave's outputs in the final segmentation, plus one for every slave overcounted. */
  lemma OutputsWkcCountsMeetings(slaves: seq<SlaveIo>, start: nat, limit: nat)
    ensures var ds := Extents(OutBits(slaves), 8 * start, false);
      AfterOutputs(slaves, start, false, limit).wkc
      == Meetings(All(AfterStatus(slaves, start, false, limit)), ds, 0, |ds|)
         + Overcounts(ds, Packer([], 0, FIRST_BOUND, 0), limit)
  {
    var bits, p := OutBits(slaves), Packer([], 0, FIRST_BOUND, 0);
    assert p.Valid(limit);
    UnpackedPack(bits, 8 * start, p, limit);
    hide PackAll, Pack, Turn, Sum, AfterStatus, Meetings, Overcounts, Grown, All;
    var ds := Extents(bits, 8 * start, false);
    EmptyPacker(limit);
    WkcCountsMeetings(ds, p, limit);
    PackValid(ds, p, limit);
    GrownToEnd(slaves, start, false, limit);
    assert ds[..|ds|] == ds;
    MeetingsStay(Pack(ds, p, limit), AfterStatus(slaves, start, false, limit), ds, 0, |ds|);
  }

  // ---------- the loops ----------

  /** The packing variables of the source as one value. */
  function Packing(segments: seq<nat>, current: nat, size: nat, max: nat, wkc: nat): Packer
    requires current <= |segments|
  {
    Packer(segments[..current], size, max, wkc)
  }

  /** The fields of a group that the mapping fills in. */
  class IoGroup {
    const IOsegment: array<nat>
    var nsegments: nat
    var Isegment: nat
    var Ioffset: nat
    var outputsWKC: nat
    var inputsWKC: nat
    var Obytes: nat
    var Ibytes: nat
    var mbxstatuslength: nat
    var mbxstatuslookup: map<nat, nat>

    constructor (maxsegments: nat)
      ensures IOsegment.Length == maxsegments && fresh(IOsegment)
    {
      IOsegment := new nat[maxsegments];
    }

    /** The segment bookkeeping after one slave of either direction. */
    method PackSlave(current: nat, size: nat, max: nat, wkc: nat, diff: nat)
        returns (current': nat, size': nat, max': nat, wkc': nat)
      requires current <= IOsegment.Length && max > 0
      modifies IOsegment
      ensures current' <= IOsegment.Length && max' > 0
      ensures Packing(IOsegment[..], current', size', max', wkc')
        == AddExtent(Packing(old(IOsegment[..]), current, size, max, wkc), diff, IOsegment.Length)
    {
      ghost var p := Packing(IOsegment[..], current, size, max, wkc);
      current', size', max', wkc' := current, size, max, wkc;
      if size' + diff > max' && diff <= max' && current' < IOsegment.Length {
        IOsegment[current'] := size';
        current' := current' + 1;
        size' := 0;
        max' := MAX_LRW_DATA;
        assert IOsegment[..current'] == p.closed + [p.size];
      }
      size' := size' + diff;
      ghost var goal := Spill(Packing(IOsegment[..], current', size', max', wkc'), IOsegment.Length);
      while size' > max' && current' < IOsegment.Length
        invariant current' <= IOsegment.Length && max' > 0
        invariant Spill(Packing(IOsegment[..], current', size', max', wkc'), IOsegment.Length) == goal
        decreases size'
      {
        ghost var before := IOsegment[..current'];
        IOsegment[current'] := max';
        current' := current' + 1;
        assert IOsegment[..current'] == before + [max'];
        size' := size' - max';
        wkc' := wkc' + 1;
        max' := MAX_LRW_DATA;
      }
      assert goal == Packing(IOsegment[..], current', size', max', wkc');
      if size' > 0 && diff > 0 {
        wkc' := wkc' + 1;
      }
    }

    /** The segment bookkeeping for a last, partly used byte. */
    method PackRest(current: nat, size: nat, max: nat, wkc: nat)
        returns (current': nat, size': nat, max': nat, wkc': nat)
      requires current <= IOsegment.Length && max > 0
      modifies IOsegment
      ensures current' <= IOsegment.Length && max' > 0
      ensures Packing(IOsegment[..], current', size', max', wkc')
        == AddRest(Packing(old(IOsegment[..]), current, size, max, wkc), IOsegment.Length)
    {
      ghost var p := Packing(IOsegment[..], current, size, max, wkc);
      current', size', max', wkc' := current, size, max, wkc;
      if size' + 1 > max' && current' < IOsegment.Length {
        IOsegment[current'] := size';
        current' := current' + 1;
        assert IOsegment[..current'] == p.closed + [p.size];
        size' := 0;
        wkc' := wkc' + 1;
        max' := MAX_LRW_DATA;
      }
      size' := size' + 1;
    }

    /** One slave of the loop. */
    method MapOne(slave: SlaveIo, outputs: bool, at: Cursor, packed: bool, current: nat, size: nat, max: nat, wkc: nat)
        returns (fmmus: seq<Fmmu>, cursor: Cursor, current': nat, size': nat, max': nat, wkc': nat)
      requires slave.Productive() && at.Valid() && (if outputs then slave.obits else slave.ibits) > 0
      requires current <= IOsegment.Length && max > 0
      modifies IOsegment
      ensures current' <= IOsegment.Length && max' > 0 && cursor.Valid() && cursor.addr >= at.addr
      ensures var bits := if outputs then slave.obits else slave.ibits;
        && Tile(fmmus, StartOf(at.Bits(), bits), EndOf(at.Bits(), bits))
        && Starts(slave.sms, if outputs then 3 else 4, fmmus)
        && cursor.Bits() == Advance(at.Bits(), bits, packed)
        && Packing(IOsegment[..], current', size', max', wkc')
           == AddExtent(Packing(old(IOsegment[..]), current, size, max, wkc), cursor.addr - at.addr, IOsegment.Length)
    {
      hide AddExtent, Tile, StartOf, EndOf, RoundUp, Spill, Advance, Fmmus, Packing, Starts;
      var kind, bits := if outputs then OUTPUTS else INPUTS, if outputs then slave.obits else slave.ibits;
      fmmus, cursor := CreateMappings(slave.sms, kind, bits, at);
      FmmusTile(slave.sms, kind, bits, at);
      FmmuStarts(slave.sms, kind, bits, at);
      CursorAdvances(at, bits, packed, cursor);
      if !packed {
        if cursor.bit > 0 {
          cursor := Cursor(cursor.addr + 1, 0);
        }
      }
      var diff := cursor.addr - at.addr;
      current', size', max', wkc' := PackSlave(current, size, max, wkc, diff);
    }

    /** The loop over the slaves of one direction, and its last byte. */
    method MapDirection(slaves: seq<SlaveIo>, outputs: bool, at: nat, packed: bool, current: nat, size: nat, max: nat)
        returns (fmmus: seq<seq<Fmmu>>, at': nat, current': nat, size': nat, max': nat, wkc': nat)
      requires forall s :: 0 <= s < |slaves| ==> slaves[s].Productive()
      requires current <= IOsegment.Length && Packing(IOsegment[..], current, size, max, 0).Valid(IOsegment.Length)
      modifies IOsegment
      ensures current' <= IOsegment.Length && max' > 0
      ensures var bits := BitsOf(slaves, outputs);
        && at' == EndOfAll(bits, 8 * at, packed) / 8
        && max > 0
        && Packing(IOsegment[..], current', size', max', wkc')
           == PackAll(bits, 8 * at, packed, Packing(old(IOsegment[..]), current, size, max, 0), IOsegment.Length)
        && MappedUpTo(fmmus, bits, 8 * at, packed, |slaves|)
      ensures |fmmus| == |slaves|
      ensures forall s :: 0 <= s < |slaves| && fmmus[s] != [] ==>
        Starts(slaves[s].sms, if outputs then 3 else 4, fmmus[s])
    {
      hide Starts;
      hide AddExtent, Turn, Pack, Tile, AddRest, Mapped, MappedUpTo, Extents, BitsOf, PackAll, EndOfAll, StartOf, EndOf;
      var bits, cursor := BitsOf(slaves, outputs), Cursor(at, 0);
      current', size', max', wkc', fmmus := current, size, max, 0, [];
      ghost var p, limit := Packing(IOsegment[..], current, size, max, 0), IOsegment.Length;
      MappedBegins(bits, 8 * at, packed, p, limit);
      BitsAre(slaves, outputs);
      for slave := 0 to |slaves|
        invariant cursor.Valid() && current' <= IOsegment.Length && max' > 0
        invariant Mapped(fmmus, cursor, Packing(IOsegment[..], current', size', max', wkc'),
                         bits, 8 * at, packed, p, limit, slave)
        invariant |fmmus| == slave
        invariant forall s :: 0 <= s < slave && fmmus[s] != [] ==>
          Starts(slaves[s].sms, if outputs then 3 else 4, fmmus[s])
      {
        ghost var c, q := cursor, Packing(IOsegment[..], current', size', max', wkc');
        var fs := [];
        if (if outputs then slaves[slave].obits else slaves[slave].ibits) > 0 {
          fs, cursor, current', size', max', wkc' :=
            MapOne(slaves[slave], outputs, cursor, packed, current', size', max', wkc');
        }
        MappedGoesOn(fmmus, c, q, fs, cursor, Packing(IOsegment[..], current', size', max', wkc'),
                     bits, 8 * at, packed, p, limit, slave);
        fmmus := fmmus + [fs];
      }
      MappedEnds(fmmus, cursor, Packing(IOsegment[..], current', size', max', wkc'), bits, 8 * at, packed, p, limit);
      if cursor.bit > 0 {
        cursor := Cursor(cursor.addr + 1, 0);
        current', size', max', wkc' := PackRest(current', size', max', wkc');
      }
      at' := cursor.addr;
    }

    /** Enters a slave into the table of those that have a status byte. */
    method EnterStatus(slave: nat, ghost m: map<nat, nat>, ghost from: nat, ghost ss: seq<nat>)
      requires mbxstatuslength == from + |ss| && mbxstatuslookup == Looked(m, from, ss)
      modifies this`mbxstatuslength, this`mbxstatuslookup
      ensures mbxstatuslength == from + |ss + [slave]| && mbxstatuslookup == Looked(m, from, ss + [slave])
    {
      LookedNext(m, from, ss, slave);
      hide Looked;
      mbxstatuslookup := mbxstatuslookup[mbxstatuslength := slave];
      mbxstatuslength := mbxstatuslength + 1;
    }

    /** The segment bookkeeping for a slave with or without a status byte. */
    method PackByte(current: nat, size: nat, diff: nat, ghost q: Packer) returns (current': nat, size': nat)
      requires current < IOsegment.Length && q.closed == IOsegment[..current] && q.size == size
      modifies IOsegment
      ensures current' < IOsegment.Length
      ensures var q' := AddStatus(q, diff, IOsegment.Length); q'.closed == IOsegment[..current'] && q'.size == size'
    {
      current', size' := current, size;
      if size' + diff > FIRST_BOUND {
        IOsegment[current'] := size';
        if current' < IOsegment.Length - 1 {
          current' := current' + 1;
          size' := diff;
        }
      } else {
        size' := size' + diff;
      }
    }

    /** The loop over the mailbox status bytes. The table of their slaves is filled from the stored length on. */
    method MapStatus(slaves: seq<SlaveIo>, at: nat, current: nat, size: nat, ghost p: Packer)
        returns (at': nat, current': nat, size': nat, wkc: nat)
      requires current < IOsegment.Length && p.closed == IOsegment[..current] && p.size == size
      modifies this`mbxstatuslength, this`mbxstatuslookup, IOsegment
      ensures current' < IOsegment.Length
      ensures var q := PackStatus(slaves, p, IOsegment.Length);
        q.closed == IOsegment[..current'] && q.size == size'
      ensures at' == at + StatusBytes(slaves) && wkc == StatusWkc(slaves)
      ensures mbxstatuslookup == Looked(old(mbxstatuslookup), old(mbxstatuslength), StatusSlaves(slaves))
    {
      hide Looked, AddStatus;
      at', current', size', wkc := at, current, size, 0;
      ghost var m, from := mbxstatuslookup, mbxstatuslength;
      NothingLooked(m, from);
      assert slaves[..|slaves|] == slaves;
      for slave := 0 to |slaves|
        invariant current' < IOsegment.Length
        invariant var q := PackStatus(slaves[..slave], p, IOsegment.Length);
          q.closed == IOsegment[..current'] && q.size == size'
        invariant at' == at + StatusBytes(slaves[..slave]) && wkc == StatusWkc(slaves[..slave])
        invariant mbxstatuslength == from + |StatusSlaves(slaves[..slave])|
        invariant mbxstatuslookup == Looked(m, from, StatusSlaves(slaves[..slave]))
      {
        assert slaves[..slave + 1][..slave] == slaves[..slave];
        ghost var q, ss := PackStatus(slaves[..slave], p, IOsegment.Length), StatusSlaves(slaves[..slave]);
        assert ss + [] == ss;
        var diff := 0;
        if slaves[slave].status {
          diff := 1;
          at' := at' + 1;
          EnterStatus(slave, m, from, ss);
          if WholeBytes(slaves[slave].ibits) == 0 {
            wkc := wkc + 1;
          }
        }
        current', size' := PackByte(current', size', diff, q);
      }
    }

    /** Maps a group that starts at logical address `start` without overlapping outputs and inputs. The
      * segments must last until the end of the inputs: the source writes one more entry of `IOsegment`. */
    method MapGroup(slaves: seq<SlaveIo>, start: nat, packed: bool)
        returns (outputs: seq<seq<Fmmu>>, inputs: seq<seq<Fmmu>>)
      requires forall s :: 0 <= s < |slaves| ==> slaves[s].Productive()
      requires |AfterInputs(slaves, start, packed, IOsegment.Length).closed| < IOsegment.Length
      modifies this, IOsegment
      ensures MappedUpTo(outputs, OutBits(slaves), 8 * start, packed, |slaves|)
      ensures MappedUpTo(inputs, InBits(slaves), InputsAt(slaves, start, packed), packed, |slaves|)
      ensures |outputs| == |inputs| == |slaves|
      ensures forall s :: 0 <= s < |slaves| && outputs[s] != [] ==> Starts(slaves[s].sms, 3, outputs[s])
      ensures forall s :: 0 <= s < |slaves| && inputs[s] != [] ==> Starts(slaves[s].sms, 4, inputs[s])
      ensures mbxstatuslookup == Looked(old(mbxstatuslookup), old(mbxstatuslength), StatusSlaves(slaves))
      ensures Names(mbxstatuslookup, slaves)
        <==> old(mbxstatuslength) == 0
             || (StatusBytes(slaves) <= old(mbxstatuslength) && Names(old(mbxstatuslookup), slaves))
      ensures Obytes == InputsAt(slaves, start, packed) / 8 - start
      ensures Ibytes == StatusAt(slaves, start, packed) / 8 - InputsAt(slaves, start, packed) / 8
      ensures mbxstatuslength == start + StatusBytes(slaves)
      ensures nsegments <= IOsegment.Length
      ensures IOsegment[..nsegments] == All(AfterStatus(slaves, start, packed, IOsegment.Length))
      ensures Isegment == |AfterOutputs(slaves, start, packed, IOsegment.Length).closed|
      ensures Ioffset == AfterOutputs(slaves, start, packed, IOsegment.Length).size % 0x10000
      ensures outputsWKC == AfterOutputs(slaves, start, packed, IOsegment.Length).wkc
      ensures inputsWKC == AfterInputs(slaves, start, packed, IOsegment.Length).wkc + StatusWkc(slaves)
    {
      hide PackAll, EndOfAll, PackStatus, StatusBytes, StatusSlaves, StatusWkc, MappedUpTo, RoundUp, Looked,
        Names, Starts;
      ghost var limit := IOsegment.Length;
      EmptyPacker(limit);
      AfterOutputsValid(slaves, start, packed, limit);
      GrownToEnd(slaves, start, packed, limit);
      EndsAligned(slaves, start, packed);
      var current, size, max: nat, at := 0, 0, FIRST_BOUND, start;
      assert IOsegment[..0] == [];
      outputs, at, current, size, max, outputsWKC := MapDirection(slaves, true, at, packed, current, size, max);
      Obytes := at - start;
      Isegment := current;
      Ioffset := size % 0x10000;
      inputs, at, current, size, max, inputsWKC := MapDirection(slaves, false, at, packed, current, size, max);
      Ibytes := at - start - Obytes;
      assert AfterInputs(slaves, start, packed, limit).closed == IOsegment[..current];
      LookedFinds(mbxstatuslookup, mbxstatuslength, slaves);
      MapRest(slaves, at, current, size, AfterInputs(slaves, start, packed, limit));
    }

    /** What comes behind the inputs. */
    method MapRest(slaves: seq<SlaveIo>, at: nat, current: nat, size: nat, ghost p: Packer)
      requires current < IOsegment.Length && p.closed == IOsegment[..current] && p.size == size
      requires Obytes + Ibytes <= at
      modifies this`mbxstatuslength, this`mbxstatuslookup, this`nsegments, this`inputsWKC, IOsegment
      ensures nsegments <= IOsegment.Length
      ensures IOsegment[..nsegments] == All(PackStatus(slaves, p, IOsegment.Length))
      ensures inputsWKC == old(inputsWKC) + StatusWkc(slaves)
      ensures mbxstatuslength == at + StatusBytes(slaves) - Obytes - Ibytes
      ensures mbxstatuslookup == Looked(old(mbxstatuslookup), old(mbxstatuslength), StatusSlaves(slaves))
    {
      hide PackStatus, StatusBytes, StatusSlaves, StatusWkc, Looked;
      IOsegment[current] := size;
      var at', current', size', statusWkc := MapStatus(slaves, at, current, size, p);
      inputsWKC := inputsWKC + statusWkc;
      IOsegment[current'] := size';
      nsegments := current' + 1;
      mbxstatuslength := at' - Obytes - Ibytes;
    }
  }

  /** The slaves with a status byte, in order. */
  function StatusSlaves(slaves: seq<SlaveIo>): seq<nat> {
    if slaves == [] then []
    else StatusSlaves(slaves[..|slaves| - 1]) + if slaves[|slaves| - 1].status then [|slaves| - 1] else []
  }

  /** The table `m` after entering slaves from a position on. */
  function Looked(m: map<nat, nat>, from: nat, slaves: seq<nat>): map<nat, nat> {
    if slaves == [] then m
    else Looked(m, from, slaves[..|slaves| - 1])[from + |slaves| - 1 := slaves[|slaves| - 1]]
  }

  lemma NothingLooked(m: map<nat, nat>, from: nat)
    ensures Looked(m, from, []) == m
  {
  }

  lemma LookedNext(m: map<nat, nat>, from: nat, slaves: seq<nat>, slave: nat)
    ensures Looked(m, from, slaves + [slave]) == Looked(m, from, slaves)[from + |slaves| := slave]
  {
    assert (slaves + [slave])[..|slaves|] == slaves;
  }

  /** What the table holds: the slaves entered, and before and behind them what was there. */
  lemma {:induction false} LookedAt(m: map<nat, nat>, from: nat, slaves: seq<nat>, k: nat)
    ensures from <= k < from + |slaves| ==>
      k in Looked(m, from, slaves) && Looked(m, from, slaves)[k] == slaves[k - from]
    ensures !(from <= k < from + |slaves|) ==>
      (k in Looked(m, from, slaves) <==> k in m) && (k in m ==> Looked(m, from, slaves)[k] == m[k])
    decreases |slaves|
  {
    if slaves != [] {
      LookedAt(m, from, slaves[..|slaves| - 1], k);
    }
  }

  /** Under the number of slaves with a status byte before it, the table holds every slave with one. */
  ghost predicate Names(m: map<nat, nat>, slaves: seq<SlaveIo>) {
    forall s :: 0 <= s < |slaves| && slaves[s].status ==>
      StatusBytes(slaves[..s]) in m && m[StatusBytes(slaves[..s])] == s
  }

  /** The slaves entered are those with a status byte, each at its place. */
  lemma StatusNamed(slaves: seq<SlaveIo>)
    ensures var ss := StatusSlaves(slaves);
      && |ss| == StatusBytes(slaves)
      && (forall s :: 0 <= s < |slaves| && slaves[s].status ==>
            StatusBytes(slaves[..s]) < |ss| && ss[StatusBytes(slaves[..s])] == s)
      && (forall k :: 0 <= k < |ss| ==> ss[k] < |slaves| && slaves[ss[k]].status && StatusBytes(slaves[..ss[k]]) == k)
  {
    hide StatusSlaves, StatusBytes;
    StatusCounted(slaves);
    var ss := StatusSlaves(slaves);
    forall s | 0 <= s < |slaves| && slaves[s].status
      ensures StatusBytes(slaves[..s]) < |ss| && ss[StatusBytes(slaves[..s])] == s
    {
      StatusAtPlace(slaves, s);
    }
    forall k | 0 <= k < |ss| ensures ss[k] < |slaves| && slaves[ss[k]].status && StatusBytes(slaves[..ss[k]]) == k {
      StatusOfPlace(slaves, k);
    }
  }

  lemma {:induction false} StatusCounted(slaves: seq<SlaveIo>)
    ensures |StatusSlaves(slaves)| == StatusBytes(slaves)
  {
    if slaves != [] {
      StatusCounted(slaves[..|slaves| - 1]);
    }
  }

  lemma {:induction false} StatusAtPlace(slaves: seq<SlaveIo>, s: nat)
    requires s < |slaves| && slaves[s].status
    ensures var ss, k := StatusSlaves(slaves), StatusBytes(slaves[..s]); k < |ss| && ss[k] == s
    decreases |slaves|
  {
    var n := |slaves| - 1;
    var init := slaves[..n];
    if s < n {
      assert init[..s] == slaves[..s];
      StatusAtPlace(init, s);
    } else {
      StatusCounted(init);
    }
  }

  lemma {:induction false} StatusOfPlace(slaves: seq<SlaveIo>, k: nat)
    requires k < |StatusSlaves(slaves)|
    ensures var s := StatusSlaves(slaves)[k]; s < |slaves| && slaves[s].status && StatusBytes(slaves[..s]) == k
    decreases |slaves|
  {
    var n := |slaves| - 1;
    var init := slaves[..n];
    StatusCounted(init);
    if k < |StatusSlaves(init)| {
      StatusOfPlace(init, k);
      assert init[..StatusSlaves(init)[k]] == slaves[..StatusSlaves(init)[k]];
    }
  }

  lemma {:induction false} StatusSlavesDistinct(slaves: seq<SlaveIo>)
    ensures forall i, j :: 0 <= i < j < |StatusSlaves(slaves)| ==> StatusSlaves(slaves)[i] < StatusSlaves(slaves)[j]
    decreases |slaves|
  {
    if slaves != [] {
      StatusNamed(slaves[..|slaves| - 1]);
      StatusSlavesDistinct(slaves[..|slaves| - 1]);
    }
  }

  /** Mapping a group leaves a table that names the slave of every status byte exactly if the length stored before
    * was 0, or the table did already and the new entries are all behind. */
  lemma LookedFinds(m: map<nat, nat>, from: nat, slaves: seq<SlaveIo>)
    ensures Names(Looked(m, from, StatusSlaves(slaves)), slaves)
      <==> from == 0 || (StatusBytes(slaves) <= from && Names(m, slaves))
  {
    StatusNamed(slaves);
    StatusSlavesDistinct(slaves);
    hide StatusSlaves, Looked, StatusBytes;
    var ss := StatusSlaves(slaves);
    var m' := Looked(m, from, ss);
    forall k: nat | k < |ss|
      ensures k in m' <==> from <= k || k in m
      ensures from <= k ==> m'[k] == ss[k - from]
      ensures k < from && k in m ==> m'[k] == m[k]
    {
      LookedAt(m, from, ss, k);
    }
    if 0 < from < |ss| {
      assert m'[from] == ss[0] < ss[from];
      assert StatusBytes(slaves[..ss[from]]) == from;
    }
  }

  /** The entries made are of slaves with a status byte; all others are as they were. */
  lemma LookedOnly(m: map<nat, nat>, from: nat, slaves: seq<SlaveIo>)
    ensures var m' := Looked(m, from, StatusSlaves(slaves));
      forall k: nat ::
        if from <= k < from + StatusBytes(slaves) then k in m' && m'[k] < |slaves| && slaves[m'[k]].status
        else (k in m' <==> k in m) && (k in m ==> m'[k] == m[k])
  {
    StatusNamed(slaves);
    hide StatusSlaves, Looked, StatusBytes;
    var m' := Looked(m, from, StatusSlaves(slaves));
    forall k: nat
      ensures if from <= k < from + StatusBytes(slaves) then k in m' && m'[k] < |slaves| && slaves[m'[k]].status
              else (k in m' <==> k in m) && (k in m ==> m'[k] == m[k])
    {
      LookedAt(m, from, StatusSlaves(slaves), k);
    }
  }

  /** Of the first `n` slaves, those with a status byte, and those of them without a whole byte of inputs. */
  function WithStatus(slaves: seq<SlaveIo>, n: nat): set<nat> {
    set s: nat | s < n && s < |slaves| && slaves[s].status
  }

  function OnlyStatus(slaves: seq<SlaveIo>, n: nat): set<nat> {
    set s: nat | s < n && s < |slaves| && slaves[s].status && slaves[s].ibits < 8
  }

  function WithInputs(slaves: seq<SlaveIo>, n: nat): set<nat> {
    set s: nat | s < n && s < |slaves| && slaves[s].ibits > 0
  }

  /** How many there are. */
  lemma {:induction false} StatusCount(slaves: seq<SlaveIo>, n: nat)
    requires n <= |slaves|
    ensures StatusBytes(slaves[..n]) == |WithStatus(slaves, n)|
    decreases n
  {
    if n > 0 {
      StatusCount(slaves, n - 1);
      assert slaves[..n][..n - 1] == slaves[..n - 1];
      assert WithStatus(slaves, n) == WithStatus(slaves, n - 1) + if slaves[n - 1].status then {n - 1} else {};
    }
  }

  lemma {:induction false} OnlyStatusCount(slaves: seq<SlaveIo>, n: nat)
    requires n <= |slaves|
    ensures StatusWkc(slaves[..n]) == |OnlyStatus(slaves, n)|
    decreases n
  {
    if n > 0 {
      OnlyStatusCount(slaves, n - 1);
      var s := slaves[n - 1];
      assert slaves[..n][..n - 1] == slaves[..n - 1];
      assert OnlyStatus(slaves, n) == OnlyStatus(slaves, n - 1) + if s.status && s.ibits < 8 then {n - 1} else {};
    }
  }

  lemma {:induction false} InputsCount(slaves: seq<SlaveIo>, n: nat)
    requires n <= |slaves|
    ensures Active(InBits(slaves)[..n]) == |WithInputs(slaves, n)|
    decreases n
  {
    if n > 0 {
      InputsCount(slaves, n - 1);
      assert InBits(slaves)[..n][..n - 1] == InBits(slaves)[..n - 1];
      assert WithInputs(slaves, n) == WithInputs(slaves, n - 1) + if slaves[n - 1].ibits > 0 then {n - 1} else {};
    }
  }

  /** Unpacked and with every slave's inputs fitting into the first segment, the expected input working counter is the
    * number of slaves with inputs, and one more for every slave with a status byte that has no whole byte of them: a
    * slave with a few bits and a status byte counts twice. */
  lemma InputsWkcCountsSlaves(slaves: seq<SlaveIo>, start: nat, limit: nat)
    requires forall i :: 0 <= i < |slaves| ==> BytesOf(slaves[i].ibits) <= FIRST_BOUND
    ensures AfterInputs(slaves, start, false, limit).wkc + StatusWkc(slaves)
      == |WithInputs(slaves, |slaves|)| + |OnlyStatus(slaves, |slaves|)|
  {
    OnlyStatusCount(slaves, |slaves|);
    InputsCount(slaves, |slaves|);
    assert slaves[..|slaves|] == slaves && InBits(slaves)[..|slaves|] == InBits(slaves);
    AfterOutputsValid(slaves, start, false, limit);
    GrownToEnd(slaves, start, false, limit);
    var p := AfterOutputs(slaves, start, false, limit).(wkc := 0);
    var bits, at := InBits(slaves), InputsAt(slaves, start, false);
    hide AfterOutputs, PackAll, Pack, Turn, Sum, Grown, StatusWkc, StatusBytes, Active, WithStatus, OnlyStatus,
      WithInputs;
    UnpackedPack(bits, at, p, limit);
    var ds := Extents(bits, at, false);
    WkcCountsSlaves(ds, p, limit);
    ActiveSame(ds, bits);
  }

  /** Slaves whose only inputs, if any, are their status byte and less than a byte of data. */
  function StatusWkc(slaves: seq<SlaveIo>): nat {
    if slaves == [] then 0
    else
      var last := slaves[|slaves| - 1];
      StatusWkc(slaves[..|slaves| - 1]) + if last.status && WholeBytes(last.ibits) == 0 then 1 else 0
  }

  lemma EndsAligned(slaves: seq<SlaveIo>, start: nat, packed: bool)
    ensures InputsAt(slaves, start, packed) == 8 * (InputsAt(slaves, start, packed) / 8)
    ensures StatusAt(slaves, start, packed) == 8 * (StatusAt(slaves, start, packed) / 8)
    ensures 8 * start <= InputsAt(slaves, start, packed) <= StatusAt(slaves, start, packed)
  {
    hide Turn;
  }

  /** Behind its last bit the cursor is moved to a byte boundary, unless slaves are packed. */
  lemma CursorAdvances(at: Cursor, bits: nat, packed: bool, cursor: Cursor)
    requires at.Valid() && bits > 0 && cursor.Valid() && cursor.Bits() == EndOf(at.Bits(), bits)
    ensures var c := if !packed && cursor.bit > 0 then Cursor(cursor.addr + 1, 0) else cursor;
      c.Valid() && c.Bits() == Advance(at.Bits(), bits, packed) && c.addr >= at.addr
  {
    AdvanceGrows(at.Bits(), bits, packed);
    AlignedBits(cursor);
    hide StartOf, EndOf, RoundUp;
  }

  lemma AlignedBits(c: Cursor)
    requires c.Valid()
    ensures RoundUp(c.Bits()) == if c.bit > 0 then 8 * (c.addr + 1) else c.Bits()
  {
  }

  function BitsOf(slaves: seq<SlaveIo>, outputs: bool): (bits: seq<nat>)
    ensures |bits| == |slaves|
    ensures forall i :: 0 <= i < |slaves| ==> bits[i] == if outputs then slaves[i].obits else slaves[i].ibits
  {
    if outputs then OutBits(slaves) else InBits(slaves)
  }

  /** The first `n` slaves have FMMUs covering exactly their bits. */
  ghost predicate MappedUpTo(fmmus: seq<seq<Fmmu>>, bits: seq<nat>, at: nat, packed: bool, n: nat) {
    |fmmus| == n <= |bits|
    && forall i :: 0 <= i < n ==>
         if bits[i] == 0 then fmmus[i] == []
         else
           var t := Turn(bits, at, packed, i);
           Tile(fmmus[i], StartOf(t, bits[i]), EndOf(t, bits[i]))
  }

  /** The cursor, the segments and the FMMUs after the first `n` slaves. */
  ghost predicate Mapped(fmmus: seq<seq<Fmmu>>, cursor: Cursor, q: Packer,
                         bits: seq<nat>, at: nat, packed: bool, p: Packer, limit: nat, n: nat)
  {
    && n <= |bits| && p.Valid(limit) && cursor.Valid() && cursor.Bits() == Turn(bits, at, packed, n)
    && q == Pack(Extents(bits, at, packed)[..n], p, limit) && MappedUpTo(fmmus, bits, at, packed, n)
  }

  lemma MappedBegins(bits: seq<nat>, at: nat, packed: bool, p: Packer, limit: nat)
    requires p.Valid(limit) && at % 8 == 0
    ensures Mapped([], Cursor(at / 8, 0), p, bits, at, packed, p, limit, 0)
  {
  }

  lemma MappedGoesOn(fmmus: seq<seq<Fmmu>>, cursor: Cursor, q: Packer, fs: seq<Fmmu>, cursor': Cursor, q': Packer,
                     bits: seq<nat>, at: nat, packed: bool, p: Packer, limit: nat, n: nat)
    requires Mapped(fmmus, cursor, q, bits, at, packed, p, limit, n) && n < |bits|
    requires cursor'.Valid() && q.max > 0
    requires if bits[n] == 0 then fs == [] && cursor' == cursor && q' == q
             else
               && Tile(fs, StartOf(cursor.Bits(), bits[n]), EndOf(cursor.Bits(), bits[n]))
               && cursor'.Bits() == Advance(cursor.Bits(), bits[n], packed) && cursor'.addr >= cursor.addr
               && q' == AddExtent(q, cursor'.addr - cursor.addr, limit)
    ensures Mapped(fmmus + [fs], cursor', q', bits, at, packed, p, limit, n + 1)
  {
    hide Turn, Pack, AddExtent, Tile, StartOf, EndOf, Extents;
    TurnNext(bits, at, packed, n, p, limit);
    assert cursor.Bits() / 8 == cursor.addr && cursor'.Bits() / 8 == cursor'.addr;
  }

  lemma MappedEnds(fmmus: seq<seq<Fmmu>>, cursor: Cursor, q: Packer,
                   bits: seq<nat>, at: nat, packed: bool, p: Packer, limit: nat)
    requires Mapped(fmmus, cursor, q, bits, at, packed, p, limit, |bits|) && p.max > 0
    ensures MappedUpTo(fmmus, bits, at, packed, |bits|)
    ensures EndOfAll(bits, at, packed) / 8 == if cursor.bit > 0 then cursor.addr + 1 else cursor.addr
    ensures PackAll(bits, at, packed, p, limit) == if cursor.bit > 0 && q.max > 0 then AddRest(q, limit) else q
  {
    hide Pack, AddRest, Turn, MappedUpTo;
    assert Extents(bits, at, packed)[..|bits|] == Extents(bits, at, packed);
    PackValid(Extents(bits, at, packed), p, limit);
    AlignedBits(cursor);
  }

  lemma BitsAre(slaves: seq<SlaveIo>, outputs: bool)
    ensures var bits := BitsOf(slaves, outputs);
      && |bits| == |slaves|
      && forall i :: 0 <= i < |slaves| ==> bits[i] == if outputs then slaves[i].obits else slaves[i].ibits
  {
  }

  /** The next slave's turn, for the cursor and for the packing. */
  lemma TurnNext(bits: seq<nat>, at: nat, packed: bool, i: nat, p: Packer, limit: nat)
    requires i < |bits| && p.Valid(limit)
    ensures var t, ds := Turn(bits, at, packed, i), Extents(bits, at, packed);
      var q := Pack(ds[..i], p, limit);
      && Turn(bits, at, packed, i + 1) == Advance(t, bits[i], packed)
      && q.max > 0
      && Pack(ds[..i + 1], p, limit) == AddExtent(q, Advance(t, bits[i], packed) / 8 - t / 8, limit)
      && (bits[i] == 0 ==> Pack(ds[..i + 1], p, limit) == q)
  {
    hide AddExtent;
    var ds := Extents(bits, at, packed);
    assert ds[..i + 1][..i] == ds[..i];
    PackValid(ds[..i], p, limit);
    AddNothing(Pack(ds[..i], p, limit), limit);
  }
}
