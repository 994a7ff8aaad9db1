/** From mapping to exchange: what `ecx_main_config_map_group` leaves behind is what the cyclic exchange needs. */
module CyclicExchange {
  import opened Basics
  import opened Segments
  import opened GroupMapping
  import opened ProcessData

  /** The fields of a mapped group, as the mapping computes them. */
  function Mapped(slaves: seq<SlaveIo>, start: nat, packed: bool, limit: nat, blockLRW: bool, hasdc: bool): GroupIo {
    var outs, ins := InputsAt(slaves, start, packed) / 8, StatusAt(slaves, start, packed) / 8;
    EndsAligned(slaves, start, packed);
    assert start <= outs <= ins;
    GroupIo(start, outs - start, ins - outs, start + StatusBytes(slaves),
            All(AfterStatus(slaves, start, packed, limit)),
            |AfterOutputs(slaves, start, packed, limit).closed|,
            AfterOutputs(slaves, start, packed, limit).size % 0x10000, blockLRW, hasdc)
  }

  /** The group as sending and receiving find it. */
  function Seen(group: IoGroup, start: nat, blockLRW: bool, hasdc: bool): GroupIo
    requires group.nsegments <= group.IOsegment.Length
    reads group, group.IOsegment
  {
    GroupIo(start, group.Obytes, group.Ibytes, group.mbxstatuslength, group.IOsegment[..group.nsegments],
            group.Isegment, group.Ioffset, blockLRW, hasdc)
  }

  /** What was packed once stays at the front of the segments. */
  lemma PackedFront(p: Packer, q: Packer)
    requires Grown(p, q)
    ensures var s, n := All(q), |p.closed|; n < |s| && s[..n] == p.closed && p.size <= s[n]
  {
    var s, n := All(q), |p.closed|;
    assert s[..n] == q.closed[..n];
    if n < |q.closed| {
      assert q.closed[..n + 1] == p.closed + [q.closed[n]];
      SumAppend(p.closed, q.closed[n]);
    } else {
      assert q.closed == q.closed[..n];
    }
  }

  /** Segments permitting, the mapped group is fit for exchange, whatever the slaves are, exactly if it starts at
    * logical address 0: the start address is counted into the length of the mailbox status. */
  lemma MappedGroupValid(slaves: seq<SlaveIo>, start: nat, packed: bool, limit: nat, blockLRW: bool, hasdc: bool)
    requires |AfterStatus(slaves, start, packed, limit).closed| + 1 < limit
    ensures Mapped(slaves, start, packed, limit, blockLRW, hasdc).Valid() <==> start == 0
  {
    hide AfterOutputs, AfterInputs, AfterStatus, InputsAt, StatusAt, Sum, Grown, Packer.Valid, StatusBytes;
    SegmentsFit(slaves, start, packed, limit);
    GrownToEnd(slaves, start, packed, limit);
    AfterOutputsValid(slaves, start, packed, limit);
    EndsAligned(slaves, start, packed);
    var p, q := AfterOutputs(slaves, start, packed, limit), AfterStatus(slaves, start, packed, limit);
    PackedFront(p, q);
    OffsetFits(p, q);
    SumsTo(p);
    hide All;
  }

  lemma SumsTo(p: Packer)
    ensures Sum(p.closed) + p.size == p.Total()
  {
  }

  /** The offset of the inputs in their segment fits into its 16-bit field. */
  lemma OffsetFits(p: Packer, q: Packer)
    requires Grown(p, q) && forall k :: 0 <= k < |All(q)| ==> All(q)[k] <= MAX_LRW_DATA
    ensures p.size % 0x10000 == p.size
  {
    PackedFront(p, q);
  }

  /** Mapping a group, and what the exchange then finds. */
  method MapForExchange(group: IoGroup, slaves: seq<SlaveIo>, start: nat, packed: bool, blockLRW: bool, hasdc: bool)
    requires forall s :: 0 <= s < |slaves| ==> slaves[s].Productive()
    requires |AfterStatus(slaves, start, packed, group.IOsegment.Length).closed| + 1 < group.IOsegment.Length
    modifies group, group.IOsegment
    ensures group.nsegments <= group.IOsegment.Length
    ensures Seen(group, start, blockLRW, hasdc)
      == Mapped(slaves, start, packed, group.IOsegment.Length, blockLRW, hasdc)
    ensures Seen(group, start, blockLRW, hasdc).Valid() <==> start == 0
  {
    hide AfterOutputs, AfterInputs, AfterStatus, InputsAt, StatusAt, Sum, MappedUpTo;
    MappedGroupValid(slaves, start, packed, group.IOsegment.Length, blockLRW, hasdc);
    GrownToEnd(slaves, start, packed, group.IOsegment.Length);
    var _, _ := group.MapGroup(slaves, start, packed);
  }
}
