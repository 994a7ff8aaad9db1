/** Giving a slave its place in the logical address space: `ecx_config_create_output_mappings` and
  * `ecx_config_create_input_mappings`, which differ only in the kind of sync manager they look for.
  * FMMUs are described in section 6.6 of ETG.1000.4. */
module FmmuMapping {

  datatype SyncManager = SyncManager(kind: nat, start: nat, length: nat)

  datatype Fmmu = Fmmu(logStart: nat, logStartbit: nat, logLength: nat, logEndbit: nat, physStart: nat)

  /** The allocator's position: a logical byte address and a bit within it. */
  datatype Cursor = Cursor(addr: nat, bit: nat)
  {
    predicate Valid() {
      bit < 8
    }

    function Bits(): nat {
      8 * addr + bit
    }
  }

  /** First bit an FMMU covers, and the bit behind its last. */
  function FirstBit(f: Fmmu): int {
    8 * f.logStart + f.logStartbit
  }

  function EndBit(f: Fmmu): int {
    8 * (f.logStart + f.logLength - 1) + f.logEndbit + 1
  }

  /** The FMMUs cover the bits from `lo` up to `hi` one after the other, without gap or overlap. */
  ghost predicate Tile(fs: seq<Fmmu>, lo: int, hi: int) {
    if fs == [] then lo == hi else FirstBit(fs[0]) == lo <= EndBit(fs[0]) && Tile(fs[1..], EndBit(fs[0]), hi)
  }

  function BytesOf(bits: nat): nat {
    (bits + 7) / 8
  }

  /** Obytes and Ibytes: zero for slaves of seven bits or fewer. */
  function WholeBytes(bits: nat): nat {
    if bits > 7 then BytesOf(bits) else 0
  }

  // ---------- which sync managers an FMMU takes in ----------

  /** The first sync manager of the kind at or behind `c`, or else the last one of all. */
  function NextOfKind(sms: seq<SyncManager>, kind: nat, c: nat): (r: nat)
    requires c < |sms|
    ensures c <= r < |sms| && (sms[r].kind == kind || r == |sms| - 1)
    ensures forall j :: c <= j < r ==> sms[j].kind != kind
    decreases |sms| - c
  {
    if c < |sms| - 1 && sms[c].kind != kind then NextOfKind(sms, kind, c + 1) else c
  }

  /** Adjoining sync managers are taken into the same FMMU while more bits are needed: the sync manager
    * reached, and the bytes counted so far over all FMMUs of the slave. */
  function Join(sms: seq<SyncManager>, kind: nat, bits: nat, c: nat, bytes: nat, end: nat): (r: (nat, nat))
    requires c < |sms|
    ensures c <= r.0 < |sms| && r.1 >= bytes
    ensures bytes == 0 < bits && c < |sms| - 1 ==> r.0 > c
    ensures r.1 == 0 ==> forall j :: c < j < r.0 && (sms[j].kind == kind || j == |sms| - 1) ==> sms[j].length == 0
    decreases |sms| - c
  {
    if 8 * bytes < bits && c < |sms| - 1 then
      var c1 := NextOfKind(sms, kind, c + 1);
      if sms[c1].start > end then (c1, bytes)
      else Join(sms, kind, bits, c1, bytes + sms[c1].length, sms[c1].start + sms[c1].length)
    else (c, bytes)
  }

  lemma JoinStep(sms: seq<SyncManager>, kind: nat, bits: nat, c: nat, bytes: nat, end: nat)
    requires c < |sms|
    ensures 8 * bytes >= bits || c == |sms| - 1 ==> Join(sms, kind, bits, c, bytes, end) == (c, bytes)
    ensures 8 * bytes < bits && c < |sms| - 1 ==>
      var c1 := NextOfKind(sms, kind, c + 1);
      Join(sms, kind, bits, c, bytes, end)
        == if sms[c1].start > end then (c1, bytes)
           else Join(sms, kind, bits, c1, bytes + sms[c1].length, sms[c1].start + sms[c1].length)
  {
    hide NextOfKind;
  }

  /** One FMMU's share: the sync manager it starts at, and the sync manager and byte count afterwards. */
  function Gather(sms: seq<SyncManager>, kind: nat, bits: nat, c: nat, bytes: nat): (r: (nat, nat, nat))
    requires c < |sms|
    ensures c <= r.0 <= r.1 < |sms| && r.2 >= bytes + sms[r.0].length
  {
    var c0 := NextOfKind(sms, kind, c);
    var (c1, b1) := Join(sms, kind, bits, c0, bytes + sms[c0].length, sms[c0].start + sms[c0].length);
    (c0, c1, b1)
  }

  lemma GatherFirst(sms: seq<SyncManager>, kind: nat, bits: nat, c: nat, bytes: nat)
    requires c < |sms|
    ensures Gather(sms, kind, bits, c, bytes).0 == NextOfKind(sms, kind, c)
  {
  }

  /** Some sync manager still to be looked at (or looked at already) has a non-zero length. */
  ghost predicate Productive(sms: seq<SyncManager>, kind: nat, c: nat, bytes: nat) {
    bytes > 0 || exists j :: c <= j < |sms| && (sms[j].kind == kind || j == |sms| - 1) && sms[j].length > 0
  }

  /** Without a byte counted the scan has moved on, and what it passed was empty. */
  lemma GatherMovesOn(sms: seq<SyncManager>, kind: nat, bits: nat, c: nat, bytes: nat)
    requires c < |sms| && bits > 0 && Productive(sms, kind, c, bytes)
    ensures var g := Gather(sms, kind, bits, c, bytes);
      Productive(sms, kind, g.1, g.2) && (g.2 == 0 ==> g.1 > c)
  {
    var g := Gather(sms, kind, bits, c, bytes);
    if g.2 == 0 {
      var j :| c <= j < |sms| && (sms[j].kind == kind || j == |sms| - 1) && sms[j].length > 0;
      assert j > g.0;
    }
  }

  /** The FMMUs of a slave of whole bytes: `done` of its `total` bytes are placed, the next goes to `addr`. */
  function ByteFmmus(sms: seq<SyncManager>, kind: nat, bits: nat, c: nat, bytes: nat, done: nat, addr: nat)
      : (fs: seq<Fmmu>)
    requires c < |sms| && bits > 0 && Productive(sms, kind, c, bytes) && done <= BytesOf(bits)
    decreases BytesOf(bits) - done, |sms| - c
  {
    if done >= BytesOf(bits) then []
    else
      GatherMovesOn(sms, kind, bits, c, bytes);
      var (c0, c1, b1) := Gather(sms, kind, bits, c, bytes);
      var size := if b1 + done > BytesOf(bits) then BytesOf(bits) - done else b1;
      [Fmmu(addr, 0, size, 7, sms[c0].start)] + ByteFmmus(sms, kind, bits, c1, b1, done + size, addr + size)
  }

  // ---------- where a slave is placed ----------

  /** First bit of a slave placed at the cursor: whole bytes start on a byte boundary. */
  function StartOf(at: nat, bits: nat): (r: nat)
    ensures at <= r < at + 8
  {
    if bits > 7 then (at + 7) / 8 * 8 else at
  }

  /** The bit behind its last. */
  function EndOf(at: nat, bits: nat): nat {
    StartOf(at, bits) + if bits > 7 then 8 * BytesOf(bits) else bits
  }

  lemma {:induction false} ByteFmmusTile(sms: seq<SyncManager>, kind: nat, bits: nat, c: nat, bytes: nat, done: nat,
                                         addr: nat)
    requires c < |sms| && bits > 0 && Productive(sms, kind, c, bytes) && done <= BytesOf(bits)
    ensures Tile(ByteFmmus(sms, kind, bits, c, bytes, done, addr), 8 * addr, 8 * (addr + BytesOf(bits) - done))
    decreases BytesOf(bits) - done, |sms| - c
  {
    if done < BytesOf(bits) {
      GatherMovesOn(sms, kind, bits, c, bytes);
      var (c0, c1, b1) := Gather(sms, kind, bits, c, bytes);
      var size := if b1 + done > BytesOf(bits) then BytesOf(bits) - done else b1;
      var rest := ByteFmmus(sms, kind, bits, c1, b1, done + size, addr + size);
      ByteFmmusTile(sms, kind, bits, c1, b1, done + size, addr + size);
      assert ([Fmmu(addr, 0, size, 7, sms[c0].start)] + rest)[1..] == rest;
    }
  }

  /** The FMMU of a slave of seven bits or fewer. */
  function BitFmmu(sms: seq<SyncManager>, kind: nat, bits: nat, at: Cursor): Fmmu
    requires |sms| > 0 && at.Valid() && 0 < bits <= 7
  {
    var last := at.bit + bits - 1;
    Fmmu(at.addr, at.bit, if last > 7 then 2 else 1, if last > 7 then last - 8 else last,
         sms[NextOfKind(sms, kind, 0)].start)
  }

  function Fmmus(sms: seq<SyncManager>, kind: nat, bits: nat, at: Cursor): seq<Fmmu>
    requires |sms| > 0 && at.Valid() && bits > 0 && (bits > 7 ==> Productive(sms, kind, 0, 0))
  {
    if bits > 7 then ByteFmmus(sms, kind, bits, 0, 0, 0, StartOf(at.Bits(), bits) / 8)
    else [BitFmmu(sms, kind, bits, at)]
  }

  /** A slave's FMMUs cover exactly the bits it is placed at. */
  lemma FmmusTile(sms: seq<SyncManager>, kind: nat, bits: nat, at: Cursor)
    requires |sms| > 0 && at.Valid() && bits > 0 && (bits > 7 ==> Productive(sms, kind, 0, 0))
    ensures Tile(Fmmus(sms, kind, bits, at), StartOf(at.Bits(), bits), EndOf(at.Bits(), bits))
  {
    hide ByteFmmus, BitFmmu, Productive, Tile, StartOf, EndOf, BytesOf;
    StartEnd(at.Bits(), bits);
    if bits > 7 {
      ByteFmmusTile(sms, kind, bits, 0, 0, 0, StartOf(at.Bits(), bits) / 8);
    } else {
      BitFmmuTiles(sms, kind, bits, at);
    }
  }

  lemma StartEnd(at: nat, bits: nat)
    ensures bits > 7 ==>
      var a := StartOf(at, bits) / 8; 8 * a == StartOf(at, bits) && 8 * (a + BytesOf(bits)) == EndOf(at, bits)
    ensures bits <= 7 ==> StartOf(at, bits) == at && EndOf(at, bits) == at + bits
    ensures BytesOf(0) == 0
  {
  }

  lemma BitFmmuTiles(sms: seq<SyncManager>, kind: nat, bits: nat, at: Cursor)
    requires |sms| > 0 && at.Valid() && 0 < bits <= 7
    ensures Tile([BitFmmu(sms, kind, bits, at)], at.Bits(), at.Bits() + bits)
  {
    hide NextOfKind;
    var f := BitFmmu(sms, kind, bits, at);
    assert [f][1..] == [];
  }

  lemma ByteFmmusStep(sms: seq<SyncManager>, kind: nat, bits: nat, c: nat, bytes: nat, done: nat, addr: nat,
                      earlier: seq<Fmmu>)
    requires c < |sms| && bits > 0 && Productive(sms, kind, c, bytes) && done < BytesOf(bits)
    ensures var (c0, c1, b1) := Gather(sms, kind, bits, c, bytes);
      var size := if b1 + done > BytesOf(bits) then BytesOf(bits) - done else b1;
      var f := Fmmu(addr, 0, size, 7, sms[c0].start);
      && c1 < |sms| && Productive(sms, kind, c1, b1) && (size == 0 ==> c1 > c)
      && earlier + ByteFmmus(sms, kind, bits, c, bytes, done, addr)
         == earlier + [f] + ByteFmmus(sms, kind, bits, c1, b1, done + size, addr + size)
  {
    GatherMovesOn(sms, kind, bits, c, bytes);
  }

  /** What the FMMUs found so far are part of. */
  ghost predicate Underway(sms: seq<SyncManager>, kind: nat, bits: nat, at: Cursor, smc: nat, byteCount: nat,
                           fmmuDone: nat, fmmus: seq<Fmmu>, cursor: Cursor)
    requires bits > 0 && at.Valid()
  {
    && smc < |sms| && cursor.Valid()
    && (fmmus == [] ==> smc == byteCount == fmmuDone == 0 && cursor == at)
    && if bits > 7 then
         var addr := StartOf(at.Bits(), bits) / 8 + fmmuDone;
         && Productive(sms, kind, smc, byteCount) && fmmuDone <= BytesOf(bits) && Productive(sms, kind, 0, 0)
         && (fmmus != [] ==> cursor == Cursor(addr, 0))
         && fmmus + ByteFmmus(sms, kind, bits, smc, byteCount, fmmuDone, addr) == Fmmus(sms, kind, bits, at)
       else
         fmmus != [] ==> fmmus == Fmmus(sms, kind, bits, at) && fmmuDone >= 1 && cursor.Bits() == EndOf(at.Bits(), bits)
  }

  // ---------- the loops ----------

  /** The skip over sync managers of other kinds. */
  method SkipToKind(sms: seq<SyncManager>, kind: nat, c: nat) returns (smc: nat)
    requires c < |sms|
    ensures smc == NextOfKind(sms, kind, c)
  {
    smc := c;
    while smc < |sms| - 1 && sms[smc].kind != kind
      invariant c <= smc < |sms| && NextOfKind(sms, kind, smc) == NextOfKind(sms, kind, c)
    {
      smc := smc + 1;
    }
  }

  /** The part of the loop that collects sync managers for one FMMU. */
  method Collect(sms: seq<SyncManager>, kind: nat, bits: nat, c: nat, bytes: nat)
      returns (first: nat, smc: nat, byteCount: nat)
    requires c < |sms|
    ensures (first, smc, byteCount) == Gather(sms, kind, bits, c, bytes)
  {
    hide Join, NextOfKind;
    smc := SkipToKind(sms, kind, c);
    first := smc;
    byteCount := bytes + sms[smc].length;
    var bitCount := bytes * 8 + sms[smc].length * 8;
    var endAddr: nat := sms[smc].start + sms[smc].length;
    ghost var goal := Join(sms, kind, bits, smc, byteCount, endAddr);
    while bitCount < bits && smc < |sms| - 1
      invariant smc < |sms| && bitCount == 8 * byteCount
      invariant Join(sms, kind, bits, smc, byteCount, endAddr) == goal
      decreases |sms| - smc
    {
      JoinStep(sms, kind, bits, smc, byteCount, endAddr);
      smc := smc + 1;
      smc := SkipToKind(sms, kind, smc);
      if sms[smc].start > endAddr {
        break;
      }
      byteCount := byteCount + sms[smc].length;
      bitCount := bitCount + sms[smc].length * 8;
      endAddr := sms[smc].start + sms[smc].length;
    }
    JoinStep(sms, kind, bits, smc, byteCount, endAddr);
  }

  /** The placement of a slave of seven bits or fewer. */
  method PlaceBits(at: Cursor, bits: nat, physStart: nat) returns (f: Fmmu, cursor: Cursor)
    requires at.Valid() && 0 < bits <= 7
    ensures f.physStart == physStart && f.logStart == at.addr && f.logStartbit == at.bit && f.logEndbit < 8
    ensures FirstBit(f) == at.Bits() && EndBit(f) == at.Bits() + bits == cursor.Bits() && cursor.Valid()
  {
    var addr, bit := at.addr, at.bit + (bits - 1);
    if bit > 7 {
      addr, bit := addr + 1, bit - 8;
    }
    f := Fmmu(at.addr, at.bit, addr - at.addr + 1, bit, physStart);
    bit := bit + 1;
    if bit > 7 {
      addr, bit := addr + 1, bit - 8;
    }
    cursor := Cursor(addr, bit);
  }

  /** The placement of `size` whole bytes. */
  method PlaceBytes(at: Cursor, size: nat, physStart: nat) returns (f: Fmmu, cursor: Cursor)
    requires at.Valid()
    ensures var addr := if at.bit > 0 then at.addr + 1 else at.addr;
      f == Fmmu(addr, 0, size, 7, physStart) && cursor == Cursor(addr + size, 0)
  {
    cursor := at;
    if cursor.bit > 0 {
      cursor := Cursor(cursor.addr + 1, 0);
    }
    f := Fmmu(cursor.addr, cursor.bit, size, 7, physStart);
    cursor := Cursor(cursor.addr + size, 0);
  }

  /** One pass of the loop for a slave of whole bytes. */
  method BytePass(sms: seq<SyncManager>, kind: nat, bits: nat, ghost at: Cursor, smc: nat, byteCount: nat,
                  fmmuDone: nat, fmmus: seq<Fmmu>, cursor: Cursor)
      returns (smc': nat, byteCount': nat, fmmuDone': nat, fmmus': seq<Fmmu>, cursor': Cursor)
    requires bits > 7 && at.Valid() && Underway(sms, kind, bits, at, smc, byteCount, fmmuDone, fmmus, cursor)
    requires fmmuDone < BytesOf(bits)
    ensures Underway(sms, kind, bits, at, smc', byteCount', fmmuDone', fmmus', cursor')
    ensures smc' < |sms| && (fmmuDone' > fmmuDone || (fmmuDone' == fmmuDone && smc' > smc))
  {
    hide ByteFmmus, Gather, Fmmus, Productive, StartOf, BytesOf;
    StartByte(at, bits);
    var first;
    first, smc', byteCount' := Collect(sms, kind, bits, smc, byteCount);
    var size := byteCount';
    if size + fmmuDone > WholeBytes(bits) {
      size := WholeBytes(bits) - fmmuDone;
    }
    var f;
    f, cursor' := PlaceBytes(cursor, size, sms[first].start);
    fmmus' := fmmus + [f];
    fmmuDone' := fmmuDone + size;
    ByteFmmusStep(sms, kind, bits, smc, byteCount, fmmuDone, StartOf(at.Bits(), bits) / 8 + fmmuDone, fmmus);
  }

  /** The pass of the loop for a slave of seven bits or fewer. */
  method BitPass(sms: seq<SyncManager>, kind: nat, bits: nat, ghost at: Cursor, smc: nat, byteCount: nat, fmmuDone: nat,
                 fmmus: seq<Fmmu>, cursor: Cursor)
      returns (smc': nat, byteCount': nat, fmmuDone': nat, fmmus': seq<Fmmu>, cursor': Cursor)
    requires 0 < bits <= 7 && at.Valid() && Underway(sms, kind, bits, at, smc, byteCount, fmmuDone, fmmus, cursor)
    requires fmmuDone < BytesOf(bits)
    ensures Underway(sms, kind, bits, at, smc', byteCount', fmmuDone', fmmus', cursor') && fmmuDone' > fmmuDone
    ensures smc' < |sms|
  {
    hide Underway, Gather, BytesOf, FirstBit, EndBit;
    BitBegins(sms, kind, bits, at, smc, byteCount, fmmuDone, fmmus, cursor);
    var first, f;
    first, smc', byteCount' := Collect(sms, kind, bits, smc, byteCount);
    f, cursor' := PlaceBits(cursor, bits, sms[first].start);
    fmmus' := fmmus + [f];
    fmmuDone' := fmmuDone + f.logLength;
    assert fmmus' == [f];
    GatherFirst(sms, kind, bits, 0, 0);
    BitEnds(sms, kind, bits, at, f, cursor', fmmuDone', smc', byteCount');
  }

  lemma BitBegins(sms: seq<SyncManager>, kind: nat, bits: nat, at: Cursor, smc: nat, byteCount: nat, fmmuDone: nat,
                  fmmus: seq<Fmmu>, cursor: Cursor)
    requires 0 < bits <= 7 && at.Valid() && Underway(sms, kind, bits, at, smc, byteCount, fmmuDone, fmmus, cursor)
    requires fmmuDone < BytesOf(bits)
    ensures fmmus == [] && smc == byteCount == fmmuDone == 0 && cursor == at && |sms| > 0
  {
  }

  lemma BitEnds(sms: seq<SyncManager>, kind: nat, bits: nat, at: Cursor, f: Fmmu, cursor: Cursor, fmmuDone: nat,
                smc: nat, byteCount: nat)
    requires 0 < bits <= 7 && at.Valid() && smc < |sms| && cursor.Valid()
    requires f.physStart == sms[NextOfKind(sms, kind, 0)].start && f.logStart == at.addr && f.logStartbit == at.bit
    requires f.logEndbit < 8 && EndBit(f) == at.Bits() + bits == cursor.Bits() && fmmuDone == f.logLength
    ensures fmmuDone > 0 && Underway(sms, kind, bits, at, smc, byteCount, fmmuDone, [f], cursor)
  {
    hide NextOfKind;
    assert f == BitFmmu(sms, kind, bits, at);
  }

  lemma StartByte(at: Cursor, bits: nat)
    requires bits > 7 && at.Valid()
    ensures StartOf(at.Bits(), bits) / 8 == if at.bit > 0 then at.addr + 1 else at.addr
  {
  }

  /** Maps the outputs or the inputs of one slave and moves the cursor behind them. */
  method CreateMappings(sms: seq<SyncManager>, kind: nat, bits: nat, at: Cursor)
      returns (fmmus: seq<Fmmu>, cursor: Cursor)
    requires |sms| > 0 && at.Valid() && bits > 0
    requires bits > 7 ==> Productive(sms, kind, 0, 0)
    ensures fmmus == Fmmus(sms, kind, bits, at)
    ensures cursor.Valid() && cursor.Bits() == EndOf(at.Bits(), bits)
  {
    hide Underway, Fmmus, EndOf, StartOf, Productive;
    var bytes := WholeBytes(bits);
    var fmmuDone: nat, smc: nat, byteCount: nat := 0, 0, 0;
    fmmus, cursor := [], at;
    MappingBegins(sms, kind, bits, at);
    while fmmuDone < BytesOf(bits)
      invariant smc < |sms| && Underway(sms, kind, bits, at, smc, byteCount, fmmuDone, fmmus, cursor)
      decreases BytesOf(bits) - fmmuDone, |sms| - smc
    {
      if bytes == 0 {
        smc, byteCount, fmmuDone, fmmus, cursor :=
          BitPass(sms, kind, bits, at, smc, byteCount, fmmuDone, fmmus, cursor);
      } else {
        smc, byteCount, fmmuDone, fmmus, cursor :=
          BytePass(sms, kind, bits, at, smc, byteCount, fmmuDone, fmmus, cursor);
      }
    }
    MappingEnds(sms, kind, bits, at, smc, byteCount, fmmuDone, fmmus, cursor);
  }

  lemma MappingBegins(sms: seq<SyncManager>, kind: nat, bits: nat, at: Cursor)
    requires |sms| > 0 && at.Valid() && bits > 0 && (bits > 7 ==> Productive(sms, kind, 0, 0))
    ensures Underway(sms, kind, bits, at, 0, 0, 0, [], at)
  {
  }

  lemma MappingEnds(sms: seq<SyncManager>, kind: nat, bits: nat, at: Cursor, smc: nat, byteCount: nat, fmmuDone: nat,
                    fmmus: seq<Fmmu>, cursor: Cursor)
    requires |sms| > 0 && at.Valid() && bits > 0 && (bits > 7 ==> Productive(sms, kind, 0, 0))
    requires Underway(sms, kind, bits, at, smc, byteCount, fmmuDone, fmmus, cursor) && fmmuDone >= BytesOf(bits)
    ensures fmmus == Fmmus(sms, kind, bits, at) && cursor.Valid() && cursor.Bits() == EndOf(at.Bits(), bits)
  {
    StartEnd(at.Bits(), bits);
    if bits > 7 {
      var addr := StartOf(at.Bits(), bits) / 8 + fmmuDone;
      AllPlaced(sms, kind, bits, smc, byteCount, fmmuDone, addr);
      hide ByteFmmus, BitFmmu, Productive, StartOf, EndOf;
      assert fmmus + [] == fmmus;
    } else {
      hide ByteFmmus, BitFmmu, Productive, StartOf, EndOf;
    }
  }

  // ---------- where the mapping does not do its job ----------

  /** The requirement of `CreateMappings` is exact: if nothing the scan can reach has a length, a pass makes
    * no progress and leaves the scan where no later pass can make any. */
  lemma UnproductiveNeverEnds(sms: seq<SyncManager>, kind: nat, bits: nat, c: nat)
    requires c < |sms| && bits > 0 && !Productive(sms, kind, c, 0)
    ensures var g := Gather(sms, kind, bits, c, 0); g.2 == 0 && !Productive(sms, kind, g.1, g.2)
  {
    JoinsNothing(sms, kind, bits, NextOfKind(sms, kind, c), c, sms[NextOfKind(sms, kind, c)].start);
  }

  lemma {:induction false} JoinsNothing(sms: seq<SyncManager>, kind: nat, bits: nat, c: nat, from: nat, end: nat)
    requires from <= c < |sms| && !Productive(sms, kind, from, 0)
    ensures Join(sms, kind, bits, c, 0, end).1 == 0
    decreases |sms| - c
  {
    if 0 < bits && c < |sms| - 1 {
      var c1 := NextOfKind(sms, kind, c + 1);
      if sms[c1].start <= end {
        JoinsNothing(sms, kind, bits, c1, from, sms[c1].start);
      }
    }
  }

  /** No FMMU is longer than the sync managers taken into it. */
  ghost predicate Fit(sms: seq<SyncManager>, kind: nat, bits: nat, c: nat, bytes: nat, done: nat)
    requires c < |sms| && bits > 0 && Productive(sms, kind, c, bytes) && done <= BytesOf(bits)
    decreases BytesOf(bits) - done, |sms| - c
  {
    done < BytesOf(bits) ==>
      (GatherMovesOn(sms, kind, bits, c, bytes);
      var (c0, c1, b1) := Gather(sms, kind, bits, c, bytes);
      var size := if b1 + done > BytesOf(bits) then BytesOf(bits) - done else b1;
      size <= b1 - bytes && Fit(sms, kind, bits, c1, b1, done + size))
  }

  /** The byte count is not reset between the FMMUs of a slave, so FMMUs keep to their sync managers exactly
    * if the first two suffice for the whole slave. */
  lemma FitExactlyTwo(sms: seq<SyncManager>, kind: nat, bits: nat)
    requires |sms| > 0 && bits > 7 && sms[NextOfKind(sms, kind, 0)].length > 0
    ensures Productive(sms, kind, 0, 0)
    ensures var g1 := Gather(sms, kind, bits, 0, 0);
      var g2 := Gather(sms, kind, bits, g1.1, g1.2);
      Fit(sms, kind, bits, 0, 0, 0) <==> BytesOf(bits) <= g2.2
  {
    var n0 := NextOfKind(sms, kind, 0);
    assert sms[n0].kind == kind || n0 == |sms| - 1;
    var g1 := Gather(sms, kind, bits, 0, 0);
    assert g1.2 > 0;
    if g1.2 < BytesOf(bits) {
      assert Fit(sms, kind, bits, 0, 0, 0) <==> Fit(sms, kind, bits, g1.1, g1.2, g1.2);
      GatherMovesOn(sms, kind, bits, g1.1, g1.2);
      var g2 := Gather(sms, kind, bits, g1.1, g1.2);
      var size := if g2.2 + g1.2 > BytesOf(bits) then BytesOf(bits) - g1.2 else g2.2;
      assert Fit(sms, kind, bits, g1.1, g1.2, g1.2) <==>
        (size <= g2.2 - g1.2 && Fit(sms, kind, bits, g2.1, g2.2, g1.2 + size));
      assert g1.2 + size == BytesOf(bits) ==> Fit(sms, kind, bits, g2.1, g2.2, g1.2 + size);
    } else {
      assert Fit(sms, kind, bits, 0, 0, 0) <==> Fit(sms, kind, bits, g1.1, g1.2, BytesOf(bits));
    }
  }

  /** Three sync managers of `n` bytes each, apart from one another: the second FMMU is given the rest, twice what its
    * sync manager holds, and there is no third. */
  lemma ThreeApart(sms: seq<SyncManager>, kind: nat, n: nat, at: Cursor)
    requires |sms| == 3 && n > 0 && at.Valid() && forall k :: 0 <= k < 3 ==> sms[k].kind == kind && sms[k].length == n
    requires sms[0].start + n < sms[1].start && sms[1].start + n < sms[2].start
    ensures Productive(sms, kind, 0, 0) && !Fit(sms, kind, 24 * n, 0, 0, 0)
    ensures var a := StartOf(at.Bits(), 24 * n) / 8;
      Fmmus(sms, kind, 24 * n, at) == [Fmmu(a, 0, n, 7, sms[0].start), Fmmu(a + n, 0, 2 * n, 7, sms[1].start)]
  {
    var bits := 24 * n;
    assert sms[0].length > 0 && Productive(sms, kind, 0, 0);
    assert NextOfKind(sms, kind, 0) == 0 && NextOfKind(sms, kind, 1) == 1 && NextOfKind(sms, kind, 2) == 2;
    assert Gather(sms, kind, bits, 0, 0) == (0, 1, n) && Gather(sms, kind, bits, 1, n) == (1, 2, 2 * n);
    FitExactlyTwo(sms, kind, bits);
    hide Gather, Fit, NextOfKind, Productive;
    var a := StartOf(at.Bits(), bits) / 8;
    ByteFmmusStep(sms, kind, bits, 0, 0, 0, a, []);
    ByteFmmusStep(sms, kind, bits, 1, n, n, a + n, [Fmmu(a, 0, n, 7, sms[0].start)]);
    AllPlaced(sms, kind, bits, 2, 2 * n, 3 * n, a + 3 * n);
    hide ByteFmmus;
    assert [] + ByteFmmus(sms, kind, bits, 0, 0, 0, a) == ByteFmmus(sms, kind, bits, 0, 0, 0, a);
  }

  /** Bytes the sync managers hold together. */
  function Held(sms: seq<SyncManager>): nat {
    if sms == [] then 0 else Held(sms[..|sms| - 1]) + sms[|sms| - 1].length
  }

  /** Sync managers of the kind, each beginning no later than where the one before ends, that hold enough together: one
    * FMMU, at the first, takes the slave in. */
  lemma {:induction false} AllAdjoining(sms: seq<SyncManager>, kind: nat, bits: nat, at: Cursor)
    requires |sms| > 0 && bits > 7 && at.Valid() && bits <= 8 * Held(sms)
    requires forall k :: 0 <= k < |sms| ==> sms[k].kind == kind
    requires forall k :: 0 < k < |sms| ==> sms[k].start <= sms[k - 1].start + sms[k - 1].length
    ensures Productive(sms, kind, 0, 0)
    ensures Fmmus(sms, kind, bits, at)
      == [Fmmu(StartOf(at.Bits(), bits) / 8, 0, (bits + 7) / 8, 7, sms[0].start)]
  {
    SomeHeld(sms, kind);
    JoinsAll(sms, kind, bits, 0);
    assert sms[..1] == [sms[0]] && [sms[0]][..0] == [];
    assert Held([sms[0]]) == sms[0].length;
    var (c0, c1, b1) := Gather(sms, kind, bits, 0, 0);
    assert c0 == 0 && b1 >= BytesOf(bits);
    hide Gather, Join, NextOfKind, Productive, Held;
    var a := StartOf(at.Bits(), bits) / 8;
    ByteFmmusStep(sms, kind, bits, 0, 0, 0, a, []);
    AllPlaced(sms, kind, bits, c1, b1, BytesOf(bits), a + BytesOf(bits));
    hide ByteFmmus;
    assert [] + ByteFmmus(sms, kind, bits, 0, 0, 0, a) == ByteFmmus(sms, kind, bits, 0, 0, 0, a);
  }

  lemma {:induction false} SomeHeld(sms: seq<SyncManager>, kind: nat)
    requires Held(sms) > 0 && forall k :: 0 <= k < |sms| ==> sms[k].kind == kind
    ensures Productive(sms, kind, 0, 0)
    decreases |sms|
  {
    var n := |sms| - 1;
    if sms[n].length == 0 {
      SomeHeld(sms[..n], kind);
      var j :| 0 <= j < n && sms[..n][j].length > 0;
      assert sms[j].kind == kind && sms[j].length > 0;
    }
  }

  lemma {:induction false} JoinsAll(sms: seq<SyncManager>, kind: nat, bits: nat, c: nat)
    requires c < |sms| && bits <= 8 * Held(sms)
    requires forall k :: 0 <= k < |sms| ==> sms[k].kind == kind
    requires forall k :: 0 < k < |sms| ==> sms[k].start <= sms[k - 1].start + sms[k - 1].length
    ensures bits <= 8 * Join(sms, kind, bits, c, Held(sms[..c + 1]), sms[c].start + sms[c].length).1
    decreases |sms| - c
  {
    if c == |sms| - 1 {
      assert sms[..c + 1] == sms;
    } else {
      JoinsAll(sms, kind, bits, c + 1);
      assert sms[..c + 2][..c + 1] == sms[..c + 1];
      assert NextOfKind(sms, kind, c + 1) == c + 1;
    }
  }

  /** Every FMMU starts where some sync manager of the kind does, or the last one of all if no more are of the kind, and
    * they follow one another as the sync managers do. */
  ghost predicate AtSyncManagers(sms: seq<SyncManager>, kind: nat, c: nat, fs: seq<Fmmu>)
    decreases |fs|
  {
    fs != [] ==> exists k :: IsStart(sms, kind, k, fs[0]) && c <= k && AtSyncManagers(sms, kind, k, fs[1..])
  }

  ghost predicate IsStart(sms: seq<SyncManager>, kind: nat, k: nat, f: Fmmu) {
    k < |sms| && (sms[k].kind == kind || k == |sms| - 1) && f.physStart == sms[k].start
  }

  /** The first FMMU starts at the first sync manager of the kind, and the others go on from there. */
  ghost predicate Starts(sms: seq<SyncManager>, kind: nat, fs: seq<Fmmu>) {
    && fs != []
    && exists k :: 0 <= k && IsStart(sms, kind, k, fs[0]) && AtSyncManagers(sms, kind, k, fs)
         && forall j :: 0 <= j < k ==> sms[j].kind != kind
  }

  lemma FmmuStarts(sms: seq<SyncManager>, kind: nat, bits: nat, at: Cursor)
    requires |sms| > 0 && at.Valid() && bits > 0 && (bits > 7 ==> Productive(sms, kind, 0, 0))
    ensures var fs := Fmmus(sms, kind, bits, at); Starts(sms, kind, fs) && (bits <= 7 ==> |fs| == 1)
  {
    hide NextOfKind;
    var k, fs := NextOfKind(sms, kind, 0), Fmmus(sms, kind, bits, at);
    if bits > 7 {
      ByteFmmusStart(sms, kind, bits, 0, 0, 0, StartOf(at.Bits(), bits) / 8);
      assert IsStart(sms, kind, k, fs[0]);
    } else {
      assert IsStart(sms, kind, k, fs[0]) && AtSyncManagers(sms, kind, k, fs[1..]);
    }
  }

  lemma {:induction false} ByteFmmusStart(sms: seq<SyncManager>, kind: nat, bits: nat, c: nat, bytes: nat, done: nat,
                                          addr: nat)
    requires c < |sms| && bits > 0 && Productive(sms, kind, c, bytes) && done < BytesOf(bits)
    ensures var fs, k := ByteFmmus(sms, kind, bits, c, bytes, done, addr), NextOfKind(sms, kind, c);
      fs != [] && fs[0].physStart == sms[k].start && AtSyncManagers(sms, kind, k, fs)
    decreases BytesOf(bits) - done, |sms| - c
  {
    hide *;
    var (c0, c1, b1) := Gather(sms, kind, bits, c, bytes);
    var size := if b1 + done > BytesOf(bits) then BytesOf(bits) - done else b1;
    var f := Fmmu(addr, 0, size, 7, sms[c0].start);
    ByteFmmusStep(sms, kind, bits, c, bytes, done, addr, []);
    GatherFirst(sms, kind, bits, c, bytes);
    FirstIsStart(sms, kind, c, f);
    var all, rest := ByteFmmus(sms, kind, bits, c, bytes, done, addr),
                     ByteFmmus(sms, kind, bits, c1, b1, done + size, addr + size);
    assert all == [] + all == [] + [f] + rest;
    if done + size < BytesOf(bits) {
      ByteFmmusStart(sms, kind, bits, c1, b1, done + size, addr + size);
      AtFirst(sms, kind, c0, f, NextOfKind(sms, kind, c1), rest);
    } else {
      AllPlaced(sms, kind, bits, c1, b1, done + size, addr + size);
      AtFirst(sms, kind, c0, f, c0, rest);
    }
  }

  lemma FirstIsStart(sms: seq<SyncManager>, kind: nat, c: nat, f: Fmmu)
    requires c < |sms| && f.physStart == sms[NextOfKind(sms, kind, c)].start
    ensures IsStart(sms, kind, NextOfKind(sms, kind, c), f)
  {
    hide NextOfKind;
  }

  lemma AtFirst(sms: seq<SyncManager>, kind: nat, c: nat, f: Fmmu, d: nat, rest: seq<Fmmu>)
    requires IsStart(sms, kind, c, f) && c <= d && (rest == [] || AtSyncManagers(sms, kind, d, rest))
    ensures AtSyncManagers(sms, kind, c, [] + [f] + rest)
  {
    assert ([] + [f] + rest)[1..] == rest && AtSyncManagers(sms, kind, c, rest);
  }

  lemma AllPlaced(sms: seq<SyncManager>, kind: nat, bits: nat, c: nat, bytes: nat, done: nat, addr: nat)
    requires c < |sms| && bits > 0 && Productive(sms, kind, c, bytes) && done == BytesOf(bits)
    ensures ByteFmmus(sms, kind, bits, c, bytes, done, addr) == []
  {
  }
}
