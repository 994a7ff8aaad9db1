/** Reading the EEPROM of slaves byte by byte through a cache that holds one slave at a time. */
module SiiCache {
  import opened Basics

  /** The EEPROMs as the slaves hold them, and which slaves answer with eight bytes at once. */
  datatype Slaves = Slaves(eeprom: (nat, nat) -> Byte, eightByte: nat -> bool)
  {
    function Count(slave: nat): (n: nat)
      ensures n == 4 || n == 8
    {
      if eightByte(slave) then 8 else 4
    }

    /** What a read at a word address delivers. */
    function Read(slave: nat, word: nat): (r: seq<Byte>)
      ensures |r| == Count(slave)
    {
      seq(Count(slave), k requires 0 <= k < Count(slave) => eeprom(slave, 2 * word + k))
    }
  }

  /** The cache as a map: the slave it holds, and the bytes it knows. */
  datatype Cache = Cache(slave: nat, known: map<nat, Byte>)

  function Selected(c: Cache, slave: nat): Cache {
    if slave == c.slave then c else Cache(slave, map[])
  }

  /** The bytes of a read, by address. */
  function Block(s: Slaves, slave: nat, word: nat): (m: map<nat, Byte>)
    ensures forall i: nat :: i in m <==> 2 * word <= i < 2 * word + s.Count(slave)
  {
    map i: nat | 2 * word <= i < 2 * word + s.Count(slave) :: s.eeprom(slave, i)
  }

  /** One byte, with `size` bytes of buffer. */
  function Get(c: Cache, s: Slaves, slave: nat, address: nat, size: nat): (Cache, Byte) {
    var c' := Selected(c, slave);
    if address >= size then (c', 0xff)
    else if address in c'.known then (c', c'.known[address])
    else
      var filled := c'.known + Block(s, slave, address / 2);
      assert s.Count(slave) >= 4 && 2 * (address / 2) <= address < 2 * (address / 2) + 2;
      (c'.(known := filled), filled[address])
  }

  /** The read that a byte may call for stays inside the buffer. */
  predicate Inside(c: Cache, s: Slaves, slave: nat, address: nat, size: nat) {
    address < size && address !in Selected(c, slave).known ==> address / 2 * 2 + s.Count(slave) <= size
  }

  /** What the cache knows is what the EEPROM of its slave holds. */
  ghost predicate Coherent(c: Cache, s: Slaves) {
    forall i :: i in c.known ==> c.known[i] == s.eeprom(c.slave, i)
  }

  lemma GetCoherent(c: Cache, s: Slaves, slave: nat, address: nat, size: nat)
    requires Coherent(c, s)
    ensures var (c', b) := Get(c, s, slave, address, size);
      Coherent(c', s) && c'.slave == slave && b == if address < size then s.eeprom(slave, address) else 0xff
  {
  }

  /** The bytes got by a sequence of reads. */
  function GetAll(c: Cache, s: Slaves, requests: seq<(nat, nat)>, size: nat): seq<Byte>
    decreases |requests|
  {
    if requests == [] then []
    else
      var (c', b) := Get(c, s, requests[0].0, requests[0].1, size);
      [b] + GetAll(c', s, requests[1..], size)
  }

  /** Main result: whatever was read before, from whichever slaves, every byte is the one the slave holds. */
  lemma {:induction false} HistoryIrrelevant(c: Cache, s: Slaves, requests: seq<(nat, nat)>, size: nat)
    requires Coherent(c, s)
    ensures var bs := GetAll(c, s, requests, size);
      && |bs| == |requests|
      && forall k :: 0 <= k < |requests| ==>
           bs[k] == if requests[k].1 < size then s.eeprom(requests[k].0, requests[k].1) else 0xff
    decreases |requests|
  {
    if requests != [] {
      var (slave, address) := requests[0];
      GetCoherent(c, s, slave, address, size);
      HistoryIrrelevant(Get(c, s, slave, address, size).0, s, requests[1..], size);
    }
  }

  /** Which reads may leave the buffer: those of an unknown byte among the last six, or among the last two of a
    * slave that answers with four bytes (the buffer being of even length). */
  lemma InsideExactly(c: Cache, s: Slaves, slave: nat, address: nat, size: nat)
    requires size % 2 == 0
    ensures Inside(c, s, slave, address, size)
      <==> address >= size || address in Selected(c, slave).known
           || address + (if s.eightByte(slave) then 6 else 2) < size
  {
  }

  /** The cache in memory: a buffer, and a bitmap in words of 32 bits; a word is the set of its bits that are one. */
  class SiiBuffer {
    const esibuf: array<Byte>
    const esimap: array<set<nat>>
    var esislave: nat

    ghost predicate Valid()
      reads this, esibuf, esimap
    {
      && esibuf.Length == 32 * esimap.Length
      && (forall w :: 0 <= w < esimap.Length ==> forall b :: b in esimap[w] ==> b < 32)
    }

    predicate Bit(i: nat)
      reads this, esimap
      requires i < 32 * esimap.Length
    {
      i % 32 in esimap[i / 32]
    }

    ghost function Now(): Cache
      reads this, esibuf, esimap
      requires Valid()
    {
      Cache(esislave, map i: nat | i < esibuf.Length && Bit(i) :: esibuf[i])
    }

    constructor (words: nat)
      ensures Valid() && fresh(esibuf) && fresh(esimap) && Now() == Cache(0, map[]) && esibuf.Length == 32 * words
    {
      esibuf := new Byte[32 * words](_ => 0);
      esimap := new set<nat>[words](_ => {});
      esislave := 0;
    }

    /** `ecx_siigetbyte` */
    method GetByte(s: Slaves, slave: nat, address: nat) returns (b: Byte)
      requires Valid() && Inside(Now(), s, slave, address, esibuf.Length)
      modifies this`esislave, esibuf, esimap
      ensures Valid() && (Now(), b) == Get(old(Now()), s, slave, address, esibuf.Length)
    {
      b := 0xff;
      ghost var c := Now();
      if slave != esislave {
        Clear();
        esislave := slave;
      }
      assert Now() == Selected(c, slave);
      if address < esibuf.Length {
        if address % 32 in esimap[address / 32] {
          b := esibuf[address];
        } else {
          assert !Bit(address);
          Fill(s, slave, address / 2);
          assert address in Block(s, slave, address / 2);
          assert address in Now().known;
          b := esibuf[address];
        }
      }
    }

    method Clear()
      requires Valid()
      modifies esimap
      ensures Valid() && Now().known == map[]
    {
      var w := 0;
      while w < esimap.Length
        invariant w <= esimap.Length && Valid()
        invariant forall v :: 0 <= v < w ==> esimap[v] == {}
      {
        esimap[w] := {};
        w := w + 1;
      }
    }

    /** One read from the slave, put into the buffer and marked in the bitmap. */
    method Fill(s: Slaves, slave: nat, eadr: nat)
      requires Valid() && 2 * eadr + s.Count(slave) <= esibuf.Length
      modifies esibuf, esimap
      ensures Valid() && Now() == old(Now()).(known := old(Now()).known + Block(s, slave, eadr))
    {
      hide Bit;
      ghost var before := Now().known;
      var edat, cnt := s.Read(slave, eadr), s.Count(slave);
      CopyInto(esibuf, 2 * eadr, edat);
      Mark(eadr, cnt);
      ghost var known, block := Now().known, Block(s, slave, eadr);
      forall i: nat | i < esibuf.Length
        ensures i in known <==> i in before || i in block
        ensures i in known ==> known[i] == if i in block then block[i] else before[i]
      {
      }
      assert known == before + block;
    }

    method Mark(eadr: nat, cnt: nat)
      requires Valid() && 2 * eadr + cnt <= esibuf.Length
      modifies esimap
      ensures Valid()
      ensures forall i :: 0 <= i < esibuf.Length ==> (Bit(i) <==> old(Bit(i)) || 2 * eadr <= i < 2 * eadr + cnt)
    {
      var mapw: nat, mapb: nat := eadr / 16, 2 * eadr - eadr / 16 * 32;
      var lp := 0;
      while lp < cnt
        invariant lp <= cnt && mapb < 32 && mapw * 32 + mapb == 2 * eadr + lp && Valid()
        invariant forall i :: 0 <= i < esibuf.Length ==> (Bit(i) <==> old(Bit(i)) || 2 * eadr <= i < 2 * eadr + lp)
      {
        SetBit(mapw, mapb);
        mapb := mapb + 1;
        if mapb > 31 {
          mapb, mapw := 0, mapw + 1;
        }
        lp := lp + 1;
      }
    }

    method SetBit(mapw: nat, mapb: nat)
      requires Valid() && mapw < esimap.Length && mapb < 32
      modifies esimap
      ensures Valid()
      ensures forall i :: 0 <= i < esibuf.Length ==> (Bit(i) <==> old(Bit(i)) || i == mapw * 32 + mapb)
    {
      esimap[mapw] := esimap[mapw] + {mapb};
      assert forall i :: 0 <= i < esibuf.Length && i / 32 == mapw && i % 32 == mapb ==> i == mapw * 32 + mapb;
      assert (mapw * 32 + mapb) / 32 == mapw && (mapw * 32 + mapb) % 32 == mapb;
    }
  }
}
