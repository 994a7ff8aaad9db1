/** Finding a section in the EEPROM of a slave, and taking the process data objects out of one. The layout is
  * described in section 5.4 of ETG.1000.6. Bytes are read through the cache, whose answer `b` is. */
module SiiParser {
  import opened Basics

  type Bytes = nat -> Byte

  const SII_START := 0x40
  const SII_PDO := 50

  ghost predicate Holds(b: Bytes, at: nat, s: seq<Byte>) {
    forall k :: 0 <= k < |s| ==> b(at + k) == s[k]
  }

  lemma HoldsParts(b: Bytes, at: nat, s: seq<Byte>, t: seq<Byte>)
    requires Holds(b, at, s + t)
    ensures Holds(b, at, s) && Holds(b, at + |s|, t)
  {
    assert forall k :: 0 <= k < |s| ==> (s + t)[k] == s[k];
    forall k | 0 <= k < |t| ensures b(at + |s| + k) == t[k] {
      assert (s + t)[|s| + k] == t[k];
    }
  }

  function Word(b: Bytes, at: nat): nat {
    Join16(b(at), b(at + 1))
  }

  lemma WordHeld(b: Bytes, at: nat, x: nat)
    requires x < 65536 && Holds(b, at, Le16(x))
    ensures Word(b, at) == x
  {
    assert b(at + 0) == Le16(x)[0] && b(at + 1) == Le16(x)[1];
    Join16Parts(x);
  }

  // ---------- what the bytes themselves say ----------

  /** The bytes hold a number of sixteen bits, low byte first. */
  predicate Holds16(b: Bytes, at: nat, x: nat) {
    b(at) as nat + 256 * b(at + 1) as nat == x
  }

  /** From one section to the next, over as many words as the second word of each says, the search passes sections of
    * other categories and comes to `to`. */
  ghost predicate Leads(b: Bytes, from: nat, to: nat, cat: nat)
    decreases to - from
  {
    from < to ==>
      && !Holds16(b, from, cat) && !Holds16(b, from, 0xffff)
      && var next := from + 4 + 2 * (b(from + 2) as nat + 256 * b(from + 3) as nat);
        next <= to && Leads(b, next, to, cat)
  }

  /** The bit lengths of `n` entries of eight bytes, in the sixth byte of each. */
  function EntryBits(b: Bytes, at: nat, n: nat): nat
    decreases n
  {
    if n == 0 then 0 else b(at + 5) as nat + EntryBits(b, at + 8, n - 1)
  }

  /** The records are those of the objects that follow one another in memory: an index, the number of entries, the sync
    * manager, four bytes more, and the entries. */
  ghost predicate Listed(b: Bytes, at: nat, rs: seq<Record>, maxsm: nat)
    decreases |rs|
  {
    rs != [] ==>
      && Holds16(b, at, rs[0].index) && rs[0].sync == b(at + 3)
      && rs[0].bitSize == (if b(at + 3) < maxsm then EntryBits(b, at + 8, b(at + 2)) % 65536 else 0)
      && Listed(b, at + 8 + 8 * b(at + 2), rs[1..], maxsm)
  }

  /** The bit lengths recorded for a sync manager. */
  function Lengths(rs: seq<Record>, sm: nat): nat {
    if rs == [] then 0 else (if rs[0].sync == sm then rs[0].bitSize else 0) + Lengths(rs[1..], sm)
  }

  lemma WordHolds(b: Bytes, at: nat, x: nat)
    requires Word(b, at) == x
    ensures Holds16(b, at, x)
  {
  }

  // ---------- sections ----------

  /** A category and a body, which is a whole number of words. */
  datatype Section = Section(cat: nat, body: seq<Byte>)
  {
    predicate Valid() {
      cat < 0xffff && |body| % 2 == 0 && |body| / 2 < 65536
    }

    function Image(): (r: seq<Byte>)
      ensures |r| == 4 + |body|
    {
      Le16(cat) + (Le16(|body| / 2) + body)
    }
  }

  /** All sections, and the mark behind the last. */
  function Image(ss: seq<Section>): (r: seq<Byte>)
    ensures |r| >= 2
  {
    if ss == [] then Le16(0xffff) else ss[0].Image() + Image(ss[1..])
  }

  predicate ValidSections(ss: seq<Section>) {
    forall k :: 0 <= k < |ss| ==> ss[k].Valid()
  }

  /** The first section of a category, or their number if there is none. */
  function First(ss: seq<Section>, cat: nat): (k: nat)
    ensures k <= |ss|
    ensures k < |ss| ==> ss[k].cat == cat
    ensures forall j :: 0 <= j < k ==> ss[j].cat != cat
  {
    if ss == [] || ss[0].cat == cat then 0 else 1 + First(ss[1..], cat)
  }

  /** Where the `k`-th section begins. */
  function Start(ss: seq<Section>, at: nat, k: nat): (a: nat)
    requires k <= |ss|
    ensures a >= at
  {
    if k == 0 then at else Start(ss[1..], at + 4 + |ss[0].body|, k - 1)
  }

  /** A section list in memory: its first category, its length, and the rest of the list behind its body. */
  lemma SectionHeld(b: Bytes, at: nat, ss: seq<Section>)
    requires ValidSections(ss) && Holds(b, at, Image(ss))
    ensures ss == [] ==> Word(b, at) == 0xffff
    ensures ss != [] ==>
      && Word(b, at) == ss[0].cat && Word(b, at + 2) == |ss[0].body| / 2 && Holds(b, at + 4, ss[0].body)
      && Holds(b, at + 4 + |ss[0].body|, Image(ss[1..])) && |Image(ss)| == 4 + |ss[0].body| + |Image(ss[1..])|
  {
    if ss == [] {
      WordHeld(b, at, 0xffff);
    } else {
      var s := ss[0];
      HoldsParts(b, at, s.Image(), Image(ss[1..]));
      HoldsParts(b, at, Le16(s.cat), Le16(|s.body| / 2) + s.body);
      HoldsParts(b, at + 2, Le16(|s.body| / 2), s.body);
      WordHeld(b, at, s.cat);
      WordHeld(b, at + 2, |s.body| / 2);
    }
  }

  /** The variables of the search: `a` is behind a category word, `p` is that category. */
  ghost predicate Searching(b: Bytes, ss: seq<Section>, cat: nat, rest: seq<Section>, a: nat, p: nat) {
    && ValidSections(rest) && a >= 2 && Holds(b, a - 2, Image(rest)) && a - 2 + |Image(rest)| < 0x8000
    && p == (if rest == [] then 0xffff else rest[0].cat)
    && |rest| <= |ss| && rest == ss[|ss| - |rest|..]
    && First(ss, cat) == |ss| - |rest| + First(rest, cat)
    && Start(ss, 2 * SII_START, First(ss, cat)) == Start(rest, a - 2, First(rest, cat))
  }

  /** The end of an image lies in the part of the address space that a signed 16-bit address reaches. */
  ghost predicate InMemory(b: Bytes, ss: seq<Section>) {
    ValidSections(ss) && Holds(b, 2 * SII_START, Image(ss)) && 2 * SII_START + |Image(ss)| < 0x8000
  }

  lemma SearchBegins(b: Bytes, ss: seq<Section>, cat: nat)
    requires InMemory(b, ss)
    ensures Searching(b, ss, cat, ss, 2 * SII_START + 2, Word(b, 2 * SII_START))
  {
    SectionHeld(b, 2 * SII_START, ss);
  }

  lemma SearchGoesOn(b: Bytes, ss: seq<Section>, cat: nat, rest: seq<Section>, a: nat, p: nat)
    requires Searching(b, ss, cat, rest, a, p) && p != cat && p != 0xffff
    ensures rest != [] && Word(b, a) == |rest[0].body| / 2
    ensures var a' := a + 2 + 2 * Word(b, a) + 2;
      a' < 0x8000 && Searching(b, ss, cat, rest[1..], a', Word(b, a' - 2))
  {
    hide Word, Holds;
    SectionHeld(b, a - 2, rest);
    SectionHeld(b, a + 2 + |rest[0].body|, rest[1..]);
  }

  lemma SearchEnds(b: Bytes, ss: seq<Section>, cat: nat, rest: seq<Section>, a: nat, p: nat)
    requires Searching(b, ss, cat, rest, a, p) && (p == cat || p == 0xffff) && cat < 0xffff
    ensures var k := First(ss, cat);
      if p == cat then k < |ss| && a == Start(ss, 2 * SII_START, k) + 2 else k == |ss|
  {
  }

  /** A signed 16-bit variable. */
  function Int16(x: int): int {
    if x % 65536 < 0x8000 then x % 65536 else x % 65536 - 65536
  }

  /** A word at a signed 16-bit address, which is read as an unsigned one. */
  function WordAt(b: Bytes, a: int): nat {
    var low: nat, high: nat := b(a % 65536), b((a + 1) % 65536);
    low + 256 * high
  }

  /** One turn of the search: from behind a category word to behind the next, and what category that is. */
  function SearchStep(b: Bytes, a: int): (int, nat) {
    var next := Int16(Int16(a + 2) + 2 * WordAt(b, a));
    (Int16(next + 2), WordAt(b, next))
  }

  /** In a well-formed list a turn leads from one section to the next. */
  lemma StepInMemory(b: Bytes, a: nat)
    requires a + 2 + 2 * Word(b, a) + 2 < 0x8000
    ensures var next := a + 2 + 2 * Word(b, a); SearchStep(b, a) == (next + 2, Word(b, next))
  {
    hide Int16, WordAt, Word;
    WordAtPositive(b, a);
    var next := a + 2 + 2 * Word(b, a);
    StaysPositive(a + 2);
    StaysPositive(next);
    StaysPositive(next + 2);
    WordAtPositive(b, next);
  }

  lemma WordAtPositive(b: Bytes, a: nat)
    requires a < 0x8000
    ensures WordAt(b, a) == Word(b, a)
  {
  }

  /** `ecx_siifind`: on a well-formed list of sections, the address of the length word of the first one of the
    * category, or zero. */
  method SiiFind(b: Bytes, cat: nat, ghost ss: seq<Section>) returns (a: nat)
    requires InMemory(b, ss) && cat < 0xffff
    ensures var k := First(ss, cat); a == if k < |ss| then Start(ss, 2 * SII_START, k) + 2 else 0
    ensures a > 0 ==> a > 128 && Holds16(b, a - 2, cat) && Leads(b, 128, a - 2, cat)
    ensures a == 0 ==> exists end :: Leads(b, 128, end, cat) && Holds16(b, end, 0xffff)
  {
    hide Word, Holds, Searching, InMemory, Image, First, Start, Int16, SearchStep, Leads, Holds16;
    a := SII_START * 2;
    ghost var rest := ss;
    SearchBegins(b, ss, cat);
    var p := Word(b, a);
    a := a + 2;
    while p != cat && p != 0xffff
      invariant Searching(b, ss, cat, rest, a, p)
      decreases |rest|
    {
      SearchGoesOn(b, ss, cat, rest, a, p);
      StepInMemory(b, a);
      ghost var step := SearchStep(b, a);
      p := Word(b, a);
      a := a + 2;
      StaysPositive(a + 2 * p);
      a := Int16(a + 2 * p);
      p := Word(b, a);
      a := a + 2;
      rest := rest[1..];
      assert (a as int, p) == step;
    }
    SearchEnds(b, ss, cat, rest, a, p);
    Led(b, ss, cat);
    if p != cat {
      a := 0;
    }
  }

  lemma Led(b: Bytes, ss: seq<Section>, cat: nat)
    requires InMemory(b, ss) && cat < 0xffff
    ensures var k := First(ss, cat);
      Leads(b, 128, Start(ss, 2 * SII_START, k), cat)
      && Holds16(b, Start(ss, 2 * SII_START, k), if k < |ss| then cat else 0xffff)
  {
    hide Holds, Image;
    StartLeads(b, 2 * SII_START, ss, cat);
  }

  lemma StaysPositive(x: int)
    ensures 0 <= x < 0x8000 ==> Int16(x) == x
  {
  }

  /** Where the first section of a category is, its length word and its body follow. */
  lemma {:induction false} FoundHeld(b: Bytes, at: nat, ss: seq<Section>, k: nat)
    requires ValidSections(ss) && k < |ss| && Holds(b, at, Image(ss))
    ensures var a := Start(ss, at, k);
      && Word(b, a + 2) == |ss[k].body| / 2 && Holds(b, a + 4, ss[k].body)
      && a + 4 + |ss[k].body| < at + |Image(ss)|
    decreases k
  {
    hide Word, Holds;
    SectionHeld(b, at, ss);
    if k > 0 {
      FoundHeld(b, at + 4 + |ss[0].body|, ss[1..], k - 1);
    }
  }

  /** The chain of sections leads to the first one of a category, or to the mark behind the last. */
  lemma {:induction false} StartLeads(b: Bytes, at: nat, ss: seq<Section>, cat: nat)
    requires ValidSections(ss) && Holds(b, at, Image(ss)) && cat < 0xffff
    ensures var k := First(ss, cat);
      Leads(b, at, Start(ss, at, k), cat) && Holds16(b, Start(ss, at, k), if k < |ss| then cat else 0xffff)
    decreases |ss|
  {
    hide Word, Holds;
    SectionHeld(b, at, ss);
    WordHolds(b, at, if ss == [] then 0xffff else ss[0].cat);
    if ss != [] && ss[0].cat != cat {
      WordHolds(b, at + 2, |ss[0].body| / 2);
      assert |ss[0].body| == 2 * (|ss[0].body| / 2);
      StartLeads(b, at + 4 + |ss[0].body|, ss[1..], cat);
    }
  }

  /** How far a section length moves the address. */
  function Stride(length: nat): nat {
    (4 + 2 * length) % 65536
  }

  /** A turn of the search takes the address forward exactly for a length that does not lead beyond the addresses of
    * sixteen bits and a sign, and leaves it where it is exactly for the lengths 0x7ffe and 0xfffe. */
  lemma StepAdvances(b: Bytes, a: int)
    requires 0 <= a < 0x8000
    ensures var a', stride := SearchStep(b, a).0, Stride(WordAt(b, a));
      && (a' > a <==> 0 < stride && a + stride < 0x8000)
      && (a' == a <==> WordAt(b, a) == 0x7ffe || WordAt(b, a) == 0xfffe)
  {
    var w := WordAt(b, a);
    WordBound(b, a);
    hide Int16, WordAt;
    StrideZero(w);
    Int16Twice(a + 2, 2 * w, 2);
    Int16Near(a, 4 + 2 * w);
    hide Stride;
  }

  lemma WordBound(b: Bytes, a: int)
    ensures WordAt(b, a) < 65536
  {
  }

  lemma Int16Twice(x: int, y: int, z: int)
    ensures Int16(Int16(Int16(x) + y) + z) == Int16(x + y + z)
  {
    Int16Sum(x, y);
    Int16Sum(Int16(x) + y, z);
    Int16Sum(x + y, z);
  }

  lemma Int16Sum(x: int, y: int)
    ensures Int16(Int16(x) + y) == Int16(x + y)
  {
  }

  lemma StrideZero(w: nat)
    requires w < 65536
    ensures Stride(w) == 0 <==> w == 0x7ffe || w == 0xfffe
  {
  }

  lemma Int16Near(a: int, s: nat)
    requires 0 <= a < 0x8000
    ensures var r := s % 65536; Int16(a + s) == if a + r < 0x8000 then a + r else a + r - 65536
  {
  }

  /** The search after `n` turns, unless it has ended before. */
  function Search(b: Bytes, cat: nat, a: int, p: nat, n: nat): (int, nat)
    decreases n
  {
    if n == 0 || p == cat || p == 0xffff then (a, p)
    else
      var (a', p') := SearchStep(b, a);
      Search(b, cat, a', p', n - 1)
  }

  /** A section of any other category whose length word is 0x7ffe: the search stays there for ever. */
  lemma {:induction false} SelfLoop(b: Bytes, cat: nat, a: int, n: nat)
    requires 2 <= a < 0x8000 && WordAt(b, a) == 0x7ffe
    requires WordAt(b, a - 2) != cat && WordAt(b, a - 2) != 0xffff
    ensures Search(b, cat, a, WordAt(b, a - 2), n) == (a, WordAt(b, a - 2))
    decreases n
  {
    if n > 0 {
      assert Int16(a + 2) + 2 * 0x7ffe == a - 2 || Int16(a + 2) + 2 * 0x7ffe == a - 2 + 65536;
      assert SearchStep(b, a) == (a, WordAt(b, a - 2));
      SelfLoop(b, cat, a, n - 1);
    }
  }

  // ---------- process data objects ----------

  /** An object: its index, the sync manager it belongs to, four bytes that do not matter here, and its entries of
    * eight bytes, the sixth of which is a bit length. */
  datatype Pdo = Pdo(index: nat, sync: Byte, flags: seq<Byte>, entries: seq<seq<Byte>>)
  {
    predicate Valid() {
      index < 65536 && |flags| == 4 && |entries| < 256 && forall k :: 0 <= k < |entries| ==> |entries[k]| == 8
    }

    function Image(): seq<Byte>
      requires Valid()
    {
      (Le16(index) + [|entries|, sync] + flags) + Flat(entries)
    }

    /** The bits of its entries. */
    function Bits(): nat
      requires Valid()
    {
      BitSum(entries)
    }

    function Words(): nat {
      4 + 4 * |entries|
    }
  }

  predicate Entries(es: seq<seq<Byte>>) {
    forall k :: 0 <= k < |es| ==> |es[k]| == 8
  }

  function Flat(es: seq<seq<Byte>>): (r: seq<Byte>)
    requires Entries(es)
    ensures |r| == 8 * |es|
  {
    if es == [] then [] else es[0] + Flat(es[1..])
  }

  function BitSum(es: seq<seq<Byte>>): nat
    requires Entries(es)
  {
    if es == [] then 0 else es[0][5] as nat + BitSum(es[1..])
  }

  predicate ValidPdos(ps: seq<Pdo>) {
    forall k :: 0 <= k < |ps| ==> ps[k].Valid()
  }

  function PdoImage(ps: seq<Pdo>): (r: seq<Byte>)
    requires ValidPdos(ps)
    ensures |r| == 2 * PdoWords(ps)
  {
    if ps == [] then [] else ps[0].Image() + PdoImage(ps[1..])
  }

  function PdoWords(ps: seq<Pdo>): nat {
    if ps == [] then 0 else ps[0].Words() + PdoWords(ps[1..])
  }

  /** The bits of all objects of a sync manager. */
  function SmBits(ps: seq<Pdo>, sm: nat): nat
    requires ValidPdos(ps)
  {
    if ps == [] then 0 else (if ps[0].sync == sm then ps[0].Bits() else 0) + SmBits(ps[1..], sm)
  }

  /** The bits of all objects of the sync managers below `n`. */
  function AllBits(ps: seq<Pdo>, n: nat): nat
    requires ValidPdos(ps)
  {
    if ps == [] then 0 else (if ps[0].sync < n then ps[0].Bits() else 0) + AllBits(ps[1..], n)
  }

  /** The sum over the first `n` sync managers. */
  function SmSum(ps: seq<Pdo>, n: nat): nat
    requires ValidPdos(ps)
  {
    if n == 0 then 0 else SmSum(ps, n - 1) + SmBits(ps, n - 1)
  }

  /** Counting by object and counting by sync manager comes to the same. */
  lemma {:induction false} SumsAgree(ps: seq<Pdo>, n: nat)
    requires ValidPdos(ps)
    ensures AllBits(ps, n) == SmSum(ps, n)
    decreases |ps|
  {
    if ps == [] {
      NoBits(n);
    } else {
      SumsAgree(ps[1..], n);
      SmSumStep(ps, n);
    }
  }

  lemma {:induction false} NoBits(n: nat)
    ensures SmSum([], n) == 0
  {
    if n > 0 {
      NoBits(n - 1);
    }
  }

  lemma {:induction false} SmSumStep(ps: seq<Pdo>, n: nat)
    requires ValidPdos(ps) && ps != []
    ensures SmSum(ps, n) == SmSum(ps[1..], n) + if ps[0].sync < n then ps[0].Bits() else 0
  {
    if n > 0 {
      SmSumStep(ps, n - 1);
    }
  }

  // ---------- sums over the objects so far ----------

  lemma {:induction false} PdoWordsAdd(ps: seq<Pdo>, p: Pdo)
    ensures PdoWords(ps + [p]) == PdoWords(ps) + p.Words()
  {
    if ps != [] {
      PdoWordsAdd(ps[1..], p);
      assert (ps + [p])[1..] == ps[1..] + [p];
    }
  }

  lemma {:induction false} SmBitsAdd(ps: seq<Pdo>, p: Pdo, sm: nat)
    requires ValidPdos(ps) && p.Valid()
    ensures ValidPdos(ps + [p]) && SmBits(ps + [p], sm) == SmBits(ps, sm) + if p.sync == sm then p.Bits() else 0
  {
    assert forall k :: 0 <= k < |ps + [p]| ==> (ps + [p])[k].Valid();
    if ps != [] {
      SmBitsAdd(ps[1..], p, sm);
      assert (ps + [p])[1..] == ps[1..] + [p];
    }
  }

  lemma {:induction false} AllBitsAdd(ps: seq<Pdo>, p: Pdo, n: nat)
    requires ValidPdos(ps) && p.Valid()
    ensures ValidPdos(ps + [p]) && AllBits(ps + [p], n) == AllBits(ps, n) + if p.sync < n then p.Bits() else 0
  {
    assert forall k :: 0 <= k < |ps + [p]| ==> (ps + [p])[k].Valid();
    if ps != [] {
      AllBitsAdd(ps[1..], p, n);
      assert (ps + [p])[1..] == ps[1..] + [p];
    }
  }

  // ---------- reading an object ----------

  /** An object in memory: its header, its entries, and what follows. */
  lemma PdoHeld(b: Bytes, at: nat, p: Pdo, behind: seq<Byte>)
    requires p.Valid() && Holds(b, at, p.Image() + behind)
    ensures Word(b, at) == p.index && b(at + 2) == |p.entries| && b(at + 3) == p.sync
    ensures Holds(b, at + 8, Flat(p.entries)) && Holds(b, at + 8 + 8 * |p.entries|, behind)
  {
    hide Holds, Flat, Word, Le16;
    var head, body := Le16(p.index) + [|p.entries|, p.sync] + p.flags, Flat(p.entries);
    assert p.Image() == head + body;
    HoldsParts(b, at, p.Image(), behind);
    HoldsParts(b, at, head, body);
    assert head == Le16(p.index) + ([|p.entries|, p.sync] + p.flags);
    HoldsParts(b, at, Le16(p.index), [|p.entries|, p.sync] + p.flags);
    WordHeld(b, at, p.index);
    TwoHeld(b, at + 2, |p.entries|, p.sync, p.flags);
  }

  lemma TwoHeld(b: Bytes, at: nat, x: Byte, y: Byte, behind: seq<Byte>)
    requires Holds(b, at, [x, y] + behind)
    ensures b(at) == x && b(at + 1) == y
  {
    assert b(at + 0) == ([x, y] + behind)[0] && b(at + 1) == ([x, y] + behind)[1];
  }

  lemma EntryHeld(b: Bytes, at: nat, es: seq<seq<Byte>>)
    requires Entries(es) && es != [] && Holds(b, at, Flat(es))
    ensures b(at + 5) == es[0][5] && Holds(b, at + 8, Flat(es[1..]))
    ensures BitSum(es) == es[0][5] as nat + BitSum(es[1..])
  {
    hide Holds, Flat, BitSum;
    EntryApart(es);
    HoldsParts(b, at, es[0], Flat(es[1..]));
    ByteHeld(b, at, es[0], 5);
  }

  lemma EntryApart(es: seq<seq<Byte>>)
    requires Entries(es) && es != []
    ensures Flat(es) == es[0] + Flat(es[1..]) && BitSum(es) == es[0][5] as nat + BitSum(es[1..])
  {
  }

  lemma ByteHeld(b: Bytes, at: nat, s: seq<Byte>, k: nat)
    requires Holds(b, at, s) && k < |s|
    ensures b(at + k) == s[k]
  {
  }

  /** The loop over the entries of an object; the sum has sixteen bits. */
  method ReadEntries(b: Bytes, start: nat, e: nat, ghost es: seq<seq<Byte>>) returns (bitSize: nat, a: nat)
    requires Entries(es) && e == |es| && Holds(b, start, Flat(es))
    ensures bitSize == BitSum(es) % 65536 && a == start + 8 * e
  {
    hide Flat, BitSum, Holds;
    bitSize, a := 0, start;
    var er := 1;
    ghost var rest := es;
    assert rest == es;
    while er <= e
      invariant 1 <= er <= e + 1 && |rest| == e + 1 - er && a == start + 8 * (er - 1)
      invariant Entries(rest) && Holds(b, a, Flat(rest)) && bitSize < 65536
      invariant (bitSize + BitSum(rest)) % 65536 == BitSum(es) % 65536
    {
      EntryHeld(b, a, rest);
      a := a + 5;
      var bits: nat := b(a);
      AddMod(bitSize + bits, BitSum(rest[1..]));
      bitSize := (bitSize + bits) % 65536;
      a := a + 1;
      a := a + 2;
      rest := rest[1..];
      er := er + 1;
    }
    NoEntries(rest);
  }

  lemma NoEntries(es: seq<seq<Byte>>)
    requires es == []
    ensures BitSum(es) == 0
  {
  }

  lemma AddMod(x: nat, y: nat)
    ensures (x % 65536 + y) % 65536 == (x + y) % 65536
  {
  }

  /** What is recorded of an object: its bit length is taken only if its sync manager is in range. */
  datatype Record = Record(index: nat, sync: nat, bitSize: nat)

  function Recorded(p: Pdo, maxsm: nat): Record
    requires p.Valid()
  {
    Record(p.index, p.sync, if p.sync < maxsm then p.Bits() % 65536 else 0)
  }

  /** The table of objects, the bit lengths by sync manager, and the total, all of sixteen bits. */
  datatype Table = Table(records: seq<Record>, smBits: seq<nat>, size: nat)

  /** The table is that of the objects `ps`. */
  ghost predicate TableOf(t: Table, ps: seq<Pdo>, maxsm: nat) {
    && ValidPdos(ps) && |t.records| == |ps| && |t.smBits| == maxsm
    && (forall k :: 0 <= k < |ps| ==> t.records[k] == Recorded(ps[k], maxsm))
    && (forall s :: 0 <= s < maxsm ==> t.smBits[s] == SmBits(ps, s) % 65536)
    && t.size == AllBits(ps, maxsm) % 65536
  }

  lemma TableGrows(t: Table, ps: seq<Pdo>, p: Pdo, maxsm: nat)
    requires TableOf(t, ps, maxsm) && p.Valid()
    ensures var r := Recorded(p, maxsm);
      TableOf(Table(t.records + [r],
                    if p.sync < maxsm then t.smBits[p.sync := (t.smBits[p.sync] + r.bitSize) % 65536] else t.smBits,
                    if p.sync < maxsm then (t.size + r.bitSize) % 65536 else t.size), ps + [p], maxsm)
  {
    hide SmBits, AllBits, BitSum;
    AllBitsAdd(ps, p, maxsm);
    AddMods(AllBits(ps, maxsm), p.Bits());
    forall s | 0 <= s < maxsm ensures SmBits(ps + [p], s) == SmBits(ps, s) + if p.sync == s then p.Bits() else 0 {
      SmBitsAdd(ps, p, s);
    }
    if p.sync < maxsm {
      AddMods(SmBits(ps, p.sync), p.Bits());
    }
  }

  lemma AddMods(x: nat, y: nat)
    ensures (x % 65536 + y % 65536) % 65536 == (x + y) % 65536
  {
  }

  /** The objects that are read: all, or as many as the table takes. */
  function Read(ps: seq<Pdo>, maxpdo: nat): seq<Pdo> {
    if |ps| <= maxpdo then ps else ps[..maxpdo]
  }

  /** The loop of `ecx_siiPDO` has read `done` objects and stands in front of `rest`. */
  ghost predicate Reading(b: Bytes, ps: seq<Pdo>, start: nat, done: seq<Pdo>, rest: seq<Pdo>, a: nat, c: nat) {
    && a == start + 2 * PdoWords(done)
    && ValidPdos(ps) && ps == done + rest && ValidPdos(rest) && Holds(b, a, PdoImage(rest))
    && c == 1 + PdoWords(done) && PdoWords(done) + PdoWords(rest) == PdoWords(ps)
  }

  lemma ReadingBegins(b: Bytes, ps: seq<Pdo>, a: nat)
    requires ValidPdos(ps) && Holds(b, a, PdoImage(ps))
    ensures Reading(b, ps, a, [], ps, a, 1)
  {
    assert [] + ps == ps;
  }

  lemma ReadingGoesOn(b: Bytes, ps: seq<Pdo>, start: nat, done: seq<Pdo>, rest: seq<Pdo>, a: nat, c: nat)
    requires Reading(b, ps, start, done, rest, a, c) && rest != []
    ensures rest[0].Valid() && Word(b, a) == rest[0].index && b(a + 2) == |rest[0].entries| && b(a + 3) == rest[0].sync
    ensures Holds(b, a + 8, Flat(rest[0].entries))
    ensures Reading(b, ps, start, done + [rest[0]], rest[1..], a + 8 + 8 * |rest[0].entries|,
                    c + 4 + 4 * |rest[0].entries|)
  {
    hide *;
    ReadingParts(b, ps, start, done, rest, a, c);
    PdoHeld(b, a, rest[0], PdoImage(rest[1..]));
    PdoWordsAdd(done, rest[0]);
    ReadingWhole(b, ps, start, done, rest, a, c);
  }

  lemma ReadingParts(b: Bytes, ps: seq<Pdo>, start: nat, done: seq<Pdo>, rest: seq<Pdo>, a: nat, c: nat)
    requires Reading(b, ps, start, done, rest, a, c) && rest != []
    ensures rest[0].Valid() && ValidPdos(rest[1..]) && Holds(b, a, rest[0].Image() + PdoImage(rest[1..]))
  {
    hide Holds;
  }

  lemma ReadingWhole(b: Bytes, ps: seq<Pdo>, start: nat, done: seq<Pdo>, rest: seq<Pdo>, a: nat, c: nat)
    requires Reading(b, ps, start, done, rest, a, c) && rest != [] && ValidPdos(rest[1..])
    requires PdoWords(done + [rest[0]]) == PdoWords(done) + rest[0].Words()
    requires Holds(b, a + 8 + 8 * |rest[0].entries|, PdoImage(rest[1..]))
    ensures var n := |rest[0].entries|;
      Reading(b, ps, start, done + [rest[0]], rest[1..], a + 8 + 8 * n, c + 4 + 4 * n)
  {
    hide Holds, PdoImage, ValidPdos;
    assert done + rest == done + [rest[0]] + rest[1..];
  }

  /** The condition of the loop says whether there is another object. */
  lemma ReadingEnds(b: Bytes, ps: seq<Pdo>, start: nat, done: seq<Pdo>, rest: seq<Pdo>, a: nat, c: nat)
    requires Reading(b, ps, start, done, rest, a, c)
    ensures c < PdoWords(ps) <==> rest != []
  {
  }

  lemma ReadDone(b: Bytes, ps: seq<Pdo>, start: nat, done: seq<Pdo>, rest: seq<Pdo>, a: nat, c: nat, maxpdo: nat)
    requires Reading(b, ps, start, done, rest, a, c) && |done| <= maxpdo && (rest == [] || |done| == maxpdo)
    ensures done == Read(ps, maxpdo) && a == start + 2 * PdoWords(done)
  {
    assert done == ps[..|done|];
  }

  lemma EmptyTable(t: Table, maxsm: nat)
    requires t == Table([], seq(maxsm, _ => 0), 0)
    ensures TableOf(t, [], maxsm)
  {
  }

  lemma BitsOf(p: Pdo, maxsm: nat)
    requires p.Valid()
    ensures Recorded(p, maxsm) == Record(p.index, p.sync, if p.sync < maxsm then BitSum(p.entries) % 65536 else 0)
  {
  }

  /** The loop of `ecx_siiPDO`, from behind the length word of a section with the objects `ps`; of an empty section one
    * object is read all the same. The table holds `maxpdo` objects. The last result is the address behind the last
    * object read. */
  method ReadPdos(b: Bytes, start: nat, length: nat, maxsm: nat, maxpdo: nat, ghost ps: seq<Pdo>)
      returns (t: Table, a: nat)
    requires maxpdo > 0 && ps != [] && ValidPdos(ps) && Holds(b, start, PdoImage(ps))
    requires length == PdoWords(ps) || (length == 0 && |ps| == 1)
    requires start + 2 * PdoWords(ps) < 65536
    ensures TableOf(t, Read(ps, maxpdo), maxsm) && a == start + 2 * PdoWords(Read(ps, maxpdo))
  {
    hide Holds, Reading, TableOf, PdoWords, ValidPdos, Word, Flat, PdoImage, Recorded, Pdo.Bits;
    t, a := Table([], seq(maxsm, _ => 0), 0), start;
    var c: nat := 1;
    ghost var done, rest := [], ps;
    var more := true;
    EmptyTable(t, maxsm);
    ReadingBegins(b, ps, a);
    while more
      invariant |t.records| == |done| && |done| + |rest| == |ps| && |done| <= maxpdo
      invariant more ==> rest != [] && |done| < maxpdo
      invariant Reading(b, ps, start, done, rest, a, c) && TableOf(t, done, maxsm) && |t.smBits| == maxsm
      invariant !more ==> rest == [] || |done| == maxpdo
      decreases |rest|, more
    {
      ghost var p := rest[0];
      ReadingGoesOn(b, ps, start, done, rest, a, c);
      TableGrows(t, done, p, maxsm);
      var index := Word(b, a);
      a := a + 2;
      c := c + 1;
      var e: nat := b(a);
      var sync: nat := b(a + 1);
      a := a + 2;
      a := a + 4;
      c := c + 2;
      if sync < maxsm {
        var bitSize;
        bitSize, a := ReadEntries(b, a, e, p.entries);
        c := c + 4 * e;
        BitsOf(p, maxsm);
        t := Table(t.records + [Record(index, sync, bitSize)],
                   t.smBits[sync := (t.smBits[sync] + bitSize) % 65536], (t.size + bitSize) % 65536);
        c := c + 1;
      } else {
        c := c + 4 * e;
        a := a + 8 * e;
        BitsOf(p, maxsm);
        t := Table(t.records + [Record(index, sync, 0)], t.smBits, t.size);
        c := c + 1;
      }
      done, rest := done + [p], rest[1..];
      ReadingEnds(b, ps, start, done, rest, a, c);
      more := |t.records| < maxpdo && c < length;
    }
    ReadDone(b, ps, start, done, rest, a, c, maxpdo);
  }

  /** The entries, and the object, that any bytes from an address on make. */
  function EntriesFrom(b: Bytes, at: nat, n: nat): (es: seq<seq<Byte>>)
    ensures |es| == n && Entries(es)
    decreases n
  {
    if n == 0 then [] else [seq(8, k requires 0 <= k < 8 => b(at + k))] + EntriesFrom(b, at + 8, n - 1)
  }

  function PdoFrom(b: Bytes, at: nat): Pdo {
    Pdo(Word(b, at), b(at + 3), seq(4, k requires 0 <= k < 4 => b(at + 4 + k)), EntriesFrom(b, at + 8, b(at + 2)))
  }

  lemma HoldsTogether(b: Bytes, at: nat, s: seq<Byte>, t: seq<Byte>)
    requires Holds(b, at, s) && Holds(b, at + |s|, t)
    ensures Holds(b, at, s + t)
  {
    forall k | 0 <= k < |s + t| ensures b(at + k) == (s + t)[k] {
      if k >= |s| {
        assert b(at + |s| + (k - |s|)) == t[k - |s|];
      }
    }
  }

  lemma {:induction false} EntriesFromHeld(b: Bytes, at: nat, n: nat)
    ensures Holds(b, at, Flat(EntriesFrom(b, at, n)))
    decreases n
  {
    if n > 0 {
      var es := EntriesFrom(b, at, n);
      EntriesFromHeld(b, at + 8, n - 1);
      assert es[1..] == EntriesFrom(b, at + 8, n - 1);
      HoldsTogether(b, at, es[0], Flat(es[1..]));
    }
  }

  lemma PdoFromHeld(b: Bytes, at: nat)
    ensures PdoFrom(b, at).Valid() && ValidPdos([PdoFrom(b, at)]) && PdoWords([PdoFrom(b, at)]) <= 1024
    ensures Holds(b, at, PdoImage([PdoFrom(b, at)]))
  {
    var p := PdoFrom(b, at);
    EntriesFromHeld(b, at + 8, b(at + 2));
    assert Holds(b, at, Le16(p.index));
    assert Holds(b, at + 2, [|p.entries|, p.sync]);
    HoldsTogether(b, at, Le16(p.index), [|p.entries|, p.sync]);
    HoldsTogether(b, at, Le16(p.index) + [|p.entries|, p.sync], p.flags);
    HoldsTogether(b, at, Le16(p.index) + [|p.entries|, p.sync] + p.flags, Flat(p.entries));
    OnePdo(p);
  }

  lemma OnePdo(p: Pdo)
    requires p.Valid()
    ensures ValidPdos([p]) && PdoImage([p]) == p.Image() && PdoWords([p]) == p.Words()
  {
    assert [p][1..] == [];
  }

  /** The objects that are read from a section with the objects `ps`. */
  function Objects(b: Bytes, at: nat, ps: seq<Pdo>): seq<Pdo> {
    if ps == [] then [PdoFrom(b, at)] else ps
  }

  /** The records are what the bytes in memory say. */
  lemma {:induction false} RecordsListed(b: Bytes, at: nat, ps: seq<Pdo>, rs: seq<Record>, maxsm: nat)
    requires ValidPdos(ps) && Holds(b, at, PdoImage(ps)) && |rs| <= |ps|
    requires forall k :: 0 <= k < |rs| ==> rs[k] == Recorded(ps[k], maxsm)
    ensures Listed(b, at, rs, maxsm)
    decreases |rs|
  {
    hide Holds, Word, Pdo.Image, Flat, Recorded, Holds16, EntryBits;
    if rs != [] {
      var p := ps[0];
      PdoHeld(b, at, p, PdoImage(ps[1..]));
      WordHolds(b, at, p.index);
      EntryBitsHeld(b, at + 8, p.entries);
      BitsOf(p, maxsm);
      RecordsListed(b, at + 8 + 8 * |p.entries|, ps[1..], rs[1..], maxsm);
    }
  }

  lemma {:induction false} EntryBitsHeld(b: Bytes, at: nat, es: seq<seq<Byte>>)
    requires Entries(es) && Holds(b, at, Flat(es))
    ensures EntryBits(b, at, |es|) == BitSum(es)
    decreases |es|
  {
    hide Holds, Flat;
    if es != [] {
      EntryHeld(b, at, es);
      EntryBitsHeld(b, at + 8, es[1..]);
    }
  }

  /** And the bits of a sync manager are the sum of those recorded for it. */
  lemma TableListed(b: Bytes, at: nat, t: Table, ps: seq<Pdo>, maxpdo: nat, maxsm: nat)
    requires ValidPdos(ps) && Holds(b, at, PdoImage(ps)) && TableOf(t, Read(ps, maxpdo), maxsm)
    ensures Listed(b, at, t.records, maxsm) && |t.smBits| == maxsm
    ensures forall s :: 0 <= s < maxsm ==> t.smBits[s] == Lengths(t.records, s) % 65536
  {
    hide Holds, PdoImage, Listed, Recorded, Lengths, SmBits;
    RecordsListed(b, at, ps, t.records, maxsm);
    forall s | 0 <= s < maxsm ensures t.smBits[s] == Lengths(t.records, s) % 65536 {
      LengthsAdd(t.records, Read(ps, maxpdo), s, maxsm);
    }
  }

  lemma {:induction false} LengthsAdd(rs: seq<Record>, ps: seq<Pdo>, sm: nat, maxsm: nat)
    requires ValidPdos(ps) && |rs| == |ps| && sm < maxsm
    requires forall k :: 0 <= k < |rs| ==> rs[k] == Recorded(ps[k], maxsm)
    ensures Lengths(rs, sm) % 65536 == SmBits(ps, sm) % 65536
    decreases |rs|
  {
    hide Pdo.Bits;
    if rs != [] {
      LengthsAdd(rs[1..], ps[1..], sm, maxsm);
      AddMods(rs[0].bitSize, Lengths(rs[1..], sm));
      AddMods(ps[0].Bits(), SmBits(ps[1..], sm));
    }
  }

  /** `ecx_siiPDO` on a well-formed list of sections, the one looked for, if there is one, being that of the objects
    * `ps`: every object is recorded once and in order, up to the limit of the table. Of an empty section, what stands
    * behind it is taken for an object. */
  method SiiPDO(b: Bytes, t: nat, maxsm: nat, maxpdo: nat, ghost ss: seq<Section>, ghost ps: seq<Pdo>)
      returns (startpos: nat, length: nat, table: Table)
    requires InMemory(b, ss) && maxpdo > 0
    requires var k := First(ss, SII_PDO + if t > 1 then 1 else t);
      k < |ss| ==> ValidPdos(ps) && ss[k].body == PdoImage(ps)
    ensures var k := First(ss, SII_PDO + if t > 1 then 1 else t);
      if k < |ss| then
        && startpos == Start(ss, 2 * SII_START, k) + 2 && length == |ss[k].body| / 2
        && TableOf(table, Read(Objects(b, startpos + 2, ps), maxpdo), maxsm)
      else startpos == 0 && length == 0 && TableOf(table, [], maxsm)
    ensures startpos > 0 ==>
      && startpos > 128 && Holds16(b, startpos - 2, if t == 0 then 50 else 51)
      && Listed(b, startpos + 2, table.records, maxsm) && |table.smBits| == maxsm
      && forall s :: 0 <= s < maxsm ==> table.smBits[s] == Lengths(table.records, s) % 65536
  {
    hide Leads, Holds16, Listed, Lengths;
    hide Holds, Image, First, Start, Word, TableOf, PdoImage, ValidPdos, PdoWords, PdoFrom;
    var cat := SII_PDO + if t > 1 then 1 else t;
    startpos := SiiFind(b, cat, ss);
    length, table := 0, Table([], seq(maxsm, _ => 0), 0);
    EmptyTable(table, maxsm);
    if startpos > 0 {
      ghost var k := First(ss, cat);
      FoundHeld(b, 2 * SII_START, ss, k);
      NoObjects(ps);
      PdoFromHeld(b, startpos + 2);
      length := Word(b, startpos);
      var a;
      table, a := ReadPdos(b, startpos + 2, length, maxsm, maxpdo, Objects(b, startpos + 2, ps));
      TableListed(b, startpos + 2, table, Objects(b, startpos + 2, ps), maxpdo, maxsm);
    }
  }

  lemma NoObjects(ps: seq<Pdo>)
    ensures ps == [] ==> PdoWords(ps) == 0
  {
  }

  /** The size returned is the sum of the sizes by sync manager, in sixteen bits. */
  lemma SizeIsSum(t: Table, ps: seq<Pdo>, maxsm: nat)
    requires TableOf(t, ps, maxsm)
    ensures t.size == Sum(t.smBits) % 65536
  {
    SumsAgree(ps, maxsm);
    SumsMod(t.smBits, ps, maxsm);
  }

  lemma {:induction false} SumsMod(xs: seq<nat>, ps: seq<Pdo>, n: nat)
    requires ValidPdos(ps) && |xs| == n && forall s :: 0 <= s < n ==> xs[s] == SmBits(ps, s) % 65536
    ensures Sum(xs) % 65536 == SmSum(ps, n) % 65536
    decreases n
  {
    if n > 0 {
      SumsMod(xs[..n - 1], ps, n - 1);
      AddMods(Sum(xs[..n - 1]), xs[n - 1]);
      AddMods(SmSum(ps, n - 1), SmBits(ps, n - 1));
    }
  }
}
