/** Building frames of several datagrams in place, and finding one's way in what comes back. Datagrams are
  * described in section 5.4 of ETG.1000.4. */
module Datagrams {
  import opened Basics

  const ETH_HEADER := 14
  const FRAME_TYPE := 0x1000
  const FOLLOWS := 0x8000
  const FPRD := 4
  const ALSTAT := 0x0130

  function Word(s: seq<Byte>, at: nat): (w: nat)
    requires at + 2 <= |s|
    ensures w < 65536
  {
    Join16(s[at], s[at + 1])
  }

  lemma WordRoundTrip(s: seq<Byte>, at: nat, x: nat)
    requires at + 2 <= |s| && x < 65536 && s[at..at + 2] == Le16(x)
    ensures Word(s, at) == x
  {
    assert s[at] == s[at..at + 2][0] && s[at + 1] == s[at..at + 2][1];
    Join16Parts(x);
  }

  /** A datagram; `irpt` is a field that the master does not use, `wkc` the working counter. */
  datatype Datagram = Datagram(command: Byte, index: Byte, adp: nat, ado: nat, follows: bool, irpt: nat,
                               data: seq<Byte>, wkc: nat)
  {
    predicate Valid() {
      adp < 65536 && ado < 65536 && irpt < 65536 && wkc < 65536 && |data| < 2048
    }

    function Length(): nat {
      |data| + if follows then FOLLOWS else 0
    }

    function Header(): (r: seq<Byte>)
      ensures |r| == 6
    {
      [command, index] + Le16(adp) + Le16(ado)
    }

    function Rest(): (r: seq<Byte>)
      ensures |r| == 4 + |data|
    {
      Le16(irpt) + data + Le16(wkc)
    }

    function Image(): (r: seq<Byte>)
      ensures |r| == 12 + |data|
    {
      Header() + Le16(Length()) + Rest()
    }
  }

  predicate ValidAll(ds: seq<Datagram>) {
    forall k :: 0 <= k < |ds| ==> ds[k].Valid()
  }

  function Flat(ds: seq<Datagram>): (r: seq<Byte>)
    ensures |r| == Total(ds)
  {
    if ds == [] then [] else ds[0].Image() + Flat(ds[1..])
  }

  /** Length of the datagrams. */
  function Total(ds: seq<Datagram>): nat {
    if ds == [] then 0 else 12 + |ds[0].data| + Total(ds[1..])
  }

  /** A frame as it is received: without its Ethernet header. */
  function Frame(ds: seq<Datagram>): (r: seq<Byte>)
    ensures |r| == 2 + Total(ds)
  {
    Le16(FRAME_TYPE + Total(ds)) + Flat(ds)
  }

  // ---------- taking a frame apart ----------

  /** The datagram at an offset. */
  function DatagramAt(s: seq<Byte>, at: nat): (d: Datagram)
    requires at + 12 <= |s| && at + 12 + Word(s, at + 6) % 2048 <= |s|
  {
    var n := Word(s, at + 6) % 2048;
    Datagram(s[at], s[at + 1], Word(s, at + 2), Word(s, at + 4), Word(s, at + 6) / FOLLOWS == 1, Word(s, at + 8),
             s[at + 10..at + 10 + n], Word(s, at + 10 + n))
  }

  /** The datagrams from an offset on, up to the first that is not followed by another; none if the frame ends
    * before. */
  function Parse(s: seq<Byte>, at: nat): seq<Datagram>
    decreases |s| - at
  {
    if at + 12 > |s| || at + 12 + Word(s, at + 6) % 2048 > |s| then []
    else
      var d := DatagramAt(s, at);
      [d] + if d.follows then Parse(s, at + 12 + |d.data|) else []
  }

  /** Every datagram but the last says that another follows. */
  predicate Chained(ds: seq<Datagram>) {
    forall k :: 0 <= k < |ds| ==> (ds[k].follows <==> k < |ds| - 1)
  }

  /** Where the fields of a datagram are. */
  lemma Fields(d: Datagram)
    ensures var t, n := d.Image(), |d.data|;
      && t[0] == d.command && t[1] == d.index && t[2..4] == Le16(d.adp) && t[4..6] == Le16(d.ado)
      && t[6..8] == Le16(d.Length()) && t[8..] == d.Rest()
      && t[8..10] == Le16(d.irpt) && t[10..10 + n] == d.data && t[10 + n..12 + n] == Le16(d.wkc)
  {
    var t, n := d.Image(), |d.data|;
    var r := d.Rest();
    hide Le16, Datagram.Length, Datagram.Image;
    assert t == d.Header() + Le16(d.Length()) + r by {
      Whole(d);
    }
    assert t[8..] == r;
    assert t[8..10] == r[0..2] && t[10..10 + n] == r[2..2 + n] && t[10 + n..12 + n] == r[2 + n..4 + n];
  }

  lemma Whole(d: Datagram)
    ensures d.Image() == d.Header() + Le16(d.Length()) + d.Rest()
  {
  }

  lemma Slice(s: seq<Byte>, at: nat, n: nat, i: nat, j: nat)
    requires at + n <= |s| && i <= j <= n
    ensures s[at..at + n][i..j] == s[at + i..at + j]
  {
    var t, u := s[at..at + n][i..j], s[at + i..at + j];
    forall k | 0 <= k < |t| ensures t[k] == u[k] {
    }
  }

  lemma DatagramHeld(s: seq<Byte>, at: nat, d: Datagram)
    requires d.Valid() && at + 12 + |d.data| <= |s| && s[at..at + 12 + |d.data|] == d.Image()
    ensures Word(s, at + 6) % 2048 == |d.data| && DatagramAt(s, at) == d
  {
    hide Le16, Word, Datagram.Image, Datagram.Header, Datagram.Rest;
    var n := |d.data|;
    var t := s[at..at + 12 + n];
    Fields(d);
    assert s[at] == t[0] && s[at + 1] == t[1];
    Slice(s, at, 12 + n, 2, 4);
    Slice(s, at, 12 + n, 4, 6);
    Slice(s, at, 12 + n, 6, 8);
    Slice(s, at, 12 + n, 8, 10);
    Slice(s, at, 12 + n, 10, 10 + n);
    Slice(s, at, 12 + n, 10 + n, 12 + n);
    WordRoundTrip(s, at + 2, d.adp);
    WordRoundTrip(s, at + 4, d.ado);
    WordRoundTrip(s, at + 6, d.Length());
    WordRoundTrip(s, at + 8, d.irpt);
    WordRoundTrip(s, at + 10 + n, d.wkc);
  }

  lemma {:induction false} ParseFlat(s: seq<Byte>, at: nat, ds: seq<Datagram>)
    requires ValidAll(ds) && Chained(ds) && ds != [] && at <= |s| && s[at..] == Flat(ds)
    ensures Parse(s, at) == ds
    decreases |ds|
  {
    hide DatagramAt, Word;
    var d, n := ds[0], 12 + |ds[0].data|;
    assert s[at..at + n] == s[at..][..n] == d.Image();
    DatagramHeld(s, at, d);
    if |ds| > 1 {
      assert s[at + n..] == s[at..][n..] == Flat(ds[1..]);
      ParseFlat(s, at + n, ds[1..]);
    }
  }

  /** A frame whose datagrams are chained properly is taken apart into exactly these. */
  lemma FrameRoundTrip(ds: seq<Datagram>)
    requires ValidAll(ds) && Chained(ds) && ds != []
    ensures Parse(Frame(ds), 2) == ds
  {
    assert Frame(ds)[2..] == Flat(ds);
    ParseFlat(Frame(ds), 2, ds);
  }

  /** Where the data of the `k`-th datagram is. */
  lemma {:induction false} DataPlace(ds: seq<Datagram>, k: nat)
    requires k < |ds|
    ensures Total(ds[..k]) + 12 + |ds[k].data| <= Total(ds)
    ensures Flat(ds)[Total(ds[..k])..][10..10 + |ds[k].data|] == ds[k].data
    decreases k
  {
    hide Datagram.Header;
    if k > 0 {
      DataPlace(ds[1..], k - 1);
      assert ds[1..][..k - 1] == ds[..k][1..];
      assert Flat(ds)[Total(ds[..k])..] == Flat(ds[1..])[Total(ds[1..][..k - 1])..];
    } else {
      assert Flat(ds)[10..10 + |ds[0].data|] == ds[0].Rest()[2..2 + |ds[0].data|];
    }
  }

  /** The length field says where the last working counter is. */
  lemma {:induction false} LastCounter(ds: seq<Datagram>)
    requires ds != [] && ds[|ds| - 1].Valid()
    ensures Total(ds) >= 12 && Flat(ds)[Total(ds) - 2..] == Le16(ds[|ds| - 1].wkc)
    decreases |ds|
  {
    if |ds| > 1 {
      LastCounter(ds[1..]);
      assert Flat(ds)[Total(ds) - 2..] == Flat(ds[1..])[Total(ds[1..]) - 2..];
    } else {
      assert Flat(ds) == ds[0].Image();
      assert ds[0].Image()[Total(ds) - 2..] == ds[0].Rest()[2 + |ds[0].data|..];
    }
  }

  lemma CounterLocated(ds: seq<Datagram>)
    requires ds != [] && ds[|ds| - 1].Valid() && Total(ds) < 0x1000
    ensures var f := Frame(ds); var l := Word(f, 0) % 0x1000;
      && l + 2 == |f| && Word(f, l) == ds[|ds| - 1].wkc
  {
    hide Le16, Word, Flat, Total;
    var f := Frame(ds);
    assert f[0..2] == Le16(FRAME_TYPE + Total(ds));
    WordRoundTrip(f, 0, FRAME_TYPE + Total(ds));
    LastCounter(ds);
    assert f[Total(ds)..Total(ds) + 2] == Flat(ds)[Total(ds) - 2..];
    WordRoundTrip(f, Total(ds), ds[|ds| - 1].wkc);
  }

  // ---------- on the wire ----------

  /** Two bytes hold a number, the lower byte first. */
  predicate Holds16(f: seq<Byte>, at: nat, x: int) {
    at + 2 <= |f| && var low: nat, high: nat := f[at], f[at + 1]; low + 256 * high == x
  }

  predicate AllZero(s: seq<Byte>) {
    forall k :: 0 <= k < |s| ==> s[k] == 0
  }

  /** The bytes of a datagram at an offset, as they go over the wire (section 5.4.1.2 of ETG.1000.4): command, index,
    * address, offset, length with the flag for another one to follow, data and a working counter of zero. Commands that
    * only read (NOP, APRD, FPRD, BRD and LRD) carry zeros. */
  ghost predicate OnWire(f: seq<Byte>, at: nat, command: nat, index: nat, adp: nat, ado: nat, follows: bool,
                         data: seq<Byte>)
  {
    var n := |data|;
    && at + 12 + n <= |f| && f[at] == command && f[at + 1] == index
    && Holds16(f, at + 2, adp) && Holds16(f, at + 4, ado) && Holds16(f, at + 6, n + if follows then 0x8000 else 0)
    && (if command in {0, 1, 4, 7, 10} then AllZero(f[at + 10..at + 10 + n]) else f[at + 10..at + 10 + n] == data)
    && f[at + 10 + n] == 0 && f[at + 11 + n] == 0
  }

  lemma ImageOnWire(d: Datagram, f: seq<Byte>, at: nat, data: seq<Byte>)
    requires d.Valid() && d.wkc == 0 && d.data == Initial(d.command, data)
    requires at + |d.Image()| <= |f| && f[at..at + |d.Image()|] == d.Image()
    ensures OnWire(f, at, d.command, d.index, d.adp, d.ado, d.follows, data)
  {
    Fields(d);
    ImageLength(d);
    InitialIs(d.command, data);
    var t, n := d.Image(), |d.data|;
    hide Datagram.Image, Datagram.Header, Datagram.Rest, Initial, Le16, Holds16;
    assert f[at] == f[at..at + |t|][0] && f[at + 1] == f[at..at + |t|][1];
    Slice(f, at, |t|, 2, 4);
    Slice(f, at, |t|, 4, 6);
    Slice(f, at, |t|, 6, 8);
    Slice(f, at, |t|, 10 + n, 12 + n);
    HeldLe16(f, at + 2, d.adp);
    HeldLe16(f, at + 4, d.ado);
    HeldLe16(f, at + 6, d.Length());
    HeldLe16(f, at + 10 + n, 0);
    NothingHeld16(f, at + 10 + n);
    Slice(f, at, |t|, 10, 10 + n);
  }

  lemma NothingHeld16(f: seq<Byte>, at: nat)
    requires Holds16(f, at, 0)
    ensures f[at] == 0 && f[at + 1] == 0
  {
  }

  lemma InitialIs(command: Byte, data: seq<Byte>)
    ensures if command in {0, 1, 4, 7, 10} then AllZero(Initial(command, data)) else Initial(command, data) == data
  {
  }

  lemma FirstOnWire(d: Datagram, data: seq<Byte>)
    requires d.Valid() && d.wkc == 0 && d.data == Initial(d.command, data)
    ensures var f := Frame([d]);
      && |f| == 14 + |data| && Holds16(f, 0, 0x1000 + 12 + |data|)
      && OnWire(f, 2, d.command, d.index, d.adp, d.ado, d.follows, data)
  {
    OneDatagram(d);
    var f := Frame([d]);
    hide Datagram.Image, Frame, OnWire, Initial;
    ImageLength(d);
    assert f[2..2 + |d.Image()|] == d.Image();
    hide Le16;
    HeldLe16(f, 0, 0x1000 + 12 + |data|);
    ImageOnWire(d, f, 2, data);
  }

  lemma HeldLe16(f: seq<Byte>, at: nat, x: nat)
    requires at + 2 <= |f| && f[at..at + 2] == Le16(x) && x < 65536
    ensures Holds16(f, at, x)
  {
    assert f[at] == f[at..at + 2][0] && f[at + 1] == f[at..at + 2][1];
  }

  // ---------- appending ----------

  lemma {:induction false} FlatAdd(ds: seq<Datagram>, d: Datagram)
    ensures Flat(ds + [d]) == Flat(ds) + d.Image() && Total(ds + [d]) == Total(ds) + 12 + |d.data|
    decreases |ds|
  {
    hide Datagram.Image;
    if ds == [] {
      assert [d][1..] == [];
    } else {
      FlatAdd(ds[1..], d);
      assert (ds + [d])[1..] == ds[1..] + [d];
    }
  }

  /** Adding a datagram marks the first one, and only that, as followed. */
  function Marked(ds: seq<Datagram>): seq<Datagram>
    requires ds != []
  {
    ds[0 := ds[0].(follows := true)]
  }

  /** What a datagram carries at first: nothing if it reads. */
  function Initial(command: Byte, data: seq<Byte>): (r: seq<Byte>)
    ensures |r| == |data|
  {
    if command in {0, 1, 4, 7, 10} then seq(|data|, _ => 0) else data
  }

  lemma FrameApart(ds: seq<Datagram>)
    requires ds != []
    ensures var f, d := Frame(ds), ds[0];
      && |f| >= 14 && f[0..2] == Le16(FRAME_TYPE + Total(ds)) && f[2..8] == d.Header() && f[8..10] == Le16(d.Length())
      && f[10..] == d.Rest() + Flat(ds[1..])
  {
    var d := ds[0];
    Whole(d);
    FrameWhole(ds);
    hide *;
    Parts(Le16(FRAME_TYPE + Total(ds)), d.Header(), Le16(d.Length()), d.Rest() + Flat(ds[1..]));
  }

  lemma FrameWhole(ds: seq<Datagram>)
    requires ds != [] && ds[0].Image() == ds[0].Header() + Le16(ds[0].Length()) + ds[0].Rest()
    ensures Frame(ds) == Le16(FRAME_TYPE + Total(ds)) + ds[0].Header() + Le16(ds[0].Length())
      + (ds[0].Rest() + Flat(ds[1..]))
  {
    hide Le16, Datagram.Image, Datagram.Header, Datagram.Rest;
    var d := ds[0];
    var h, l, r, t := d.Header(), Le16(d.Length()), d.Rest(), Flat(ds[1..]);
    assert Flat(ds) == h + l + r + t == h + l + (r + t);
  }

  lemma Parts(e: seq<Byte>, h: seq<Byte>, l: seq<Byte>, r: seq<Byte>)
    requires |e| == |l| == 2 && |h| == 6
    ensures var f := e + h + l + r; f[0..2] == e && f[2..8] == h && f[8..10] == l && f[10..] == r
  {
  }

  /** The frame with one more datagram: three places change, and the new one is behind the others. */
  lemma FrameAdd(ds: seq<Datagram>, d: Datagram)
    requires ds != []
    ensures var old', f := Frame(ds), Frame(Marked(ds) + [d]);
      && |old'| >= 14
      && f == Le16(FRAME_TYPE + Total(ds) + 12 + |d.data|) + old'[2..8] + Le16(ds[0].(follows := true).Length())
              + old'[10..] + d.Image()
  {
    hide *;
    var ms := Marked(ds);
    MarkedSame(ds);
    FlatAdd(ms, d);
    FrameApart(ds);
    FrameApart(ms);
    FrameAppend(ms, d);
    SameElse(ds[0]);
  }

  lemma MarkedSame(ds: seq<Datagram>)
    requires ds != []
    ensures Marked(ds) != [] && Marked(ds)[0] == ds[0].(follows := true) && Marked(ds)[1..] == ds[1..]
    ensures Total(Marked(ds)) == Total(ds) >= 12
  {
  }

  lemma FrameAppend(ds: seq<Datagram>, d: Datagram)
    requires ds != [] && Flat(ds + [d]) == Flat(ds) + d.Image()
    ensures Frame(ds + [d]) == Le16(FRAME_TYPE + Total(ds + [d])) + Frame(ds)[2..8] + Frame(ds)[8..10] + Frame(ds)[10..]
      + d.Image()
  {
    hide Datagram.Image, Le16, Flat;
    Behind(Le16(FRAME_TYPE + Total(ds)), Flat(ds), Le16(FRAME_TYPE + Total(ds + [d])), d.Image());
  }

  lemma Behind(e: seq<Byte>, s: seq<Byte>, e': seq<Byte>, t: seq<Byte>)
    requires |e| == 2 && |s| >= 12
    ensures var f := e + s; e' + (s + t) == e' + f[2..8] + f[8..10] + f[10..] + t
  {
    var f := e + s;
    assert s == f[2..] == f[2..8] + f[8..10] + f[10..];
  }

  lemma SameElse(d: Datagram)
    ensures d.(follows := true).Header() == d.Header() && d.(follows := true).Rest() == d.Rest()
  {
  }

  /** Of what was there, only the length field of the frame, its first two bytes, and the flag for another datagram have
    * changed: the highest bit of the length field of the first datagram, at bytes 8 and 9. */
  ghost predicate Followed(f: seq<Byte>, before: seq<Byte>) {
    && 14 <= |before| <= |f|
    && f[8] == before[8] && f[9] == before[9] % 128 + 128
    && forall i :: 2 <= i < |before| && i != 8 && i != 9 ==> f[i] == before[i]
  }

  /** What changes on the wire. */
  lemma AddedOnWire(ds: seq<Datagram>, d: Datagram, data: seq<Byte>)
    requires ds != [] && ValidAll(ds) && d.Valid() && d.wkc == 0 && d.data == Initial(d.command, data)
    requires Total(ds) + 12 + |data| < 0x1000
    ensures var f, before := Frame(Marked(ds) + [d]), Frame(ds);
      && |before| == 2 + Total(ds) && |f| == |before| + 12 + |data| && Holds16(f, 0, 0x1000 + |f| - 2)
      && OnWire(f, |before|, d.command, d.index, d.adp, d.ado, d.follows, data)
      && Followed(f, before)
  {
    hide *;
    AddedParts(ds, d, Marked(ds));
    LastOnWire(Frame(Marked(ds) + [d]), Total(ds), d, data);
  }

  lemma LastOnWire(f: seq<Byte>, total: nat, d: Datagram, data: seq<Byte>)
    requires d.Valid() && d.wkc == 0 && d.data == Initial(d.command, data) && total + 12 + |data| < 0x1000
    requires |f| == 2 + total + 12 + |data| && |d.Image()| == 12 + |data|
    requires f[0..2] == Le16(FRAME_TYPE + total + 12 + |data|) && f[2 + total..2 + total + |d.Image()|] == d.Image()
    ensures Holds16(f, 0, 0x1000 + |f| - 2)
    ensures OnWire(f, 2 + total, d.command, d.index, d.adp, d.ado, d.follows, data)
  {
    hide Datagram.Image, Datagram.Valid, Initial, Le16, Holds16, OnWire;
    HeldLe16(f, 0, FRAME_TYPE + total + 12 + |data|);
    ImageOnWire(d, f, 2 + total, data);
  }

  lemma AddedParts(ds: seq<Datagram>, d: Datagram, marked: seq<Datagram>)
    requires ds != [] && ValidAll(ds) && d.Valid() && Total(ds) + 12 + |d.data| < 0x1000 && marked == Marked(ds)
    ensures var f, before, n := Frame(marked + [d]), Frame(ds), |d.Image()|;
      && |before| == 2 + Total(ds) && n == 12 + |d.data| && |f| == |before| + n
      && f[0..2] == Le16(FRAME_TYPE + Total(ds) + 12 + |d.data|) && f[|before|..|before| + n] == d.Image()
      && Followed(f, before)
  {
    hide Frame, Datagram.Image, Datagram.Valid, Le16, Flat, Marked, Total, ValidAll, Followed;
    FrameAdd(ds, d);
    FrameApart(ds);
    FirstValid(ds);
    LengthFlag(ds[0]);
    ImageLength(d);
    var f, before := Frame(marked + [d]), Frame(ds);
    var e, l := Le16(FRAME_TYPE + Total(ds) + 12 + |d.data|), Le16(ds[0].(follows := true).Length());
    assert before[8] == before[8..10][0] && before[9] == before[8..10][1];
    Rebuilt(e, before, l, d.Image());
  }

  lemma FirstValid(ds: seq<Datagram>)
    requires ds != [] && ValidAll(ds)
    ensures ds[0].Valid()
  {
  }

  lemma Rebuilt(e: seq<Byte>, s: seq<Byte>, l: seq<Byte>, d: seq<Byte>)
    requires |e| == |l| == 2 && |s| >= 14
    ensures var f := e + s[2..8] + l + s[10..] + d;
      && |f| == |s| + |d| && f[0..2] == e && f[|s|..|s| + |d|] == d
      && (l[0] == s[8] && l[1] == s[9] % 128 + 128 ==> Followed(f, s))
  {
  }

  /** The flag is the highest bit of the length field. */
  lemma LengthFlag(d: Datagram)
    requires d.Valid()
    ensures var l, l' := Le16(d.Length()), Le16(d.(follows := true).Length());
      l'[0] == l[0] && l'[1] == l[1] % 128 + 128
  {
    HighBit(|d.data|);
    hide Le16;
  }

  lemma HighBit(n: nat)
    requires n < FOLLOWS
    ensures Le16(n)[1] < 128 && Le16(n + FOLLOWS)[0] == Le16(n)[0] && Le16(n + FOLLOWS)[1] == Le16(n)[1] + 128
  {
    assert n + FOLLOWS == 256 * (n / 256 + 128) + n % 256;
  }

  // ---------- the frame buffer ----------

  /** What is in front of `n + |d|` after the two length fields are written and `d` is put behind. */
  lemma Edited(s: seq<Byte>, n: nat, e: seq<Byte>, l: seq<Byte>, d: seq<Byte>)
    requires |e| == |l| == 2 && ETH_HEADER + 10 <= n && n + |d| <= |s|
    ensures var r := Overwrite(Overwrite(Overwrite(s, ETH_HEADER, e), ETH_HEADER + 8, l), n, d);
      && r[ETH_HEADER..n + |d|] == e + s[ETH_HEADER..n][2..8] + l + s[ETH_HEADER..n][10..] + d
      && r[..ETH_HEADER] == s[..ETH_HEADER]
  {
    hide Overwrite;
    var p, e0, h, l0, q := s[..14], s[14..16], s[16..22], s[22..24], s[24..n];
    var d0, z := s[n..n + |d|], s[n + |d|..];
    Pieces(s, n, n + |d|);
    EditedParts(p, e0, h, l0, q, d0, z, e, l, d);
    Slice(s, ETH_HEADER, n - ETH_HEADER, 2, 8);
    Slice(s, ETH_HEADER, n - ETH_HEADER, 10, n - ETH_HEADER);
    Middle(p, e, h, l, q, d, z);
  }

  lemma Pieces(s: seq<Byte>, n: nat, m: nat)
    requires 24 <= n <= m <= |s|
    ensures s == s[..14] + s[14..16] + s[16..22] + s[22..24] + s[24..n] + s[n..m] + s[m..]
  {
  }

  lemma Middle(p: seq<Byte>, e: seq<Byte>, h: seq<Byte>, l: seq<Byte>, q: seq<Byte>, d: seq<Byte>, z: seq<Byte>)
    ensures var r, m := p + e + h + l + q + d + z, e + h + l + q + d;
      r[|p|..|p| + |m|] == m && r[..|p|] == p
  {
    var m := e + h + l + q + d;
    assert p + e + h + l + q + d + z == p + m + z;
  }

  /** Writing on either side of two bytes is writing them, too, as they are. */
  lemma AroundGap(s: seq<Byte>, at: nat, h: seq<Byte>, i: seq<Byte>, r: seq<Byte>, e: seq<Byte>)
    requires |h| == 8 && |i| == 2 && at + 10 + |r + e| <= |s| && s[at + 8..at + 10] == i
    ensures Overwrite(Overwrite(s, at, h), at + 10, r + e) == Overwrite(s, at, h + (i + r + e))
  {
    var x, y := Overwrite(Overwrite(s, at, h), at + 10, r + e), Overwrite(s, at, h + (i + r + e));
    assert i + r + e == i + (r + e);
    forall k | 0 <= k < |s| ensures x[k] == y[k] {
      if at + 8 <= k < at + 10 {
        assert s[k] == s[at + 8..at + 10][k - at - 8];
      }
    }
  }

  lemma EditedParts(p: seq<Byte>, e0: seq<Byte>, h: seq<Byte>, l0: seq<Byte>, q: seq<Byte>, d0: seq<Byte>, z: seq<Byte>,
                    e: seq<Byte>, l: seq<Byte>, d: seq<Byte>)
    requires |p| == ETH_HEADER && |e0| == |e| == 2 && |h| == 6 && |l0| == |l| == 2 && |d0| == |d|
    ensures var s := p + e0 + h + l0 + q + d0 + z; var n := 24 + |q|;
      Overwrite(Overwrite(Overwrite(s, ETH_HEADER, e), ETH_HEADER + 8, l), n, d) == p + e + h + l + q + d + z
  {
    hide Overwrite;
    assert p + e0 + h + l0 + q + d0 + z == p + e0 + (h + l0 + q + d0 + z);
    Replaced(p, e0, h + l0 + q + d0 + z, e);
    assert p + e + (h + l0 + q + d0 + z) == (p + e + h) + l0 + (q + d0 + z);
    Replaced(p + e + h, l0, q + d0 + z, l);
    assert (p + e + h) + l + (q + d0 + z) == (p + e + h + l + q) + d0 + z;
    Replaced(p + e + h + l + q, d0, z, d);
  }

  lemma Replaced(x: seq<Byte>, y: seq<Byte>, z: seq<Byte>, t: seq<Byte>)
    requires |t| == |y|
    ensures Overwrite(x + y + z, |x|, t) == x + t + z
  {
  }

  class FrameBuffer {
    const bytes: array<Byte>
    var length: nat

    ghost predicate Valid()
      reads this
    {
      ETH_HEADER <= length <= bytes.Length <= 1518
    }

    /** The part that is received again. */
    ghost function Now(): seq<Byte>
      reads this, bytes
      requires Valid()
    {
      bytes[ETH_HEADER..length]
    }

    constructor (n: nat)
      requires ETH_HEADER <= n <= 1518
      ensures Valid() && fresh(bytes) && bytes.Length == n
    {
      bytes := new Byte[n](_ => 0);
      length := ETH_HEADER;
    }

    /** The fields of a datagram, its data and a working counter of zero. */
    method PutDatagram(at: nat, command: Byte, index: Byte, adp: nat, ado: nat, dlength: nat, data: seq<Byte>)
        returns (ghost irpt: nat)
      requires at + 12 + |data| <= bytes.Length
      modifies bytes
      ensures irpt < 65536
      ensures bytes[..] == Overwrite(old(bytes[..]), at, [command, index] + Le16(adp) + Le16(ado) + Le16(dlength)
                                                           + (Le16(irpt) + Initial(command, data) + Le16(0)))
    {
      hide Le16, Initial, Overwrite;
      ghost var was := bytes[..];
      irpt := Word(bytes[at + 8..at + 10], 0);
      LeWord(bytes[at + 8..at + 10]);
      assert was[at + 8..at + 10] == Le16(irpt);
      CopyInto(bytes, at, [command, index] + Le16(adp) + Le16(ado) + Le16(dlength));
      CopyInto(bytes, at + 10, Initial(command, data) + Le16(0));
      AroundGap(was, at, [command, index] + Le16(adp) + Le16(ado) + Le16(dlength), Le16(irpt), Initial(command, data),
        Le16(0));
    }

    /** `ecx_setupdatagram` */
    method Setup(command: Byte, index: Byte, adp: nat, ado: nat, data: seq<Byte>) returns (ghost d: Datagram)
      requires Valid() && ETH_HEADER + 14 + |data| <= bytes.Length && adp < 65536 && ado < 65536
      modifies this`length, bytes
      ensures Valid() && Now() == Frame([d]) && bytes[..ETH_HEADER] == old(bytes[..ETH_HEADER]) && d.Valid()
      ensures d == Datagram(command, index, adp, ado, false, d.irpt, Initial(command, data), 0)
      ensures |Now()| == 14 + |data| && Holds16(Now(), 0, 0x1000 + 12 + |data|)
      ensures OnWire(Now(), 2, command, index, adp, ado, false, data)
    {
      hide Initial, Le16;
      CopyInto(bytes, ETH_HEADER, Le16(FRAME_TYPE + 12 + |data|));
      ghost var irpt := PutDatagram(ETH_HEADER + 2, command, index, adp, ado, |data|, data);
      length := ETH_HEADER + 14 + |data|;
      d := Datagram(command, index, adp, ado, false, irpt, Initial(command, data), 0);
      OneDatagram(d);
      FirstOnWire(d, data);
    }

    /** `ecx_adddatagram`; `ds` are the datagrams so far. */
    method Add(command: Byte, index: Byte, more: bool, adp: nat, ado: nat, data: seq<Byte>, ghost ds: seq<Datagram>)
        returns (pos: nat, ghost d: Datagram)
      requires Valid() && length + 12 + |data| <= bytes.Length && adp < 65536 && ado < 65536
      requires ds != [] && ValidAll(ds) && Now() == Frame(ds)
      modifies this`length, bytes
      ensures Valid() && length == old(length) + 12 + |data| && Now() == Frame(Marked(ds) + [d])
      ensures bytes[..ETH_HEADER] == old(bytes[..ETH_HEADER]) && d.Valid()
      ensures d == Datagram(command, index, adp, ado, more, d.irpt, Initial(command, data), 0)
      ensures pos == 2 + Total(ds) + 10
      ensures var f, before := Now(), old(Now());
        && |f| == |before| + 12 + |data| && pos == |before| + 10 && Holds16(f, 0, 0x1000 + |f| - 2)
        && OnWire(f, |before|, command, index, adp, ado, more, data)
        && Followed(f, before)
    {
      hide Initial, Le16, Word, Frame, Overwrite, Total, Flat, Marked, OnWire, Holds16, Followed;
      var prevlength := length;
      ghost var before := bytes[..];
      FieldsHeld(before, length, ds);
      assert bytes[ETH_HEADER..ETH_HEADER + 2] == before[ETH_HEADER..ETH_HEADER + 2];
      assert bytes[ETH_HEADER + 8..ETH_HEADER + 10] == before[ETH_HEADER + 8..ETH_HEADER + 10];
      var elength := Word(bytes[ETH_HEADER..ETH_HEADER + 2], 0);
      var dlength := Word(bytes[ETH_HEADER + 8..ETH_HEADER + 10], 0);
      CopyInto(bytes, ETH_HEADER, Le16(elength + 12 + |data|));
      CopyInto(bytes, ETH_HEADER + 8, Le16(if dlength / FOLLOWS == 1 then dlength else dlength + FOLLOWS));
      ghost var irpt := PutDatagram(prevlength, command, index, adp, ado, |data| + if more then FOLLOWS else 0, data);
      length := prevlength + 12 + |data|;
      pos := prevlength + 10 - ETH_HEADER;
      d := Datagram(command, index, adp, ado, more, irpt, Initial(command, data), 0);
      assert bytes[ETH_HEADER..length] == bytes[..][ETH_HEADER..length];
      assert bytes[..ETH_HEADER] == bytes[..][..ETH_HEADER];
      Appended(before, prevlength, ds, d, bytes[..]);
      AddedOnWire(ds, d, data);
    }
  }

  /** The two length fields in the buffer. */
  lemma FieldsHeld(s: seq<Byte>, n: nat, ds: seq<Datagram>)
    requires ETH_HEADER <= n <= |s| <= 1518 && ds != [] && ValidAll(ds) && s[ETH_HEADER..n] == Frame(ds)
    ensures n == ETH_HEADER + 2 + Total(ds) && n >= 28
    ensures Word(s[ETH_HEADER..ETH_HEADER + 2], 0) == FRAME_TYPE + Total(ds)
    ensures Word(s[ETH_HEADER + 8..ETH_HEADER + 10], 0) == ds[0].Length()
  {
    hide Le16, Word, Frame, Flat;
    assert |Frame(ds)| == n - ETH_HEADER == 2 + Total(ds);
    FrameFields(ds);
    Slice(s, ETH_HEADER, n - ETH_HEADER, 0, 2);
    Slice(s, ETH_HEADER, n - ETH_HEADER, 8, 10);
  }

  lemma Appended(s: seq<Byte>, n: nat, ds: seq<Datagram>, d: Datagram, s': seq<Byte>)
    requires ETH_HEADER + 14 <= n && n + 12 + |d.data| <= |s|
    requires ds != [] && ValidAll(ds) && s[ETH_HEADER..n] == Frame(ds)
    requires s' == Overwrite(Overwrite(Overwrite(s, ETH_HEADER, Le16(FRAME_TYPE + Total(ds) + 12 + |d.data|)),
                                           ETH_HEADER + 8, Le16(ds[0].(follows := true).Length())), n, d.Image())
    ensures s'[ETH_HEADER..n + 12 + |d.data|] == Frame(Marked(ds) + [d])
    ensures s'[..ETH_HEADER] == s[..ETH_HEADER]
  {
    hide Frame, Overwrite, Le16, Marked, Flat, Datagram.Image, Datagram.Length;
    FrameAdd(ds, d);
    ImageLength(d);
    Edited(s, n, Le16(FRAME_TYPE + Total(ds) + 12 + |d.data|), Le16(ds[0].(follows := true).Length()), d.Image());
  }

  lemma ImageLength(d: Datagram)
    ensures |d.Image()| == 12 + |d.data|
  {
  }

  lemma LeWord(s: seq<Byte>)
    requires |s| == 2
    ensures Le16(Word(s, 0)) == s
  {
  }

  lemma OneDatagram(d: Datagram)
    ensures Frame([d]) == Le16(FRAME_TYPE + 12 + |d.data|) + d.Image()
  {
    assert [d][1..] == [];
  }

  /** The length fields of a frame and of its first datagram. */
  lemma FrameFields(ds: seq<Datagram>)
    requires ds != [] && ValidAll(ds) && Total(ds) < 0x1000
    ensures var f := Frame(ds);
      && |f| >= 14 && Word(f[0..2], 0) == FRAME_TYPE + Total(ds) && Word(f[8..10], 0) == ds[0].Length()
  {
    hide Le16, Word, Frame;
    FrameApart(ds);
    var f := Frame(ds);
    WordRoundTrip(f[0..2], 0, FRAME_TYPE + Total(ds));
    WordRoundTrip(f[8..10], 0, ds[0].Length());
  }

  // ---------- reading the state of many slaves ----------

  const MAX_FPRD_MULTI := 64

  /** The request to one slave. */
  function StatusRead(index: Byte, address: nat, follows: bool, irpt: nat): Datagram {
    Datagram(FPRD, index, address, ALSTAT, follows, irpt, [0, 0, 0, 0, 0, 0], 0)
  }

  /** The first `m` requests; each is followed by another, except the last of `n`, and a first one that is alone. */
  ghost predicate Requests(ds: seq<Datagram>, index: Byte, configlst: seq<nat>, m: nat, n: nat) {
    && |ds| == m <= |configlst|
    && forall k :: 0 <= k < m ==>
         ds[k] == StatusRead(index, configlst[k], if k == 0 then m > 1 else k < n - 1, ds[k].irpt) && ds[k].irpt < 65536
  }

  lemma RequestsGrow(ds: seq<Datagram>, d: Datagram, index: Byte, configlst: seq<nat>, m: nat, n: nat)
    requires 0 < m < |configlst| && Requests(ds, index, configlst, m, n) && d.irpt < 65536
    requires d == StatusRead(index, configlst[m], m < n - 1, d.irpt)
    ensures Requests(Marked(ds) + [d], index, configlst, m + 1, n)
  {
  }

  lemma RequestsTotal(ds: seq<Datagram>, index: Byte, configlst: seq<nat>, m: nat, n: nat)
    requires Requests(ds, index, configlst, m, n) && forall k :: 0 <= k < m ==> configlst[k] < 65536
    ensures ValidAll(ds) && Total(ds) == 18 * m
  {
    AllSix(ds);
  }

  lemma {:induction false} AllSix(ds: seq<Datagram>)
    requires forall k :: 0 <= k < |ds| ==> |ds[k].data| == 6
    ensures Total(ds) == 18 * |ds|
  {
    if ds != [] {
      AllSix(ds[1..]);
    }
  }

  /** The first half of `ecx_FPRD_multi`, for any number of slaves up to 64: the frame has one datagram for each, in
    * order, properly chained, and `sldatapos` says where the data of each will be when the frame is back. */
  method FprdMulti(buffer: FrameBuffer, index: Byte, n: nat, configlst: seq<nat>)
      returns (sldatapos: seq<nat>, ghost ds: seq<Datagram>)
    requires buffer.Valid() && buffer.bytes.Length >= ETH_HEADER + 2 + 18 * MAX_FPRD_MULTI
    requires n <= MAX_FPRD_MULTI && configlst != [] && n <= |configlst|
    requires forall k :: 0 <= k < |configlst| ==> configlst[k] < 65536
    modifies buffer, buffer.bytes
    ensures buffer.Valid() && buffer.Now() == Frame(ds) && |ds| == |sldatapos| == if n == 0 then 1 else n
    ensures Requests(ds, index, configlst, |ds|, n) && ValidAll(ds) && Chained(ds) && Parse(buffer.Now(), 2) == ds
    ensures forall k :: 0 <= k < |ds| ==> sldatapos[k] == 12 + 18 * k
    ensures forall k :: 0 <= k < |ds| ==>
      ds[k].command == 4 && ds[k].adp == configlst[k] && ds[k].ado == 0x0130 && |ds[k].data| == 6
  {
    hide Frame, Flat, Total, Parse, Marked, ValidAll, Requests, OnWire, Holds16;
    var zeros: seq<Byte> := [0, 0, 0, 0, 0, 0];
    ghost var d := buffer.Setup(FPRD, index, configlst[0], ALSTAT, zeros);
    sldatapos, ds := [12], [d];
    var slcnt := 1;
    FirstRequest(d, index, configlst, n);
    RequestsTotal(ds, index, configlst, slcnt, n);
    while slcnt < n - 1
      invariant 0 < slcnt && (slcnt < n || slcnt == 1) && |sldatapos| == |ds| == slcnt
      invariant buffer.Valid() && buffer.Now() == Frame(ds) && Total(ds) == 18 * slcnt
      invariant ValidAll(ds) && Requests(ds, index, configlst, slcnt, n)
      invariant forall k :: 0 <= k < slcnt ==> sldatapos[k] == 12 + 18 * k
    {
      FrameLength(ds);
      var pos;
      pos, d := buffer.Add(FPRD, index, true, configlst[slcnt], ALSTAT, zeros, ds);
      RequestsGrow(ds, d, index, configlst, slcnt, n);
      sldatapos, ds := sldatapos + [pos], Marked(ds) + [d];
      slcnt := slcnt + 1;
      RequestsTotal(ds, index, configlst, slcnt, n);
    }
    if slcnt < n {
      FrameLength(ds);
      var pos;
      pos, d := buffer.Add(FPRD, index, false, configlst[slcnt], ALSTAT, zeros, ds);
      RequestsGrow(ds, d, index, configlst, slcnt, n);
      sldatapos, ds := sldatapos + [pos], Marked(ds) + [d];
      slcnt := slcnt + 1;
      RequestsTotal(ds, index, configlst, slcnt, n);
    }
    RequestsChained(ds, index, configlst, slcnt, n);
    RequestsRead(ds, index, configlst, slcnt, n);
    FrameRoundTrip(ds);
  }

  lemma RequestsRead(ds: seq<Datagram>, index: Byte, configlst: seq<nat>, m: nat, n: nat)
    requires Requests(ds, index, configlst, m, n)
    ensures forall k :: 0 <= k < |ds| ==>
      ds[k].command == 4 && ds[k].adp == configlst[k] && ds[k].ado == 0x0130 && |ds[k].data| == 6
  {
  }

  lemma FirstRequest(d: Datagram, index: Byte, configlst: seq<nat>, n: nat)
    requires configlst != [] && d == StatusRead(index, configlst[0], false, d.irpt) && d.irpt < 65536
    ensures Requests([d], index, configlst, 1, n)
  {
  }

  lemma FrameLength(ds: seq<Datagram>)
    ensures |Frame(ds)| == 2 + Total(ds)
  {
  }

  lemma RequestsChained(ds: seq<Datagram>, index: Byte, configlst: seq<nat>, m: nat, n: nat)
    requires Requests(ds, index, configlst, m, n) && m == if n == 0 then 1 else n
    ensures Chained(ds)
  {
  }

  /** The second half: the state of each slave is copied from its place. */
  method CopyStates(rx: seq<Byte>, sldatapos: seq<nat>, n: nat, ghost rs: seq<Datagram>)
      returns (slstatlst: seq<seq<Byte>>)
    requires n <= |sldatapos| && n <= |rs| && forall k :: 0 <= k < |sldatapos| ==> sldatapos[k] == 12 + 18 * k
    requires rx == Frame(rs) && forall k :: 0 <= k < |rs| ==> |rs[k].data| == 6
    ensures |slstatlst| == n && forall k :: 0 <= k < n ==> slstatlst[k] == rs[k].data
  {
    hide Frame, Flat;
    slstatlst := [];
    var slcnt := 0;
    while slcnt < n
      invariant slcnt <= n && |slstatlst| == slcnt
      invariant forall k :: 0 <= k < slcnt ==> slstatlst[k] == rs[k].data
    {
      StatePlace(rs, slcnt);
      slstatlst := slstatlst + [rx[sldatapos[slcnt]..sldatapos[slcnt] + 6]];
      slcnt := slcnt + 1;
    }
  }

  lemma StatePlace(rs: seq<Datagram>, k: nat)
    requires k < |rs| && forall i :: 0 <= i < |rs| ==> |rs[i].data| == 6
    ensures 12 + 18 * k + 6 <= |Frame(rs)| && Frame(rs)[12 + 18 * k..12 + 18 * k + 6] == rs[k].data
  {
    hide Flat;
    DataPlace(rs, k);
    AllSix(rs[..k]);
    assert Frame(rs)[2..] == Flat(rs);
    Within(Frame(rs), 18 * k);
  }

  lemma Within(f: seq<Byte>, at: nat)
    requires 2 + at + 16 <= |f|
    ensures f[12 + at..12 + at + 6] == f[2..][at..][10..16]
  {
  }
}
