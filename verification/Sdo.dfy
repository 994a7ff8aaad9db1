/** CoE parameters in segments: what `ecx_SDOwrite` sends, and how `ecx_SDOread` puts a parameter together.
  * SDO transfers are described in section 5.6 of ETG.1000.6. */
module Sdo {
  import opened Basics

  /** The parts of an SDO mailbox that matter: its length field, the command byte, and everything behind the
    * command byte. */
  datatype Message = Message(length: nat, command: nat, body: seq<Byte>)

  const DOWN_INIT := 0x21
  const DOWN_EXP := 0x23
  const DOWN_INIT_CA := 0x31

  // ---------- bytes and bits ----------

  /** A mailbox is cleared before it is filled. */
  function Padded(s: seq<Byte>, n: nat): (r: seq<Byte>)
    ensures |r| == if |s| < n then n else |s|
    ensures r[..|s|] == s
  {
    s + Zeros(if |s| < n then n - |s| else 0)
  }

  function Le32(x: nat): seq<Byte> {
    [x % 256, x / 256 % 256, x / 65536 % 256, x / 16777216 % 256]
  }

  /** A signed 32-bit number from its bytes. */
  function Signed32(b: seq<Byte>): int
    requires |b| == 4
  {
    var b0: int, b1: int, b2: int, b3: int := b[0], b[1], b[2], b[3];
    var x := 256 * (256 * (256 * b3 + b2) + b1) + b0;
    if x < 0x8000_0000 then x else x - 0x1_0000_0000
  }

  lemma Le32RoundTrip(x: nat)
    requires x < 0x8000_0000
    ensures Signed32(Le32(x)) == x
  {
    var y, z := x / 256, x / 65536;
    assert y / 256 == z && z / 256 == x / 16777216 && z / 256 < 256;
    assert x == 256 * y + x % 256 && y == 256 * z + y % 256 && z == 256 * (z / 256) + z % 256;
  }

  predicate Bit(x: nat, weight: nat)
    requires weight > 0
  {
    x / weight % 2 == 1
  }

  // ---------- what is sent ----------

  /** A parameter on its way to a slave with the given mailbox length. */
  datatype Download = Download(parameter: seq<Byte>, mailbox: nat, index: nat, subIndex: nat, completeAccess: bool)
  {
    /** The mailbox has room for the headers, and the size fits into its field. */
    predicate Valid() {
      16 <= mailbox < 65536 && |parameter| < 0x8000_0000
    }

    function Room(): nat {
      if mailbox > 9 then mailbox - 9 else 0
    }

    function Header(): (h: seq<Byte>)
      ensures |h| == 3
    {
      Le16(index) + [(if completeAccess && subIndex > 1 then 1 else subIndex) % 256]
    }

    predicate Expedited() {
      |parameter| <= 4 && !completeAccess
    }

    function ExpeditedMessage(): Message
      requires Expedited()
    {
      Message(10, DOWN_EXP + (4 - |parameter|) * 4 % 16, Padded(Header() + parameter, Room()))
    }

    /** As much as fits behind the headers goes with the first message. */
    function FirstSize(): (n: nat)
      requires Valid()
      ensures n <= |parameter|
    {
      if |parameter| > mailbox - 16 then mailbox - 16 else |parameter|
    }

    function InitMessage(): Message
      requires Valid()
    {
      Message(10 + FirstSize(), if completeAccess then DOWN_INIT_CA else DOWN_INIT,
              Padded(Header() + Le32(|parameter|) + parameter[..FirstSize()], Room()))
    }

    function SegmentSize(offset: nat): (n: nat)
      requires Valid() && offset <= |parameter|
      ensures offset + n <= |parameter|
    {
      if |parameter| - offset > mailbox - 9 then mailbox - 9 else |parameter| - offset
    }

    /** A segment from the offset on; a last one of less than seven bytes tells how many it falls short. */
    function SegmentMessage(offset: nat, toggle: bool): Message
      requires Valid() && offset <= |parameter|
    {
      var size := SegmentSize(offset);
      var last := offset + size == |parameter|;
      Message(if last && size < 7 then 10 else size + 3,
              (if last then (if size < 7 then 1 + (7 - size) * 2 else 1) else 0) + (if toggle then 16 else 0),
              Padded(parameter[offset..offset + size], Room()))
    }

    function Segments(offset: nat, toggle: bool): (ms: seq<Message>)
      requires Valid() && offset < |parameter|
      ensures ms != []
      decreases |parameter| - offset
    {
      var next := offset + SegmentSize(offset);
      if next == |parameter| then [SegmentMessage(offset, toggle)]
      else [SegmentMessage(offset, toggle)] + Segments(next, !toggle)
    }

    function Messages(): (ms: seq<Message>)
      requires Valid()
      ensures ms != []
    {
      if Expedited() then [ExpeditedMessage()]
      else [InitMessage()] + if FirstSize() < |parameter| then Segments(FirstSize(), false) else []
    }

    lemma SegmentsStep(offset: nat, toggle: bool)
      requires Valid() && offset < |parameter|
      ensures SegmentSize(offset) > 0
      ensures var next := offset + SegmentSize(offset);
        (Segments(offset, toggle)
          == [SegmentMessage(offset, toggle)] + if next < |parameter| then Segments(next, !toggle) else [])
    {
      hide SegmentMessage;
    }

    lemma ToggleBit(offset: nat, toggle: bool)
      requires Valid() && offset < |parameter|
      ensures Bit(SegmentMessage(offset, toggle).command, 16) == toggle
    {
    }

    /** The offset of the `k`-th segment from `offset` on. */
    function Offset(offset: nat, k: nat): (o: int)
    {
      offset + k * (mailbox - 9)
    }

    lemma OffsetStep(offset: nat, k: nat)
      requires Valid() && offset <= |parameter|
      ensures Offset(offset, 0) == offset
      ensures k > 0 && offset + SegmentSize(offset) < |parameter|
        ==> Offset(offset, k) == Offset(offset + SegmentSize(offset), k - 1)
    {
      assert k > 0 ==> k * (mailbox - 9) == (k - 1) * (mailbox - 9) + (mailbox - 9);
    }

    /** The segments are the successive pieces of full size, the last one excepted, and the toggle bit alternates. */
    lemma {:induction false} SegmentsInOrder(offset: nat, toggle: bool, k: nat)
      requires Valid() && offset < |parameter| && k < |Segments(offset, toggle)|
      ensures 0 <= Offset(offset, k) < |parameter|
      ensures k == |Segments(offset, toggle)| - 1 <==> Offset(offset, k) + mailbox - 9 >= |parameter|
      ensures Segments(offset, toggle)[k] == SegmentMessage(Offset(offset, k), if k % 2 == 0 then toggle else !toggle)
      ensures Bit(Segments(offset, toggle)[k].command, 16) == (if k % 2 == 0 then toggle else !toggle)
      decreases k
    {
      hide Segments, SegmentMessage, Bit, Offset;
      SegmentsStep(offset, toggle);
      OffsetStep(offset, k);
      if k > 0 {
        SegmentsInOrder(offset + SegmentSize(offset), !toggle, k - 1);
      } else {
        ToggleBit(offset, toggle);
      }
    }

    /** Where a transfer may end: the messages sent are the first ones, and every earlier reply let it go on. */
    ghost predicate Over(sent: seq<Message>, replies: seq<Reply>, ok: bool)
      requires Valid()
    {
      var all, n := Messages(), |sent|;
      && 0 < n <= |all| && n <= |replies| && sent == all[..n]
      && ok == (replies[n - 1] == Accepted)
      && (n > 1 ==> replies[0] == Accepted)
      && (forall k :: 0 < k < n ==> replies[k] != NoBuffer)
      && (forall k :: 0 < k < n - 1 ==> replies[k] != Refused)
      && (n < |all| ==>
            if n == 1 && replies[0] != Accepted then true
            else replies[n - 1] == Refused || (n < |replies| && replies[n] == NoBuffer))
    }

    /** The transfer is in its segments: the next starts at `offset`. */
    ghost predicate Underway(sent: seq<Message>, replies: seq<Reply>, offset: nat, toggle: bool, notLast: bool,
                             ok: bool)
    {
      && Valid() && !Expedited() && offset <= |parameter| && |replies| >= |Messages()|
      && 0 < |sent| <= |Messages()| && sent == Messages()[..|sent|]
      && replies[0] == Accepted && ok == (replies[|sent| - 1] == Accepted)
      && (forall k :: 0 < k < |sent| ==> replies[k] != NoBuffer)
      && (forall k :: 0 < k < |sent| - 1 ==> replies[k] != Refused)
      && (notLast ==> (offset < |parameter| && Messages() == sent + Segments(offset, toggle)
                       && (|sent| > 1 ==> replies[|sent| - 1] != Refused)))
      && (!notLast ==> |sent| == |Messages()| || (|sent| > 1 && replies[|sent| - 1] == Refused))
    }

    lemma Begin(replies: seq<Reply>)
      requires Valid() && !Expedited() && |replies| >= |Messages()| && replies[0] == Accepted
      ensures Underway([InitMessage()], replies, FirstSize(), false, FirstSize() < |parameter|, true)
    {
      hide InitMessage, Segments;
      assert Messages()[..1] == [InitMessage()];
    }

    lemma Next(sent: seq<Message>, replies: seq<Reply>, offset: nat, toggle: bool, ok: bool)
      requires Underway(sent, replies, offset, toggle, true, ok)
      ensures Valid() && offset < |parameter| && |sent| < |replies| && SegmentSize(offset) > 0
      ensures replies[|sent|] != NoBuffer ==>
        var next, reply := offset + SegmentSize(offset), replies[|sent|];
        Underway(sent + [SegmentMessage(offset, toggle)], replies, next, !toggle,
                 next < |parameter| && reply != Refused, reply == Accepted)
    {
      hide Segments, SegmentMessage, SegmentSize, Messages, Expedited;
      SegmentsStep(offset, toggle);
      var more := sent + [SegmentMessage(offset, toggle)];
      assert more == Messages()[..|more|];
      if offset + SegmentSize(offset) < |parameter| {
        assert Messages() == more + Segments(offset + SegmentSize(offset), !toggle);
      }
    }

    lemma End(sent: seq<Message>, replies: seq<Reply>, offset: nat, toggle: bool, notLast: bool, ok: bool)
      requires Underway(sent, replies, offset, toggle, notLast, ok)
      requires notLast ==> |sent| < |replies| && replies[|sent|] == NoBuffer
      ensures Over(sent, replies, ok)
    {
    }
  }

  /** Two bytes, the lower first. */
  predicate Holds16(b: seq<Byte>, x: int) {
    |b| == 2 && var low: int, high: int := b[0], b[1]; low + 256 * high == x
  }

  /** The first message byte by byte (sections 5.6.2.1 to 5.6.2.4 of ETG.1000.6): the index, the subindex, which is 0 or
    * 1 with complete access, and, expedited, up to four bytes of data with their number in bits 2 and 3 of the command;
    * otherwise the size in four bytes and as much of the data as fits. */
  lemma FirstBytes(d: Download)
    requires d.Valid() && d.index < 65536 && d.subIndex < 256
    ensures var m, n := d.Messages()[0], |d.parameter|;
      var sub := if d.completeAccess && d.subIndex > 1 then 1 else d.subIndex;
      if n <= 4 && !d.completeAccess then
        && |d.Messages()| == 1 && m.length == 10 && m.command == (if n == 0 then 0x23 else 0x23 + 4 * (4 - n))
        && |m.body| >= 3 + n && Holds16(m.body[..2], d.index) && m.body[2] == sub && m.body[3..3 + n] == d.parameter
      else
        var first := if n <= d.mailbox - 16 then n else d.mailbox - 16;
        && m.length == 10 + first && m.command == (if d.completeAccess then 0x31 else 0x21)
        && |m.body| >= 7 + first && Holds16(m.body[..2], d.index) && m.body[2] == sub
        && Holds16(m.body[3..5], n % 65536) && Holds16(m.body[5..7], n / 65536)
        && m.body[7..7 + first] == d.parameter[..first]
  {
    hide d.ExpeditedMessage, d.InitMessage, d.Segments, Holds16;
    if d.Expedited() {
      ExpeditedBytes(d);
    } else {
      InitBytes(d);
    }
  }

  lemma ExpeditedBytes(d: Download)
    requires d.Expedited() && d.index < 65536 && d.subIndex < 256
    ensures var m, n := d.ExpeditedMessage(), |d.parameter|;
      && m.length == 10 && m.command == (if n == 0 then 0x23 else 0x23 + 4 * (4 - n))
      && |m.body| >= 3 + n && Holds16(m.body[..2], d.index) && m.body[2] == d.subIndex
      && m.body[3..3 + n] == d.parameter
  {
    var m, n, h := d.ExpeditedMessage(), |d.parameter|, d.Header() + d.parameter;
    hide Padded;
    assert m.body[..|h|] == h;
    assert m.body[..2] == h[..2] == Le16(d.index) && m.body[2] == h[2] && m.body[3..3 + n] == h[3..] == d.parameter;
  }

  lemma InitBytes(d: Download)
    requires d.Valid() && d.index < 65536 && d.subIndex < 256
    ensures var m, n := d.InitMessage(), |d.parameter|;
      var first := if n <= d.mailbox - 16 then n else d.mailbox - 16;
      && m.length == 10 + first && m.command == (if d.completeAccess then 0x31 else 0x21)
      && |m.body| >= 7 + first && Holds16(m.body[..2], d.index)
      && m.body[2] == (if d.completeAccess && d.subIndex > 1 then 1 else d.subIndex)
      && Holds16(m.body[3..5], n % 65536) && Holds16(m.body[5..7], n / 65536)
      && m.body[7..7 + first] == d.parameter[..first]
  {
    var m, n, first := d.InitMessage(), |d.parameter|, d.FirstSize();
    var size := Le32(n);
    Le32Halves(n);
    hide Padded, Le32, Holds16;
    var h := d.Header() + size + d.parameter[..first];
    assert m.body[..|h|] == h;
    assert m.body[..2] == h[..2] == Le16(d.index) && m.body[2] == h[2] && m.body[3..5] == h[3..5] == size[..2];
    assert m.body[5..7] == h[5..7] == size[2..] && m.body[7..7 + first] == h[7..] == d.parameter[..first];
    Le16Held(d.index);
  }

  lemma Le16Held(x: nat)
    requires x < 65536
    ensures Holds16(Le16(x), x)
  {
  }

  lemma Le32Halves(x: nat)
    requires x < 0x8000_0000
    ensures |Le32(x)| == 4 && Holds16(Le32(x)[..2], x % 65536) && Holds16(Le32(x)[2..], x / 65536)
  {
    Quarters(x);
  }

  lemma Quarters(x: nat)
    requires x < 0x8000_0000
    ensures x / 16777216 == x / 65536 / 256 && x / 256 % 256 == x % 65536 / 256 && x % 65536 % 256 == x % 256
    ensures x / 16777216 % 256 == x / 16777216
  {
    var q, r := x / 65536, x % 65536;
    assert x == 65536 * q + r && x / 256 == 256 * q + r / 256;
  }

  /** A message with the parameter's bytes from `at` on, as many of them as there is room for. Bit 0 of the command
    * marks the last segment, bits 1 to 3 say how much a last one falls short of seven bytes, bit 4 is the toggle. */
  predicate IsSegment(m: Message, parameter: seq<Byte>, at: nat, room: nat, toggle: bool) {
    && at < |parameter|
    && var last := |parameter| <= at + room;
      var size := if last then |parameter| - at else room;
      var short := if last && size < 7 then 7 - size else 0;
      && m.length == size + short + 3
      && m.command == (if last then 1 else 0) + 2 * short + (if toggle then 16 else 0)
      && |m.body| >= size && m.body[..size] == parameter[at..at + size]
  }

  /** The segments follow one another, and the toggle bit alternates. */
  lemma SegmentBytes(d: Download, k: nat)
    requires d.Valid() && 0 < k < |d.Messages()|
    ensures var at, room := d.mailbox - 16 + (k - 1) * (d.mailbox - 9), d.mailbox - 9;
      && 0 <= at && (k == |d.Messages()| - 1 <==> |d.parameter| <= at + room)
      && IsSegment(d.Messages()[k], d.parameter, at, room, k % 2 == 0)
  {
    hide *;
    SegmentPlace(d, k);
    OneSegment(d, d.mailbox - 16 + (k - 1) * (d.mailbox - 9), k % 2 == 0);
  }

  lemma SegmentPlace(d: Download, k: nat)
    requires d.Valid() && 0 < k < |d.Messages()|
    ensures var at := d.mailbox - 16 + (k - 1) * (d.mailbox - 9);
      && 0 <= at < |d.parameter| && d.Messages()[k] == d.SegmentMessage(at, k % 2 == 0)
      && (k == |d.Messages()| - 1 <==> |d.parameter| <= at + d.mailbox - 9)
  {
    hide *;
    MoreThanOne(d);
    var segments := d.Segments(d.mailbox - 16, false);
    assert d.Messages()[k] == segments[k - 1];
    d.SegmentsInOrder(d.mailbox - 16, false, k - 1);
    OffsetIs(d, d.mailbox - 16, k - 1);
  }

  lemma MoreThanOne(d: Download)
    requires d.Valid() && |d.Messages()| > 1
    ensures 0 <= d.mailbox - 16 < |d.parameter| && d.Messages()[1..] == d.Segments(d.mailbox - 16, false)
  {
    hide d.Segments, d.InitMessage, d.ExpeditedMessage;
  }

  lemma OffsetIs(d: Download, offset: nat, k: nat)
    ensures d.Offset(offset, k) == offset + k * (d.mailbox - 9)
  {
  }

  lemma OneSegment(d: Download, at: nat, toggle: bool)
    requires d.Valid() && at < |d.parameter|
    ensures IsSegment(d.SegmentMessage(at, toggle), d.parameter, at, d.mailbox - 9, toggle)
  {
    hide Padded;
  }

  /** The outcome of sending a message: a proper response, an abort or another unexpected response, none although it
    * was sent, not sent, or no buffer to send it from. */
  datatype Reply = Accepted | Refused | Unanswered | Unsent | NoBuffer

  /** `ecx_SDOwrite`: `replies[k]` is what becomes of the `k`-th message. The result `ok` stands for a positive
    * working counter. */
  method SdoWrite(d: Download, replies: seq<Reply>) returns (sent: seq<Message>, ok: bool)
    requires d.Valid() && |replies| >= |d.Messages()|
    ensures d.Over(sent, replies, ok)
  {
    hide d.SegmentMessage, d.ExpeditedMessage, d.InitMessage, d.Segments, d.SegmentSize, d.Underway, Padded;
    if |d.parameter| <= 4 && !d.completeAccess {
      sent, ok := [d.ExpeditedMessage()], replies[0] == Accepted;
      return;
    }
    var psize: nat, toggle, notLast := |d.parameter|, false, false;
    var framedatasize: nat := psize;
    if framedatasize > d.mailbox - 16 {
      framedatasize, notLast := d.mailbox - 16, true;
    }
    sent, ok := [d.InitMessage()], replies[0] == Accepted;
    psize := psize - framedatasize;
    if !ok {
      return;
    }
    d.Begin(replies);
    while notLast
      invariant psize <= |d.parameter| && d.Underway(sent, replies, |d.parameter| - psize, toggle, notLast, ok)
      decreases psize + if notLast then 1 else 0
    {
      ghost var offset := |d.parameter| - psize;
      d.Next(sent, replies, offset, toggle, ok);
      if replies[|sent|] == NoBuffer {
        break;
      }
      var m, size, last := Segment(d, psize, toggle);
      ok, notLast := replies[|sent|] == Accepted, !last && replies[|sent|] != Refused;
      sent := sent + [m];
      psize := psize - size;
      toggle := !toggle;
    }
    d.End(sent, replies, |d.parameter| - psize, toggle, notLast, ok);
  }

  /** The filling of one segment when `psize` bytes are left. */
  method Segment(d: Download, psize: nat, toggle: bool) returns (m: Message, framedatasize: nat, last: bool)
    requires d.Valid() && psize <= |d.parameter|
    ensures var offset := |d.parameter| - psize;
      && m == d.SegmentMessage(offset, toggle) && framedatasize == d.SegmentSize(offset)
      && last == (offset + framedatasize == |d.parameter|)
  {
    var hp := |d.parameter| - psize;
    framedatasize, last := psize, true;
    var command := 0x01;
    if framedatasize > d.mailbox - 9 {
      framedatasize, last, command := d.mailbox - 9, false, 0x00;
    }
    var length := framedatasize + 3;
    if last && framedatasize < 7 {
      length, command := 0x0a, 0x01 + (7 - framedatasize) * 2;
    }
    m := Message(length, command + if toggle then 16 else 0, Padded(d.parameter[hp..hp + framedatasize], d.Room()));
  }

  // ---------- how a parameter is put together ----------

  /** `TooLarge`: it does not fit into the buffer. `Unexpected`: a segment is not an upload segment response.
    * `Outside`: a message claims more than it holds. `Incomplete`: it stops before the last segment. */
  datatype Result = Parameter(value: seq<Byte>) | TooLarge | Unexpected | Outside | Incomplete

  /** A 16-bit length field minus the headers. */
  function Less(length: nat, headers: nat): nat {
    (length + 65536 - headers % 65536) % 65536
  }

  /** How many bytes a segment contributes. */
  function SegmentLength(m: Message): (n: int) {
    var size := Less(m.length, 3);
    if Bit(m.command, 1) && size == 7 then 7 - m.command / 2 % 8 else size
  }

  /** Segments are taken one by one until the last. */
  function ReadSegments(got: seq<Byte>, ms: seq<Message>): Result
    decreases |ms|
  {
    if ms == [] then Incomplete
    else if ms[0].command / 32 % 8 != 0 then Unexpected
    else if SegmentLength(ms[0]) > |ms[0].body| then Outside
    else
      var next := got + ms[0].body[..SegmentLength(ms[0])];
      if Bit(ms[0].command, 1) then Parameter(next) else ReadSegments(next, ms[1..])
  }

  /** A whole transfer into a buffer of `capacity` bytes. */
  function ReadParameter(ms: seq<Message>, capacity: nat): Result {
    if ms == [] then Incomplete
    else if |ms[0].body| < 7 then Outside
    else if Bit(ms[0].command, 2) then
      var bytesize := 4 - ms[0].command / 4 % 4;
      if capacity >= bytesize then Parameter(ms[0].body[3..3 + bytesize]) else TooLarge
    else
      var length, size, data := Signed32(ms[0].body[3..7]), Less(ms[0].length, 10), ms[0].body[7..];
      if length > capacity then TooLarge
      else if size < length then (if size <= |data| then ReadSegments(data[..size], ms[1..]) else Outside)
      else if 0 <= length <= |data| then Parameter(data[..length])
      else Outside
  }

  const SEG_UP_REQ := 0x60

  /** The command bytes of the segment requests, the toggle bit alternating. */
  function Requests(n: nat): (r: seq<nat>)
    ensures |r| == n
  {
    seq(n, k => SEG_UP_REQ + if k % 2 == 0 then 0 else 16)
  }

  /** A segment whose command is not that of an upload segment response ends the reading. */
  lemma SegmentRefused(got: seq<Byte>, ms: seq<Message>)
    requires ms != [] && 32 <= ms[0].command < 256
    ensures ReadSegments(got, ms) == Unexpected
  {
  }

  /** A parameter longer than the buffer is refused, expedited or not. */
  lemma ReadTooLarge(ms: seq<Message>, capacity: nat)
    requires ms != [] && |ms[0].body| >= 7
    ensures var m := ms[0];
      ReadParameter(ms, capacity) == TooLarge
      <==> if m.command / 2 % 2 == 1 then 4 - m.command / 4 % 4 > capacity else Signed32(m.body[3..7]) > capacity
  {
    hide Signed32, ReadSegments;
    var size, data := Less(ms[0].length, 10), ms[0].body[7..];
    if size <= |data| {
      SegmentsNotTooLarge(data[..size], ms[1..]);
    }
  }

  /** What a message with fewer bytes than announced begins, and one with all of them is: the bytes behind the
    * length. */
  lemma ReadBegins(ms: seq<Message>, capacity: nat)
    requires ms != [] && |ms[0].body| >= 7 && ms[0].command / 2 % 2 == 0 && 10 <= ms[0].length < 65536
    ensures var m := ms[0];
      var length, size := Signed32(m.body[3..7]), m.length - 10;
      && (0 <= length <= capacity && length <= size && 7 + length <= |m.body| ==>
           ReadParameter(ms, capacity) == Parameter(m.body[7..7 + length]))
      && (size < length <= capacity && 7 + size <= |m.body| ==>
           ReadParameter(ms, capacity) == ReadSegments(m.body[7..7 + size], ms[1..]))
  {
    hide Signed32, ReadSegments;
    var m, size := ms[0], ms[0].length - 10;
    assert 7 + size <= |m.body| ==> m.body[7..][..size] == m.body[7..7 + size];
  }

  /** A segment gives as many bytes as its length field says, the headers taken off; a last one of seven bytes as many
    * as are in use. The last one ends the parameter. */
  lemma SegmentTaken(got: seq<Byte>, ms: seq<Message>)
    requires ms != [] && ms[0].command < 32 && 3 <= ms[0].length < 65536
    ensures var m := ms[0];
      var last := m.command % 2 == 1;
      var n := if last && m.length == 10 then 7 - m.command / 2 % 8 else m.length - 3;
      && 0 <= n
      && (n <= |m.body| ==>
           ReadSegments(got, ms)
             == if last then Parameter(got + m.body[..n]) else ReadSegments(got + m.body[..n], ms[1..]))
      && (n > |m.body| ==> ReadSegments(got, ms) == Outside)
  {
  }

  lemma {:induction false} SegmentsNotTooLarge(got: seq<Byte>, ms: seq<Message>)
    ensures ReadSegments(got, ms) != TooLarge
    decreases |ms|
  {
    if ms != [] && SegmentLength(ms[0]) <= |ms[0].body| {
      SegmentsNotTooLarge(got + ms[0].body[..SegmentLength(ms[0])], ms[1..]);
    }
  }

  /** `ecx_SDOread` from a slave that responds to every request: `ms[0]` to the first, the others to the segment
    * requests. */
  method SdoRead(ms: seq<Message>, capacity: nat) returns (r: Result, requests: seq<nat>)
    ensures r == ReadParameter(ms, capacity)
    ensures requests == Requests(|requests|)
    ensures forall k :: 0 <= k < |requests| ==> requests[k] == if k % 2 == 0 then 0x60 else 0x70
  {
    requests := [];
    if ms == [] {
      return Incomplete, requests;
    }
    var m := ms[0];
    if |m.body| < 7 {
      return Outside, requests;
    }
    if Bit(m.command, 2) {
      var bytesize := 4 - m.command / 4 % 4;
      r := if capacity >= bytesize then Parameter(m.body[3..3 + bytesize]) else TooLarge;
      return;
    }
    var length, framedatasize := Signed32(m.body[3..7]), Less(m.length, 10);
    if length > capacity {
      r := TooLarge;
    } else if framedatasize < length {
      if framedatasize > |m.body[7..]| {
        return Outside, requests;
      }
      r, requests := SdoReadSegments(m.body[7..][..framedatasize], ms[1..]);
    } else {
      r := if 0 <= length <= |m.body[7..]| then Parameter(m.body[7..][..length]) else Outside;
    }
  }

  /** The loop over the segments. */
  method SdoReadSegments(first: seq<Byte>, ms: seq<Message>) returns (r: Result, requests: seq<nat>)
    ensures r == ReadSegments(first, ms)
    ensures requests == Requests(|requests|)
    ensures r.Parameter? ==> 0 < |requests| <= |ms|
  {
    var got, toggle, notLast := first, 0, true;
    var k := 0;
    requests := [];
    r := Incomplete;
    while notLast && k < |ms|
      invariant k <= |ms| && |requests| == k && requests == Requests(k) && toggle == (if k % 2 == 0 then 0 else 16)
      invariant notLast ==> r == Incomplete && ReadSegments(first, ms) == ReadSegments(got, ms[k..])
      invariant !notLast ==> r == ReadSegments(first, ms) && k > 0
      decreases notLast, |ms| - k
    {
      requests := requests + [SEG_UP_REQ + toggle];
      var m, rest := ms[k], ms[k..];
      assert rest[1..] == ms[k + 1..];
      if m.command / 32 % 8 != 0 {
        r, notLast := Unexpected, false;
      } else if SegmentLength(m) > |m.body| {
        r, notLast := Outside, false;
      } else {
        got := got + m.body[..SegmentLength(m)];
        if Bit(m.command, 1) {
          r, notLast := Parameter(got), false;
        }
      }
      toggle := 16 - toggle;
      k := k + 1;
    }
  }

  // ---------- round trip ----------

  /** A segment hands over the piece it was filled with, whether it is the last or not. */
  lemma SegmentRoundTrip(d: Download, offset: nat, toggle: bool)
    requires d.Valid() && offset < |d.parameter|
    ensures var m, next := d.SegmentMessage(offset, toggle), offset + d.SegmentSize(offset);
      && m.command / 32 % 8 == 0 && (Bit(m.command, 1) <==> next == |d.parameter|)
      && SegmentLength(m) <= |m.body| && m.body[..SegmentLength(m)] == d.parameter[offset..next]
  {
  }

  lemma {:induction false} SegmentsRoundTrip(d: Download, got: seq<Byte>, offset: nat, toggle: bool)
    requires d.Valid() && offset < |d.parameter|
    ensures ReadSegments(got, d.Segments(offset, toggle)) == Parameter(got + d.parameter[offset..])
    decreases |d.parameter| - offset
  {
    hide SegmentLength, d.SegmentMessage, d.Segments, d.SegmentSize, ReadSegments, Bit;
    SegmentRoundTrip(d, offset, toggle);
    d.SegmentsStep(offset, toggle);
    var next, ms := offset + d.SegmentSize(offset), d.Segments(offset, toggle);
    ReadStep(got, ms);
    if next < |d.parameter| {
      SegmentsRoundTrip(d, got + d.parameter[offset..next], next, !toggle);
      assert ms[1..] == d.Segments(next, !toggle);
      assert got + d.parameter[offset..next] + d.parameter[next..] == got + d.parameter[offset..];
    }
  }

  lemma ReadStep(got: seq<Byte>, ms: seq<Message>)
    requires ms != [] && ms[0].command / 32 % 8 == 0 && SegmentLength(ms[0]) <= |ms[0].body|
    ensures var next := got + ms[0].body[..SegmentLength(ms[0])];
      ReadSegments(got, ms) == if Bit(ms[0].command, 1) then Parameter(next) else ReadSegments(next, ms[1..])
  {
    hide SegmentLength, Bit;
  }

  lemma InitRoundTrip(d: Download)
    requires d.Valid()
    ensures var m, p := d.InitMessage(), d.FirstSize();
      && |m.body| >= 7 + p && !Bit(m.command, 2) && Signed32(m.body[3..7]) == |d.parameter|
      && Less(m.length, 10) == p && m.body[7..][..p] == d.parameter[..p]
  {
    Le32RoundTrip(|d.parameter|);
    var head := d.Header() + Le32(|d.parameter|);
    var m, p := d.InitMessage(), d.FirstSize();
    assert m.body[..|head| + p] == head + d.parameter[..p];
    assert m.body[3..7] == Le32(|d.parameter|);
  }

  lemma ExpeditedRoundTrip(d: Download, capacity: nat)
    requires d.Valid() && d.Expedited() && capacity >= |d.parameter|
    ensures ReadParameter([d.ExpeditedMessage()], capacity)
      == if d.parameter != [] then Parameter(d.parameter)
         else if capacity >= 4 then Parameter([0, 0, 0, 0])
         else TooLarge
  {
    var m := d.ExpeditedMessage();
    var n := if d.parameter == [] then 4 else |d.parameter|;
    assert m.command / 4 % 4 == 4 - n && Bit(m.command, 2);
    assert |m.body| >= 7 && m.body[..3 + |d.parameter|] == d.Header() + d.parameter;
  }

  /** Main result. The parameter written is the parameter read, in one message or in any number of segments, exactly
    * if it is not an empty one sent expedited: there is no way to say that all four bytes are unused. */
  lemma RoundTrip(d: Download, capacity: nat)
    requires d.Valid() && capacity >= |d.parameter|
    ensures ReadParameter(d.Messages(), capacity) == Parameter(d.parameter)
      <==> d.parameter != [] || d.completeAccess
  {
    if d.Expedited() {
      ExpeditedRoundTrip(d, capacity);
      hide d.ExpeditedMessage, ReadParameter;
    } else {
      NormalRoundTrip(d, capacity);
    }
  }

  /** What is put together when the first message arrives and then `rest`. */
  lemma ReadNormal(d: Download, rest: seq<Message>, capacity: nat)
    requires d.Valid() && !d.Expedited() && capacity >= |d.parameter|
    ensures ReadParameter([d.InitMessage()] + rest, capacity)
      == if d.FirstSize() < |d.parameter| then ReadSegments(d.parameter[..d.FirstSize()], rest)
         else Parameter(d.parameter)
  {
    hide d.InitMessage, Signed32, Less, Bit, ReadSegments;
    InitRoundTrip(d);
    var ms := [d.InitMessage()] + rest;
    assert ms[0] == d.InitMessage() && ms[1..] == rest;
  }

  lemma NormalRoundTrip(d: Download, capacity: nat)
    requires d.Valid() && !d.Expedited() && capacity >= |d.parameter|
    ensures ReadParameter(d.Messages(), capacity) == Parameter(d.parameter)
  {
    hide d.InitMessage, d.SegmentMessage, d.Segments, ReadParameter, ReadSegments;
    var n := d.FirstSize();
    if n < |d.parameter| {
      ReadNormal(d, d.Segments(n, false), capacity);
      SegmentsRoundTrip(d, d.parameter[..n], n, false);
    } else {
      ReadNormal(d, [], capacity);
    }
  }

  // ---------- what arrives ----------

  /** The messages that reach the slave. */
  function Arrived(sent: seq<Message>, replies: seq<Reply>): seq<Message>
    requires |sent| <= |replies|
    decreases |sent|
  {
    if sent == [] then []
    else (if replies[0] == Unsent then [] else [sent[0]]) + Arrived(sent[1..], replies[1..])
  }

  /** Some of the first `n` segments arrive: they are put together to the rest of the parameter exactly if these are
    * all there are, and each arrives. What is put together never gets longer. */
  lemma {:induction false} SegmentsArrived(d: Download, got: seq<Byte>, offset: nat, toggle: bool, n: nat,
                                           rs: seq<Reply>)
    requires d.Valid() && offset < |d.parameter| && n <= |rs| && n <= |d.Segments(offset, toggle)|
    ensures var r := ReadSegments(got, Arrived(d.Segments(offset, toggle)[..n], rs));
      && (r.Parameter? ==> |r.value| <= |got| + |d.parameter| - offset)
      && (r == Parameter(got + d.parameter[offset..])
          <==> n == |d.Segments(offset, toggle)| && AllSent(rs, n))
    decreases n
  {
    hide SegmentLength, d.SegmentMessage, d.Segments, d.SegmentSize, ReadSegments, Bit, Arrived, AllSent;
    d.SegmentsStep(offset, toggle);
    var next, all := offset + d.SegmentSize(offset), d.Segments(offset, toggle);
    var ms := all[..n];
    if n == 0 {
      NothingArrived(got, ms, rs);
    } else {
      SegmentRoundTrip(d, offset, toggle);
      FirstArrived(got, ms, rs);
      FirstSent(rs, n);
      NoneSent(rs[1..]);
      var got' := got + d.parameter[offset..next];
      if next < |d.parameter| {
        assert all[1..] == d.Segments(next, !toggle) && ms[1..] == all[1..][..n - 1];
        SegmentsArrived(d, if rs[0] == Unsent then got else got', next, !toggle, n - 1, rs[1..]);
        assert got' + d.parameter[next..] == got + d.parameter[offset..];
      } else {
        assert ms[1..] == [];
        NothingArrived(got, ms[1..], rs[1..]);
        assert d.parameter[offset..next] == d.parameter[offset..];
      }
    }
  }

  /** The first `n` messages are sent. */
  predicate AllSent(replies: seq<Reply>, n: nat)
    requires n <= |replies|
  {
    forall k :: 0 <= k < n ==> replies[k] != Unsent
  }

  lemma NoneSent(replies: seq<Reply>)
    ensures AllSent(replies, 0)
  {
  }

  lemma FirstSent(replies: seq<Reply>, n: nat)
    requires 0 < n <= |replies|
    ensures AllSent(replies, n) <==> replies[0] != Unsent && AllSent(replies[1..], n - 1)
  {
    if replies[0] != Unsent && AllSent(replies[1..], n - 1) {
      forall k | 0 <= k < n ensures replies[k] != Unsent {
        assert k > 0 ==> replies[k] == replies[1..][k - 1];
      }
    }
  }

  lemma NothingArrived(got: seq<Byte>, ms: seq<Message>, rs: seq<Reply>)
    requires ms == []
    ensures Arrived(ms, rs) == [] && ReadSegments(got, []) == Incomplete
  {
  }

  /** What the first of some messages contributes. */
  lemma FirstArrived(got: seq<Byte>, ms: seq<Message>, rs: seq<Reply>)
    requires 0 < |ms| <= |rs|
    requires ms[0].command / 32 % 8 == 0 && SegmentLength(ms[0]) <= |ms[0].body|
    ensures var next, rest := got + ms[0].body[..SegmentLength(ms[0])], Arrived(ms[1..], rs[1..]);
      ReadSegments(got, Arrived(ms, rs))
        == if rs[0] == Unsent then ReadSegments(got, rest)
           else if Bit(ms[0].command, 1) then Parameter(next)
           else ReadSegments(next, rest)
  {
    hide SegmentLength, Bit, ReadSegments;
    var rest := Arrived(ms[1..], rs[1..]);
    if rs[0] != Unsent {
      ReadStep(got, [ms[0]] + rest);
      assert ([ms[0]] + rest)[1..] == rest;
    } else {
      assert [] + rest == rest;
    }
  }

  /** Main result. However a write ends, the slave has what it needs to put the parameter together exactly if no
    * message was left out, be it because the transfer stopped before, for want of a buffer, or because it was not
    * sent; the empty parameter sent expedited is the one exception. The result returned does not tell. */
  lemma ParameterArrives(d: Download, sent: seq<Message>, replies: seq<Reply>, ok: bool, capacity: nat)
    requires d.Valid() && |replies| >= |d.Messages()| && d.Over(sent, replies, ok) && capacity >= |d.parameter|
    ensures ReadParameter(Arrived(sent, replies), capacity) == Parameter(d.parameter)
      <==> |sent| == |d.Messages()| && AllSent(replies, |sent|) && (d.parameter != [] || d.completeAccess)
  {
    OverBegins(d, sent, replies, ok);
    hide *;
    FirstOf(d);
    FirstSent(replies, |sent|);
    NoneSent(replies[1..]);
    if replies[0] == Unsent {
      OneArrived(sent, replies, capacity);
    } else if d.Expedited() {
      ExpeditedRoundTrip(d, capacity);
      assert sent == [d.ExpeditedMessage()];
      OneArrived(sent, replies, capacity);
    } else {
      NormalArrived(d, sent, replies, capacity);
    }
  }

  lemma FirstOf(d: Download)
    requires d.Valid()
    ensures |d.Messages()| > 0 && (d.Expedited() ==> d.Messages() == [d.ExpeditedMessage()] && !d.completeAccess)
    ensures !d.Expedited() ==> d.parameter != [] || d.completeAccess
    ensures !d.Expedited() ==>
      d.Messages()
        == [d.InitMessage()] + if d.FirstSize() < |d.parameter| then d.Segments(d.FirstSize(), false) else []
  {
    hide d.InitMessage, d.ExpeditedMessage, d.Segments;
  }

  lemma OverBegins(d: Download, sent: seq<Message>, replies: seq<Reply>, ok: bool)
    requires d.Valid() && |replies| >= |d.Messages()| && d.Over(sent, replies, ok)
    ensures 0 < |sent| <= |d.Messages()| && sent == d.Messages()[..|sent|]
    ensures replies[0] == Unsent ==> |sent| == 1
  {
    hide d.Messages;
  }

  lemma OneArrived(sent: seq<Message>, replies: seq<Reply>, capacity: nat)
    requires |sent| == 1 <= |replies|
    ensures Arrived(sent, replies) == if replies[0] == Unsent then [] else sent
    ensures ReadParameter([], capacity) == Incomplete
  {
  }

  lemma NormalArrived(d: Download, sent: seq<Message>, replies: seq<Reply>, capacity: nat)
    requires d.Valid() && !d.Expedited() && capacity >= |d.parameter| && |replies| >= |d.Messages()|
    requires 0 < |sent| <= |d.Messages()| && sent == d.Messages()[..|sent|] && replies[0] != Unsent
    ensures ReadParameter(Arrived(sent, replies), capacity) == Parameter(d.parameter)
      <==> |sent| == |d.Messages()| && AllSent(replies, |sent|)
  {
    hide *;
    FirstOf(d);
    var n, all := d.FirstSize(), d.Messages();
    FirstKept(sent, replies);
    FirstSent(replies, |sent|);
    NoneSent(replies[1..]);
    var rest := Arrived(sent[1..], replies[1..]);
    ReadNormal(d, rest, capacity);
    if n < |d.parameter| {
      var segments := d.Segments(n, false);
      assert all[1..] == segments && sent[1..] == segments[..|sent| - 1];
      SegmentsArrived(d, d.parameter[..n], n, false, |sent| - 1, replies[1..]);
      assert d.parameter[..n] + d.parameter[n..] == d.parameter;
    }
  }

  lemma FirstKept(sent: seq<Message>, replies: seq<Reply>)
    requires 0 < |sent| <= |replies| && replies[0] != Unsent
    ensures Arrived(sent, replies) == [sent[0]] + Arrived(sent[1..], replies[1..])
  {
  }

  /** A transfer of 40 bytes whose second message is not sent: it goes on to its end and returns a positive working
    * counter, but the parameter cannot be put together. */
  lemma SilentLoss(capacity: nat)
    requires capacity >= 40
    ensures var d := Download(seq(40, _ => 1), 16, 0x8000, 0, false);
      var replies := [Accepted, Unsent] + seq(5, _ => Accepted);
      && d.Valid() && |replies| == |d.Messages()| && d.Over(d.Messages(), replies, true)
      && ReadParameter(Arrived(d.Messages(), replies), capacity) != Parameter(d.parameter)
  {
    var d := Download(seq(40, _ => 1), 16, 0x8000, 0, false);
    var replies := [Accepted, Unsent] + seq(5, _ => Accepted);
    SevenMessages(d);
    hide d.Messages, d.Valid, ReadParameter, Arrived;
    assert d.Messages()[..7] == d.Messages();
    ParameterArrives(d, d.Messages(), replies, true, capacity);
    assert replies[1] == Unsent;
  }

  lemma SevenMessages(d: Download)
    requires |d.parameter| == 40 && d.mailbox == 16
    ensures d.Valid() && |d.Messages()| == 7
  {
    hide d.SegmentMessage, d.Segments, d.InitMessage;
    d.SegmentsStep(0, false);
    d.SegmentsStep(7, true);
    d.SegmentsStep(14, false);
    d.SegmentsStep(21, true);
    d.SegmentsStep(28, false);
    d.SegmentsStep(35, true);
  }
}
