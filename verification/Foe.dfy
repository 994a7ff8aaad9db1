/** File access over EtherCAT: sending a file in numbered packets (`ecx_FOEwrite`) and receiving one
  * (`ecx_FOEread`). FoE is described in section 5.8 of ETG.1000.6. */
module Foe {
  import opened Basics

  datatype Packet = Packet(number: nat, data: seq<Byte>)

  /** What the slave has to say to a sender. `Other` is a mailbox of another kind, `Silence` none at all. */
  datatype Reply = Ack(number: int) | Busy | Error(code: nat) | Other | Silence

  /** `Positive` stands for a working counter above zero, `NoAnswer` for one that is not. */
  datatype Outcome = Positive | NoAnswer | PacketNumber | FileNotFound | ErrorReply | PacketError | TooSmall

  /** A reply and whether the mailbox that it calls for, if any, can be sent. */
  datatype Event = Event(reply: Reply, sendOk: bool)

  // ---------- a file and its packets ----------

  /** A file, and how much of it fits into a packet. */
  datatype Source = Source(file: seq<Byte>, maxdata: nat)
  {
    predicate Valid() {
      maxdata > 0
    }

    function Count(): (n: nat)
      requires Valid()
      ensures n > 0
    {
      |file| / maxdata + 1
    }

    /** How much of the file `n` packets carry. */
    function Reach(n: nat): (r: nat)
      ensures r <= |file|
    {
      if n * maxdata <= |file| then n * maxdata else |file|
    }

    lemma ReachGrows(n: nat)
      ensures Reach(n) <= Reach(n + 1)
    {
      assert (n + 1) * maxdata == n * maxdata + maxdata;
    }

    lemma ReachStep(n: nat)
      requires Valid() && n < Count()
      ensures Reach(n) == n * maxdata
      ensures Reach(n + 1) == if |file| - Reach(n) > maxdata then Reach(n) + maxdata else |file|
      ensures n + 1 < Count() <==> Reach(n) + maxdata <= |file|
      ensures n + 1 == Count() ==> Reach(n + 1) == |file|
    {
      var q := |file| / maxdata;
      assert n * maxdata <= q * maxdata <= |file|;
      assert (n + 1) * maxdata == n * maxdata + maxdata;
      assert n + 1 > q ==> n == q && |file| < q * maxdata + maxdata;
      assert n + 1 <= q ==> (n + 1) * maxdata <= q * maxdata;
    }

    /** The `n`-th packet, counted from 1. */
    function Chunk(n: nat): Packet
      requires n > 0
    {
      ReachGrows(n - 1);
      Packet(n, file[Reach(n - 1)..Reach(n)])
    }

    /** All but the last packet are full; the last one never is. */
    lemma LastIsShort(n: nat)
      requires Valid() && 0 < n <= Count()
      ensures if n < Count() then |Chunk(n).data| == maxdata else |Chunk(n).data| < maxdata
    {
      ReachStep(n - 1);
    }

    /** The packets from the `n`-th on. */
    function Chunks(n: nat): seq<Packet>
      requires Valid() && n > 0
      decreases Count() + 1 - n
    {
      if n > Count() then [] else [Chunk(n)] + Chunks(n + 1)
    }

    // ---------- what a transfer should be ----------

    /** A transfer after `n` packets. An acknowledgement calls for the next one, or ends the transfer if there is
      * none; a busy slave gets the same one again, unless there is nothing in it. */
    function Transfer(n: nat, events: seq<Event>): (r: (seq<Packet>, Outcome))
      requires Valid() && n <= Count()
      decreases |events|
    {
      if events == [] then ([], NoAnswer)
      else
        match events[0].reply
        case Ack(k) =>
          if k != n then ([], PacketNumber)
          else if n == Count() then ([], Positive)
          else After(n + 1, events)
        case Busy =>
          if n == 0 || Chunk(n).data == [] then ([], Positive) else After(n, events)
        case Error(code) => ([], if code == 0x8001 then FileNotFound else ErrorReply)
        case Other => ([], PacketError)
        case Silence => ([], NoAnswer)
    }

    /** A transfer that goes on by sending the `n`-th packet. */
    function After(n: nat, events: seq<Event>): (r: (seq<Packet>, Outcome))
      requires Valid() && 0 < n <= Count() && events != []
      decreases |events|, 0
    {
      if events[0].sendOk then
        var (ps, o) := Transfer(n, events[1..]);
        ([Chunk(n)] + ps, o)
      else ([Chunk(n)], NoAnswer)
    }

    // ---------- the variables of the sender ----------

    /** The variables agree with `n` packets having been sent. */
    ghost predicate Holds(n: nat, psize: int, p: int, segmentdata: int, dofinalzero: bool) {
      && Valid() && n <= Count() && psize == |file| - Reach(n) && p == Reach(n)
      && (if n == 0 then segmentdata == 0 && dofinalzero
          else segmentdata == |Chunk(n).data| && (dofinalzero <==> psize == 0 && segmentdata == maxdata))
    }

    /** The condition for sending another packet. */
    lemma More(n: nat, psize: int, p: int, segmentdata: int, dofinalzero: bool)
      requires Holds(n, psize, p, segmentdata, dofinalzero)
      ensures psize >= 0
      ensures psize > 0 || dofinalzero <==> n < Count()
    {
      if n > 0 {
        ReachStep(n - 1);
        ReachGrows(n - 1);
      }
      if n < Count() {
        ReachStep(n);
      }
    }

    lemma Prepared(n: nat, psize: int, p: int)
      requires Valid() && n < Count() && psize == |file| - Reach(n) && p == Reach(n)
      ensures var t := if psize > maxdata then maxdata else psize;
        0 <= p <= p + t <= |file| && Chunk(n + 1) == Packet(n + 1, file[p..p + t])
        && Holds(n + 1, psize - t, p + t, t, psize - t == 0 && t == maxdata)
    {
      ReachStep(n);
    }

    /** Taking the last packet back. */
    lemma Undone(n: nat, psize: int, p: int, segmentdata: int, dofinalzero: bool)
      requires Holds(n, psize, p, segmentdata, dofinalzero) && n > 0
      ensures psize + segmentdata == |file| - Reach(n - 1) && p - segmentdata == Reach(n - 1)
      ensures psize + segmentdata > 0 || dofinalzero <==> Chunk(n).data != []
    {
      ReachStep(n - 1);
      ReachGrows(n - 1);
    }

    lemma TransferStep(n: nat, events: seq<Event>)
      requires Valid() && n <= Count() && events != []
      ensures var e, t := events[0], Transfer(n, events);
        && (e.reply.Ack? ==> t == if e.reply.number != n then ([], PacketNumber)
                                  else if n == Count() then ([], Positive)
                                  else After(n + 1, events))
        && (e.reply.Busy? ==> t == if n == 0 || Chunk(n).data == [] then ([], Positive) else After(n, events))
        && (e.reply.Error? ==> t == ([], if e.reply.code == 0x8001 then FileNotFound else ErrorReply))
        && (e.reply.Other? ==> t == ([], PacketError))
        && (e.reply.Silence? ==> t == ([], NoAnswer))
    {
      hide After, Chunk;
    }

    /** The sender has sent `sent`, the `n`-th packet last; `wkc` is what it would return if it stopped. */
    ghost predicate Underway(all: seq<Event>, rest: seq<Event>, sent: seq<Packet>, n: nat, work: bool, wkc: Outcome) {
      && Valid() && n <= Count()
      && Transfer(0, all) == if work then (sent + Transfer(n, rest).0, Transfer(n, rest).1) else (sent, wkc)
    }

    lemma Sends(all: seq<Event>, rest: seq<Event>, sent: seq<Packet>, n: nat, m: nat, wkc: Outcome)
      requires rest != [] && Valid() && 0 < m <= Count() && Underway(all, rest, sent, n, true, wkc)
      requires Transfer(n, rest) == After(m, rest)
      ensures Underway(all, rest[1..], sent + [Chunk(m)], m, rest[0].sendOk,
        if rest[0].sendOk then Positive else NoAnswer)
    {
      hide Transfer, Chunk;
      if rest[0].sendOk {
        assert sent + ([Chunk(m)] + Transfer(m, rest[1..]).0) == sent + [Chunk(m)] + Transfer(m, rest[1..]).0;
      }
    }

    lemma Stops(all: seq<Event>, rest: seq<Event>, sent: seq<Packet>, n: nat, n': nat, wkc: Outcome, o: Outcome)
      requires rest != [] && Underway(all, rest, sent, n, true, wkc) && Transfer(n, rest) == ([], o) && n' <= Count()
      ensures Underway(all, rest[1..], sent, n', false, o)
    {
      hide Transfer;
      assert sent + [] == sent;
    }
  }

  /** `ecx_FOEwrite`, once the request is sent, to a slave with the given mailbox length. */
  method FoeWrite(file: seq<Byte>, mailbox: nat, events: seq<Event>) returns (sent: seq<Packet>, wkc: Outcome)
    requires mailbox > 12
    ensures (sent, wkc) == Source(file, mailbox - 12).Transfer(0, events)
  {
    hide *;
    var maxdata := mailbox - 12;
    ghost var s := Source(file, maxdata);
    var psize, p, sendpacket: nat, segmentdata, dofinalzero := |file|, 0, 0, 0, true;
    var worktodo, k := true, 0;
    sent, wkc := [], NoAnswer;
    Begin(s, events);
    while worktodo && k < |events|
      invariant k <= |events|
      invariant s.Underway(events, events[k..], sent, sendpacket, worktodo, wkc)
      invariant worktodo ==> s.Holds(sendpacket, psize, p, segmentdata, dofinalzero)
      decreases worktodo, |events| - k
    {
      ghost var rest := events[k..];
      assert rest[0] == events[k] && rest[1..] == events[k + 1..];
      Bounds(s, events, rest, sent, sendpacket, wkc);
      s.TransferStep(sendpacket, rest);
      worktodo := false;
      match events[k].reply {
        case Ack(packetnumber) =>
          if packetnumber == sendpacket {
            s.More(sendpacket, psize, p, segmentdata, dofinalzero);
            if psize > 0 || dofinalzero {
              Opened(s, sendpacket, psize, p, segmentdata, dofinalzero);
              s.Sends(events, rest, sent, sendpacket, sendpacket + 1, wkc);
              var packet;
              packet, psize, p, segmentdata, dofinalzero := Send(file, maxdata, psize, p, sendpacket);
              sendpacket := sendpacket + 1;
              sent := sent + [packet];
              worktodo := events[k].sendOk;
              wkc := if worktodo then Positive else NoAnswer;
            } else {
              s.Stops(events, rest, sent, sendpacket, sendpacket, wkc, Positive);
              wkc := Positive;
            }
          } else {
            s.Stops(events, rest, sent, sendpacket, sendpacket, wkc, PacketNumber);
            wkc := PacketNumber;
          }
        case Busy =>
          if sendpacket > 0 {
            s.Undone(sendpacket, psize, p, segmentdata, dofinalzero);
            psize, p := psize + segmentdata, p - segmentdata;
            sendpacket := sendpacket - 1;
            if psize > 0 || dofinalzero {
              s.Sends(events, rest, sent, sendpacket + 1, sendpacket + 1, wkc);
              var packet;
              packet, psize, p, segmentdata, dofinalzero := Send(file, maxdata, psize, p, sendpacket);
              sendpacket := sendpacket + 1;
              sent := sent + [packet];
              worktodo := events[k].sendOk;
              wkc := if worktodo then Positive else NoAnswer;
            } else {
              s.Stops(events, rest, sent, sendpacket + 1, sendpacket, wkc, Positive);
              wkc := Positive;
            }
          } else {
            s.Stops(events, rest, sent, sendpacket, sendpacket, wkc, Positive);
            wkc := Positive;
          }
        case Error(code) =>
          wkc := if code == 0x8001 then FileNotFound else ErrorReply;
          s.Stops(events, rest, sent, sendpacket, sendpacket, Positive, wkc);
        case Other =>
          s.Stops(events, rest, sent, sendpacket, sendpacket, wkc, PacketError);
          wkc := PacketError;
        case Silence =>
          s.Stops(events, rest, sent, sendpacket, sendpacket, wkc, NoAnswer);
          wkc := NoAnswer;
      }
      k := k + 1;
    }
    if worktodo {
      Bounds(s, events, events[k..], sent, sendpacket, wkc);
      wkc := NoAnswer;
    }
    Finish(s, events, events[k..], sent, sendpacket, worktodo, wkc);
  }

  lemma Begin(s: Source, events: seq<Event>)
    requires s.maxdata > 0
    ensures s.Underway(events, events[0..], [], 0, true, NoAnswer) && s.Holds(0, |s.file|, 0, 0, true)
  {
    assert events[0..] == events && [] + s.Transfer(0, events).0 == s.Transfer(0, events).0;
  }

  lemma Bounds(s: Source, events: seq<Event>, rest: seq<Event>, sent: seq<Packet>, n: nat, wkc: Outcome)
    requires s.Underway(events, rest, sent, n, true, wkc)
    ensures s.Valid() && n <= s.Count() && forall o :: s.Underway(events, rest, sent, n, true, o)
  {
  }

  lemma Opened(s: Source, n: nat, psize: int, p: int, segmentdata: int, dofinalzero: bool)
    requires s.Holds(n, psize, p, segmentdata, dofinalzero)
    ensures psize == |s.file| - s.Reach(n) && p == s.Reach(n)
  {
  }

  lemma Finish(s: Source, events: seq<Event>, rest: seq<Event>, sent: seq<Packet>, n: nat, work: bool, wkc: Outcome)
    requires s.Underway(events, rest, sent, n, work, wkc) && (work ==> rest == [] && wkc == NoAnswer)
    ensures s.Valid() && (sent, wkc) == s.Transfer(0, events)
  {
    assert sent + [] == sent;
  }

  /** The filling of one data packet. */
  method Send(file: seq<Byte>, maxdata: nat, psize: int, p: int, n: nat)
      returns (packet: Packet, psize': int, p': int, segmentdata: int, dofinalzero: bool)
    requires var s := Source(file, maxdata);
      s.Valid() && n < s.Count() && psize == |file| - s.Reach(n) && p == s.Reach(n)
    ensures var s := Source(file, maxdata);
      packet == s.Chunk(n + 1) && s.Holds(n + 1, psize', p', segmentdata, dofinalzero)
  {
    hide *;
    Source(file, maxdata).Prepared(n, psize, p);
    segmentdata := if psize > maxdata then maxdata else psize;
    psize' := psize - segmentdata;
    dofinalzero := psize' == 0 && segmentdata == maxdata;
    packet := Packet(n + 1, file[p..p + segmentdata]);
    p' := p + segmentdata;
  }

  // ---------- what every transfer keeps ----------

  /** Every packet sent is the piece of the file that its number says, and numbers go up by one or stay. */
  lemma {:induction false} PacketsAreChunks(s: Source, n: nat, events: seq<Event>)
    requires s.Valid() && n <= s.Count()
    ensures var sent := s.Transfer(n, events).0;
      && (forall k :: 0 <= k < |sent| ==> 0 < sent[k].number <= s.Count() && sent[k] == s.Chunk(sent[k].number))
      && (forall k :: 0 < k < |sent| ==> sent[k - 1].number <= sent[k].number <= sent[k - 1].number + 1)
      && (sent != [] ==> n <= sent[0].number <= n + 1)
    decreases |events|
  {
    hide s.Transfer, s.After, s.Chunk, s.Count;
    if events == [] {
      NothingTransferred(s, n);
    } else {
      s.TransferStep(n, events);
      if events[0].reply == Ack(n) && n < s.Count() {
        PacketsAreChunks(s, n + 1, events[1..]);
        AfterSends(s, n + 1, events);
      } else if events[0].reply == Busy && n > 0 && s.Chunk(n).data != [] {
        PacketsAreChunks(s, n, events[1..]);
        AfterSends(s, n, events);
      }
    }
  }

  lemma NothingTransferred(s: Source, n: nat)
    requires s.Valid() && n <= s.Count()
    ensures s.Transfer(n, []).0 == []
  {
  }

  lemma AfterSends(s: Source, n: nat, events: seq<Event>)
    requires s.Valid() && 0 < n <= s.Count() && events != []
    ensures s.After(n, events).0 == [s.Chunk(n)] + if events[0].sendOk then s.Transfer(n, events[1..]).0 else []
    ensures s.Chunk(n).number == n
  {
    hide s.Transfer;
  }

  /** The packets that the slave takes: those it acknowledges. */
  function Taken(s: Source, n: nat, events: seq<Event>): seq<Packet>
    requires s.Valid() && n <= s.Count()
    decreases |events|
  {
    if events == [] then []
    else
      match events[0].reply
      case Ack(k) =>
        (if k == n > 0 then [s.Chunk(n)] else [])
        + if k == n < s.Count() && events[0].sendOk then Taken(s, n + 1, events[1..]) else []
      case Busy =>
        if n > 0 && s.Chunk(n).data != [] && events[0].sendOk then Taken(s, n, events[1..]) else []
      case _ => []
  }

  /** The replies with which a transfer is over early although a positive working counter is returned: busy before
    * the first packet, and busy after the empty one that ends a file of whole packets. */
  ghost predicate EndsBusy(s: Source, n: nat, events: seq<Event>)
    requires s.Valid() && n <= s.Count()
    decreases |events|
  {
    && events != []
    && match events[0].reply
       case Ack(k) => k == n < s.Count() && events[0].sendOk && EndsBusy(s, n + 1, events[1..])
       case Busy => n == 0 || s.Chunk(n).data == [] || (events[0].sendOk && EndsBusy(s, n, events[1..]))
       case _ => false
  }

  /** A positive result means that the slave has taken the whole file, each packet once and in order, except exactly
    * when a busy reply ended the transfer early. */
  lemma {:induction false} PositiveMeansTaken(s: Source, n: nat, events: seq<Event>)
    requires s.Valid() && n <= s.Count() && s.Transfer(n, events).1 == Positive
    ensures EndsBusy(s, n, events) <==> Taken(s, n, events) != s.Chunks(if n == 0 then 1 else n)
    decreases |events|
  {
    hide *;
    PositiveStep(s, n, events);
    TakenStep(s, n, events);
    EndsBusyStep(s, n, events);
    ChunksStep(s, n);
    if events[0].reply == Ack(n) {
      if n < s.Count() {
        PositiveMeansTaken(s, n + 1, events[1..]);
        CancelFirst(s, n, Taken(s, n + 1, events[1..]), s.Chunks(n + 1));
      }
    } else if n > 0 && s.Chunk(n).data != [] {
      PositiveMeansTaken(s, n, events[1..]);
    }
  }

  /** A slave that is busy at once: nothing is sent of the file, whatever is in it, and the result is positive. */
  lemma BusyAtOnce(s: Source, sendOk: bool)
    requires s.Valid()
    ensures s.Transfer(0, [Event(Busy, sendOk)]) == ([], Positive) && EndsBusy(s, 0, [Event(Busy, sendOk)])
    ensures Taken(s, 0, [Event(Busy, sendOk)]) == [] != s.Chunks(1)
  {
    hide s.Chunk;
    ChunksStep(s, 1);
  }

  /** A slave that is busy after the empty packet that ends a file of one whole packet: the packet before is taken,
    * the empty one is not sent again, and the result is positive. */
  lemma BusyAtTheEnd(s: Source, events: seq<Event>)
    requires s.Valid() && |s.file| == s.maxdata && |events| == 3
    requires events[0] == Event(Ack(0), true) && events[1] == Event(Ack(1), true) && events[2].reply == Busy
    ensures s.Transfer(0, events) == ([s.Chunk(1), s.Chunk(2)], Positive) && EndsBusy(s, 0, events)
    ensures Taken(s, 0, events) == [s.Chunk(1)] && s.Chunks(1) == [s.Chunk(1), s.Chunk(2)]
  {
    WholePacket(s);
    var later, last := events[1..], events[1..][1..];
    assert last[0] == events[2];
    s.TransferStep(2, last);
    s.TransferStep(1, later);
    s.TransferStep(0, events);
    assert s.Transfer(2, last) == ([], Positive) && later[0] == events[1] && later[1..] == last;
    assert [s.Chunk(2)] + [] == [s.Chunk(2)];
    assert s.After(2, later) == ([s.Chunk(2)], Positive);
    assert [s.Chunk(1)] + [s.Chunk(2)] == [s.Chunk(1), s.Chunk(2)];
    assert s.After(1, events) == ([s.Chunk(1), s.Chunk(2)], Positive);
    hide s.Chunk, s.Transfer, s.After, s.Count;
    TakenStep(s, 2, last);
    TakenStep(s, 1, later);
    TakenStep(s, 0, events);
    EndsBusyStep(s, 2, last);
    EndsBusyStep(s, 1, later);
    EndsBusyStep(s, 0, events);
    ChunksStep(s, 1);
    ChunksStep(s, 2);
    hide Taken, EndsBusy, s.Chunks;
  }

  lemma WholePacket(s: Source)
    requires s.Valid() && |s.file| == s.maxdata
    ensures s.Count() == 2 && s.Chunk(2).data == []
  {
  }

  /** How a transfer with a positive result goes on. */
  lemma PositiveStep(s: Source, n: nat, events: seq<Event>)
    requires s.Valid() && n <= s.Count() && s.Transfer(n, events).1 == Positive
    ensures events != [] && (events[0].reply == Ack(n) || events[0].reply == Busy)
    ensures events[0].reply == Ack(n) && n < s.Count() ==>
      events[0].sendOk && s.Transfer(n + 1, events[1..]).1 == Positive
    ensures events[0].reply == Busy && n > 0 && s.Chunk(n).data != [] ==>
      events[0].sendOk && s.Transfer(n, events[1..]).1 == Positive
  {
    hide s.Chunk;
  }

  lemma EndsBusyStep(s: Source, n: nat, events: seq<Event>)
    requires s.Valid() && n <= s.Count() && events != []
    ensures var e := events[0];
      && (e.reply == Ack(n) ==>
            (EndsBusy(s, n, events) <==> n < s.Count() && e.sendOk && EndsBusy(s, n + 1, events[1..])))
      && (e.reply == Busy ==>
            (EndsBusy(s, n, events)
             <==> n == 0 || s.Chunk(n).data == [] || (e.sendOk && EndsBusy(s, n, events[1..]))))
  {
    hide s.Chunk;
  }

  lemma CancelFirst(s: Source, n: nat, a: seq<Packet>, b: seq<Packet>)
    ensures a == b <==> (if n > 0 then [s.Chunk(n)] else []) + a == (if n > 0 then [s.Chunk(n)] else []) + b
  {
    var h := if n > 0 then [s.Chunk(n)] else [];
    assert (h + a)[|h|..] == a && (h + b)[|h|..] == b;
  }

  lemma ChunksStep(s: Source, n: nat)
    requires s.Valid() && n <= s.Count()
    ensures s.Chunks(n + 1) == [] <==> n == s.Count()
    ensures n > 0 ==> s.Chunks(n) == [s.Chunk(n)] + s.Chunks(n + 1)
  {
  }

  lemma TakenStep(s: Source, n: nat, events: seq<Event>)
    requires s.Valid() && n <= s.Count() && events != []
    ensures var e, t := events[0], Taken(s, n, events);
      && (e.reply == Ack(n) ==> t == (if n > 0 then [s.Chunk(n)] else [])
                                    + if n < s.Count() && e.sendOk then Taken(s, n + 1, events[1..]) else [])
      && (e.reply == Busy ==> t == if n > 0 && s.Chunk(n).data != [] && e.sendOk then Taken(s, n, events[1..]) else [])
      && (e.reply != Ack(n) && e.reply != Busy ==> t == [])
  {
    hide s.Chunk;
  }

  // ---------- receiving ----------

  /** What a receiver gets: a packet, or something else. */
  datatype Incoming = Data(packet: Packet, sendOk: bool) | Refusal | Foreign | Nothing

  /** The file as far as received, the packet numbers acknowledged, the result, and whether packets are to follow. */
  datatype Reading = Reading(file: seq<Byte>, acks: seq<nat>, wkc: Outcome, more: bool)

  /** The rules of the receiver for one mailbox after `prev` packets. */
  function Take(r: Reading, prev: nat, m: Incoming, maxdata: nat, capacity: nat): Reading {
    match m
    case Data(p, ok) =>
      if p.number == prev + 1 && |r.file| + |p.data| <= capacity then
        Reading(r.file + p.data, if ok then r.acks + [p.number] else r.acks,
                if ok then Positive else NoAnswer, ok && |p.data| == maxdata)
      else r.(wkc := TooSmall, more := false)
    case Refusal => r.(wkc := ErrorReply, more := false)
    case Foreign => r.(wkc := PacketError, more := false)
    case Nothing => r.(wkc := NoAnswer, more := false)
  }

  /** A packet out of turn, or one that does not fit any more, ends the reception; nothing of it is kept. */
  lemma TakeRefuses(r: Reading, prev: nat, p: Packet, sendOk: bool, maxdata: nat, capacity: nat)
    requires p.number != prev + 1 || |r.file| + |p.data| > capacity
    ensures var r' := Take(r, prev, Data(p, sendOk), maxdata, capacity);
      r'.file == r.file && r'.acks == r.acks && r'.wkc == TooSmall && !r'.more
  {
  }

  /** The data of packets, one behind the other. */
  function Joined(ms: seq<Incoming>): seq<Byte>
    requires forall k :: 0 <= k < |ms| ==> ms[k].Data?
  {
    if ms == [] then [] else Joined(ms[..|ms| - 1]) + ms[|ms| - 1].packet.data
  }

  /** The first `n` mailboxes are the packets that follow number `prev`, and all but the last of them full. */
  ghost predicate InTurn(ms: seq<Incoming>, prev: nat, n: nat, maxdata: nat) {
    && n <= |ms| && (forall k :: 0 <= k < n ==> ms[k].Data? && ms[k].packet.number == prev + k + 1)
    && forall k :: 0 <= k < n - 1 ==> |ms[k].packet.data| == maxdata && ms[k].sendOk
  }

  /** What is left of `r` after `n` packets in turn. */
  ghost predicate Gathered(r: Reading, prev: nat, ms: seq<Incoming>, n: nat, e: Reading, maxdata: nat, capacity: nat)
    requires InTurn(ms, prev, n, maxdata)
  {
    && e.file == r.file + Joined(ms[..n]) && |e.file| <= capacity && !e.more
    && e.acks == r.acks + Numbers(prev + 1, if n > 0 && !ms[n - 1].sendOk then prev + n - 1 else prev + n)
    && (e.wkc == Positive <==> n > 0 && ms[n - 1].sendOk && |ms[n - 1].packet.data| != maxdata)
  }

  /** And what has ended it, if more was to come. */
  ghost predicate EndedBy(prev: nat, ms: seq<Incoming>, n: nat, e: Reading, maxdata: nat, capacity: nat)
    requires InTurn(ms, prev, n, maxdata)
  {
    n == 0 || (ms[n - 1].sendOk && |ms[n - 1].packet.data| == maxdata) ==>
      if n == |ms| then e.wkc == NoAnswer
      else
        match ms[n]
        case Data(p, _) => e.wkc == TooSmall && (p.number != prev + n + 1 || |e.file| + |p.data| > capacity)
        case Refusal => e.wkc == ErrorReply
        case Foreign => e.wkc == PacketError
        case Nothing => e.wkc == NoAnswer
  }

  /** Main result on the receiver, whatever comes: the file is what the packets in turn bring, never more than the
    * buffer holds, and the result is positive exactly if the last of them was short and could be acknowledged. Each is
    * acknowledged by its number. What else ends the reception, the result says: a packet out of turn or too large, an
    * error, a mailbox of another kind, or none. */
  lemma {:induction false} ReceivedInTurn(r: Reading, prev: nat, ms: seq<Incoming>, maxdata: nat, capacity: nat)
      returns (n: nat)
    requires r.more && |r.file| <= capacity
    ensures InTurn(ms, prev, n, maxdata)
    ensures var e := Receive(r, prev, ms, maxdata, capacity);
      Gathered(r, prev, ms, n, e, maxdata, capacity) && EndedBy(prev, ms, n, e, maxdata, capacity)
    decreases |ms|
  {
    n := 0;
    if ms != [] {
      var r', rest := Take(r, prev, ms[0], maxdata, capacity), ms[1..];
      hide Gathered, EndedBy, InTurn, Joined, Take;
      ReceivedStep(r, prev, ms, maxdata, capacity);
      if InTurn(ms, prev, 1, maxdata) && r'.more {
        var m := ReceivedInTurn(r', prev + 1, rest, maxdata, capacity);
        ReceivedOn(r, prev, ms, m, maxdata, capacity);
        n := m + 1;
      } else {
        n := if Fitting(r, prev, ms[0], capacity) then 1 else 0;
      }
    }
  }

  predicate Fitting(r: Reading, prev: nat, m: Incoming, capacity: nat) {
    m.Data? && m.packet.number == prev + 1 && |r.file| + |m.packet.data| <= capacity
  }

  lemma ReceivedStep(r: Reading, prev: nat, ms: seq<Incoming>, maxdata: nat, capacity: nat)
    requires r.more && |r.file| <= capacity && ms != []
    ensures var r', n := Take(r, prev, ms[0], maxdata, capacity), if Fitting(r, prev, ms[0], capacity) then 1 else 0;
      && |r'.file| <= capacity && (r'.more ==> n == 1)
      && InTurn(ms, prev, n, maxdata)
      && (!r'.more ==> Gathered(r, prev, ms, n, r', maxdata, capacity) && EndedBy(prev, ms, n, r', maxdata, capacity))
  {
    assert ms[..1] == [ms[0]] && [ms[0]][..0] == [];
    assert ms[0].Data? ==> Joined([ms[0]]) == ms[0].packet.data;
    assert Numbers(prev + 1, prev) == [] && Numbers(prev + 1, prev + 1) == [prev + 1];
  }

  lemma ReceivedOn(r: Reading, prev: nat, ms: seq<Incoming>, m: nat, maxdata: nat, capacity: nat)
    requires r.more && ms != [] && Fitting(r, prev, ms[0], capacity)
    requires var r' := Take(r, prev, ms[0], maxdata, capacity);
      && r'.more && InTurn(ms[1..], prev + 1, m, maxdata)
      && var e := Receive(r', prev + 1, ms[1..], maxdata, capacity);
        && Gathered(r', prev + 1, ms[1..], m, e, maxdata, capacity)
        && EndedBy(prev + 1, ms[1..], m, e, maxdata, capacity)
    ensures InTurn(ms, prev, m + 1, maxdata)
    ensures var e := Receive(r, prev, ms, maxdata, capacity);
      Gathered(r, prev, ms, m + 1, e, maxdata, capacity) && EndedBy(prev, ms, m + 1, e, maxdata, capacity)
  {
    var r', e := Take(r, prev, ms[0], maxdata, capacity), Receive(r, prev, ms, maxdata, capacity);
    assert e == Receive(r', prev + 1, ms[1..], maxdata, capacity);
    assert r'.file == r.file + ms[0].packet.data && r'.acks == r.acks + [prev + 1];
    assert ms[0].sendOk && |ms[0].packet.data| == maxdata;
    hide Receive, Take;
    InTurnOn(ms, prev, m, maxdata);
    GatheredOn(r, r', prev, ms, m, e, maxdata, capacity);
    EndedOn(prev, ms, m, e, maxdata, capacity);
  }

  lemma InTurnOn(ms: seq<Incoming>, prev: nat, m: nat, maxdata: nat)
    requires ms != [] && ms[0].Data? && ms[0].packet.number == prev + 1
    requires ms[0].sendOk && |ms[0].packet.data| == maxdata && InTurn(ms[1..], prev + 1, m, maxdata)
    ensures InTurn(ms, prev, m + 1, maxdata)
  {
    forall k | 0 < k <= m ensures ms[k] == ms[1..][k - 1] {
    }
  }

  lemma GatheredOn(r: Reading, r': Reading, prev: nat, ms: seq<Incoming>, m: nat, e: Reading, maxdata: nat,
                   capacity: nat)
    requires ms != [] && InTurn(ms[1..], prev + 1, m, maxdata) && InTurn(ms, prev, m + 1, maxdata) && ms[0].sendOk
    requires r'.file == r.file + ms[0].packet.data && r'.acks == r.acks + [prev + 1] && |ms[0].packet.data| == maxdata
    requires Gathered(r', prev + 1, ms[1..], m, e, maxdata, capacity)
    ensures Gathered(r, prev, ms, m + 1, e, maxdata, capacity)
  {
    hide Joined;
    var rest := ms[1..];
    assert ms[..m + 1] == [ms[0]] + rest[..m] && ms[m] == if m > 0 then rest[m - 1] else ms[0];
    JoinedFirst(ms[0], rest[..m]);
    var last := if m > 0 && !rest[m - 1].sendOk then prev + m else prev + m + 1;
    assert [prev + 1] + Numbers(prev + 2, last) == Numbers(prev + 1, last);
  }

  lemma EndedOn(prev: nat, ms: seq<Incoming>, m: nat, e: Reading, maxdata: nat, capacity: nat)
    requires ms != [] && InTurn(ms[1..], prev + 1, m, maxdata) && InTurn(ms, prev, m + 1, maxdata)
    requires EndedBy(prev + 1, ms[1..], m, e, maxdata, capacity)
    ensures EndedBy(prev, ms, m + 1, e, maxdata, capacity)
  {
    assert ms[m] == if m > 0 then ms[1..][m - 1] else ms[0];
    assert m + 1 < |ms| ==> ms[m + 1] == ms[1..][m];
  }

  lemma {:induction false} JoinedFirst(m: Incoming, ms: seq<Incoming>)
    requires m.Data? && forall k :: 0 <= k < |ms| ==> ms[k].Data?
    ensures Joined([m] + ms) == m.packet.data + Joined(ms)
    decreases |ms|
  {
    if ms == [] {
      assert [m] + ms == [m] && [m][..0] == [];
    } else {
      var init := ms[..|ms| - 1];
      JoinedFirst(m, init);
      assert ([m] + ms)[..|ms|] == [m] + init;
    }
  }

  function Receive(r: Reading, prev: nat, ms: seq<Incoming>, maxdata: nat, capacity: nat): Reading
    decreases |ms|
  {
    if !r.more then r
    else if ms == [] then r.(wkc := NoAnswer, more := false)
    else Receive(Take(r, prev, ms[0], maxdata, capacity), prev + 1, ms[1..], maxdata, capacity)
  }

  /** `ecx_FOEread`, once the request is sent. */
  method FoeRead(mailbox: nat, capacity: nat, ms: seq<Incoming>) returns (file: seq<Byte>, acks: seq<nat>, wkc: Outcome)
    requires mailbox > 12
    ensures Reading(file, acks, wkc, false) == Receive(Reading([], [], NoAnswer, true), 0, ms, mailbox - 12, capacity)
  {
    var maxdata, prevpacket: nat, worktodo, k := mailbox - 12, 0, true, 0;
    file, acks, wkc := [], [], NoAnswer;
    ghost var start := Reading([], [], NoAnswer, true);
    while worktodo && k < |ms|
      invariant k <= |ms| && (worktodo ==> prevpacket == k)
      invariant Receive(start, 0, ms, maxdata, capacity)
        == Receive(Reading(file, acks, wkc, worktodo), prevpacket, ms[k..], maxdata, capacity)
      decreases worktodo, |ms| - k
    {
      ghost var r := Reading(file, acks, wkc, worktodo);
      assert ms[k..][0] == ms[k] && ms[k..][1..] == ms[k + 1..];
      worktodo := false;
      match ms[k] {
        case Data(p, sendOk) =>
          if p.number == prevpacket + 1 && |file| + |p.data| <= capacity {
            file := file + p.data;
            worktodo := |p.data| == maxdata;
            if sendOk {
              acks := acks + [p.number];
            } else {
              worktodo := false;
            }
            wkc := if sendOk then Positive else NoAnswer;
          } else {
            wkc := TooSmall;
          }
        case Refusal => wkc := ErrorReply;
        case Foreign => wkc := PacketError;
        case Nothing => wkc := NoAnswer;
      }
      prevpacket := prevpacket + 1;
      assert Reading(file, acks, wkc, worktodo) == Take(r, prevpacket - 1, ms[k], maxdata, capacity);
      k := k + 1;
    }
    if worktodo {
      wkc := NoAnswer;
    }
  }

  // ---------- both sides together ----------

  function AsIncoming(ps: seq<Packet>): seq<Incoming> {
    seq(|ps|, k requires 0 <= k < |ps| => Data(ps[k], true))
  }

  /** The numbers from `n` to `m`. */
  function Numbers(n: nat, m: nat): (r: seq<nat>)
    ensures |r| == if n <= m then m + 1 - n else 0
  {
    seq(if n <= m then m + 1 - n else 0, k => n + k)
  }

  /** The packets of a file, received from the `n`-th on, give the file back; every one of them is acknowledged, and
    * the reception stops behind the last, whatever follows. */
  lemma {:induction false} ChunksRebuild(s: Source, n: nat, rest: seq<Incoming>, capacity: nat, wkc: Outcome)
    requires s.Valid() && 0 < n <= s.Count() && capacity >= |s.file|
    ensures Receive(Reading(s.file[..s.Reach(n - 1)], Numbers(1, n - 1), wkc, true), n - 1,
                    AsIncoming(s.Chunks(n)) + rest, s.maxdata, capacity)
      == Reading(s.file, Numbers(1, s.Count()), Positive, false)
    decreases s.Count() - n
  {
    hide s.Chunk, s.Chunks, s.Count;
    var r, ms := Reading(s.file[..s.Reach(n - 1)], Numbers(1, n - 1), wkc, true), AsIncoming(s.Chunks(n)) + rest;
    ChunksStep(s, n);
    TakeChunk(s, n, capacity, wkc);
    assert ms[0] == Data(s.Chunk(n), true);
    assert ms[1..] == AsIncoming(s.Chunks(n + 1)) + rest;
    if n < s.Count() {
      ChunksRebuild(s, n + 1, rest, capacity, Positive);
    } else {
      s.ReachStep(n - 1);
    }
  }

  lemma TakeChunk(s: Source, n: nat, capacity: nat, wkc: Outcome)
    requires s.Valid() && 0 < n <= s.Count() && capacity >= |s.file|
    ensures Take(Reading(s.file[..s.Reach(n - 1)], Numbers(1, n - 1), wkc, true), n - 1, Data(s.Chunk(n), true),
                 s.maxdata, capacity)
      == Reading(s.file[..s.Reach(n)], Numbers(1, n), Positive, n < s.Count())
  {
    s.ReachStep(n - 1);
    s.ReachGrows(n - 1);
    s.LastIsShort(n);
    assert s.file[..s.Reach(n - 1)] + s.file[s.Reach(n - 1)..s.Reach(n)] == s.file[..s.Reach(n)];
    assert Numbers(1, n - 1) + [n] == Numbers(1, n);
  }

  /** Main result. Whenever a transfer ends with a positive working counter, and not by a busy slave, the packets
    * that the slave took rebuild the file by the rules of the receiver, which stops behind them. */
  lemma RoundTrip(s: Source, events: seq<Event>, rest: seq<Incoming>, capacity: nat)
    requires s.Valid() && s.Transfer(0, events).1 == Positive && !EndsBusy(s, 0, events) && capacity >= |s.file|
    ensures Receive(Reading([], [], NoAnswer, true), 0, AsIncoming(Taken(s, 0, events)) + rest, s.maxdata, capacity)
      == Reading(s.file, Numbers(1, s.Count()), Positive, false)
  {
    PositiveMeansTaken(s, 0, events);
    ChunksRebuild(s, 1, rest, capacity, NoAnswer);
    assert Numbers(1, 0) == [];
  }
}
