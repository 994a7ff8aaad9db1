/** The transmit queue: a ring of slots addressed through tickets that stay put while entries rotate. */
module MailboxQueue {
  import opened Basics

  datatype State = Unused | Requested | Failed | Done

  /** One live queue slot as its users see it: to which slave, in which buffer, how far it got, whether
    * it is marked for removal, and the ticket that denotes it (none once it is marked). `id` tells
    * messages apart; the program has no such field. */
  datatype Entry = Entry(id: nat, slave: nat, mbx: Option<nat>, state: State, ticket: Option<nat>)
  {
    predicate Removed() {
      ticket == None
    }
  }

  // ---------- what the operations mean on the queue, the tail entry first ----------

  function Added(q: seq<Entry>, id: nat, slave: nat, mbx: nat, ticket: nat): seq<Entry> {
    q + [Entry(id, slave, Some(mbx), Requested, Some(ticket))]
  }

  function Marked(q: seq<Entry>, k: nat): seq<Entry>
    requires k < |q|
  {
    q[k := q[k].(ticket := None)]
  }

  function Rotated(q: seq<Entry>): seq<Entry>
    requires q != []
  {
    q[1..] + [q[0]]
  }

  /** The tail entry with a new state and buffer. */
  function Recorded(q: seq<Entry>, state: State, mbx: Option<nat>): seq<Entry>
    requires q != []
  {
    q[0 := q[0].(state := state, mbx := mbx)]
  }

  /** What becomes of the queue at the end of a handler turn: an entry marked for removal goes, any other
    * moves to the head unless the queue is full. */
  function Settled(q: seq<Entry>, n: nat): seq<Entry>
    requires q != []
  {
    if q[0].Removed() then q[1..] else if |q| == n then q else Rotated(q)
  }

  /** The place in the queue that a ticket denotes. */
  function Find(q: seq<Entry>, ticket: nat): (k: nat)
    ensures k <= |q|
    ensures k < |q| ==> q[k].ticket == Some(ticket)
    ensures forall i :: 0 <= i < k ==> q[i].ticket != Some(ticket)
  {
    if q == [] then 0 else if q[0].ticket == Some(ticket) then 0 else Find(q[1..], ticket) + 1
  }

  /** No two entries share a ticket. */
  ghost predicate TicketsDistinct(q: seq<Entry>) {
    forall i, j :: 0 <= i < j < |q| && q[i].ticket.Some? ==> q[j].ticket != q[i].ticket
  }

  /** The smallest ticket no entry holds. */
  ghost predicate IsFreshTicket(q: seq<Entry>, ticket: nat) {
    Find(q, ticket) == |q| && forall t :: 0 <= t < ticket ==> Find(q, t) < |q|
  }

  /** Live entries in place of tickets: if every ticket below `n` denotes an entry, there are `n` of them. */
  lemma TicketPigeonhole(q: seq<Entry>, n: nat)
    requires forall t :: 0 <= t < n ==> Find(q, t) < |q|
    ensures n <= |q|
  {
    var places := seq<nat>(n, t requires 0 <= t < n => Find(q, t));
    assert DistinctBelow(places, |q|);
    Pigeonhole(places, |q|);
  }

  // ---------- the ring ----------

  /** The fields of the queue structure. */
  datatype Ring = Ring(mbx: seq<Option<nat>>, state: seq<State>, remove: seq<bool>, ticket: seq<int>,
                       slave: seq<nat>, head: nat, tail: nat, count: nat)
  {
    ghost predicate Shape(n: nat) {
      && 0 < n == |mbx| == |state| == |remove| == |ticket| == |slave|
      && tail < n && count <= n && head == Around(tail, count, n)
    }
  }

  ghost predicate SlotHolds(r: Ring, n: nat, loc: nat, e: Entry)
    requires r.Shape(n) && loc < n
  {
    r.mbx[loc] == e.mbx && r.state[loc] == e.state && r.slave[loc] == e.slave
    && r.remove[loc] == e.Removed() && e.state != Unused
  }

  /** Live slots hold the entries of `q`; tickets and unmarked entries denote each other one to one. */
  ghost predicate Holds(r: Ring, n: nat, q: seq<Entry>) {
    && r.Shape(n) && r.count == |q| && TicketsDistinct(q)
    && (forall k :: 0 <= k < |q| ==> SlotHolds(r, n, Around(r.tail, k, n), q[k]))
    && (forall k :: 0 <= k < |q| && q[k].ticket.Some? ==>
         q[k].ticket.value < n && r.ticket[q[k].ticket.value] == Around(r.tail, k, n))
    && (forall t :: 0 <= t < n ==> r.ticket[t] == -1 || Find(q, t) < |q|)
  }

  /** A ticket points at the slot of an entry exactly when the entry holds it. */
  lemma TicketLocation(r: Ring, n: nat, q: seq<Entry>, t: nat, k: nat)
    requires Holds(r, n, q) && t < n && k < |q|
    ensures r.ticket[t] == Around(r.tail, k, n) <==> q[k].ticket == Some(t)
    ensures q[k].ticket == Some(t) ==> Find(q, t) == k
  {
    var i := Find(q, t);
    if i < |q| {
      assert r.ticket[t] == Around(r.tail, i, n);
    }
  }

  lemma AddedIs(q: seq<Entry>, id: nat, slave: nat, mbx: nat, ticket: nat)
    ensures Added(q, id, slave, mbx, ticket) == q + [Entry(id, slave, Some(mbx), Requested, Some(ticket))]
  {
  }

  /** As long as the queue is not full a ticket is free. */
  lemma TicketFree(r: Ring, n: nat, q: seq<Entry>, t: nat)
    requires Holds(r, n, q) && |q| < n && t <= n
    requires forall i :: 0 <= i < t ==> r.ticket[i] >= 0
    ensures t < n
    ensures r.ticket[t] < 0 ==> IsFreshTicket(q, t)
  {
    forall i | 0 <= i < t ensures Find(q, i) < |q| {
      assert r.ticket[i] >= 0;
    }
    TicketPigeonhole(q, t);
    if Find(q, t) < |q| {
      TicketLocation(r, n, q, t, Find(q, t));
    }
  }

  lemma {:induction false} FindAdded(q: seq<Entry>, e: Entry, t: nat)
    ensures Find(q + [e], t) == if Find(q, t) < |q| then Find(q, t) else if e.ticket == Some(t) then |q| else |q| + 1
  {
    if q != [] {
      assert (q + [e])[1..] == q[1..] + [e];
      FindAdded(q[1..], e, t);
    }
  }

  lemma AddHolds(r: Ring, n: nat, q: seq<Entry>, id: nat, slave: nat, m: nat, ticket: nat)
    requires Holds(r, n, q) && |q| < n && ticket < n && Find(q, ticket) == |q|
    ensures Holds(Ring(r.mbx[r.head := Some(m)], r.state[r.head := Requested], r.remove[r.head := false],
                       r.ticket[ticket := r.head], r.slave[r.head := slave],
                       Around(r.tail, r.count + 1, n), r.tail, r.count + 1),
                  n, Added(q, id, slave, m, ticket))
  {
    var e := Entry(id, slave, Some(m), Requested, Some(ticket));
    forall t | 0 <= t < n ensures Find(q + [e], t) < |q + [e]| <==> t == ticket || Find(q, t) < |q| {
      FindAdded(q, e, t);
    }
    forall k | 0 <= k < |q| && q[k].ticket.Some? ensures q[k].ticket.value != ticket {
      TicketLocation(r, n, q, q[k].ticket.value, k);
    }
  }

  lemma MarkHolds(r: Ring, n: nat, q: seq<Entry>, k: nat, ticket: nat)
    requires Holds(r, n, q) && k < |q| && q[k].ticket == Some(ticket)
    ensures Holds(r.(remove := r.remove[Around(r.tail, k, n) := true], ticket := r.ticket[ticket := -1]), n,
                  Marked(q, k))
  {
    var q' := Marked(q, k);
    forall t | 0 <= t < n && t != ticket && Find(q, t) < |q| ensures Find(q', t) < |q'| {
      var i := Find(q, t);
      assert q'[i].ticket == Some(t);
    }
  }

  lemma FindAtMost(q: seq<Entry>, t: nat, i: nat)
    requires i < |q| && q[i].ticket == Some(t)
    ensures Find(q, t) <= i
  {
  }

  /** Every ticket of one queue is also a ticket of the other. */
  ghost predicate KeepsTickets(q: seq<Entry>, q': seq<Entry>) {
    forall t {:trigger Find(q', t)} :: Find(q, t) < |q| ==> Find(q', t) < |q'|
  }

  lemma RotateKeepsTickets(q: seq<Entry>)
    requires q != []
    ensures KeepsTickets(q, Rotated(q))
  {
    forall t | Find(q, t) < |q| ensures Find(Rotated(q), t) < |q| {
      var i := Find(q, t);
      FindAtMost(Rotated(q), t, if i == 0 then |q| - 1 else i - 1);
    }
  }

  lemma RotateHolds(r: Ring, n: nat, q: seq<Entry>, ticket: nat)
    requires Holds(r, n, q) && 0 < |q| < n && q[0].ticket == Some(ticket) && ticket < n
    ensures Holds(Ring(r.mbx[r.head := r.mbx[r.tail]], r.state[r.head := r.state[r.tail]],
                       r.remove[r.head := r.remove[r.tail]], r.ticket[ticket := r.head],
                       r.slave[r.head := r.slave[r.tail]],
                       Around(r.head, 1, n), Around(r.tail, 1, n), r.count),
                  n, Rotated(q))
  {
    RotateKeepsTickets(q);
    var q' := Rotated(q);
    var tail' := Around(r.tail, 1, n);
    forall k | 0 <= k < |q| - 1 ensures Around(tail', k, n) == Around(r.tail, k + 1, n) && q'[k] == q[k + 1] {
    }
    assert Around(tail', |q| - 1, n) == r.head && q'[|q| - 1] == q[0];
    assert SlotHolds(r, n, Around(r.tail, 0, n), q[0]);
    forall k | 0 < k < |q| ensures q[k].ticket != Some(ticket) && Around(r.tail, k, n) != r.head {
    }
  }

  lemma DropHolds(r: Ring, n: nat, q: seq<Entry>)
    requires Holds(r, n, q) && q != [] && q[0].Removed()
    ensures Holds(r.(mbx := r.mbx[r.tail := None], state := r.state[r.tail := Unused],
                     remove := r.remove[r.tail := false], slave := r.slave[r.tail := 0],
                     tail := Around(r.tail, 1, n), count := r.count - 1),
                  n, q[1..])
  {
    var q' := q[1..];
    var tail' := Around(r.tail, 1, n);
    forall k | 0 <= k < |q'| ensures Around(tail', k, n) == Around(r.tail, k + 1, n) != r.tail {
    }
    forall t | Find(q, t) < |q| ensures Find(q', t) < |q'| {
      FindAtMost(q', t, Find(q, t) - 1);
    }
  }

  lemma RecordHolds(r: Ring, n: nat, q: seq<Entry>, state: State, m: Option<nat>)
    requires Holds(r, n, q) && q != [] && state != Unused
    ensures Holds(r.(mbx := r.mbx[r.tail := m], state := r.state[r.tail := state]), n, Recorded(q, state, m))
  {
    var q' := Recorded(q, state, m);
    forall t | Find(q, t) < |q| ensures Find(q', t) < |q'| {
      FindAtMost(q', t, Find(q, t));
    }
    assert SlotHolds(r, n, Around(r.tail, 0, n), q[0]);
  }

  lemma HoldsShape(r: Ring, n: nat, q: seq<Entry>)
    requires Holds(r, n, q)
    ensures r.Shape(n) && r.count == |q|
  {
  }

  lemma FreshTicketUnused(q: seq<Entry>, ticket: nat)
    requires IsFreshTicket(q, ticket)
    ensures Find(q, ticket) == |q|
  {
  }

  class MbxQueue {
    const size: nat
    const mbx: array<Option<nat>>
    const mbxstate: array<State>
    const mbxremove: array<bool>
    const mbxticket: array<int>
    const mbxslave: array<nat>
    var listhead: nat
    var listtail: nat
    var listcount: nat
    /** The live entries, the tail first. */
    ghost var Queue: seq<Entry>

    ghost const Repr: set<object> := {this, mbx, mbxstate, mbxremove, mbxticket, mbxslave}

    ghost function Slots(): Ring
      reads Repr
    {
      Ring(mbx[..], mbxstate[..], mbxremove[..], mbxticket[..], mbxslave[..], listhead, listtail, listcount)
    }

    ghost predicate Valid()
      reads Repr
    {
      mbxticket as object != mbxslave && Holds(Slots(), size, Queue)
    }

    /** `ecx_initmbxqueue`. */
    constructor (poolsize: nat)
      requires poolsize > 0
      ensures Valid() && size == poolsize && Queue == [] && fresh(Repr)
    {
      size := poolsize;
      mbx := new Option<nat>[poolsize];
      mbxstate := new State[poolsize];
      mbxremove := new bool[poolsize];
      mbxslave := new nat[poolsize];
      mbxticket := new int[poolsize](_ => -1);
      listhead := 0;
      listtail := 0;
      listcount := 0;
      Queue := [];
    }

    /** `ecx_mbxaddqueue`: the ticket of the new entry, or -1 when the queue is full. */
    method AddQueue(slave: nat, m: nat, ghost id: nat) returns (ticket: int)
      requires Valid()
      modifies Repr
      ensures Valid()
      ensures old(|Queue|) >= size ==> ticket == -1 && Queue == old(Queue)
      ensures old(|Queue|) < size ==>
        && 0 <= ticket < size && IsFreshTicket(old(Queue), ticket)
        && Queue == Added(old(Queue), id, slave, m, ticket)
        && Queue == old(Queue) + [Entry(id, slave, Some(m), Requested, Some(ticket))]
    {
      hide Holds, IsFreshTicket, Find, Added;
      ghost var r := Slots();
      HoldsShape(r, size, Queue);
      ticket := -1;
      if listcount < size {
        var ticketloc := listhead;
        ticket := FreeTicket();
        FreshTicketUnused(Queue, ticket);
        AddHolds(r, size, Queue, id, slave, m, ticket);
        mbxticket[ticket] := ticketloc;
        mbxslave[ticketloc] := slave;
        mbx[ticketloc] := Some(m);
        listhead := if listhead + 1 >= size then 0 else listhead + 1;
        mbxremove[ticketloc] := false;
        mbxstate[ticketloc] := Requested;
        listcount := listcount + 1;
        AddedIs(Queue, id, slave, m, ticket);
        Queue := Added(Queue, id, slave, m, ticket);
        assert Slots() == Ring(r.mbx[r.head := Some(m)], r.state[r.head := Requested], r.remove[r.head := false],
                       r.ticket[ticket := r.head], r.slave[r.head := slave],
                       Around(r.tail, r.count + 1, size), r.tail, r.count + 1);
      }
    }

    /** Its search for a ticket that is not in use. */
    method FreeTicket() returns (ticket: nat)
      requires Valid() && |Queue| < size
      ensures ticket < size && IsFreshTicket(Queue, ticket)
    {
      hide Holds, IsFreshTicket;
      HoldsShape(Slots(), size, Queue);
      ticket := 0;
      while ticket < size && mbxticket[ticket] >= 0
        invariant 0 <= ticket <= size
        invariant forall t :: 0 <= t < ticket ==> mbxticket[t] >= 0
      {
        ticket := ticket + 1;
      }
      TicketFree(Slots(), size, Queue, ticket);
    }

    /** `ecx_mbxdonequeue`, called with a ticket the caller was given and has not given back. */
    method DoneQueue(ticket: int) returns (done: bool)
      requires Valid() && (0 <= ticket < size ==> Find(Queue, ticket) < |Queue|)
      modifies Repr
      ensures Valid()
      ensures done == (0 <= ticket < size && old(Queue)[Find(old(Queue), ticket)].state == Done)
      ensures Queue == if done then Marked(old(Queue), Find(old(Queue), ticket)) else old(Queue)
      ensures done ==>
        var k := Find(old(Queue), ticket); Queue == old(Queue)[k := old(Queue)[k].(ticket := None)]
    {
      done := false;
      if 0 <= ticket < size {
        ghost var k := Find(Queue, ticket);
        LocateTicket(Slots(), size, Queue, ticket);
        if mbxstate[mbxticket[ticket]] == Done {
          Release(ticket, k);
          done := true;
        }
      }
    }

    /** `ecx_mbxexpirequeue`: on an outstanding ticket it always succeeds. */
    method ExpireQueue(ticket: int) returns (expired: bool)
      requires Valid() && (0 <= ticket < size ==> Find(Queue, ticket) < |Queue|)
      modifies Repr
      ensures Valid()
      ensures expired == (0 <= ticket < size)
      ensures Queue == if expired then Marked(old(Queue), Find(old(Queue), ticket)) else old(Queue)
      ensures expired ==>
        var k := Find(old(Queue), ticket); Queue == old(Queue)[k := old(Queue)[k].(ticket := None)]
    {
      expired := false;
      if 0 <= ticket < size {
        ghost var k := Find(Queue, ticket);
        LocateTicket(Slots(), size, Queue, ticket);
        if mbxstate[mbxticket[ticket]] != Unused {
          Release(ticket, k);
          expired := true;
        }
      }
    }

    /** Marks the entry of a ticket for removal and gives the ticket back. */
    method Release(ticket: nat, ghost k: nat)
      requires Valid() && ticket < size && k == Find(Queue, ticket) < |Queue|
      modifies Repr
      ensures Valid() && Queue == Marked(old(Queue), k)
    {
      ghost var r := Slots();
      LocateTicket(r, size, Queue, ticket);
      MarkHolds(r, size, Queue, k, ticket);
      hide Holds;
      mbxremove[mbxticket[ticket]] := true;
      mbxticket[ticket] := -1;
      Queue := Marked(Queue, k);
      assert Slots() == r.(remove := r.remove[Around(r.tail, k, size) := true], ticket := r.ticket[ticket := -1]);
    }

    /** `ecx_mbxrotatequeue`, always called with the tail. */
    method RotateQueue(ticketloc: nat) returns (ok: bool)
      requires Valid() && ticketloc == listtail
      modifies Repr
      ensures Valid()
      ensures ok == (|old(Queue)| == 0 || |old(Queue)| == size || !old(Queue)[0].Removed())
      ensures Queue == if 0 < |old(Queue)| < size && !old(Queue)[0].Removed() then Rotated(old(Queue)) else old(Queue)
      ensures Queue == old(Queue) || (old(Queue) != [] && Queue == old(Queue)[1..] + [old(Queue)[0]])
      ensures Queue == old(Queue) && (|Queue| == 0 || |Queue| == size || Queue[0].Removed()) ==> listtail == ticketloc
      ensures ticketloc < size && mbxremove[ticketloc] == old(mbxremove[ticketloc])
    {
      ghost var r := Slots();
      HoldsShape(r, size, Queue);
      hide Holds;
      ok := false;
      if listhead != listtail {
        var cnt := 0;
        while cnt < size && mbxticket[cnt] != ticketloc
          invariant 0 <= cnt <= size
          invariant forall t :: 0 <= t < cnt ==> mbxticket[t] != ticketloc
        {
          cnt := cnt + 1;
        }
        TailTicket(r, size, Queue, cnt);
        if cnt < size {
          MoveTail(cnt);
          ok := true;
        }
      } else {
        ok := true;
      }
    }

    /** The copying half of `ecx_mbxrotatequeue`. */
    method MoveTail(ticket: nat)
      requires Valid() && 0 < |Queue| < size && ticket < size && Queue[0].ticket == Some(ticket)
      modifies Repr
      ensures Valid() && Queue == Rotated(old(Queue))
      ensures old(listtail) < size && mbxremove[old(listtail)] == old(mbxremove[listtail])
    {
      hide Holds, Rotated, Find;
      ghost var r := Slots();
      HoldsShape(r, size, Queue);
      RotateHolds(r, size, Queue, ticket);
      var head, tail := listhead, listtail;
      mbxticket[ticket] := head;
      mbxremove[head] := mbxremove[tail];
      mbxstate[head] := mbxstate[tail];
      mbxslave[head] := mbxslave[tail];
      mbx[head] := mbx[tail];
      listhead := if listhead + 1 >= size then 0 else listhead + 1;
      listtail := if listtail + 1 >= size then 0 else listtail + 1;
      Queue := Rotated(Queue);
      assert mbxticket[..] == r.ticket[ticket := r.head];
      assert mbxremove[..] == r.remove[r.head := r.remove[r.tail]];
      assert mbxstate[..] == r.state[r.head := r.state[r.tail]];
      assert mbxslave[..] == r.slave[r.head := r.slave[r.tail]];
      assert mbx[..] == r.mbx[r.head := r.mbx[r.tail]];
      assert listhead == Around(r.head, 1, size) && listtail == Around(r.tail, 1, size);
    }

    /** The out-handler enters an outcome into the tail slot. */
    method Record(state: State, m: Option<nat>)
      requires Valid() && Queue != [] && state != Unused
      modifies Repr
      ensures Valid() && Queue == Recorded(old(Queue), state, m) && listtail == old(listtail)
      ensures Queue == old(Queue)[0 := old(Queue)[0].(state := state, mbx := m)]
    {
      ghost var r := Slots();
      HoldsShape(r, size, Queue);
      RecordHolds(r, size, Queue, state, m);
      hide Holds;
      mbxstate[listtail] := state;
      mbx[listtail] := m;
      Queue := Recorded(Queue, state, m);
      assert Slots() == r.(mbx := r.mbx[r.tail := m], state := r.state[r.tail := state]);
    }

    /** `ecx_mbxdropqueue`, called with the tail once its entry is marked for removal. */
    method DropQueue(ticketloc: nat) returns (m: Option<nat>)
      requires Valid() && ticketloc == listtail && Queue != [] && Queue[0].Removed()
      modifies Repr
      ensures Valid() && Queue == old(Queue)[1..] && m == old(Queue)[0].mbx
    {
      ghost var r := Slots();
      HoldsShape(r, size, Queue);
      TailSlot(r, size, Queue);
      DropHolds(r, size, Queue);
      hide Holds;
      mbxstate[ticketloc] := Unused;
      mbxremove[ticketloc] := false;
      mbxslave[ticketloc] := 0;
      m := mbx[ticketloc];
      mbx[ticketloc] := None;
      listtail := if listtail + 1 >= size then 0 else listtail + 1;
      listcount := listcount - 1;
      Queue := Queue[1..];
      assert Slots() == r.(mbx := r.mbx[r.tail := None], state := r.state[r.tail := Unused],
                     remove := r.remove[r.tail := false], slave := r.slave[r.tail := 0],
                     tail := Around(r.tail, 1, size), count := r.count - 1);
    }
  }

  lemma LocateTicket(r: Ring, n: nat, q: seq<Entry>, ticket: nat)
    requires Holds(r, n, q) && ticket < n && Find(q, ticket) < |q|
    ensures r.ticket[ticket] == Around(r.tail, Find(q, ticket), n) < n
    ensures SlotHolds(r, n, Around(r.tail, Find(q, ticket), n), q[Find(q, ticket)])
  {
  }

  lemma TailSlot(r: Ring, n: nat, q: seq<Entry>)
    requires Holds(r, n, q) && q != []
    ensures SlotHolds(r, n, r.tail, q[0])
  {
    assert SlotHolds(r, n, Around(r.tail, 0, n), q[0]);
  }

  /** The search for the ticket of the tail finds it exactly when the tail is not marked for removal. */
  lemma TailTicket(r: Ring, n: nat, q: seq<Entry>, cnt: nat)
    requires Holds(r, n, q) && r.head != r.tail && cnt <= n
    requires forall t :: 0 <= t < cnt ==> r.ticket[t] != r.tail
    requires cnt < n ==> r.ticket[cnt] == r.tail
    ensures 0 < |q| < n
    ensures if cnt < n then q[0].ticket == Some(cnt) else q[0].Removed()
  {
    if cnt < n {
      TicketLocation(r, n, q, cnt, 0);
    }
  }
}
