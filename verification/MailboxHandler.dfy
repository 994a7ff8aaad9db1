/** The cyclic handlers, running on the pool and the queue, take nothing but steps of the system. */
module MailboxHandler {
  import opened Basics
  import opened MailboxPool
  import opened MailboxQueue
  import opened MailboxSystem

  /** Pool and queue are in the state `s` of the system. */
  ghost predicate Shows(pool: MbxPool, queue: MbxQueue, s: Sys)
    reads pool, pool.mbxemptylist, queue.Repr
  {
    && pool.Valid() && queue.Valid() && {pool, pool.mbxemptylist} !! queue.Repr
    && s.free == pool.Free() && s.queue == queue.Queue
  }

  /** Every buffer of the pool, and no other, is in exactly one place. */
  ghost predicate Conserved(s: Sys, pool: nat) {
    forall b: nat :: Places(s, b) == if b < pool then 1 else 0
  }

  /** A buffer that is in a queue slot is not free. */
  lemma QueuedNotFree(s: Sys, pool: nat, k: nat)
    requires Conserved(s, pool) && k < |s.queue| && s.queue[k].mbx.Some?
    ensures s.queue[k].mbx.value < pool && s.queue[k].mbx.value !in s.free
  {
    var b := s.queue[k].mbx.value;
    InQueueUpdate(s.queue, k, s.queue[k].(mbx := None), b);
    assert Places(s, b) >= 1;
  }

  lemma ConservedStep(s: Sys, n: nat, step: Step, pool: nat)
    requires Conserved(s, pool)
    ensures Conserved(Apply(s, n, step), pool)
  {
    forall b: nat ensures Places(Apply(s, n, step), b) == Places(s, b) {
      StepConserves(s, n, step, b);
    }
  }

  /** The system is at rest between two turns of the out-handler. */
  ghost predicate AtRest(pool: MbxPool, queue: MbxQueue, s: Sys)
    reads pool, pool.mbxemptylist, queue.Repr
  {
    Shows(pool, queue, s) && Inv(s, queue.size) && Conserved(s, pool.size) && s.phase == Idle
  }

  /** The invariants carry over a step. */
  lemma Advance(s: Sys, n: nat, step: Step, pool: nat)
    requires Inv(s, n) && Conserved(s, pool)
    ensures Inv(Apply(s, n, step), n) && Conserved(Apply(s, n, step), pool)
  {
    StepInv(s, n, step);
    ConservedStep(s, n, step, pool);
  }

  /** What the slaves do during one call of the handler: turn by turn, whether the slave is in PRE_OP or above, the
    * working counter that the master gets for the frame sent to it, and, in case that tells of no success, whether
    * the frame reached it all the same. */
  datatype Reply = Reply(listening: bool, wkc: int, reached: bool)
  {
    function Fate(): Fate {
      if wkc > 0 then Acknowledged else if reached then AnswerLost else Lost
    }
  }

  /** A turn on the tail entry: if it was unsent and its slave could receive, a frame went out with the given fate. */
  function Turn(s: Sys, n: nat, sent: bool, fate: Fate): Sys {
    Apply(if sent then Apply(Apply(s, n, Answer(fate)), n, Enter) else Apply(s, n, Skip), n, Close)
  }

  /** The write to the slave and the entry of its outcome. */
  method SendTail(pool: MbxPool, queue: MbxQueue, reply: Reply, ghost s: Sys) returns (ghost s': Sys)
    requires AtRest(pool, queue, s) && s.queue != [] && s.queue[0].mbx.Some?
    modifies pool, pool.mbxemptylist, queue.Repr
    ensures Shows(pool, queue, s') && Inv(s', queue.size) && Conserved(s', pool.size)
    ensures s' == Apply(Apply(s, queue.size, Answer(reply.Fate())), queue.size, Enter) && s'.phase == Entered
    ensures queue.listtail == old(queue.listtail)
    ensures var e, e' := s.queue[0], queue.Queue[0];
      && |queue.Queue| == |s.queue| && queue.Queue[1..] == s.queue[1..]
      && e'.id == e.id && e'.slave == e.slave && e'.ticket == e.ticket
      && (reply.wkc > 0 ==> e'.state == Done && e'.mbx == None && pool.Free() == s.free + [e.mbx.value])
      && (reply.wkc <= 0 ==> e'.state == Failed && e'.mbx == e.mbx && pool.Free() == s.free)
  {
    var ticketloc := queue.listtail;
    ghost var n := queue.size;
    ghost var s1 := Apply(s, n, Answer(reply.Fate()));
    s' := Apply(s1, n, Enter);
    Advance(s, n, Answer(reply.Fate()), pool.size);
    Advance(s1, n, Enter, pool.size);
    HoldsShape(queue.Slots(), n, queue.Queue);
    TailSlot(queue.Slots(), n, queue.Queue);
    QueuedNotFree(s, pool.size, 0);
    hide Inv, Conserved, Holds, Find;
    var m := queue.mbx[ticketloc].value;
    if reply.wkc > 0 {
      var _ := pool.Drop(m);
      queue.Record(Done, None);
    } else {
      queue.Record(Failed, Some(m));
    }
  }

  /** The rotation, the removal check and the drop that close a turn. */
  method CloseTail(pool: MbxPool, queue: MbxQueue, ticketloc: nat, ghost s: Sys) returns (ghost s': Sys)
    requires Shows(pool, queue, s) && Inv(s, queue.size) && Conserved(s, pool.size)
    requires s.phase == Entered && s.queue != [] && ticketloc == queue.listtail
    modifies pool, pool.mbxemptylist, queue.Repr
    ensures AtRest(pool, queue, s') && s' == Apply(s, queue.size, Close)
  {
    hide Inv, Conserved, Holds, Apply, Find;
    ghost var n := queue.size;
    s' := Apply(s, n, Close);
    Advance(s, n, Close, pool.size);
    CloseBegins(s, n);
    TailSlot(queue.Slots(), n, queue.Queue);
    HoldsShape(queue.Slots(), n, queue.Queue);
    var _ := queue.RotateQueue(ticketloc);
    if queue.mbxremove[ticketloc] {
      DropTail(pool, queue, ticketloc, s);
    }
  }

  /** The drop of a tail entry marked for removal. */
  method DropTail(pool: MbxPool, queue: MbxQueue, ticketloc: nat, ghost s: Sys)
    requires Shows(pool, queue, s) && Conserved(s, pool.size)
    requires s.queue != [] && s.queue[0].Removed() && ticketloc == queue.listtail
    modifies pool, pool.mbxemptylist, queue.Repr
    ensures pool.Valid() && queue.Valid()
    ensures queue.Queue == s.queue[1..] && pool.Free() == s.free + Handed(s.queue[0].mbx)
  {
    if s.queue[0].mbx.Some? {
      QueuedNotFree(s, pool.size, 0);
    }
    hide Conserved, Holds;
    var m := queue.DropQueue(ticketloc);
    if m.Some? {
      var _ := pool.Drop(m.value);
    }
  }

  lemma CloseBegins(s: Sys, n: nat)
    requires s.phase == Entered && s.queue != []
    ensures Apply(s, n, Close) == CloseTurn(s, n)
  {
  }

  /** `ecx_mbxouthandler` on a queue nobody else touches meanwhile. */
  method OutHandler(pool: MbxPool, queue: MbxQueue, limit: int, replies: seq<Reply>, ghost s: Sys)
      returns (limitcnt: nat, turns: nat, ghost s': Sys)
    requires AtRest(pool, queue, s) && |replies| >= |s.queue|
    modifies pool, pool.mbxemptylist, queue.Repr
    ensures AtRest(pool, queue, s')
    ensures limitcnt <= (if limit < 0 then 0 else limit + 1) && limitcnt <= turns <= |s.queue|
    ensures limitcnt <= limit ==> turns == |s.queue|
    ensures s' == Turns(s, queue.size, replies, turns) && limitcnt == Tries(s, queue.size, replies, turns)
  {
    hide Inv, Conserved, Holds, Apply, Find, Turn;
    limitcnt, turns, s' := 0, 0, s;
    var listcount: nat := queue.listcount;
    HoldsShape(queue.Slots(), queue.size, queue.Queue);
    while limitcnt <= limit && listcount > 0
      invariant turns + listcount == |s.queue| && listcount <= |s'.queue|
      invariant AtRest(pool, queue, s') && s' == Turns(s, queue.size, replies, turns)
      invariant limitcnt == Tries(s, queue.size, replies, turns)
      invariant limitcnt <= turns && limitcnt <= (if limit < 0 then 0 else limit + 1)
    {
      listcount := listcount - 1;
      ghost var at := s';
      var unsent;
      unsent, s' := OutTurn(pool, queue, replies[turns], at);
      if unsent {
        limitcnt := limitcnt + 1;
      }
      turns := turns + 1;
    }
  }

  /** The state after the given number of turns. */
  function Turns(s: Sys, n: nat, replies: seq<Reply>, turns: nat): Sys
    requires turns <= |replies|
  {
    if turns == 0 then s
    else
      var s1 := Turns(s, n, replies, turns - 1);
      if s1.queue == [] then s1
      else Turn(s1, n, s1.queue[0].mbx.Some? && replies[turns - 1].listening, replies[turns - 1].Fate())
  }

  /** In how many of the turns there was a message to send. */
  function Tries(s: Sys, n: nat, replies: seq<Reply>, turns: nat): nat
    requires turns <= |replies|
  {
    if turns == 0 then 0
    else
      var q := Turns(s, n, replies, turns - 1).queue;
      Tries(s, n, replies, turns - 1) + if q != [] && q[0].mbx.Some? then 1 else 0
  }

  lemma SkipBegins(s: Sys, n: nat)
    requires s.phase == Idle && s.queue != []
    ensures Apply(s, n, Skip) == s.(phase := Entered)
  {
  }

  lemma TurnShrinks(s: Sys, n: nat, sent: bool, fate: Fate)
    requires s.phase == Idle && s.queue != [] && (sent ==> s.queue[0].mbx.Some?)
    ensures |Turn(s, n, sent, fate).queue| >= |s.queue| - 1
    ensures Turn(s, n, sent, fate).phase == Idle
  {
  }

  /** What a turn writes, and what it leaves alone. */
  lemma TurnWire(s: Sys, n: nat, sent: bool, fate: Fate)
    requires s.phase == Idle && s.queue != [] && (sent ==> s.queue[0].mbx.Some?)
    ensures var e, s' := s.queue[0], Turn(s, n, sent, fate);
      && s'.wire == s.wire + (if sent && fate != Lost
                              then [Write(e.id, e.slave, e.mbx.value, fate == Acknowledged)] else [])
      && s'.hands == s.hands && s'.inbox == s.inbox && s'.nextId == s.nextId
  {
  }

  /** One turn of the loop in `ecx_mbxouthandler`: the tail entry is written exactly if it is not yet sent and its slave
    * is listening. */
  method OutTurn(pool: MbxPool, queue: MbxQueue, reply: Reply, ghost s: Sys) returns (unsent: bool, ghost s': Sys)
    requires AtRest(pool, queue, s) && s.queue != []
    modifies pool, pool.mbxemptylist, queue.Repr
    ensures AtRest(pool, queue, s') && unsent == s.queue[0].mbx.Some?
    ensures s' == Turn(s, queue.size, unsent && reply.listening, reply.Fate())
    ensures |s'.queue| >= |s.queue| - 1
    ensures var e := s.queue[0];
      && s'.wire == s.wire + (if e.mbx.Some? && reply.listening && (reply.wkc > 0 || reply.reached)
                              then [Write(e.id, e.slave, e.mbx.value, reply.wkc > 0)] else [])
      && s'.hands == s.hands && s'.inbox == s.inbox && s'.nextId == s.nextId
  {
    TurnWire(s, queue.size, s.queue[0].mbx.Some? && reply.listening, reply.Fate());
    ghost var n := queue.size;
    HoldsShape(queue.Slots(), n, queue.Queue);
    TailSlot(queue.Slots(), n, queue.Queue);
    assert EntryGood(s, n, 0);
    SkipBegins(s, n);
    if s.queue[0].mbx.Some? {
      TurnShrinks(s, n, true, reply.Fate());
    }
    TurnShrinks(s, n, false, reply.Fate());
    hide Inv, Conserved, Holds, Apply, Find;
    var ticketloc := queue.listtail;
    var state := queue.mbxstate[ticketloc];
    unsent := state == Requested || state == Failed;
    if unsent && reply.listening {
      ghost var s1 := SendTail(pool, queue, reply, s);
      s' := CloseTail(pool, queue, ticketloc, s1);
    } else {
      Advance(s, n, Skip, pool.size);
      s' := CloseTail(pool, queue, ticketloc, Apply(s, n, Skip));
    }
  }

  // ---------- what one call of the out-handler achieves ----------

  /** There is room to move the tail entry on, or it is to go anyway. */
  predicate Moves(s: Sys, n: nat) {
    |s.queue| < n || s.queue == [] || s.queue[0].Removed()
  }

  /** What a turn with an answered frame does to a queue that moves. */
  lemma TurnMoves(s: Sys, n: nat, sent: bool)
    requires Inv(s, n) && s.phase == Idle && s.queue != [] && Moves(s, n) && sent == s.queue[0].mbx.Some?
    ensures var e, s' := s.queue[0], Turn(s, n, sent, Acknowledged);
      && s'.phase == Idle
      && s'.queue == if e.Removed() then s.queue[1..] else s.queue[1..] + [e.(state := Done, mbx := None)]
  {
    assert EntryGood(s, n, 0);
  }

  lemma TurnInv(s: Sys, n: nat, sent: bool, fate: Fate)
    requires Inv(s, n)
    ensures Inv(Turn(s, n, sent, fate), n)
  {
    if sent {
      StepInv(s, n, Answer(fate));
      StepInv(Apply(s, n, Answer(fate)), n, Enter);
      StepInv(Apply(Apply(s, n, Answer(fate)), n, Enter), n, Close);
    } else {
      StepInv(s, n, Skip);
      StepInv(Apply(s, n, Skip), n, Close);
    }
  }

  /** If the queue moves and every slave answers, as many turns as there are entries leave only sent messages, all in
    * the order they came in; entries marked for removal are gone. */
  lemma {:induction false} TurnsFlush(s: Sys, n: nat, replies: seq<Reply>, turns: nat)
    requires Inv(s, n) && s.phase == Idle && Moves(s, n) && turns <= |s.queue| <= |replies|
    requires forall i :: 0 <= i < turns ==> replies[i].listening && replies[i].wkc > 0
    ensures var s' := Turns(s, n, replies, turns);
      && Inv(s', n) && s'.phase == Idle && s'.queue == s.queue[turns..] + Flushed(s.queue[..turns])
    decreases turns
  {
    hide *;
    FlushedNone(s, n, replies);
    if turns > 0 {
      TurnsFlush(s, n, replies, turns - 1);
      var s1 := Turns(s, n, replies, turns - 1);
      StillMoves(s, s1, n, turns - 1);
      FlushedNext(s.queue, turns - 1);
      TurnsStep(s, n, replies, turns);
      var sent := s1.queue[0].mbx.Some?;
      TurnMoves(s1, n, sent);
      TurnInv(s1, n, sent, Acknowledged);
    }
  }

  lemma FlushedNone(s: Sys, n: nat, replies: seq<Reply>)
    ensures Turns(s, n, replies, 0) == s && s.queue == s.queue[0..] + Flushed(s.queue[..0])
  {
  }

  lemma TurnsStep(s: Sys, n: nat, replies: seq<Reply>, turns: nat)
    requires 0 < turns <= |replies| && Turns(s, n, replies, turns - 1).queue != []
    ensures var s1, r := Turns(s, n, replies, turns - 1), replies[turns - 1];
      && Turns(s, n, replies, turns) == Turn(s1, n, s1.queue[0].mbx.Some? && r.listening, r.Fate())
      && (r.wkc > 0 ==> r.Fate() == Acknowledged)
  {
    hide Turn;
  }

  lemma StillMoves(s: Sys, s1: Sys, n: nat, turns: nat)
    requires Inv(s, n) && Moves(s, n) && turns < |s.queue|
    requires s1.queue == s.queue[turns..] + Flushed(s.queue[..turns])
    ensures Moves(s1, n)
  {
    if turns > 0 && |s.queue| == n {
      assert s.queue[..turns][0] == s.queue[0];
      assert |Flushed(s.queue[..turns])| <= |s.queue[..turns][1..]|;
    }
  }

  lemma FlushedNext(q: seq<Entry>, k: nat)
    requires k < |q|
    ensures var q1 := q[k..] + Flushed(q[..k]);
      && |q1| > 0 && q1[0] == q[k]
      && q[k + 1..] + Flushed(q[..k + 1])
         == q1[1..] + if q[k].Removed() then [] else [q[k].(state := Done, mbx := None)]
  {
    assert q[..k + 1] == q[..k] + [q[k]];
    FlushedAppend(q[..k], q[k]);
  }

  /** The entries that stay, all sent. */
  function Flushed(q: seq<Entry>): (r: seq<Entry>)
    ensures |r| <= |q|
    ensures forall i :: 0 <= i < |r| ==> r[i].state == Done && !r[i].Removed()
  {
    if q == [] then []
    else (if q[0].Removed() then [] else [q[0].(state := Done, mbx := None)]) + Flushed(q[1..])
  }

  lemma {:induction false} FlushedAppend(q: seq<Entry>, e: Entry)
    ensures Flushed(q + [e]) == Flushed(q) + if e.Removed() then [] else [e.(state := Done, mbx := None)]
  {
    if q == [] {
      assert q + [e] == [e];
    } else {
      assert (q + [e])[1..] == q[1..] + [e];
      FlushedAppend(q[1..], e);
    }
  }

  lemma FullTurn(s: Sys, n: nat, sent: bool, fate: Fate)
    requires s.phase == Idle && |s.queue| == n > 0 && !s.queue[0].Removed() && (sent ==> s.queue[0].mbx.Some?)
    ensures var s' := Turn(s, n, sent, fate);
      s'.phase == Idle && |s'.queue| == n && !s'.queue[0].Removed() && s'.queue[1..] == s.queue[1..]
  {
  }

  /** A full queue whose tail entry is still wanted does not move: no later entry is looked at, however
    * often the handler is called. */
  lemma {:induction false} FullQueueStalls(s: Sys, n: nat, replies: seq<Reply>, turns: nat)
    requires s.phase == Idle && |s.queue| == n > 0 && !s.queue[0].Removed() && turns <= |replies|
    ensures var s' := Turns(s, n, replies, turns);
      s'.phase == Idle && |s'.queue| == n && !s'.queue[0].Removed() && s'.queue[1..] == s.queue[1..]
    decreases turns
  {
    hide Turn;
    if turns > 0 {
      FullQueueStalls(s, n, replies, turns - 1);
      var s1, r := Turns(s, n, replies, turns - 1), replies[turns - 1];
      TurnsStep(s, n, replies, turns);
      FullTurn(s1, n, s1.queue[0].mbx.Some? && r.listening, r.Fate());
      hide Turns;
    }
  }

  /** A full queue moves, and is no longer full from the first turn on, exactly if its tail is marked for removal. */
  lemma {:induction false} FullQueueMoves(s: Sys, n: nat, replies: seq<Reply>, turns: nat)
    requires s.phase == Idle && |s.queue| == n > 0 && 0 < turns <= |replies|
    ensures |Turns(s, n, replies, turns).queue| < n <==> Moves(s, n)
    ensures Moves(s, n) ==> Turns(s, n, replies, 1).queue == s.queue[1..] && Turns(s, n, replies, turns).phase == Idle
    decreases turns
  {
    assert Turns(s, n, replies, 0) == s;
    if !Moves(s, n) {
      FullQueueStalls(s, n, replies, turns);
    } else if turns == 1 {
      RemovedTurn(s, n, s.queue[0].mbx.Some? && replies[0].listening, replies[0].Fate());
    } else {
      FullQueueMoves(s, n, replies, turns - 1);
      var s1, r := Turns(s, n, replies, turns - 1), replies[turns - 1];
      if s1.queue != [] {
        TurnNoLonger(s1, n, s1.queue[0].mbx.Some? && r.listening, r.Fate());
      }
      hide Turn;
    }
  }

  lemma RemovedTurn(s: Sys, n: nat, sent: bool, fate: Fate)
    requires s.phase == Idle && s.queue != [] && s.queue[0].Removed() && (sent ==> s.queue[0].mbx.Some?)
    ensures Turn(s, n, sent, fate).queue == s.queue[1..] && Turn(s, n, sent, fate).phase == Idle
  {
  }

  lemma TurnNoLonger(s: Sys, n: nat, sent: bool, fate: Fate)
    requires s.phase == Idle && s.queue != [] && (sent ==> s.queue[0].mbx.Some?)
    ensures |Turn(s, n, sent, fate).queue| <= |s.queue| && Turn(s, n, sent, fate).phase == Idle
  {
  }

  // ---------- the in-handler ----------

  /** What a slave has to say; `handled` tells whether the EoE hook has taken the fragment. */
  datatype Mail = ErrorReply | Emergency | Coe | Soe | Eoe(handled: bool) | Foe | Voe | Aoe | Unknown

  const SLOTS := 6

  /** The in-slot of a slave for a kind of message, if it has one. */
  function SlotOf(mail: Mail): (slot: Option<nat>)
    ensures slot.Some? ==> slot.value < SLOTS
  {
    match mail
    case Coe => Some(0)
    case Soe => Some(1)
    case Eoe(handled) => if handled then None else Some(2)
    case Foe => Some(3)
    case Voe => Some(4)
    case Aoe => Some(5)
    case _ => None
  }

  /** Where the mailbox goes: into its slot, if that is in use and empty. The slots of the slave start at `base`. */
  function Destination(inbox: seq<Option<nat>>, base: nat, enabled: seq<bool>, reply: Option<Mail>): (slot: Option<nat>)
    requires base + SLOTS <= |inbox| && |enabled| == SLOTS
    ensures slot.Some? ==> base <= slot.value < base + SLOTS && inbox[slot.value].None?
  {
    if reply.None? then None
    else
      match SlotOf(reply.value)
      case None => None
      case Some(k) => if enabled[k] && inbox[base + k].None? then Some(base + k) else None
  }

  /** A visit to a slave whose mailbox is full; without a reply the frame with the mailbox was lost. */
  function Visit(s: Sys, base: nat, enabled: seq<bool>, reply: Option<Mail>): (s': Sys)
    requires base + SLOTS <= |s.inbox| && |enabled| == SLOTS
    ensures |s'.inbox| == |s.inbox| && s'.hands == s.hands && s'.queue == s.queue
  {
    if s.free == [] then s
    else
      match Destination(s.inbox, base, enabled, reply)
      case None => s.(free := s.free[1..] + [s.free[0]])
      case Some(slot) => s.(free := s.free[1..], inbox := s.inbox[slot := Some(s.free[0])])
  }

  /** The turn of `ecx_mbxinhandler` for one slave whose mailbox is full. The results are the slot the mailbox is in,
    * and whether it has to be asked for again. */
  method InTurn(pool: MbxPool, inbox: array<Option<nat>>, base: nat, enabled: seq<bool>, reply: Option<Mail>,
                ghost s: Sys) returns (stored: Option<nat>, repeat: bool, ghost run: seq<Step>)
    requires pool.Valid() && s.free == pool.Free() && s.inbox == inbox[..]
    requires base + SLOTS <= inbox.Length && |enabled| == SLOTS && Conserved(s, pool.size)
    modifies pool, pool.mbxemptylist, inbox
    ensures var s' := Visit(s, base, enabled, reply);
      && pool.Valid() && pool.Free() == s'.free && inbox[..] == s'.inbox && Exec(s, 0, run) == s'
    ensures stored == if s.free == [] then None else Destination(s.inbox, base, enabled, reply)
    ensures repeat == (s.free != [] && reply.None?)
  {
    stored, repeat, run := None, false, [];
    var m := pool.Get();
    if m.Some? {
      FirstFreeBuffer(s, pool.size);
      if reply.Some? {
        var slot := SlotOf(reply.value);
        if slot.Some? && enabled[slot.value] && inbox[base + slot.value].None? {
          inbox[base + slot.value] := m;
          stored := Some(base + slot.value);
          run := [Take, Store(base + slot.value, m.value)];
          TakeStore(s, base + slot.value);
        }
      } else {
        repeat := true;
      }
      if stored.None? {
        var _ := pool.Drop(m.value);
        run := [Take, Return(m.value)];
        TakeReturn(s);
      }
      hide Exec, Apply, Conserved;
    }
  }

  /** Kind by kind: a mailbox goes into the in-slot of its protocol, CoE 0, SoE 1, EoE 2, FoE 3, VoE 4 and AoE 5, if
    * that is enabled and empty, and no other slot changes; there is none for errors, emergencies, kinds unknown, and
    * fragments that the hook has taken. */
  lemma VisitByKind(s: Sys, base: nat, enabled: seq<bool>, mail: Mail, k: nat)
    requires base + 6 <= |s.inbox| && |enabled| == 6 && s.free != []
    requires (mail, k) in {(Coe, 0), (Soe, 1), (Eoe(false), 2), (Foe, 3), (Voe, 4), (Aoe, 5)}
    ensures var s' := Visit(s, base, enabled, Some(mail));
      if enabled[k] && s.inbox[base + k].None? then
        s'.free == s.free[1..] && s'.inbox == s.inbox[base + k := Some(s.free[0])]
      else s'.free == s.free[1..] + [s.free[0]] && s'.inbox == s.inbox
  {
  }

  lemma VisitWithoutSlot(s: Sys, base: nat, enabled: seq<bool>, reply: Option<Mail>)
    requires base + 6 <= |s.inbox| && |enabled| == 6 && s.free != []
    requires reply.None? || reply.value in {ErrorReply, Emergency, Eoe(true), Unknown}
    ensures var s' := Visit(s, base, enabled, reply);
      s'.free == s.free[1..] + [s.free[0]] && s'.inbox == s.inbox
  {
  }

  /** The next buffer to be handed out is in the pool once. */
  lemma FirstFreeBuffer(s: Sys, pool: nat)
    requires Conserved(s, pool) && s.free != []
    ensures s.free[0] < pool && s.free[0] !in s.free[1..]
  {
    assert s.free == [s.free[0]] + s.free[1..];
    assert Places(s, s.free[0]) >= 1;
  }

  lemma ExecTwo(s: Sys, n: nat, first: Step, second: Step)
    ensures Exec(s, n, [first, second]) == Apply(Apply(s, n, first), n, second)
  {
    hide Apply;
    assert [first, second][1..] == [second];
    assert Exec(Apply(s, n, first), n, [second]) == Apply(Apply(s, n, first), n, second);
  }

  lemma TakeStore(s: Sys, slot: nat)
    requires s.free != [] && slot < |s.inbox| && s.inbox[slot].None?
    ensures Exec(s, 0, [Take, Store(slot, s.free[0])])
      == s.(free := s.free[1..], inbox := s.inbox[slot := Some(s.free[0])])
  {
    ExecTwo(s, 0, Take, Store(slot, s.free[0]));
    assert s.hands + multiset{s.free[0]} - multiset{s.free[0]} == s.hands;
  }

  lemma TakeReturn(s: Sys)
    requires s.free != []
    ensures Exec(s, 0, [Take, Return(s.free[0])]) == s.(free := s.free[1..] + [s.free[0]])
  {
    hide Exec;
    ExecTwo(s, 0, Take, Return(s.free[0]));
    assert s.hands + multiset{s.free[0]} - multiset{s.free[0]} == s.hands;
  }
}
