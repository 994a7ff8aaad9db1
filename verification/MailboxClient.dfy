/** The client side of the cyclic path: `ecx_mbxsend` and `ecx_mbxreceive`, while the handlers run in between. */
module MailboxClient {
  import opened Basics
  import opened MailboxHandler
  import opened MailboxPool
  import opened MailboxQueue
  import opened MailboxSystem

  // ---------- the queue operations are steps of the system ----------

  /** `ecx_mbxaddqueue` is the step `Add`. */
  method AddMessage(pool: MbxPool, queue: MbxQueue, slave: nat, b: nat, ghost s: Sys) returns (ticket: int)
    requires AtRest(pool, queue, s) && b in s.hands
    modifies queue.Repr
    ensures AtRest(pool, queue, Apply(s, queue.size, Add(b, slave)))
    ensures ticket == if |s.queue| < queue.size then FirstFree(s.queue, 0, queue.size) else -1
  {
    hide Holds, Inv, Conserved;
    Advance(s, queue.size, Add(b, slave), pool.size);
    ticket := queue.AddQueue(slave, b, s.nextId);
    if |s.queue| < queue.size {
      FirstFreeIs(s.queue, queue.size, ticket);
    }
  }

  lemma FirstFreeIs(q: seq<Entry>, n: nat, ticket: nat)
    requires ticket < n && IsFreshTicket(q, ticket)
    ensures FirstFree(q, 0, n) == ticket
  {
  }

  /** `ecx_mbxdonequeue` is the step `Finish`. */
  method FinishMessage(pool: MbxPool, queue: MbxQueue, ticket: nat, ghost s: Sys) returns (done: bool)
    requires AtRest(pool, queue, s) && ticket < queue.size && Find(s.queue, ticket) < |s.queue|
    modifies queue.Repr
    ensures AtRest(pool, queue, Apply(s, queue.size, Finish(ticket))) && done == Finishes(s, ticket)
  {
    hide Holds, Inv, Conserved;
    Advance(s, queue.size, Finish(ticket), pool.size);
    done := queue.DoneQueue(ticket);
  }

  /** `ecx_mbxexpirequeue` is the step `Expire`. */
  method ExpireMessage(pool: MbxPool, queue: MbxQueue, ticket: nat, ghost s: Sys) returns (expired: bool)
    requires AtRest(pool, queue, s) && ticket < queue.size && Find(s.queue, ticket) < |s.queue|
    modifies queue.Repr
    ensures AtRest(pool, queue, Apply(s, queue.size, Expire(ticket))) && expired
  {
    hide Holds, Inv, Conserved;
    Advance(s, queue.size, Expire(ticket), pool.size);
    expired := queue.ExpireQueue(ticket);
  }

  /** `ecx_dropmbx` by a client is the step `Return`. */
  method ReturnBuffer(pool: MbxPool, queue: MbxQueue, b: nat, ghost s: Sys)
    requires AtRest(pool, queue, s) && b in s.hands
    modifies pool, pool.mbxemptylist
    ensures AtRest(pool, queue, Apply(s, queue.size, Return(b)))
  {
    HeldNotFree(s, pool.size, b);
    hide Holds, Inv, Conserved;
    Advance(s, queue.size, Return(b), pool.size);
    var _ := pool.Drop(b);
  }

  lemma HeldNotFree(s: Sys, pool: nat, b: nat)
    requires Conserved(s, pool) && b in s.hands
    ensures b < pool && b !in s.free
  {
    assert Places(s, b) >= 1;
  }

  // ---------- runs ----------

  /** A step of the out-handler. */
  predicate Handlers(step: Step) {
    step.Answer? || step.Skip? || step.Enter? || step.Close?
  }

  /** A step that sending message buffer `b` may take. */
  predicate Sender(step: Step, b: nat) {
    match step
    case Add(m, _) => m == b
    case Return(m) => m == b
    case Finish(_) => true
    case Expire(_) => true
    case _ => false
  }

  ghost predicate Only(run: seq<Step>, b: nat) {
    forall step :: step in run ==> Handlers(step) || Sender(step, b)
  }

  /** Some look at a ticket in the run finds its message done. */
  ghost predicate Succeeds(s: Sys, n: nat, run: seq<Step>)
    decreases |run|
  {
    run != [] && ((run[0].Finish? && Finishes(s, run[0].ticket)) || Succeeds(Apply(s, n, run[0]), n, run[1..]))
  }

  lemma {:induction false} ExecAppend(s: Sys, n: nat, run: seq<Step>, more: seq<Step>)
    ensures Exec(s, n, run + more) == Exec(Exec(s, n, run), n, more)
    ensures Succeeds(s, n, run + more) <==> Succeeds(s, n, run) || Succeeds(Exec(s, n, run), n, more)
    decreases |run|
  {
    hide Apply, Finishes;
    if run == [] {
      assert run + more == more;
    } else {
      assert (run + more)[1..] == run[1..] + more;
      ExecAppend(Apply(s, n, run[0]), n, run[1..], more);
    }
  }

  lemma ExecOne(s: Sys, n: nat, step: Step)
    ensures Exec(s, n, [step]) == Apply(s, n, step)
    ensures Succeeds(s, n, [step]) <==> step.Finish? && Finishes(s, step.ticket)
  {
    assert [step][1..] == [];
  }

  // ---------- the out-handler in between ----------

  /** Turns of the out-handler while a client sleeps; the queue may be empty at times. */
  method HandlerTurns(pool: MbxPool, queue: MbxQueue, replies: seq<Reply>, ghost s: Sys)
      returns (ghost run: seq<Step>, ghost s': Sys)
    requires AtRest(pool, queue, s)
    modifies pool, pool.mbxemptylist, queue.Repr
    ensures AtRest(pool, queue, s') && s' == Exec(s, queue.size, run)
    ensures forall step :: step in run ==> Handlers(step)
  {
    hide Holds, Inv, Conserved, Find, Apply;
    ghost var n := queue.size;
    run, s' := [], s;
    for k := 0 to |replies|
      invariant AtRest(pool, queue, s') && s' == Exec(s, n, run)
      invariant forall step :: step in run ==> Handlers(step)
    {
      HoldsShape(queue.Slots(), n, queue.Queue);
      if queue.listcount > 0 {
        ghost var at := s';
        var unsent;
        unsent, s' := OutTurn(pool, queue, replies[k], at);
        ghost var steps := TurnSteps(unsent && replies[k].listening, replies[k].Fate());
        TurnIsRun(at, n, unsent && replies[k].listening, replies[k].Fate());
        ExecAppend(s, n, run, steps);
        run := run + steps;
      }
    }
  }

  function TurnSteps(sent: bool, fate: Fate): (run: seq<Step>)
    ensures forall step :: step in run ==> Handlers(step)
  {
    if sent then [Answer(fate), Enter, Close] else [Skip, Close]
  }

  lemma TurnIsRun(s: Sys, n: nat, sent: bool, fate: Fate)
    ensures Exec(s, n, TurnSteps(sent, fate)) == Turn(s, n, sent, fate)
  {
    hide Apply;
    if sent {
      assert [Answer(fate), Enter, Close][1..] == [Enter, Close];
      assert [Enter, Close][1..] == [Close] && [Close][1..] == [];
      assert Exec(Apply(Apply(s, n, Answer(fate)), n, Enter), n, [Close])
        == Apply(Apply(Apply(s, n, Answer(fate)), n, Enter), n, Close);
    } else {
      assert [Skip, Close][1..] == [Close] && [Close][1..] == [];
    }
  }

  /** The handler's steps look at no ticket and keep the buffers in the clients' hands and the ticket's meaning. */
  lemma {:induction false} HandlersKeep(s: Sys, n: nat, run: seq<Step>)
    requires forall step :: step in run ==> Handlers(step)
    ensures Exec(s, n, run).hands == s.hands && Exec(s, n, run).nextId == s.nextId && !Succeeds(s, n, run)
    decreases |run|
  {
    hide Finishes;
    if run != [] {
      assert run[0] in run;
      HandlersKeep(Apply(s, n, run[0]), n, run[1..]);
    }
  }

  lemma {:induction false} HandlersDenote(s: Sys, n: nat, run: seq<Step>, t: nat, id: nat, slave: nat, b: nat)
    requires Inv(s, n) && Denotes(s, t, id, slave, b) && forall step :: step in run ==> Handlers(step)
    ensures Denotes(Exec(s, n, run), t, id, slave, b)
    decreases |run|
  {
    hide Inv, Denotes, Apply;
    if run != [] {
      assert run[0] in run;
      StepInv(s, n, run[0]);
      StepKeepsHandle(s, n, run[0], t, id, slave, b);
      HandlersDenote(Apply(s, n, run[0]), n, run[1..], t, id, slave, b);
    }
  }

  // ---------- sending ----------

  /** The message was written, to its slave, from its buffer, and this was acknowledged exactly once. */
  ghost predicate Written(s: Sys, id: nat, slave: nat, b: nat) {
    Acks(s.wire, id) == 1 && Faithful(s.wire, id, slave, b)
  }

  lemma FinishedWritten(s: Sys, n: nat, t: nat, id: nat, slave: nat, b: nat)
    requires Inv(s, n) && Denotes(s, t, id, slave, b) && Finishes(s, t)
    ensures Written(Apply(s, n, Finish(t)), id, slave, b)
  {
    assert EntryGood(s, n, Find(s.queue, t));
    hide Acks, NeverAgain, IdsDistinct, Faithful;
  }

  lemma Denoted(s: Sys, n: nat, t: nat, id: nat, slave: nat, b: nat)
    requires Inv(s, n) && Denotes(s, t, id, slave, b)
    ensures t < n && Find(s.queue, t) < |s.queue|
  {
    assert EntryGood(s, n, Find(s.queue, t));
  }

  /** Looking at a ticket, or giving it up, leaves the buffers in the clients' hands alone. */
  lemma LookKeeps(s: Sys, n: nat, t: nat)
    ensures Apply(s, n, Finish(t)).hands == s.hands == Apply(s, n, Expire(t)).hands
    ensures !Finishes(s, t) ==> Apply(s, n, Finish(t)) == s
  {
    hide Finishes;
  }

  /** No client holds a ticket of the message any more: its entry, if it is still there, is marked for removal. */
  ghost predicate GivenBack(s: Sys, id: nat) {
    forall k :: 0 <= k < |s.queue| && s.queue[k].id == id ==> s.queue[k].Removed()
  }

  lemma LookGivesBack(s: Sys, n: nat, t: nat, id: nat, slave: nat, b: nat)
    requires Inv(s, n) && Denotes(s, t, id, slave, b)
    ensures GivenBack(Apply(s, n, Expire(t)), id)
    ensures Finishes(s, t) ==> GivenBack(Apply(s, n, Finish(t)), id)
  {
    hide EntryGood, NeverAgain, TicketsDistinct;
  }

  lemma NeverAdded(s: Sys, n: nat)
    requires Inv(s, n)
    ensures GivenBack(s, s.nextId)
  {
    forall k | 0 <= k < |s.queue| ensures s.queue[k].id < s.nextId {
      assert EntryGood(s, n, k);
    }
  }

  lemma SameQueue(s: Sys, s': Sys, id: nat)
    requires GivenBack(s, id) && s'.queue == s.queue
    ensures GivenBack(s', id)
  {
  }

  lemma ReturnKeeps(s: Sys, n: nat, b: nat)
    ensures Apply(s, n, Return(b)).queue == s.queue && Apply(s, n, Return(b)).nextId == s.nextId
  {
  }

  /** One more part of a run. */
  lemma RunOn(s: Sys, n: nat, run: seq<Step>, more: seq<Step>, b: nat)
    requires Only(run, b) && Only(more, b)
    ensures Only(run + more, b) && Exec(s, n, run + more) == Exec(Exec(s, n, run), n, more)
    ensures Succeeds(s, n, run + more) <==> Succeeds(s, n, run) || Succeeds(Exec(s, n, run), n, more)
  {
    hide Succeeds, Handlers, Sender;
    ExecAppend(s, n, run, more);
  }

  lemma RunOne(s: Sys, n: nat, step: Step, b: nat)
    requires Sender(step, b)
    ensures Only([step], b) && Exec(s, n, [step]) == Apply(s, n, step)
    ensures Succeeds(s, n, [step]) <==> step.Finish? && Finishes(s, step.ticket)
  {
    ExecOne(s, n, step);
  }

  /** The inner loop of `ecx_mbxsend`: looks at the ticket until its message is done or time is up, and then gives it
    * up. `script[k]` is what the out-handler does while the client sleeps for the `k`-th time; when it is used up the
    * timer has expired. */
  method Await(pool: MbxPool, queue: MbxQueue, ticket: nat, script: seq<seq<Reply>>, from: nat,
               ghost s: Sys, ghost id: nat, ghost slave: nat, ghost b: nat)
      returns (done: bool, k: nat, ghost run: seq<Step>, ghost s': Sys)
    requires AtRest(pool, queue, s) && Denotes(s, ticket, id, slave, b)
    modifies pool, pool.mbxemptylist, queue.Repr
    ensures AtRest(pool, queue, s') && s' == Exec(s, queue.size, run) && Only(run, b)
    ensures s'.hands == s.hands && (done <==> Succeeds(s, queue.size, run))
    ensures done ==> Written(s', id, slave, b)
    ensures !done ==> k >= |script|
    ensures GivenBack(s', id)
  {
    hide *;
    ghost var n := queue.size;
    k, done, run, s' := from, false, [], s;
    RunEmpty(s, n, b);
    RestInv(pool, queue, s);
    var first := true;
    while first || (!done && k < |script|)
      invariant AtRest(pool, queue, s') && s' == Exec(s, n, run) && Only(run, b) && s'.hands == s.hands
      invariant !done ==> Denotes(s', ticket, id, slave, b)
      invariant (done <==> Succeeds(s, n, run)) && (done ==> Written(s', id, slave, b) && !first)
      invariant done ==> GivenBack(s', id)
      decreases first, !done, |script| - k
    {
      first := false;
      ghost var at := s';
      RestInv(pool, queue, at);
      Denoted(at, n, ticket, id, slave, b);
      done := FinishMessage(pool, queue, ticket, at);
      LookKeeps(at, n, ticket);
      RunOne(at, n, Finish(ticket), b);
      SenderLooks(ticket, b);
      RunOn(s, n, run, [Finish(ticket)], b);
      run, s' := run + [Finish(ticket)], Apply(at, n, Finish(ticket));
      if done {
        LookGivesBack(at, n, ticket, id, slave, b);
        FinishedWritten(at, n, ticket, id, slave, b);
      } else if k < |script| {
        ghost var more, at2 := [], s';
        more, s' := HandlerTurns(pool, queue, script[k], at2);
        HandlersKeep(at2, n, more);
        HandlersDenote(at2, n, more, ticket, id, slave, b);
        OnlyHandlers(more, b);
        RunOn(s, n, run, more, b);
        run := run + more;
        k := k + 1;
      }
    }
    if !done {
      ghost var at := s';
      RestInv(pool, queue, at);
      Denoted(at, n, ticket, id, slave, b);
      var _ := ExpireMessage(pool, queue, ticket, at);
      LookKeeps(at, n, ticket);
      LookGivesBack(at, n, ticket, id, slave, b);
      SenderLooks(ticket, b);
      RunOne(at, n, Expire(ticket), b);
      RunOn(s, n, run, [Expire(ticket)], b);
      run, s' := run + [Expire(ticket)], Apply(at, n, Expire(ticket));
    }
  }

  lemma RunEmpty(s: Sys, n: nat, b: nat)
    ensures Exec(s, n, []) == s && Only([], b) && !Succeeds(s, n, [])
  {
  }

  lemma RestInv(pool: MbxPool, queue: MbxQueue, s: Sys)
    requires AtRest(pool, queue, s)
    ensures Inv(s, queue.size) && s.phase == Idle
  {
  }

  lemma SenderLooks(ticket: nat, b: nat)
    ensures Sender(Finish(ticket), b) && Sender(Expire(ticket), b)
  {
  }

  lemma OnlyHandlers(run: seq<Step>, b: nat)
    requires forall step :: step in run ==> Handlers(step)
    ensures Only(run, b)
  {
  }

  /** `ecx_mbxsend` on the cyclic path: whatever the handler does meanwhile, the caller's buffer is out of its hands in
    * the end, and it holds no ticket; nothing is done but add, look at, give up or return, and the result is 1 exactly
    * if a look found the message done; then its arrival was acknowledged exactly once, and it was written once more for
    * every answer that got lost. `room` tells whether the slave has a mailbox. */
  method MbxSend(pool: MbxPool, queue: MbxQueue, slave: nat, b: nat, room: bool, script: seq<seq<Reply>>, ghost s: Sys)
      returns (wkc: int, ghost run: seq<Step>, ghost s': Sys)
    requires AtRest(pool, queue, s) && b in s.hands
    modifies pool, pool.mbxemptylist, queue.Repr
    ensures AtRest(pool, queue, s') && s' == Exec(s, queue.size, run) && Only(run, b)
    ensures s'.hands == s.hands - multiset{b} && GivenBack(s', s.nextId)
    ensures wkc == (if Succeeds(s, queue.size, run) then 1 else 0)
    ensures wkc == 1 ==> Written(s', s.nextId, slave, b)
    ensures wkc == 1 ==> Writes(s'.wire, s.nextId) == 1 + LostAnswers(s, queue.size, run, s.nextId)
  {
    hide *;
    ghost var n := queue.size;
    var mbx, done, k: nat := Some(b), false, 0;
    run, s' := [], s;
    RunEmpty(s, n, b);
    RestInv(pool, queue, s);
    var first := room;
    while first || (room && !done && k < |script|)
      invariant AtRest(pool, queue, s') && s' == Exec(s, n, run) && Only(run, b)
      invariant first || (!done && k < |script|) ==> mbx == Some(b)
      invariant mbx == Some(b) ==> s'.hands == s.hands && s'.nextId == s.nextId && !done
      invariant mbx.None? ==> s'.hands == s.hands - multiset{b} && GivenBack(s', s.nextId)
      invariant mbx == None || mbx == Some(b)
      invariant (done <==> Succeeds(s, n, run)) && (done ==> Written(s', s.nextId, slave, b))
      decreases first, !done, |script| - k
    {
      first := false;
      ghost var at := s';
      RestInv(pool, queue, at);
      var ticket := AddMessage(pool, queue, slave, mbx.value, at);
      AddOutcome(at, n, b, slave);
      RunOne(at, n, Add(b, slave), b);
      RunOn(s, n, run, [Add(b, slave)], b);
      run, s' := run + [Add(b, slave)], Apply(at, n, Add(b, slave));
      ghost var at2, more := s', [];
      if ticket >= 0 {
        mbx := None;
        done, k, more, s' := Await(pool, queue, ticket, script, k, at2, at.nextId, slave, b);
      } else if k < |script| {
        more, s' := HandlerTurns(pool, queue, script[k], at2);
        HandlersKeep(at2, n, more);
        OnlyHandlers(more, b);
        k := k + 1;
      } else {
        RunEmpty(at2, n, b);
      }
      RunOn(s, n, run, more, b);
      run := run + more;
    }
    if mbx.Some? {
      ghost var at := s';
      RestInv(pool, queue, at);
      NeverAdded(at, n);
      ReturnBuffer(pool, queue, b, at);
      Returned(at, n, b);
      ReturnKeeps(at, n, b);
      SameQueue(at, Apply(at, n, Return(b)), s.nextId);
      RunOne(at, n, Return(b), b);
      RunOn(s, n, run, [Return(b)], b);
      run, s' := run + [Return(b)], Apply(at, n, Return(b));
    }
    wkc := if done then 1 else 0;
    if done {
      RestInv(pool, queue, s');
      WrittenCount(s, n, run, slave, b);
    }
  }

  lemma WrittenCount(s: Sys, n: nat, run: seq<Step>, slave: nat, b: nat)
    requires Inv(s, n) && Written(Exec(s, n, run), s.nextId, slave, b)
    ensures Writes(Exec(s, n, run).wire, s.nextId) == 1 + LostAnswers(s, n, run, s.nextId)
  {
    NoWrites(s.wire, s.nextId);
    WritesInRun(s, n, run, s.nextId);
  }

  lemma Returned(s: Sys, n: nat, b: nat)
    requires b in s.hands
    ensures Apply(s, n, Return(b)).hands == s.hands - multiset{b} && Sender(Return(b), b)
  {
  }

  /** What adding does: with room in the queue the buffer is out of the caller's hands and the ticket denotes the
    * message; otherwise nothing. */
  lemma AddOutcome(s: Sys, n: nat, b: nat, slave: nat)
    requires Inv(s, n) && b in s.hands
    ensures var s' := Apply(s, n, Add(b, slave));
      if |s.queue| < n then
        s'.hands == s.hands - multiset{b} && Denotes(s', FirstFree(s.queue, 0, n), s.nextId, slave, b)
      else s' == s
    ensures Sender(Add(b, slave), b)
  {
    if |s.queue| < n {
      StepGivesTicket(s, n, b, slave);
    }
  }

  // ---------- receiving ----------

  /** The first in-slot that is full, in the order in which they are looked at: CoE, SoE, FoE, EoE. */
  function FirstFull(inbox: seq<Option<nat>>, base: nat): (slot: Option<nat>)
    requires base + SLOTS <= |inbox|
    ensures slot.Some? ==> base <= slot.value < |inbox| && inbox[slot.value].Some?
  {
    if inbox[base].Some? then Some(base)
    else if inbox[base + 1].Some? then Some(base + 1)
    else if inbox[base + 3].Some? then Some(base + 3)
    else if inbox[base + 2].Some? then Some(base + 2)
    else None
  }

  /** The state after visits of the in-handler. */
  function Visits(s: Sys, base: nat, enabled: seq<bool>, replies: seq<Option<Mail>>): (s': Sys)
    requires base + SLOTS <= |s.inbox| && |enabled| == SLOTS
    ensures |s'.inbox| == |s.inbox| && s'.hands == s.hands && s'.queue == s.queue
    decreases |replies|
  {
    if replies == [] then s else Visits(Visit(s, base, enabled, replies[0]), base, enabled, replies[1..])
  }

  /** Looking and waiting in turn until a slot is full or time is up; `script[k]` is what the in-handler does during
    * the `k`-th wait. */
  function Waits(s: Sys, base: nat, enabled: seq<bool>, script: seq<seq<Option<Mail>>>): (r: (Sys, Option<nat>))
    requires base + SLOTS <= |s.inbox| && |enabled| == SLOTS && script != []
    ensures |r.0.inbox| == |s.inbox|
    decreases |script|
  {
    match FirstFull(s.inbox, base)
    case Some(slot) => (Apply(s, 0, Receive(slot)), s.inbox[slot])
    case None =>
      var s1 := Visits(s, base, enabled, script[0]);
      if |script| == 1 then (s1, None) else Waits(s1, base, enabled, script[1..])
  }

  method InVisits(pool: MbxPool, inbox: array<Option<nat>>, base: nat, enabled: seq<bool>, replies: seq<Option<Mail>>,
                  ghost s: Sys)
    requires pool.Valid() && s.free == pool.Free() && s.inbox == inbox[..]
    requires base + SLOTS <= inbox.Length && |enabled| == SLOTS && Conserved(s, pool.size)
    modifies pool, pool.mbxemptylist, inbox
    ensures var s' := Visits(s, base, enabled, replies);
      pool.Valid() && s'.free == pool.Free() && s'.inbox == inbox[..] && Conserved(s', pool.size)
  {
    hide Conserved, Visit;
    ghost var now := s;
    var k := 0;
    while k < |replies|
      invariant k <= |replies| && |now.inbox| == inbox.Length && Conserved(now, pool.size)
      invariant pool.Valid() && now.free == pool.Free() && now.inbox == inbox[..]
      invariant Visits(now, base, enabled, replies[k..]) == Visits(s, base, enabled, replies)
    {
      assert replies[k..][0] == replies[k] && replies[k..][1..] == replies[k + 1..];
      ghost var run;
      var stored, again;
      stored, again, run := InTurn(pool, inbox, base, enabled, replies[k], now);
      ConservedRun(now, 0, run, pool.size);
      now := Visit(now, base, enabled, replies[k]);
      k := k + 1;
    }
  }

  lemma {:induction false} ConservedRun(s: Sys, n: nat, run: seq<Step>, pool: nat)
    requires Conserved(s, pool)
    ensures Conserved(Exec(s, n, run), pool)
    decreases |run|
  {
    hide Conserved, Apply;
    if run != [] {
      ConservedStep(s, n, run[0], pool);
      ConservedRun(Apply(s, n, run[0]), n, run[1..], pool);
    }
  }

  /** `ecx_mbxreceive` on the cyclic path. */
  method MbxReceive(pool: MbxPool, inbox: array<Option<nat>>, base: nat, enabled: seq<bool>,
                    script: seq<seq<Option<Mail>>>, ghost s: Sys) returns (mbx: Option<nat>, ghost s': Sys)
    requires pool.Valid() && s.free == pool.Free() && s.inbox == inbox[..]
    requires base + SLOTS <= inbox.Length && |enabled| == SLOTS && Conserved(s, pool.size) && script != []
    modifies pool, pool.mbxemptylist, inbox
    ensures (s', mbx) == Waits(s, base, enabled, script)
    ensures pool.Valid() && s'.free == pool.Free() && s'.inbox == inbox[..] && Conserved(s', pool.size)
  {
    hide Conserved, Visit, Visits;
    s', mbx := s, None;
    var k := 0;
    while k < |script| && mbx.None?
      invariant k <= |script| && |s'.inbox| == inbox.Length && Conserved(s', pool.size)
      invariant pool.Valid() && s'.free == pool.Free() && s'.inbox == inbox[..]
      invariant mbx.None? && k < |script| ==> Waits(s', base, enabled, script[k..]) == Waits(s, base, enabled, script)
      invariant mbx.Some? || k == |script| ==> (s', mbx) == Waits(s, base, enabled, script)
      decreases mbx.None?, |script| - k
    {
      assert script[k..][0] == script[k] && script[k..][1..] == script[k + 1..];
      var slot := None;
      if inbox[base].Some? {
        slot := Some(base);
      } else if inbox[base + 1].Some? {
        slot := Some(base + 1);
      } else if inbox[base + 3].Some? {
        slot := Some(base + 3);
      } else if inbox[base + 2].Some? {
        slot := Some(base + 2);
      }
      assert slot == FirstFull(s'.inbox, base);
      if slot.Some? {
        mbx := inbox[slot.value];
        inbox[slot.value] := None;
        ConservedStep(s', 0, Receive(slot.value), pool.size);
        s' := Apply(s', 0, Receive(slot.value));
      } else {
        InVisits(pool, inbox, base, enabled, script[k], s');
        s' := Visits(s', base, enabled, script[k]);
        k := k + 1;
      }
    }
  }

  /** What is received was found in an in-slot at the look that ended the waiting: the first full one, which is empty
    * now. It is in the caller's hands. Nothing is received exactly if no slot is full at any look. */
  lemma {:induction false} WaitsResult(s: Sys, base: nat, enabled: seq<bool>, script: seq<seq<Option<Mail>>>)
    requires base + SLOTS <= |s.inbox| && |enabled| == SLOTS && script != []
    ensures var (s', mbx) := Waits(s, base, enabled, script);
      && s'.hands == s.hands + (if mbx.Some? then multiset{mbx.value} else multiset{})
      && (mbx.None? <==> NeverFull(s, base, enabled, script))
      && (mbx.Some? ==>
           exists k :: 0 <= k < |script| && TakenAt(Looked(s, base, enabled, script, k), base, mbx.value, s'))
    decreases |script|
  {
    hide Visits, SlotOf;
    var (s', mbx) := Waits(s, base, enabled, script);
    if FirstFull(s.inbox, base).Some? {
      assert TakenAt(Looked(s, base, enabled, script, 0), base, mbx.value, s');
    } else if |script| > 1 {
      var next, rest := Visits(s, base, enabled, script[0]), script[1..];
      WaitsResult(next, base, enabled, rest);
      if mbx.Some? {
        var k :| 0 <= k < |rest| && TakenAt(Looked(next, base, enabled, rest, k), base, mbx.value, s');
        assert Looked(s, base, enabled, script, k + 1) == Looked(next, base, enabled, rest, k);
      }
    }
  }

  /** The state at the look after `k` waits. */
  function Looked(s: Sys, base: nat, enabled: seq<bool>, script: seq<seq<Option<Mail>>>, k: nat): (s': Sys)
    requires base + SLOTS <= |s.inbox| && |enabled| == SLOTS && k <= |script|
    ensures |s'.inbox| == |s.inbox|
    decreases k
  {
    if k == 0 then s else Looked(Visits(s, base, enabled, script[0]), base, enabled, script[1..], k - 1)
  }

  /** Buffer `m` is in the first full in-slot, and taking it from there leads to `s'`. */
  ghost predicate TakenAt(s: Sys, base: nat, m: nat, s': Sys) {
    base + SLOTS <= |s.inbox| && exists slot ::
      FirstFull(s.inbox, base) == Some(slot) && s.inbox[slot] == Some(m)
      && s' == s.(inbox := s.inbox[slot := None], hands := s.hands + multiset{m})
  }

  /** None of the four slots is full at the beginning, nor after any but the last wait. */
  ghost predicate NeverFull(s: Sys, base: nat, enabled: seq<bool>, script: seq<seq<Option<Mail>>>)
    requires base + SLOTS <= |s.inbox| && |enabled| == SLOTS && script != []
    decreases |script|
  {
    && (forall k :: base <= k < base + 4 ==> s.inbox[k].None?)
    && (|script| > 1 ==> NeverFull(Visits(s, base, enabled, script[0]), base, enabled, script[1..]))
  }

  /** All in-slots of a slave are enabled and empty. */
  predicate Ready(s: Sys, base: nat, enabled: seq<bool>) {
    && base + 6 <= |s.inbox| && |enabled| == 6 && (forall k :: 0 <= k < 6 ==> enabled[k])
    && forall k :: base <= k < base + 6 ==> s.inbox[k].None?
  }

  /** A message of one of the four kinds that clients receive, whatever is done later, is what the client is given; a
    * VoE or AoE message is not. */
  lemma ReceivedByKind(s: Sys, base: nat, enabled: seq<bool>, mail: Mail, script: seq<seq<Option<Mail>>>)
    requires Ready(s, base, enabled) && s.free != [] && script != []
    requires mail in {Coe, Soe, Foe, Eoe(false), Voe, Aoe}
    ensures var s1 := Visit(s, base, enabled, Some(mail));
      if mail in {Voe, Aoe} then FirstFull(s1.inbox, base).None?
      else
        && Waits(s1, base, enabled, script).1 == Some(s.free[0])
        && Waits(s1, base, enabled, script).0.inbox == s.inbox
  {
    var k := if mail == Coe then 0 else if mail == Soe then 1 else if mail == Eoe(false) then 2
             else if mail == Foe then 3 else if mail == Voe then 4 else 5;
    VisitByKind(s, base, enabled, mail, k);
    hide Visit, Visits, SlotOf;
  }

  /** Of two messages waiting, CoE is received before SoE, SoE before FoE, FoE before EoE, whichever came first: here
    * the later one, in the second buffer. */
  lemma ReceivedInOrder(s: Sys, base: nat, enabled: seq<bool>, mail: Mail, later: Mail, script: seq<seq<Option<Mail>>>)
    requires Ready(s, base, enabled) && |s.free| >= 2 && script != []
    requires (mail, later) in {(Coe, Soe), (Coe, Foe), (Coe, Eoe(false)), (Soe, Foe), (Soe, Eoe(false)),
                               (Foe, Eoe(false))}
    ensures var s1 := Visit(s, base, enabled, Some(later));
      var s2 := Visit(s1, base, enabled, Some(mail));
      && Waits(s2, base, enabled, script).1 == Some(s.free[1])
      && Waits(s2, base, enabled, script).0.inbox == s1.inbox
  {
    var k := if mail == Coe then 0 else if mail == Soe then 1 else 3;
    var j := if later == Soe then 1 else if later == Foe then 3 else 2;
    VisitByKind(s, base, enabled, later, j);
    VisitByKind(Visit(s, base, enabled, Some(later)), base, enabled, mail, k);
    hide Visit, Visits, SlotOf;
  }
}
