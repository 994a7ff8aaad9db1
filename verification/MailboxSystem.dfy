/** Everything that moves mailbox buffers on the cyclic path, as one state machine: clients add, finish
  * and expire messages, the handlers send and receive, in any interleaving. */
module MailboxSystem {
  import opened Basics
  import opened MailboxQueue

  /** A message that reached a slave's mailbox, and whether the master was told. */
  datatype Write = Write(id: nat, slave: nat, mbx: nat, acknowledged: bool)

  /** What becomes of a frame: the slave took it and the answer came back, it took it and the answer got lost, or the
    * frame never reached it. */
  datatype Fate = Acknowledged | AnswerLost | Lost

  /** Where the out-handler is in its turn on the tail entry: not begun, the frame is back with or without
    * success, or the outcome is entered and the turn only has to be closed. */
  datatype Phase = Idle | Answered(ok: bool) | Entered

  /** `inbox` are the mailbox-in slots of all slaves and protocols, `hands` the buffers held by callers
    * (the in-handler among them), `wire` what was written to slaves so far. */
  datatype Sys = Sys(free: seq<nat>, queue: seq<Entry>, inbox: seq<Option<nat>>, hands: multiset<nat>,
                     wire: seq<Write>, phase: Phase, nextId: nat)

  datatype Step =
    | Take
    | Return(b: nat)
    | Add(b: nat, slave: nat)
    | Finish(ticket: nat)
    | Expire(ticket: nat)
    | Store(slot: nat, b: nat)
    | Receive(slot: nat)
    | Answer(fate: Fate)
    | Skip
    | Enter
    | Close

  // ---------- the steps ----------

  /** The smallest ticket from `t` on that no entry of the queue holds. */
  function FirstFree(q: seq<Entry>, t: nat, n: nat): (r: nat)
    requires t <= n
    ensures t <= r <= n
    ensures forall i :: t <= i < r ==> Find(q, i) < |q|
    ensures r < n ==> Find(q, r) == |q|
    decreases n - t
  {
    if t == n || Find(q, t) == |q| then t else FirstFree(q, t + 1, n)
  }

  function Released(s: Sys, ticket: nat): Sys
    requires Find(s.queue, ticket) < |s.queue|
  {
    s.(queue := Marked(s.queue, Find(s.queue, ticket)))
  }

  function Handed(m: Option<nat>): seq<nat> {
    match m case None => [] case Some(b) => [b]
  }

  /** The outcome of the frame is entered into the tail entry; on success its buffer is free again. */
  function EnterOutcome(s: Sys, ok: bool): Sys
    requires s.queue != []
  {
    if ok then
      s.(queue := Recorded(s.queue, Done, None), free := s.free + Handed(s.queue[0].mbx), phase := Entered)
    else
      s.(queue := Recorded(s.queue, Failed, s.queue[0].mbx), phase := Entered)
  }

  function CloseTurn(s: Sys, n: nat): Sys
    requires s.queue != []
  {
    s.(queue := Settled(s.queue, n), phase := Idle,
       free := if s.queue[0].Removed() then s.free + Handed(s.queue[0].mbx) else s.free)
  }

  /** The out-handler is about to send the tail entry. */
  predicate Sends(s: Sys) {
    s.phase == Idle && s.queue != [] && s.queue[0].mbx.Some?
  }

  /** What the slave gets of it. */
  function Arrives(e: Entry, fate: Fate): seq<Write>
    requires e.mbx.Some?
  {
    if fate.Lost? then [] else [Write(e.id, e.slave, e.mbx.value, fate.Acknowledged?)]
  }

  /** What a step does; a step that is not possible in a state leaves it as it is. */
  function Apply(s: Sys, n: nat, step: Step): Sys {
    match step
    case Take =>
      if s.free == [] then s else s.(free := s.free[1..], hands := s.hands + multiset{s.free[0]})
    case Return(b) =>
      if b !in s.hands then s else s.(free := s.free + [b], hands := s.hands - multiset{b})
    case Add(b, slave) =>
      if b !in s.hands || |s.queue| >= n then s
      else s.(queue := Added(s.queue, s.nextId, slave, b, FirstFree(s.queue, 0, n)),
              hands := s.hands - multiset{b}, nextId := s.nextId + 1)
    case Finish(ticket) => if Finishes(s, ticket) then Released(s, ticket) else s
    case Expire(ticket) => if Find(s.queue, ticket) < |s.queue| then Released(s, ticket) else s
    case Store(slot, b) =>
      if b !in s.hands || slot >= |s.inbox| || s.inbox[slot].Some? then s
      else s.(inbox := s.inbox[slot := Some(b)], hands := s.hands - multiset{b})
    case Receive(slot) =>
      if slot >= |s.inbox| || s.inbox[slot].None? then s
      else s.(inbox := s.inbox[slot := None], hands := s.hands + multiset{s.inbox[slot].value})
    case Answer(fate) =>
      if !Sends(s) then s
      else s.(phase := Answered(fate.Acknowledged?), wire := s.wire + Arrives(s.queue[0], fate))
    case Skip => if s.phase != Idle || s.queue == [] then s else s.(phase := Entered)
    case Enter => if s.phase.Answered? && s.queue != [] then EnterOutcome(s, s.phase.ok) else s
    case Close => if s.phase == Entered && s.queue != [] then CloseTurn(s, n) else s
  }

  /** Whether `ecx_mbxdonequeue` returns 1 for the ticket. */
  predicate Finishes(s: Sys, ticket: nat) {
    var k := Find(s.queue, ticket);
    k < |s.queue| && s.queue[k].state == Done
  }

  function Exec(s: Sys, n: nat, run: seq<Step>): Sys
    decreases |run|
  {
    if run == [] then s else Exec(Apply(s, n, run[0]), n, run[1..])
  }

  // ---------- conservation ----------

  function Is(m: Option<nat>, b: nat): nat {
    if m == Some(b) then 1 else 0
  }

  function InQueue(q: seq<Entry>, b: nat): nat {
    if q == [] then 0 else Is(q[0].mbx, b) + InQueue(q[1..], b)
  }

  function InInbox(slots: seq<Option<nat>>, b: nat): nat {
    if slots == [] then 0 else Is(slots[0], b) + InInbox(slots[1..], b)
  }

  /** In how many places buffer `b` is. */
  function Places(s: Sys, b: nat): nat {
    multiset(s.free)[b] + InQueue(s.queue, b) + InInbox(s.inbox, b) + s.hands[b]
  }

  lemma {:induction false} InQueueAppend(q: seq<Entry>, e: Entry, b: nat)
    ensures InQueue(q + [e], b) == InQueue(q, b) + Is(e.mbx, b)
  {
    if q == [] {
      assert q + [e] == [e];
    } else {
      assert (q + [e])[1..] == q[1..] + [e];
      InQueueAppend(q[1..], e, b);
    }
  }

  lemma {:induction false} InQueueUpdate(q: seq<Entry>, k: nat, e: Entry, b: nat)
    requires k < |q|
    ensures InQueue(q[k := e], b) + Is(q[k].mbx, b) == InQueue(q, b) + Is(e.mbx, b)
  {
    if k == 0 {
      assert q[k := e][1..] == q[1..];
    } else {
      assert q[k := e][1..] == q[1..][k - 1 := e];
      InQueueUpdate(q[1..], k - 1, e, b);
    }
  }

  lemma {:induction false} InInboxUpdate(slots: seq<Option<nat>>, k: nat, m: Option<nat>, b: nat)
    requires k < |slots|
    ensures InInbox(slots[k := m], b) + Is(slots[k], b) == InInbox(slots, b) + Is(m, b)
  {
    if k == 0 {
      assert slots[k := m][1..] == slots[1..];
    } else {
      assert slots[k := m][1..] == slots[1..][k - 1 := m];
      InInboxUpdate(slots[1..], k - 1, m, b);
    }
  }

  lemma TakeConserves(s: Sys, n: nat, b: nat)
    ensures Places(Apply(s, n, Take), b) == Places(s, b)
  {
    if s.free != [] {
      assert s.free == [s.free[0]] + s.free[1..];
    }
  }

  lemma AddConserves(s: Sys, n: nat, m: nat, slave: nat, b: nat)
    ensures Places(Apply(s, n, Add(m, slave)), b) == Places(s, b)
  {
    if m in s.hands && |s.queue| < n {
      InQueueAppend(s.queue, Entry(s.nextId, slave, Some(m), Requested, Some(FirstFree(s.queue, 0, n))), b);
    }
  }

  lemma InboxConserves(s: Sys, n: nat, step: Step, b: nat)
    requires step.Store? || step.Receive?
    ensures Places(Apply(s, n, step), b) == Places(s, b)
  {
    if step.slot < |s.inbox| {
      InInboxUpdate(s.inbox, step.slot, if step.Store? then Some(step.b) else None, b);
    }
  }

  lemma EnterConserves(s: Sys, n: nat, b: nat)
    ensures Places(Apply(s, n, Enter), b) == Places(s, b)
  {
    if s.phase.Answered? && s.queue != [] {
      InQueueUpdate(s.queue, 0, Apply(s, n, Enter).queue[0], b);
    }
  }

  lemma CloseConserves(s: Sys, n: nat, b: nat)
    ensures Places(Apply(s, n, Close), b) == Places(s, b)
  {
    if s.phase == Entered && s.queue != [] {
      InQueueAppend(s.queue[1..], s.queue[0], b);
    }
  }

  /** No step creates, loses or duplicates a buffer. */
  lemma StepConserves(s: Sys, n: nat, step: Step, b: nat)
    ensures Places(Apply(s, n, step), b) == Places(s, b)
  {
    match step
    case Take => TakeConserves(s, n, b);
    case Return(_) =>
    case Add(m, slave) => AddConserves(s, n, m, slave, b);
    case Finish(ticket) => ReleaseConserves(s, ticket, b);
    case Expire(ticket) => ReleaseConserves(s, ticket, b);
    case Store(_, _) => InboxConserves(s, n, step, b);
    case Receive(_) => InboxConserves(s, n, step, b);
    case Answer(_) =>
    case Skip =>
    case Enter => EnterConserves(s, n, b);
    case Close => CloseConserves(s, n, b);
  }

  lemma ReleaseConserves(s: Sys, ticket: nat, b: nat)
    ensures Find(s.queue, ticket) < |s.queue| ==> Places(Released(s, ticket), b) == Places(s, b)
  {
    var k := Find(s.queue, ticket);
    if k < |s.queue| {
      InQueueUpdate(s.queue, k, s.queue[k].(ticket := None), b);
    }
  }

  function Initial(pool: nat, slots: nat): Sys {
    Sys(seq(pool, i => i), [], seq(slots, _ => None), multiset{}, [], Idle, 0)
  }

  lemma {:induction false} InInboxEmpty(slots: seq<Option<nat>>, b: nat)
    requires forall i :: 0 <= i < |slots| ==> slots[i].None?
    ensures InInbox(slots, b) == 0
  {
    if slots != [] {
      InInboxEmpty(slots[1..], b);
    }
  }

  lemma {:induction false} AllFree(pool: nat, b: nat)
    ensures multiset(seq(pool, i => i))[b] == if b < pool then 1 else 0
  {
    if pool > 0 {
      AllFree(pool - 1, b);
      assert seq(pool, i => i) == seq(pool - 1, i => i) + [pool - 1];
    }
  }

  lemma {:induction false} RunConserves(s: Sys, n: nat, run: seq<Step>, b: nat)
    ensures Places(Exec(s, n, run), b) == Places(s, b)
    decreases |run|
  {
    if run != [] {
      StepConserves(s, n, run[0], b);
      RunConserves(Apply(s, n, run[0]), n, run[1..], b);
    }
  }

  /** In every reachable state every buffer of the pool, and no other, is in exactly one place. */
  lemma BuffersConserved(pool: nat, slots: nat, n: nat, run: seq<Step>, b: nat)
    ensures Places(Exec(Initial(pool, slots), n, run), b) == if b < pool then 1 else 0
  {
    InInboxEmpty(Initial(pool, slots).inbox, b);
    AllFree(pool, b);
    RunConserves(Initial(pool, slots), n, run, b);
  }

  // ---------- tickets and writes ----------

  /** How often a message was written. */
  function Writes(wire: seq<Write>, id: nat): nat {
    if wire == [] then 0 else (if wire[|wire| - 1].id == id then 1 else 0) + Writes(wire[..|wire| - 1], id)
  }

  /** How often it was written and the master was told. */
  function Acks(wire: seq<Write>, id: nat): nat {
    if wire == [] then 0
    else (if wire[|wire| - 1].id == id && wire[|wire| - 1].acknowledged then 1 else 0) + Acks(wire[..|wire| - 1], id)
  }

  /** Whether the master knows that the message of the `k`-th entry has reached its slave. */
  predicate Sent(s: Sys, k: nat)
    requires k < |s.queue|
  {
    s.queue[k].state == Done || (k == 0 && s.phase == Answered(true))
  }

  /** What was acknowledged is not written again. */
  ghost predicate NeverAgain(wire: seq<Write>) {
    forall i, j :: 0 <= i < j < |wire| && wire[i].id == wire[j].id ==> !wire[i].acknowledged
  }

  ghost predicate IdsDistinct(q: seq<Entry>) {
    forall i, j :: 0 <= i < j < |q| ==> q[i].id != q[j].id
  }

  /** The invariant of every run. */
  ghost predicate Inv(s: Sys, n: nat) {
    && |s.queue| <= n && TicketsDistinct(s.queue) && IdsDistinct(s.queue)
    && (forall k :: 0 <= k < |s.queue| ==> EntryGood(s, n, k))
    && (forall i :: 0 <= i < |s.wire| ==> s.wire[i].id < s.nextId)
    && NeverAgain(s.wire)
    && (s.phase != Idle ==> s.queue != [])
    && (s.phase.Answered? ==> s.queue[0].mbx.Some?)
  }

  ghost predicate EntryGood(s: Sys, n: nat, k: nat)
    requires k < |s.queue|
  {
    var e := s.queue[k];
    && e.id < s.nextId && e.state != Unused && (e.state == Done <==> e.mbx.None?)
    && (e.ticket.Some? ==> e.ticket.value < n)
    && Acks(s.wire, e.id) == (if Sent(s, k) then 1 else 0)
  }

  /** Acknowledgements are counted. */
  lemma {:induction false} AcksCount(wire: seq<Write>, id: nat)
    ensures Acks(wire, id) == 0 <==> forall i :: 0 <= i < |wire| && wire[i].id == id ==> !wire[i].acknowledged
    ensures NeverAgain(wire) ==> Acks(wire, id) <= 1
  {
    if wire != [] {
      AcksCount(wire[..|wire| - 1], id);
    }
  }

  lemma WritesAppend(wire: seq<Write>, w: Write, id: nat)
    ensures Writes(wire + [w], id) == Writes(wire, id) + if w.id == id then 1 else 0
    ensures Acks(wire + [w], id) == Acks(wire, id) + if w.id == id && w.acknowledged then 1 else 0
  {
    assert (wire + [w])[..|wire|] == wire;
  }

  lemma AddInv(s: Sys, n: nat, b: nat, slave: nat)
    requires Inv(s, n)
    ensures Inv(Apply(s, n, Add(b, slave)), n)
  {
    if b in s.hands && |s.queue| < n {
      var t := FirstFree(s.queue, 0, n);
      TicketPigeonhole(s.queue, t);
      AcksCount(s.wire, s.nextId);
      var s' := Apply(s, n, Add(b, slave));
      forall k | 0 <= k < |s'.queue| ensures EntryGood(s', n, k) {
        if k < |s.queue| {
          assert EntryGood(s, n, k);
        }
      }
      forall i | 0 <= i < |s.queue| ensures s.queue[i].id < s.nextId && s.queue[i].ticket != Some(t) {
        assert EntryGood(s, n, i);
      }
    }
  }

  lemma ReleaseInv(s: Sys, n: nat, ticket: nat)
    requires Inv(s, n) && Find(s.queue, ticket) < |s.queue|
    ensures Inv(Released(s, ticket), n)
  {
    var s' := Released(s, ticket);
    forall k | 0 <= k < |s'.queue| ensures EntryGood(s', n, k) {
      assert EntryGood(s, n, k);
    }
  }

  lemma AnswerInv(s: Sys, n: nat, fate: Fate)
    requires Inv(s, n)
    ensures Inv(Apply(s, n, Answer(fate)), n)
  {
    var s' := Apply(s, n, Answer(fate));
    if Sends(s) {
      assert EntryGood(s, n, 0);
      AcksCount(s.wire, s.queue[0].id);
      forall id
        ensures Acks(s'.wire, id) == Acks(s.wire, id) + if fate.Acknowledged? && s.queue[0].id == id then 1 else 0
      {
        AnswerWrites(s, n, fate, id);
      }
    }
    forall k | 0 <= k < |s'.queue| ensures EntryGood(s', n, k) {
      assert EntryGood(s, n, k);
    }
  }

  lemma AnswerWrites(s: Sys, n: nat, fate: Fate, id: nat)
    requires Sends(s)
    ensures var s', own := Apply(s, n, Answer(fate)), s.queue[0].id == id;
      && Acks(s'.wire, id) == Acks(s.wire, id) + (if fate.Acknowledged? && own then 1 else 0)
      && Writes(s'.wire, id) == Writes(s.wire, id) + (if !fate.Lost? && own then 1 else 0)
  {
    if !fate.Lost? {
      WritesAppend(s.wire, Arrives(s.queue[0], fate)[0], id);
    } else {
      assert s.wire + [] == s.wire;
    }
  }

  lemma EnterInv(s: Sys, n: nat)
    requires Inv(s, n)
    ensures Inv(Apply(s, n, Enter), n)
  {
    var s' := Apply(s, n, Enter);
    forall k | 0 <= k < |s'.queue| ensures EntryGood(s', n, k) {
      assert EntryGood(s, n, k);
    }
  }

  lemma CloseInv(s: Sys, n: nat)
    requires Inv(s, n)
    ensures Inv(Apply(s, n, Close), n)
  {
    var s' := Apply(s, n, Close);
    if s' != s {
      var gone := s.queue[0].Removed();
      forall k | 0 <= k < |s'.queue| ensures EntryGood(s', n, k) {
        assert EntryGood(s, n, if s'.queue == s.queue then k else if k == |s.queue| - 1 then 0 else k + 1);
      }
    }
  }

  lemma StepInv(s: Sys, n: nat, step: Step)
    requires Inv(s, n)
    ensures Inv(Apply(s, n, step), n)
  {
    var s' := Apply(s, n, step);
    match step
    case Add(b, slave) => AddInv(s, n, b, slave);
    case Answer(fate) => AnswerInv(s, n, fate);
    case Enter => EnterInv(s, n);
    case Close => CloseInv(s, n);
    case Finish(ticket) =>
      if Finishes(s, ticket) {
        ReleaseInv(s, n, ticket);
      }
    case Expire(ticket) =>
      if Find(s.queue, ticket) < |s.queue| {
        ReleaseInv(s, n, ticket);
      }
    case _ =>
      forall k | 0 <= k < |s'.queue| ensures EntryGood(s', n, k) {
        assert EntryGood(s, n, k);
      }
  }

  lemma {:induction false} RunInv(s: Sys, n: nat, run: seq<Step>)
    requires Inv(s, n)
    ensures Inv(Exec(s, n, run), n)
    decreases |run|
  {
    if run != [] {
      StepInv(s, n, run[0]);
      RunInv(Apply(s, n, run[0]), n, run[1..]);
    }
  }

  // ---------- a ticket is a stable handle ----------

  /** Ticket `t` denotes message `id`, handed over in buffer `b` for `slave`; whatever was written under
    * that number went to that slave from that buffer. */
  ghost predicate Denotes(s: Sys, t: nat, id: nat, slave: nat, b: nat) {
    var k := Find(s.queue, t);
    && k < |s.queue| && s.queue[k].id == id && s.queue[k].slave == slave
    && (s.queue[k].mbx.Some? ==> s.queue[k].mbx == Some(b))
    && Faithful(s.wire, id, slave, b)
  }

  /** What was written of a message went to its slave from its buffer. */
  ghost predicate Faithful(wire: seq<Write>, id: nat, slave: nat, b: nat) {
    forall i :: 0 <= i < |wire| && wire[i].id == id ==> wire[i].slave == slave && wire[i].mbx == b
  }

  /** The step gives the ticket back. */
  predicate GivesBack(s: Sys, step: Step, t: nat) {
    (step == Finish(t) && Finishes(s, t)) || step == Expire(t)
  }

  /** The entry holding a ticket is where the ticket is found. */
  lemma FoundAt(q: seq<Entry>, t: nat, k: nat)
    requires TicketsDistinct(q) && k < |q| && q[k].ticket == Some(t)
    ensures Find(q, t) == k
  {
    FindAtMost(q, t, k);
  }

  lemma StepKeepsHandle(s: Sys, n: nat, step: Step, t: nat, id: nat, slave: nat, b: nat)
    requires Inv(s, n) && Denotes(s, t, id, slave, b) && !GivesBack(s, step, t)
    ensures Denotes(Apply(s, n, step), t, id, slave, b)
  {
    StepInv(s, n, step);
    var k := Find(s.queue, t);
    assert EntryGood(s, n, k);
    match step {
      case Close => CloseKeepsHandle(s, n, t, id, slave, b);
      case Answer(fate) => AnswerKeepsHandle(s, n, fate, t, id, slave, b);
      case _ =>
        hide Acks, NeverAgain, IdsDistinct;
        var s' := Apply(s, n, step);
        if s'.queue != s.queue {
          FoundAt(s'.queue, t, k);
        }
    }
  }

  lemma CloseKeepsHandle(s: Sys, n: nat, t: nat, id: nat, slave: nat, b: nat)
    requires Inv(s, n) && Denotes(s, t, id, slave, b) && Inv(Apply(s, n, Close), n)
    ensures Denotes(Apply(s, n, Close), t, id, slave, b)
  {
    hide Acks, NeverAgain, IdsDistinct;
    var s', k := Apply(s, n, Close), Find(s.queue, t);
    if s'.queue != s.queue {
      FoundAt(s'.queue, t, if s.queue[0].Removed() then k - 1 else if k == 0 then |s.queue| - 1 else k - 1);
    }
  }

  lemma AnswerKeepsHandle(s: Sys, n: nat, fate: Fate, t: nat, id: nat, slave: nat, b: nat)
    requires Inv(s, n) && Denotes(s, t, id, slave, b)
    ensures Denotes(Apply(s, n, Answer(fate)), t, id, slave, b)
  {
    hide Acks, NeverAgain;
  }

  lemma StepGivesTicket(s: Sys, n: nat, b: nat, slave: nat)
    requires Inv(s, n) && b in s.hands && |s.queue| < n
    ensures var t := FirstFree(s.queue, 0, n);
      t < n && IsFreshTicket(s.queue, t) && Denotes(Apply(s, n, Add(b, slave)), t, s.nextId, slave, b)
  {
    var t := FirstFree(s.queue, 0, n);
    TicketPigeonhole(s.queue, t);
    AddInv(s, n, b, slave);
    FoundAt(Apply(s, n, Add(b, slave)).queue, t, |s.queue|);
  }

  /** No step of the run gives ticket `t` back. */
  ghost predicate Outstanding(s: Sys, n: nat, run: seq<Step>, t: nat)
    decreases |run|
  {
    run == [] || (!GivesBack(s, run[0], t) && Outstanding(Apply(s, n, run[0]), n, run[1..], t))
  }

  lemma {:induction false} RunKeepsHandle(s: Sys, n: nat, run: seq<Step>, t: nat, id: nat, slave: nat, b: nat)
    requires Inv(s, n) && Denotes(s, t, id, slave, b) && Outstanding(s, n, run, t)
    ensures Denotes(Exec(s, n, run), t, id, slave, b)
    decreases |run|
  {
    if run != [] {
      StepInv(s, n, run[0]);
      StepKeepsHandle(s, n, run[0], t, id, slave, b);
      RunKeepsHandle(Apply(s, n, run[0]), n, run[1..], t, id, slave, b);
    }
  }

  /** The step writes message `id` to its slave, and the master is not told. */
  predicate Unheard(s: Sys, step: Step, id: nat) {
    step == Answer(AnswerLost) && Sends(s) && s.queue[0].id == id
  }

  /** How often that happens in a run. */
  function LostAnswers(s: Sys, n: nat, run: seq<Step>, id: nat): nat
    decreases |run|
  {
    if run == [] then 0
    else (if Unheard(s, run[0], id) then 1 else 0) + LostAnswers(Apply(s, n, run[0]), n, run[1..], id)
  }

  /** A message is written once for every acknowledgement and once for every answer lost. */
  lemma {:induction false} WritesInRun(s: Sys, n: nat, run: seq<Step>, id: nat)
    ensures var e := Exec(s, n, run);
      Writes(e.wire, id) - Acks(e.wire, id) == Writes(s.wire, id) - Acks(s.wire, id) + LostAnswers(s, n, run, id)
    decreases |run|
  {
    if run != [] {
      var s' := Apply(s, n, run[0]);
      if run[0].Answer? && Sends(s) {
        AnswerWrites(s, n, run[0].fate, id);
      } else {
        assert s'.wire == s.wire;
      }
      hide Apply;
      WritesInRun(s', n, run[1..], id);
    }
  }

  /** A message is queued and its ticket kept through any run. Then `ecx_mbxdonequeue` reports it done only if it
    * was written, to its slave, from its buffer, and acknowledged exactly once, and as long as the handler is not in
    * the middle of sending it, that is the only case in which it was acknowledged at all. It was written once more
    * for every answer that got lost, so exactly once if and only if none was. */
  lemma DoneMeansWritten(s: Sys, n: nat, b: nat, slave: nat, run: seq<Step>)
    requires Inv(s, n) && b in s.hands && |s.queue| < n
    requires Outstanding(Apply(s, n, Add(b, slave)), n, run, FirstFree(s.queue, 0, n))
    ensures var s0, t := Apply(s, n, Add(b, slave)), FirstFree(s.queue, 0, n);
      var e := Exec(s0, n, run);
      && (Finishes(e, t) ==> Acks(e.wire, s.nextId) == 1)
      && (!e.phase.Answered? ==> (Finishes(e, t) <==> Acks(e.wire, s.nextId) > 0))
      && Writes(e.wire, s.nextId) == Acks(e.wire, s.nextId) + LostAnswers(s0, n, run, s.nextId)
      && Faithful(e.wire, s.nextId, slave, b)
  {
    var s0, t := Apply(s, n, Add(b, slave)), FirstFree(s.queue, 0, n);
    AddInv(s, n, b, slave);
    StepGivesTicket(s, n, b, slave);
    RunInv(s0, n, run);
    RunKeepsHandle(s0, n, run, t, s.nextId, slave, b);
    NoWrites(s.wire, s.nextId);
    WritesInRun(s0, n, run, s.nextId);
    var e := Exec(s0, n, run);
    assert EntryGood(e, n, Find(e.queue, t));
  }

  lemma {:induction false} NoWrites(wire: seq<Write>, id: nat)
    requires forall i :: 0 <= i < |wire| ==> wire[i].id != id
    ensures Writes(wire, id) == 0 == Acks(wire, id)
  {
    if wire != [] {
      NoWrites(wire[..|wire| - 1], id);
    }
  }

  /** A message whose first answer gets lost: it is written twice before it is done. */
  lemma WrittenTwice(s: Sys, n: nat, b: nat, slave: nat)
    requires Inv(s, n) && s.phase == Idle && s.queue == [] && b in s.hands && n > 0
    ensures var s0, t := Apply(s, n, Add(b, slave)), FirstFree(s.queue, 0, n);
      var e := Exec(s0, n, [Answer(AnswerLost), Enter, Close, Answer(Acknowledged), Enter]);
      Finishes(e, t) && Writes(e.wire, s.nextId) == 2
  {
    var s0, t := Apply(s, n, Add(b, slave)), FirstFree(s.queue, 0, n);
    StepGivesTicket(s, n, b, slave);
    NoWrites(s.wire, s.nextId);
    FirstAttempt(s0, n, t, s.nextId, slave, b);
    var s1 := Apply(Apply(Apply(s0, n, Answer(AnswerLost)), n, Enter), n, Close);
    SecondAttempt(s1, n, t, s.nextId, slave, b);
    hide Apply, Finishes;
    var run := [Answer(AnswerLost), Enter, Close, Answer(Acknowledged), Enter];
    assert run[1..] == [Enter, Close, Answer(Acknowledged), Enter];
    assert run[1..][1..] == [Close, Answer(Acknowledged), Enter];
    assert run[1..][1..][1..] == [Answer(Acknowledged), Enter];
    assert run[1..][1..][1..][1..] == [Enter];
    assert run[1..][1..][1..][1..][1..] == [];
  }

  /** The attempt that the master thinks has failed. */
  lemma FirstAttempt(s: Sys, n: nat, t: nat, id: nat, slave: nat, b: nat)
    requires s.queue == [Entry(id, slave, Some(b), Requested, Some(t))] && s.phase == Idle && Writes(s.wire, id) == 0
    ensures var s' := Apply(Apply(Apply(s, n, Answer(AnswerLost)), n, Enter), n, Close);
      && s'.queue == [Entry(id, slave, Some(b), Failed, Some(t))] && s'.phase == Idle && Writes(s'.wire, id) == 1
  {
    AnswerWrites(s, n, AnswerLost, id);
    hide Writes, Acks;
  }

  lemma SecondAttempt(s: Sys, n: nat, t: nat, id: nat, slave: nat, b: nat)
    requires s.queue == [Entry(id, slave, Some(b), Failed, Some(t))] && s.phase == Idle && Writes(s.wire, id) == 1
    ensures var s' := Apply(Apply(s, n, Answer(Acknowledged)), n, Enter);
      Finishes(s', t) && Writes(s'.wire, id) == 2
  {
    AnswerWrites(s, n, Acknowledged, id);
    hide Writes, Acks;
  }

  /** The invariant holds in every reachable state; in particular no message is ever written again once the master
    * was told that it arrived. */
  lemma ReachableInv(pool: nat, slots: nat, n: nat, run: seq<Step>)
    ensures Inv(Exec(Initial(pool, slots), n, run), n)
  {
    RunInv(Initial(pool, slots), n, run);
  }
}
