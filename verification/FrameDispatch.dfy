/** Many users of one stack: whoever polls reads whatever frame comes next and stores it for the user that waits
  * for it. Steps of users, the line and the slaves interleave in any order. */
module FrameDispatch {
  import opened Basics
  import opened Nicdrv

  /** `wire` holds the answers on their way, by index; `answers` what was answered to the last frame sent with an
    * index, unless it got lost. `holders` are the indices in the hands of users, once for each user; `failed` those
    * whose last frame could not be sent. */
  datatype Dispatch = Dispatch(slots: seq<Slot>, lastidx: nat, wire: map<nat, Packet>, answers: map<nat, Packet>,
                               holders: multiset<nat>, failed: set<nat>)

  /** What the socket gives when it is read: nothing, an answer, or a frame nobody waits for. */
  datatype Offer = Silence | Answer(index: nat) | Stray(packet: Packet)

  /** `Transmit` carries the answer that the slaves will give, or none if the frame is lost; `Lose` loses an
    * answer on its way; `Fail` is a frame that cannot be sent; `Release` gives up an index, answered or not. */
  datatype Step =
    | Allocate(index: nat)
    | Transmit(index: nat, answer: Option<Packet>)
    | Receive(index: nat, offer: Offer)
    | Lose(index: nat)
    | Fail(index: nat)
    | Release(index: nat)

  function Arrival(d: Dispatch, o: Offer): Option<Packet> {
    match o
    case Silence => None
    case Answer(j) => if j in d.wire then Some(d.wire[j]) else None
    case Stray(p) => Some(p)
  }

  function SetStatus(d: Dispatch, idx: nat, status: Status): Dispatch
    requires idx < |d.slots|
  {
    d.(slots := d.slots[idx := d.slots[idx].(status := status)])
  }

  /** Users only use indices they hold, send again only when the previous frame is no longer on its way, and poll
    * only while they wait. Whoever asks for an index gets one, in use or not. */
  ghost predicate Enabled(d: Dispatch, s: Step) {
    match s
    case Allocate(i) => d.slots != [] && NextIndex(d.slots, d.lastidx, i)
    case Transmit(i, a) => i < |d.slots| && i in d.holders && i !in d.wire && (a.Some? ==> For(a.value, i))
    case Receive(i, o) =>
      && i < |d.slots| && i in d.holders && d.slots[i].status in {Tx, Rcvd}
      && (match o
          case Silence => true
          case Answer(j) => j in d.wire
          case Stray(p) =>
            p.ethercat ==> p.frame[3] != i && (p.frame[3] < |d.slots| ==> d.slots[p.frame[3]].status != Tx))
    case Lose(i) => i in d.wire
    case Fail(i) => i < |d.slots| && i in d.holders && i !in d.wire
    case Release(i) => i < |d.slots| && i in d.holders && i !in d.wire
  }

  ghost function Next(d: Dispatch, s: Step): Dispatch
    requires d.slots != [] && Enabled(d, s)
  {
    match s
    case Allocate(i) =>
      NextIndexFree(d.slots, d.lastidx, i);
      SetStatus(d, i, Alloc).(lastidx := i, holders := d.holders + multiset{i})
    case Transmit(i, a) =>
      var d' := SetStatus(d, i, Tx).(failed := d.failed - {i});
      if a.Some? then d'.(wire := d.wire[i := a.value], answers := d.answers[i := a.value])
      else d'.(answers := d.answers - {i})
    case Receive(i, o) =>
      var p := Poll(d.slots, i, Arrival(d, o));
      d.(slots := p.slots, wire := if p.read && o.Answer? then d.wire - {o.index} else d.wire)
    case Lose(i) => d.(wire := d.wire - {i}, answers := d.answers - {i})
    case Fail(i) => SetStatus(d, i, Empty).(answers := d.answers - {i}, failed := d.failed + {i})
    case Release(i) =>
      SetStatus(d, i, Empty).(answers := d.answers - {i}, holders := d.holders - multiset{i}, failed := d.failed - {i})
  }

  /** The step is not a request for an index while every slot is in use. */
  ghost predicate FindsFree(d: Dispatch, s: Step) {
    s.Allocate? ==> exists j :: 0 <= j < |d.slots| && d.slots[j].status.Empty?
  }

  ghost predicate Possible(d: Dispatch, ss: seq<Step>)
    requires d.slots != []
    decreases |ss|
  {
    ss != [] ==> Enabled(d, ss[0]) && Next(d, ss[0]).slots != [] && Possible(Next(d, ss[0]), ss[1..])
  }

  ghost function Run(d: Dispatch, ss: seq<Step>): Dispatch
    requires d.slots != [] && Possible(d, ss)
    decreases |ss|
  {
    if ss == [] then d else Run(Next(d, ss[0]), ss[1..])
  }

  /** Every request for an index in the run finds a free slot. */
  ghost predicate AlwaysFree(d: Dispatch, ss: seq<Step>)
    requires d.slots != [] && Possible(d, ss)
    decreases |ss|
  {
    ss != [] ==> FindsFree(d, ss[0]) && AlwaysFree(Next(d, ss[0]), ss[1..])
  }

  /** The answer to an index is in its slot. */
  ghost predicate Stored(d: Dispatch, i: nat) {
    && i < |d.slots| && d.slots[i].status in {Rcvd, Complete} && i in d.answers && i !in d.wire
    && d.slots[i].frame == d.answers[i].frame && d.slots[i].sa == d.answers[i].sa
  }

  /** The answer to an index is on its way, and its slot waits. */
  ghost predicate Coming(d: Dispatch, i: nat) {
    i < |d.slots| && d.slots[i].status == Tx && i in d.answers && i in d.wire && d.wire[i] == d.answers[i]
  }

  /** Nothing is on its way for an index, and nothing is stored. */
  ghost predicate Quiet(d: Dispatch, i: nat) {
    i !in d.answers && i !in d.wire && (i < |d.slots| ==> d.slots[i].status in {Empty, Alloc, Tx})
  }

  /** Each index is in one of the three situations; answers carry the index they are kept under, and a slot in use is
    * somebody's. */
  ghost predicate Inv(d: Dispatch) {
    && d.slots != [] && |d.slots| <= 256
    && (forall i :: Stored(d, i) || Coming(d, i) || Quiet(d, i))
    && (forall i :: i in d.answers ==> For(d.answers[i], i))
    && (forall i :: 0 <= i < |d.slots| && d.slots[i].status != Empty ==> i in d.holders)
  }

  lemma ReceiveSorts(d: Dispatch, k: nat, o: Offer, i: nat)
    requires Inv(d) && Enabled(d, Receive(k, o))
    ensures var d' := Next(d, Receive(k, o)); Stored(d', i) || Coming(d', i) || Quiet(d', i)
  {
    hide Wkc;
    assert Stored(d, i) || Coming(d, i) || Quiet(d, i);
    assert Stored(d, k) || Coming(d, k) || Quiet(d, k);
    if o.Answer? {
      assert Stored(d, o.index) || Coming(d, o.index) || Quiet(d, o.index);
    }
  }

  lemma AllocateSorts(d: Dispatch, k: nat, i: nat)
    requires Inv(d) && Enabled(d, Allocate(k)) && FindsFree(d, Allocate(k))
    ensures var d' := Next(d, Allocate(k)); Stored(d', i) || Coming(d', i) || Quiet(d', i)
  {
    hide Wkc, Poll, NextIndex, For;
    assert Stored(d, i) || Coming(d, i) || Quiet(d, i);
    NextIndexFree(d.slots, d.lastidx, k);
  }

  lemma TransmitSorts(d: Dispatch, k: nat, a: Option<Packet>, i: nat)
    requires Inv(d) && Enabled(d, Transmit(k, a))
    ensures var d' := Next(d, Transmit(k, a)); Stored(d', i) || Coming(d', i) || Quiet(d', i)
  {
    hide Wkc, Poll, NextIndex, For;
    assert Stored(d, i) || Coming(d, i) || Quiet(d, i);
  }

  lemma StepSorts(d: Dispatch, s: Step, i: nat)
    requires Inv(d) && Enabled(d, s) && (s.Lose? || s.Fail? || s.Release?)
    ensures var d' := Next(d, s); Stored(d', i) || Coming(d', i) || Quiet(d', i)
  {
    hide Wkc, Poll, NextIndex, For;
    assert Stored(d, i) || Coming(d, i) || Quiet(d, i);
  }

  /** Which slot a step changes, if it is not a poll. */
  lemma StepSlots(d: Dispatch, s: Step)
    requires d.slots != [] && Enabled(d, s) && !s.Receive?
    ensures var d' := Next(d, s);
      && |d'.slots| == |d.slots|
      && (forall i :: 0 <= i < |d.slots| && (i != s.index || s.Lose?) ==> d'.slots[i] == d.slots[i])
      && (s.index < |d.slots| && !s.Lose? ==>
            (d'.slots[s.index].status == Empty <==> s.Fail? || s.Release?))
  {
    hide Poll, NextIndex, For;
    if s.Allocate? {
      NextIndexFree(d.slots, d.lastidx, s.index);
    }
  }

  lemma PollSlots(d: Dispatch, k: nat, o: Offer)
    requires d.slots != [] && Enabled(d, Receive(k, o))
    ensures var d' := Next(d, Receive(k, o));
      && |d'.slots| == |d.slots| && d'.holders == d.holders && d'.failed == d.failed
      && forall i :: 0 <= i < |d.slots| ==> (d'.slots[i].status == Empty <==> d.slots[i].status == Empty)
  {
    hide Wkc, For;
  }

  /** Who holds what after a step that is not a poll. */
  lemma StepHolders(d: Dispatch, s: Step)
    requires d.slots != [] && Enabled(d, s) && !s.Receive?
    ensures var d' := Next(d, s);
      && d'.holders == (if s.Allocate? then d.holders + multiset{s.index}
                        else if s.Release? then d.holders - multiset{s.index} else d.holders)
      && d'.failed == (if s.Fail? then d.failed + {s.index}
                       else if s.Transmit? || s.Release? then d.failed - {s.index} else d.failed)
      && (s.Allocate? ==> s.index < |d.slots| && (d.slots[s.index].status == Empty <==> FindsFree(d, s)))
      && (s.Transmit? || s.Fail? || s.Release? ==> s.index < |d.slots| && s.index in d.holders)
  {
    hide Poll, NextIndex, For;
    if s.Allocate? {
      NextIndexFree(d.slots, d.lastidx, s.index);
    }
  }

  /** A slot in use stays somebody's. */
  lemma StepHeld(d: Dispatch, s: Step)
    requires Inv(d) && Enabled(d, s)
    ensures var d' := Next(d, s);
      && |d'.slots| == |d.slots|
      && forall i :: 0 <= i < |d'.slots| && d'.slots[i].status != Empty ==> i in d'.holders
  {
    if s.Receive? {
      PollSlots(d, s.index, s.offer);
    } else {
      StepSlots(d, s);
      StepHolders(d, s);
    }
    hide Next, Enabled, Stored, Coming, Quiet, For;
  }

  lemma StepInv(d: Dispatch, s: Step)
    requires Inv(d) && Enabled(d, s) && FindsFree(d, s)
    ensures Inv(Next(d, s)) && |Next(d, s).slots| == |d.slots|
  {
    StepHeld(d, s);
    StepAnswers(d, s);
    hide Next, Enabled, Stored, Coming, Quiet, For;
    var d' := Next(d, s);
    forall i ensures Stored(d', i) || Coming(d', i) || Quiet(d', i) {
      match s {
        case Receive(k, o) => ReceiveSorts(d, k, o, i);
        case Allocate(k) => AllocateSorts(d, k, i);
        case Transmit(k, a) => TransmitSorts(d, k, a, i);
        case _ => StepSorts(d, s, i);
      }
    }
  }

  /** Answers stay under their own index. */
  lemma StepAnswers(d: Dispatch, s: Step)
    requires Inv(d) && Enabled(d, s)
    ensures forall i :: i in Next(d, s).answers ==> For(Next(d, s).answers[i], i)
  {
    hide Poll, NextIndex, For, Stored, Coming, Quiet;
    if s.Allocate? {
      NextIndexFree(d.slots, d.lastidx, s.index);
    }
  }

  /** Every reachable state: at the start all slots are empty and nothing is on its way. */
  lemma {:induction false} RunInv(d: Dispatch, ss: seq<Step>)
    requires Inv(d) && Possible(d, ss) && AlwaysFree(d, ss)
    ensures Inv(Run(d, ss)) && |Run(d, ss).slots| == |d.slots|
    decreases |ss|
  {
    if ss != [] {
      StepInv(d, ss[0]);
      RunInv(Next(d, ss[0]), ss[1..]);
    }
  }

  lemma StartInv(slots: seq<Slot>)
    requires 0 < |slots| <= 256 && forall i :: 0 <= i < |slots| ==> slots[i].status == Empty
    ensures Inv(Dispatch(slots, 0, map[], map[], multiset{}, {}))
  {
    var d := Dispatch(slots, 0, map[], map[], multiset{}, {});
    assert forall i :: Quiet(d, i);
  }

  /** The slot of the index handed out is taken, and no other slot changes; it was free if any was. */
  lemma AllocatedFree(d: Dispatch, i: nat)
    requires d.slots != [] && Enabled(d, Allocate(i))
    ensures i < |d.slots| && (d.slots[i].status == Empty <==> FindsFree(d, Allocate(i)))
    ensures Next(d, Allocate(i)).slots[i].status == Alloc
    ensures forall j :: 0 <= j < |d.slots| && j != i ==> Next(d, Allocate(i)).slots[j] == d.slots[j]
  {
    NextIndexFree(d.slots, d.lastidx, i);
  }

  /** A poll that returns a working counter leaves in the slot the answer to the index polled for, and returns the
    * counter of that answer; a poll that does not, leaves the user waiting. */
  lemma ReceiveOwn(d: Dispatch, i: nat, o: Offer)
    requires Inv(d) && Enabled(d, Receive(i, o))
    ensures var p, d' := Poll(d.slots, i, Arrival(d, o)), Next(d, Receive(i, o));
      && (p.rval > NOFRAME ==> d'.slots[i].status == Complete && Stored(d', i) && p.rval == Wkc(d.answers[i].frame))
      && (p.rval > NOFRAME <==> d.slots[i].status == Rcvd || o == Answer(i))
      && (p.rval <= NOFRAME ==> d'.slots[i] == d.slots[i] && d.slots[i].status == Tx)
  {
    assert Stored(d, i) || Coming(d, i) || Quiet(d, i);
    if o.Answer? {
      assert Stored(d, o.index) || Coming(d, o.index) || Quiet(d, o.index);
    }
  }

  /** Whatever the others do, an answer on its way or stored is not lost, and a stored one is not overwritten. */
  lemma {:induction false} AnswerKept(d: Dispatch, ss: seq<Step>, i: nat)
    requires Inv(d) && Possible(d, ss) && AlwaysFree(d, ss) && (Coming(d, i) || Stored(d, i))
    requires forall s :: s in ss && !s.Allocate? ==> s.index != i
    ensures var d' := Run(d, ss);
      && (Coming(d', i) || Stored(d', i)) && d'.answers[i] == d.answers[i]
      && (Stored(d, i) ==> Stored(d', i) && d'.slots[i] == d.slots[i])
    decreases |ss|
  {
    hide Wkc, NextIndex, Coming, Stored, Quiet;
    if ss != [] {
      assert ss[0] in ss;
      StepInv(d, ss[0]);
      StepKeeps(d, ss[0], i);
      AnswerKept(Next(d, ss[0]), ss[1..], i);
    }
  }

  lemma StepKeeps(d: Dispatch, s: Step, i: nat)
    requires Inv(d) && Enabled(d, s) && FindsFree(d, s) && (Coming(d, i) || Stored(d, i))
    requires s.Allocate? || s.index != i
    ensures var d' := Next(d, s);
      && (Coming(d', i) || Stored(d', i)) && d'.answers[i] == d.answers[i]
      && (Stored(d, i) ==> Stored(d', i) && d'.slots[i] == d.slots[i])
  {
    hide Wkc, NextIndex;
    if s.Allocate? {
      NextIndexFree(d.slots, d.lastidx, s.index);
    }
    if s.Receive? && s.offer.Answer? {
      var j := s.offer.index;
      assert Stored(d, j) || Coming(d, j) || Quiet(d, j);
    }
  }

  /** Polling for `i` while the socket gives the answers in some order. */
  function Polls(i: nat, order: seq<nat>): seq<Step> {
    if order == [] then [] else [Receive(i, Answer(order[0]))] + Polls(i, order[1..])
  }

  /** In whatever order the answers come in, the user gets its own when it comes, and all that came before it are
    * in the slots of those who wait for them. */
  lemma {:induction false} AnyOrder(d: Dispatch, i: nat, order: seq<nat>)
    requires Inv(d) && order != [] && order[|order| - 1] == i
    requires forall k :: 0 <= k < |order| ==> order[k] in d.wire
    requires forall j, k :: 0 <= j < k < |order| ==> order[j] != order[k]
    ensures Possible(d, Polls(i, order))
    ensures var d' := Run(d, Polls(i, order));
      && d'.answers == d.answers && Stored(d', i) && d'.slots[i].status == Complete
      && (forall j :: j in order ==> Stored(d', j))
      && (forall j :: j in d.wire && j !in order ==> Coming(d', j))
    decreases |order|
  {
    hide Wkc, NextIndex, Polls, Poll, Enabled, Inv, Stored, Coming, Quiet, Next, Possible, Run;
    var s := Receive(i, Answer(order[0]));
    PollsStep(i, order);
    InvSlots(d);
    OnePoll(d, i, order[0]);
    StepInv(d, s);
    var d', ss, rest := Next(d, s), Polls(i, order), order[1..];
    assert ss[0] == s && ss[1..] == Polls(i, rest);
    RunStep(d, ss);
    if rest == [] {
      PollsStep(i, rest);
      RunEnd(d');
    } else {
      assert forall k :: 0 <= k < |rest| ==> rest[k] == order[k + 1];
      AnyOrder(d', i, rest);
      assert order[0] !in rest && i in rest;
      forall x | x in Polls(i, rest) && !x.Allocate? ensures x.index == i {
        PollsAll(i, rest, x);
      }
      PollsFree(d', i, rest);
      AnswerKept(d', Polls(i, rest), order[0]);
    }
  }

  lemma InvSlots(d: Dispatch)
    requires Inv(d)
    ensures d.slots != []
  {
  }

  lemma RunStep(d: Dispatch, ss: seq<Step>)
    requires d.slots != [] && ss != [] && Enabled(d, ss[0]) && Next(d, ss[0]).slots != []
    ensures Possible(d, ss) <==> Possible(Next(d, ss[0]), ss[1..])
    ensures Possible(d, ss) ==> Run(d, ss) == Run(Next(d, ss[0]), ss[1..])
  {
    hide Enabled, Next;
  }

  lemma RunEnd(d: Dispatch)
    requires d.slots != []
    ensures Possible(d, []) && Run(d, []) == d
  {
  }

  lemma PollsStep(i: nat, order: seq<nat>)
    ensures order == [] ==> Polls(i, order) == []
    ensures order != [] ==> Polls(i, order) == [Receive(i, Answer(order[0]))] + Polls(i, order[1..])
  {
  }

  lemma {:induction false} PollsAll(i: nat, order: seq<nat>, s: Step)
    requires s in Polls(i, order)
    ensures s.Receive? && s.index == i
    decreases |order|
  {
    if order != [] && s in Polls(i, order[1..]) {
      PollsAll(i, order[1..], s);
    }
  }

  /** Polls ask for no index. */
  lemma {:induction false} PollsFree(d: Dispatch, i: nat, order: seq<nat>)
    requires d.slots != [] && Possible(d, Polls(i, order))
    ensures AlwaysFree(d, Polls(i, order))
    decreases |order|
  {
    hide Next, Enabled, Polls;
    PollsStep(i, order);
    if order != [] {
      assert Polls(i, order)[1..] == Polls(i, order[1..]);
      PollsFree(Next(d, Polls(i, order)[0]), i, order[1..]);
    }
  }

  /** One answer read: it is stored, and everything else stays. */
  lemma OnePoll(d: Dispatch, i: nat, j: nat)
    requires Inv(d) && i in d.wire && j in d.wire
    ensures Enabled(d, Receive(i, Answer(j)))
    ensures var d' := Next(d, Receive(i, Answer(j)));
      && d'.answers == d.answers && d'.wire == d.wire - {j} && Stored(d', j)
      && d'.slots[j].status == (if i == j then Complete else Rcvd)
      && (forall k :: k in d.wire && k != j ==> Coming(d', k))
  {
    hide Wkc, NextIndex;
    assert Stored(d, i) || Coming(d, i) || Quiet(d, i);
    assert Stored(d, j) || Coming(d, j) || Quiet(d, j);
    forall k | k in d.wire && k != j ensures Coming(Next(d, Receive(i, Answer(j))), k) {
      assert Stored(d, k) || Coming(d, k) || Quiet(d, k);
    }
  }

  // ---------- who holds an index ----------

  /** No index is held twice, and whose slot is empty although it is held has failed to send. */
  ghost predicate Distinct(d: Dispatch) {
    && (forall i :: d.holders[i] <= 1)
    && (forall i :: i in d.holders ==> i < |d.slots| && (d.slots[i].status == Empty ==> i in d.failed))
    && (forall i :: i in d.failed ==> i in d.holders && i < |d.slots| && d.slots[i].status == Empty)
  }

  lemma DistinctStart(slots: seq<Slot>)
    requires 0 < |slots| <= 256 && forall i :: 0 <= i < |slots| ==> slots[i].status == Empty
    ensures Distinct(Dispatch(slots, 0, map[], map[], multiset{}, {}))
  {
  }

  lemma DistinctStep(d: Dispatch, s: Step)
    requires Inv(d) && Distinct(d) && Enabled(d, s) && FindsFree(d, s) && (s.Allocate? ==> s.index !in d.failed)
    ensures Distinct(Next(d, s))
  {
    InvSlots(d);
    if s.Receive? {
      PollSlots(d, s.index, s.offer);
      hide Inv, Next, Enabled;
    } else {
      StepSlots(d, s);
      StepHolders(d, s);
      hide Inv, Next, Enabled;
      if s.Lose? {
        DistinctSame(d, Next(d, s));
      }
    }
  }

  /** The index handed out was held by nobody exactly if a slot was free and its last frame did not fail to be sent. */
  lemma AllocatedFresh(d: Dispatch, i: nat)
    requires Inv(d) && Distinct(d) && Enabled(d, Allocate(i))
    ensures i !in d.holders <==> FindsFree(d, Allocate(i)) && i !in d.failed
  {
    AllocatedFree(d, i);
    hide Enabled, FindsFree, Stored, Coming, Quiet;
  }

  lemma DistinctSame(d: Dispatch, d': Dispatch)
    requires Distinct(d) && d'.holders == d.holders && d'.failed == d.failed && |d'.slots| == |d.slots|
    requires forall i :: 0 <= i < |d.slots| ==> d'.slots[i] == d.slots[i]
    ensures Distinct(d')
  {
  }

  /** Nobody is ever given an index that somebody else still holds. */
  ghost predicate NeverShared(d: Dispatch, ss: seq<Step>)
    requires d.slots != [] && Possible(d, ss)
    decreases |ss|
  {
    (forall i :: d.holders[i] <= 1) && (ss != [] ==> NeverShared(Next(d, ss[0]), ss[1..]))
  }

  /** No index is handed out between a failed send and the next send or the release by its user. */
  ghost predicate FailedLeftAlone(d: Dispatch, ss: seq<Step>)
    requires d.slots != [] && Possible(d, ss)
    decreases |ss|
  {
    ss != [] ==> (ss[0].Allocate? ==> ss[0].index !in d.failed) && FailedLeftAlone(Next(d, ss[0]), ss[1..])
  }

  /** Indices in use are distinct throughout a run exactly if every request for an index finds a free slot and no index
    * that failed is handed out meanwhile. */
  lemma {:induction false} SharedExactly(d: Dispatch, ss: seq<Step>)
    requires d.slots != [] && Inv(d) && Distinct(d) && Possible(d, ss)
    ensures NeverShared(d, ss) <==> AlwaysFree(d, ss) && FailedLeftAlone(d, ss)
    decreases |ss|
  {
    hide Inv, NextIndex, Poll, Enabled, FindsFree;
    if ss != [] {
      var s := ss[0];
      EnabledFirst(d, ss);
      if s.Allocate? {
        AllocatedFresh(d, s.index);
      } else {
        NoRequest(d, s);
      }
      if s.Allocate? && s.index in d.holders {
        SharedNow(d, s.index);
        assert !NeverShared(Next(d, s), ss[1..]);
      } else {
        StepInv(d, s);
        DistinctStep(d, s);
        SharedExactly(Next(d, s), ss[1..]);
      }
    }
  }

  lemma EnabledFirst(d: Dispatch, ss: seq<Step>)
    requires d.slots != [] && Possible(d, ss) && ss != []
    ensures Enabled(d, ss[0]) && Next(d, ss[0]).slots != [] && Possible(Next(d, ss[0]), ss[1..])
  {
  }

  lemma NoRequest(d: Dispatch, s: Step)
    requires !s.Allocate?
    ensures FindsFree(d, s)
  {
  }

  lemma SharedNow(d: Dispatch, i: nat)
    requires d.slots != [] && Enabled(d, Allocate(i)) && i in d.holders
    ensures Next(d, Allocate(i)).holders[i] >= 2
  {
    hide NextIndex;
  }

  /** A run that ends with two users holding one index: all others being in use, a send fails and an index is
    * asked for. */
  lemma TwoHolders(d: Dispatch, i: nat)
    requires Inv(d) && Distinct(d) && i in d.holders && i !in d.wire
    requires forall j :: 0 <= j < |d.slots| && j != i ==> d.slots[j].status != Empty
    ensures i < |d.slots| && Possible(d, [Fail(i), Allocate(i)]) && Run(d, [Fail(i), Allocate(i)]).holders[i] == 2
  {
    hide Stored, Coming, Quiet, Inv, NextIndex, Poll;
    var n, d1 := |d.slots|, Next(d, Fail(i));
    OnlyFree(d1.slots, d1.lastidx, i);
    var ss := [Fail(i), Allocate(i)];
    assert ss[1..] == [Allocate(i)] && [Allocate(i)][1..] == [];
    assert Enabled(d1, Allocate(i));
    var d2 := Next(d1, Allocate(i));
    assert Possible(d2, []);
    assert Possible(d1, [Allocate(i)]) && Run(d1, [Allocate(i)]) == d2;
  }

  /** And one without any failure: while all slots are in use, whoever asks for an index is given somebody else's. */
  lemma FullTableShared(d: Dispatch, i: nat)
    requires Inv(d) && Distinct(d) && Enabled(d, Allocate(i))
    requires forall j :: 0 <= j < |d.slots| ==> d.slots[j].status != Empty
    ensures Possible(d, [Allocate(i)]) && FailedLeftAlone(d, [Allocate(i)]) && Run(d, [Allocate(i)]).holders[i] == 2
  {
    AllocatedFree(d, i);
    AllocatedFresh(d, i);
    hide Stored, Coming, Quiet, NextIndex, Poll;
    var d' := Next(d, Allocate(i));
    assert [Allocate(i)][1..] == [] && Possible(d', []) && FailedLeftAlone(d', []);
  }

  /** Such a run from the start, on a table of one slot. */
  lemma OneSlotShared(slots: seq<Slot>)
    requires |slots| == 1 && slots[0].status == Empty
    ensures var d, ss := Dispatch(slots, 0, map[], map[], multiset{}, {}), [Allocate(0), Allocate(0)];
      Possible(d, ss) && FailedLeftAlone(d, ss) && Run(d, ss).holders[0] == 2
  {
    hide Stored, Coming, Quiet, NextIndex, Poll;
    var d := Dispatch(slots, 0, map[], map[], multiset{}, {});
    OnlyFree(slots, 0, 0);
    var d1 := Next(d, Allocate(0));
    NextOfOne(d1.slots);
    var d2 := Next(d1, Allocate(0));
    assert Possible(d2, []) && FailedLeftAlone(d2, []);
    assert [Allocate(0)][1..] == [] && [Allocate(0), Allocate(0)][1..] == [Allocate(0)];
    assert Possible(d1, [Allocate(0)]) && FailedLeftAlone(d1, [Allocate(0)]) && Run(d1, [Allocate(0)]) == d2;
  }

  lemma NextOfOne(slots: seq<Slot>)
    requires |slots| == 1 && slots[0].status != Empty
    ensures NextIndex(slots, 0, 0)
  {
  }

  /** The only free index is the one handed out. */
  lemma OnlyFree(slots: seq<Slot>, last: nat, i: nat)
    requires i < |slots| && slots[i].status == Empty
    requires forall j :: 0 <= j < |slots| && j != i ==> slots[j].status != Empty
    ensures NextIndex(slots, last, i)
  {
    var n := |slots|;
    var start := Wrapped(last + 1, n);
    var k := if i >= start then i - start else i - start + n;
    assert Around(start, k, n) == i;
    forall j | 0 <= j < k ensures Around(start, j, n) != i {
    }
    assert NoneFree(slots, start, k);
  }
}
