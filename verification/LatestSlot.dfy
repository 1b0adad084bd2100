/**
 The latest-frame slot between the capture worker and the consumer: a mutex-guarded
 option, a one-token notification channel, and the two threads as a state machine
 with one step per lock-protected action or channel operation. Every interleaving is
 a behaviour.
 */
module LatestSlot {
  import opened Wrappers

  /** What the worker publishes; an error message is its last. */
  datatype Message = Frame(id: nat) | Error(text: string)

  datatype Worker =
    | Looping
    | Waiting
    | Capturing
    | Holding(message: Message)
    | Notifying(last: bool)
    | Stopped

  datatype Consumer = Away | Checking | Blocked

  /** `published` and `taken` record the run: every message stored, and the indices of those taken. */
  datatype State = State(
    enrolling: bool, cancelled: bool, receiverGone: bool,
    slot: Option<Message>, token: bool, worker: Worker, consumer: Consumer,
    published: seq<Message>, taken: seq<int>)

  /** The worker starts looping, or holds the error of a backend that did not start. */
  predicate Init(s: State) {
    && s.slot.None? && !s.token && s.consumer.Away?
    && s.published == [] && s.taken == []
    && (s.worker.Looping? || (s.worker.Holding? && s.worker.message.Error?))
  }

  // ----- worker steps -----

  /** The head of the worker loop: stop if cancelled, wait if enrolling, capture otherwise. */
  predicate Loop(s: State, s': State) {
    && s.worker.Looping?
    && s' == s.(worker := if s.cancelled then Stopped else if s.enrolling then Waiting else Capturing)
  }

  /** The condition-variable wait ends on an empty slot or on cancellation. */
  predicate WaitEnds(s: State, s': State) {
    && s.worker.Waiting?
    && (s.slot.None? || s.cancelled)
    && s' == s.(worker := if s.cancelled then Stopped else Capturing)
  }

  /** The backend yields a message, is cancelled, or falls back and is tried again. */
  predicate Capture(s: State, s': State) {
    && s.worker.Capturing?
    && (|| s' == s.(worker := Stopped)
        || s' == s.(worker := Looping)
        || (s'.worker.Holding? && s' == s.(worker := s'.worker)))
  }

  /** Publication, under the lock: overwrite the slot. */
  predicate Store(s: State, s': State) {
    && s.worker.Holding?
    && s' == s.(slot := Some(s.worker.message), published := s.published + [s.worker.message],
                worker := Notifying(s.worker.message.Error?))
  }

  /** Publication, after the lock: offer the token; a full channel keeps the one it has. */
  predicate Notify(s: State, s': State) {
    && s.worker.Notifying?
    && if s.receiverGone then s' == s.(worker := Stopped)
       else s' == s.(token := true, worker := if s.worker.last then Stopped else Looping)
  }

  // ----- consumer steps -----

  predicate Call(s: State, s': State) { s.consumer.Away? && !s.receiverGone && s' == s.(consumer := Checking) }

  /** Take the slot under the lock, or go on to block on the channel. */
  predicate Take(s: State, s': State) {
    && s.consumer.Checking?
    && if s.slot.Some?
       then s' == s.(slot := None, taken := s.taken + [|s.published| - 1], consumer := Away)
       else s' == s.(consumer := Blocked)
  }

  predicate Wake(s: State, s': State) {
    s.consumer.Blocked? && s.token && s' == s.(token := false, consumer := Checking)
  }

  predicate TimeOut(s: State, s': State) { s.consumer.Blocked? && !s.token && s' == s.(consumer := Away) }

  /** The channel reports its sender gone only once it is drained. */
  predicate Disconnect(s: State, s': State) {
    s.consumer.Blocked? && !s.token && s.worker.Stopped? && s' == s.(consumer := Away)
  }

  // ----- environment steps -----

  predicate Cancel(s: State, s': State) { s' == s.(cancelled := true) }

  predicate DropReceiver(s: State, s': State) { s.consumer.Away? && s' == s.(receiverGone := true) }

  predicate Next(s: State, s': State) {
    || Loop(s, s') || WaitEnds(s, s') || Capture(s, s') || Store(s, s') || Notify(s, s')
    || Call(s, s') || Take(s, s') || Wake(s, s') || TimeOut(s, s') || Disconnect(s, s')
    || Cancel(s, s') || DropReceiver(s, s')
  }

  ghost predicate Behaviour(run: seq<State>) {
    && |run| > 0 && Init(run[0])
    && forall i :: 0 < i < |run| ==> Next(run[i - 1], run[i])
  }

  // ----- the invariant -----

  /** A full slot and a blocked consumer: the token is there or the worker is about to offer it. */
  predicate WakeComing(s: State) {
    s.slot.Some? && s.consumer.Blocked? ==> s.token || (s.worker.Notifying? && !s.receiverGone)
  }

  predicate Increasing(taken: seq<int>, limit: int) {
    && (forall i, j :: 0 <= i < j < |taken| ==> taken[i] < taken[j])
    && (forall i :: 0 <= i < |taken| ==> 0 <= taken[i] < limit)
  }

  /** The slot holds the newest message, and that message was not taken yet. */
  predicate SlotNewest(s: State) {
    s.slot.Some? ==>
      && |s.published| > 0
      && s.slot.value == s.published[|s.published| - 1]
      && Increasing(s.taken, |s.published| - 1)
  }

  /** Enrolling: everything published was taken, in order, except what is in the slot; and a worker past
      its wait finds the slot empty. */
  predicate NothingLost(s: State) {
    s.enrolling ==>
      && |s.published| == |s.taken| + (if s.slot.Some? then 1 else 0)
      && (forall i :: 0 <= i < |s.taken| ==> s.taken[i] == i)
      && (s.worker.Capturing? || s.worker.Holding? ==> s.slot.None?)
  }

  predicate Inv(s: State) {
    && WakeComing(s)
    && Increasing(s.taken, |s.published|)
    && SlotNewest(s)
    && NothingLost(s)
    && (s.receiverGone ==> s.consumer.Away?)
    && (s.worker.Waiting? ==> s.enrolling)
  }

  lemma InitKeeps(s: State)
    requires Init(s)
    ensures Inv(s)
  {}

  lemma StoreKeeps(s: State, s': State)
    requires Inv(s) && Store(s, s')
    ensures Inv(s')
  {
    assert s'.published[|s'.published| - 1] == s.worker.message;
  }

  lemma TakeKeeps(s: State, s': State)
    requires Inv(s) && Take(s, s')
    ensures Inv(s')
  {
    if s.slot.Some? {
      assert Increasing(s.taken, |s.published| - 1);
      assert Increasing(s'.taken, |s'.published|);
    }
  }

  /** Every other step leaves the slot and the record of the run alone. */
  predicate Quiet(s: State, s': State) {
    s'.slot == s.slot && s'.published == s.published && s'.taken == s.taken && s'.enrolling == s.enrolling
  }

  lemma WorkerKeeps(s: State, s': State)
    requires Inv(s) && (Loop(s, s') || WaitEnds(s, s') || Capture(s, s') || Notify(s, s'))
    ensures Inv(s') && Quiet(s, s')
  {
    hide Increasing;
  }

  lemma ConsumerKeeps(s: State, s': State)
    requires Inv(s) && (Call(s, s') || Wake(s, s') || TimeOut(s, s') || Disconnect(s, s'))
    ensures Inv(s') && Quiet(s, s')
  {
    hide Increasing;
  }

  lemma EnvironmentKeeps(s: State, s': State)
    requires Inv(s) && (Cancel(s, s') || DropReceiver(s, s'))
    ensures Inv(s') && Quiet(s, s')
  {
    hide Increasing;
  }

  lemma NextKeeps(s: State, s': State)
    requires Inv(s) && Next(s, s')
    ensures Inv(s') && s'.enrolling == s.enrolling
  {
    hide Inv, Loop, WaitEnds, Capture, Notify, Call, Wake, TimeOut, Disconnect, Cancel, DropReceiver;
    if Store(s, s') {
      StoreKeeps(s, s');
    } else if Take(s, s') {
      TakeKeeps(s, s');
    } else if Loop(s, s') || WaitEnds(s, s') || Capture(s, s') || Notify(s, s') {
      WorkerKeeps(s, s');
    } else if Cancel(s, s') || DropReceiver(s, s') {
      EnvironmentKeeps(s, s');
    } else {
      ConsumerKeeps(s, s');
    }
  }

  lemma {:induction false} BehaviourKeeps(run: seq<State>, i: nat)
    requires Behaviour(run) && i < |run|
    ensures Inv(run[i]) && run[i].enrolling == run[0].enrolling
  {
    if i == 0 {
      InitKeeps(run[0]);
    } else {
      BehaviourKeeps(run, i - 1);
      NextKeeps(run[i - 1], run[i]);
    }
  }

  // ----- what the interleavings guarantee -----

  /** No wake-up is lost: whenever the slot is full and the consumer is blocked, either it can wake now or
      the worker's very next step lets it. In particular it is never told that the worker is gone. */
  lemma NoLostWakeup(run: seq<State>, i: nat)
    requires Behaviour(run) && i < |run| && run[i].slot.Some? && run[i].consumer.Blocked?
    ensures run[i].token
      || (exists s' :: Notify(run[i], s') && s'.token && s'.consumer.Blocked? && s'.slot == run[i].slot)
    ensures forall s' :: !Disconnect(run[i], s')
  {
    BehaviourKeeps(run, i);
    var s := run[i];
    if !s.token {
      assert Notify(s, s.(token := true, worker := if s.worker.last then Stopped else Looping));
    }
  }

  /** The messages the consumer got, oldest first. */
  function Delivered(s: State): seq<Message>
    requires Inv(s)
  {
    seq(|s.taken|, i requires 0 <= i < |s.taken| => s.published[s.taken[i]])
  }

  /** Enrollment delivers every message in order: none is overwritten before it is taken. */
  lemma EnrollmentDeliversAll(run: seq<State>, i: nat)
    requires Behaviour(run) && i < |run| && run[0].enrolling
    ensures Inv(run[i])
    ensures run[i].published == Delivered(run[i]) + (if run[i].slot.Some? then [run[i].slot.value] else [])
  {
    BehaviourKeeps(run, i);
  }

  /** Enrollment never stores into a full slot. */
  lemma EnrollmentNeverOverwrites(run: seq<State>, i: nat)
    requires Behaviour(run) && i + 1 < |run| && run[0].enrolling && Store(run[i], run[i + 1])
    ensures run[i].slot.None?
  {
    BehaviourKeeps(run, i);
  }

  /** In either mode a take yields the newest message, and takes never repeat or go back. */
  lemma TakeYieldsNewest(run: seq<State>, i: nat)
    requires Behaviour(run) && i + 1 < |run| && Take(run[i], run[i + 1]) && run[i].slot.Some?
    ensures Inv(run[i]) && Inv(run[i + 1])
    ensures run[i].published != [] && run[i].slot.value == run[i].published[|run[i].published| - 1]
    ensures Delivered(run[i + 1]) == Delivered(run[i]) + [run[i].slot.value]
    ensures Increasing(run[i + 1].taken, |run[i + 1].published|)
  {
    BehaviourKeeps(run, i);
    BehaviourKeeps(run, i + 1);
  }

  /** Authentication never waits on a full slot: the worker goes from the head of its loop straight to the next capture
      or stops, and what it captures can be stored at once, over whatever is there. */
  lemma AuthenticationNeverWaits(run: seq<State>, i: nat)
    requires Behaviour(run) && i < |run| && !run[0].enrolling
    ensures !run[i].worker.Waiting?
    ensures run[i].worker.Looping? && !run[i].cancelled ==>
      forall s' :: Loop(run[i], s') ==> s'.worker.Capturing?
    ensures run[i].worker.Holding? ==> exists s' :: Store(run[i], s') && s'.slot == Some(run[i].worker.message)
  {
    BehaviourKeeps(run, i);
    var s := run[i];
    if s.worker.Holding? {
      assert Store(s, s.(slot := Some(s.worker.message), published := s.published + [s.worker.message],
                         worker := Notifying(s.worker.message.Error?)));
    }
  }
}
