/**
 The durable status operation: publish a correlated signal, then poll the response subject
 until an answer is visible or ten seconds have passed.
 */
module JetStream {
  import opened Options
  import opened Numerals

  type OperationId = nat

  const RESPONSE_SCHEMA := "apme.async-status-response.v1"
  const RESPONSE_SUBJECT_PREFIX := "apme.web_api.inbox.status"
  const MAX_RESPONSE_BYTES: nat := 64 * 1024
  const ASYNC_TIMEOUT_MS: nat := 10_000
  const POLL_INTERVAL_MS: nat := 100

  datatype StatusResponse = StatusResponse(
    schema: string, operationId: OperationId, status: string, service: string, databaseReady: bool)

  /** A stored message: its size, and the response in it if it parses strictly. */
  datatype Message = Message(size: nat, response: Option<StatusResponse>)

  datatype Outcome = Ready(databaseReady: bool) | Rejected | TimedOut | NotPublished

  /** The size check, then `decode_response`. */
  function Judge(message: Message, expected: OperationId): Outcome {
    if message.size > MAX_RESPONSE_BYTES then Rejected
    else
      match message.response
      case None => Rejected
      case Some(r) =>
        if r.schema != RESPONSE_SCHEMA || r.operationId != expected || r.status != "ok" || r.service != "apme-api"
        then Rejected
        else Ready(r.databaseReady)
  }

  /** The one message that makes an operation ready, and with which answer; any other is rejected. */
  predicate Judged(message: Message, id: OperationId, outcome: Outcome) {
    match outcome
    case Ready(ready) => Favourable(message, id, ready)
    case Rejected => !Favourable(message, id, true) && !Favourable(message, id, false)
    case _ => false
  }

  predicate Favourable(message: Message, id: OperationId, ready: bool) {
    && message.size <= 65536
    && message.response == Some(StatusResponse("apme.async-status-response.v1", id, "ok", "apme-api", ready))
  }

  lemma JudgeIs(message: Message, id: OperationId)
    ensures Judged(message, id, Judge(message, id))
  {}

  function Subject(id: OperationId): string {
    RESPONSE_SUBJECT_PREFIX + "." + Decimal(id)
  }

  lemma SubjectIs(id: OperationId)
    ensures Subject(id) == "apme.web_api.inbox.status." + Decimal(id)
  {
    hide Numeral;
    assert "apme.web_api.inbox.status" + "." == "apme.web_api.inbox.status.";
  }

  /** Distinct operations never share a response subject. */
  lemma SubjectsDiffer(a: OperationId, b: OperationId)
    requires Subject(a) == Subject(b)
    ensures a == b
  {
    var head := RESPONSE_SUBJECT_PREFIX + ".";
    assert Subject(a)[|head|..] == Decimal(a) && Subject(b)[|head|..] == Decimal(b);
    ValueOfNumeral(a, 10);
    ValueOfNumeral(b, 10);
  }

  // ---- all runs ----

  /**
   An operation reads its subject once the clock is at `due`, checks the clock after a read
   that found nothing, and is done.
   */
  datatype Phase = Reading(due: nat) | Checking | Done(outcome: Outcome)

  datatype Operation = Operation(started: nat, phase: Phase)

  /** `replies` is everything the responder ever wrote; `store` the last message per subject. */
  datatype State = State(
    clock: nat, operations: map<OperationId, Operation>, replies: seq<StatusResponse>, store: map<string, Message>)

  const INITIAL := State(0, map[], [], map[])

  /**
   The responder only replies to operations that were published, echoing their id. What the
   broker shows under a subject is some reply or junk, possibly under the wrong subject, and
   it may forget what it stored.
   */
  datatype Step =
    | Tick(milliseconds: nat)
    | Publish(id: OperationId)
    | Reply(response: StatusResponse)
    | Store(subject: string, message: Message)
    | Forget(subject: string)
    | Read(id: OperationId)
    | Check(id: OperationId)

  predicate Enabled(s: State, step: Step) {
    match step
    case Tick(_) => true
    case Publish(id) => id !in s.operations
    case Reply(response) => response.operationId in s.operations
    case Store(_, message) => message.response.Some? ==> message.response.value in s.replies
    case Forget(_) => true
    case Read(id) =>
      id in s.operations && s.operations[id].phase.Reading? && s.operations[id].phase.due <= s.clock
    case Check(id) => id in s.operations && s.operations[id].phase.Checking?
  }

  function SetPhase(s: State, id: OperationId, phase: Phase): State
    requires id in s.operations
  {
    s.(operations := s.operations[id := s.operations[id].(phase := phase)])
  }

  function Apply(s: State, step: Step): State
    requires Enabled(s, step)
  {
    match step
    case Tick(milliseconds) => s.(clock := s.clock + milliseconds)
    case Publish(id) => s.(operations := s.operations[id := Operation(s.clock, Reading(s.clock))])
    case Reply(response) => s.(replies := s.replies + [response])
    case Store(subject, message) => s.(store := s.store[subject := message])
    case Forget(subject) => s.(store := s.store - {subject})
    case Read(id) =>
      SetPhase(s, id, if Subject(id) in s.store then Done(Judge(s.store[Subject(id)], id)) else Checking)
    case Check(id) =>
      var late := s.clock - s.operations[id].started >= ASYNC_TIMEOUT_MS;
      SetPhase(s, id, if late then Done(TimedOut) else Reading(s.clock + POLL_INTERVAL_MS))
  }

  ghost predicate Next(s: State, t: State) {
    exists step :: Enabled(s, step) && t == Apply(s, step)
  }

  ghost predicate IsPath(path: seq<State>) {
    path != [] && forall i :: 0 <= i < |path| - 1 ==> Next(path[i], path[i + 1])
  }

  ghost predicate IsRun(path: seq<State>) {
    IsPath(path) && path[0] == INITIAL
  }

  /** The responder answered this very operation with this readiness. */
  predicate Answered(s: State, id: OperationId, ready: bool) {
    exists r :: r in s.replies && r.operationId == id && r.databaseReady == ready && r.status == "ok"
  }

  predicate IsReady(s: State, id: OperationId) {
    id in s.operations && s.operations[id].phase.Done? && s.operations[id].phase.outcome.Ready?
  }

  predicate Inv(s: State) {
    && (forall r :: r in s.replies ==> r.operationId in s.operations)
    && (forall x :: x in s.store && s.store[x].response.Some? ==> s.store[x].response.value in s.replies)
    && (forall id :: id in s.operations && IsReady(s, id) ==>
          Answered(s, id, s.operations[id].phase.outcome.databaseReady))
  }

  lemma InvStep(s: State, step: Step)
    requires Inv(s) && Enabled(s, step)
    ensures Inv(Apply(s, step))
  {
    hide Subject;
    var t := Apply(s, step);
    assert forall r :: r in s.replies ==> r in t.replies;
    forall id | id in t.operations && IsReady(t, id)
      ensures Answered(t, id, t.operations[id].phase.outcome.databaseReady)
    {
      if IsReady(s, id) && t.operations[id] == s.operations[id] {
        assert Answered(s, id, s.operations[id].phase.outcome.databaseReady);
      }
    }
  }

  /**
   In every run with fresh operation ids, success means the responder answered that very
   operation, even if the broker files answers under the wrong subject.
   */
  lemma {:induction false} SuccessWasAnswered(path: seq<State>, i: nat, id: OperationId)
    requires IsRun(path) && i < |path|
    ensures Inv(path[i])
    ensures IsReady(path[i], id) ==> Answered(path[i], id, path[i].operations[id].phase.outcome.databaseReady)
  {
    hide Enabled, Apply, Answered;
    if i == 0 {
    } else {
      SuccessWasAnswered(path, i - 1, id);
      assert Next(path[i - 1], path[i - 1 + 1]);
      var step :| Enabled(path[i - 1], step) && path[i] == Apply(path[i - 1], step);
      InvStep(path[i - 1], step);
    }
  }

  /** A valid reply to the operation lies under the operation's own subject. */
  predicate Filed(s: State, id: OperationId, ready: bool) {
    var subject := "apme.web_api.inbox.status." + Decimal(id);
    subject in s.store && Favourable(s.store[subject], id, ready)
  }

  /** Nothing but reading remains: it has not found the subject empty just now, nor ended. */
  predicate AboutToRead(s: State, id: OperationId) {
    id in s.operations && s.operations[id].phase.Reading?
  }

  predicate ReadOrReady(s: State, id: OperationId, ready: bool) {
    AboutToRead(s, id) || (id in s.operations && s.operations[id].phase == Done(Ready(ready)))
  }

  lemma FiledStep(s: State, step: Step, id: OperationId, ready: bool)
    requires Enabled(s, step) && ReadOrReady(s, id, ready) && Filed(s, id, ready)
    ensures ReadOrReady(Apply(s, step), id, ready)
  {
    SubjectIs(id);
    hide Subject, Numeral;
  }

  /**
   A valid reply that is filed while its operation is still going to read, and stays filed,
   is what the operation ends with: it can neither time out nor be rejected.
   */
  lemma {:induction false} FiledIsDelivered(path: seq<State>, j: nat, id: OperationId, ready: bool)
    requires IsPath(path) && j < |path| && AboutToRead(path[0], id)
    requires forall i :: 0 <= i <= j ==> Filed(path[i], id, ready)
    ensures id in path[j].operations
    ensures path[j].operations[id].phase.Done? ==> path[j].operations[id].phase.outcome == Ready(ready)
    ensures ReadOrReady(path[j], id, ready)
  {
    hide Enabled, Apply, Filed;
    if j == 0 {
    } else {
      FiledIsDelivered(path, j - 1, id, ready);
      assert Next(path[j - 1], path[j - 1 + 1]);
      var step :| Enabled(path[j - 1], step) && path[j] == Apply(path[j - 1], step);
      FiledStep(path[j - 1], step, id, ready);
    }
  }

  // ---- one operation, as the program runs it ----

  /** Reading the clock after poll `k`: every sleep between polls lasts at least its interval. */
  ghost predicate Ticks(elapsed: nat -> nat) {
    forall j: nat, k: nat :: j < k ==> elapsed(j) + 100 * (k - j) <= elapsed(k)
  }

  /** Whatever poll `k` finds, a response in it answers some operation that was published. */
  ghost predicate Honest(visible: nat -> Option<Message>, s: State) {
    forall k: nat :: visible(k).Some? && visible(k).value.response.Some? ==>
      visible(k).value.response.value.operationId in s.operations
  }

  predicate JustPublished(s: State, id: OperationId) {
    id in s.operations && s.operations[id] == Operation(s.clock, Reading(s.clock))
  }

  lemma Onward(path: seq<State>, step: Step) returns (longer: seq<State>)
    requires IsPath(path) && Enabled(path[|path| - 1], step)
    ensures IsPath(longer) && longer == path + [Apply(path[|path| - 1], step)]
  {
    hide Enabled, Apply;
    longer := path + [Apply(path[|path| - 1], step)];
    forall i | 0 <= i < |longer| - 1
      ensures Next(longer[i], longer[i + 1])
    {
      if i < |path| - 1 {
        assert Next(path[i], path[i + 1]);
      }
    }
  }

  /** The broker comes to show `found` under the operation's subject. */
  lemma Show(path: seq<State>, id: OperationId, found: Option<Message>) returns (longer: seq<State>)
    requires IsPath(path)
    requires found.Some? && found.value.response.Some? ==>
               found.value.response.value.operationId in path[|path| - 1].operations
    ensures longer != [] && IsPath(longer) && longer[0] == path[0]
    ensures var s, t := path[|path| - 1], longer[|longer| - 1];
            && t.clock == s.clock && t.operations == s.operations
            && (if found.Some? then Subject(id) in t.store && t.store[Subject(id)] == found.value
                else Subject(id) !in t.store)
  {
    assert path != [];
    hide Subject, IsPath;
    match found
    case None => longer := Onward(path, Forget(Subject(id)));
    case Some(message) =>
      longer := path;
      if message.response.Some? {
        longer := Onward(longer, Reply(message.response.value));
      }
      longer := Onward(longer, Store(Subject(id), message));
  }

  /** `path` takes the operation from its publication in `s` to its end with `r`. */
  ghost predicate Carries(path: seq<State>, s: State, id: OperationId, r: Outcome) {
    && IsPath(path) && path[0] == s
    && var t := path[|path| - 1];
       && id in t.operations && t.operations == s.operations[id := t.operations[id]]
       && t.operations[id].phase == Done(r)
  }

  /**
   `status`. `visible(k)` is what poll `k` finds, `elapsed(k)` the milliseconds since the
   loop began when it ends. The loop takes at most 101 polls; the last one alone decides, so
   an answer visible at the last poll is judged, never timed out. If `s` is a state of the
   protocol in which the operation was just published, and what the polls find are replies to
   operations published there, the loop ends as its steps in the protocol do.
   */
  method Status(operationId: OperationId, acknowledged: bool, visible: nat -> Option<Message>, elapsed: nat -> nat,
                ghost s: State)
    returns (r: Outcome, polls: nat, ghost path: seq<State>)
    requires Ticks(elapsed)
    ensures !acknowledged <==> r == NotPublished
    ensures acknowledged ==> 1 <= polls <= 101
    ensures forall k :: 0 <= k < polls - 1 ==> visible(k).None? && elapsed(k) < 10_000
    ensures acknowledged && visible(polls - 1).Some? ==> Judged(visible(polls - 1).value, operationId, r)
    ensures acknowledged && visible(polls - 1).None? ==> r == TimedOut && elapsed(polls - 1) >= 10_000
    ensures acknowledged && JustPublished(s, operationId) && Honest(visible, s) ==> Carries(path, s, operationId, r)
  {
    hide Subject;
    polls := 0;
    path := [s];
    if !acknowledged {
      return NotPublished, 0, path;
    }
    while true
      invariant 0 <= polls <= ASYNC_TIMEOUT_MS / POLL_INTERVAL_MS
      invariant forall k :: 0 <= k < polls ==> visible(k).None? && elapsed(k) < ASYNC_TIMEOUT_MS
      invariant JustPublished(s, operationId) && Honest(visible, s) ==>
                  && path != [] && IsPath(path) && path[0] == s
                  && AtPoll(path[|path| - 1], s, operationId, elapsed, polls)
      decreases ASYNC_TIMEOUT_MS / POLL_INTERVAL_MS + 1 - polls
    {
      var found := visible(polls);
      if JustPublished(s, operationId) && Honest(visible, s) {
        path := PollPath(path, s, operationId, found, elapsed, polls);
      }
      polls := polls + 1;
      if found.Some? {
        JudgeIs(found.value, operationId);
        return Judge(found.value, operationId), polls, path;
      }
      if elapsed(polls - 1) >= ASYNC_TIMEOUT_MS {
        return TimedOut, polls, path;
      }
      assert 0 < polls - 1 ==> elapsed(0) + POLL_INTERVAL_MS * (polls - 1) <= elapsed(polls - 1);
    }
  }

  /** Where the protocol stands when poll `k` is about to begin. */
  ghost predicate AtPoll(t: State, s: State, id: OperationId, elapsed: nat -> nat, k: nat) {
    && id in s.operations && id in t.operations && t.operations == s.operations[id := t.operations[id]]
    && t.operations[id].started == s.clock && t.operations[id].phase.Reading?
    && t.clock == s.clock + (if k == 0 then 0 else elapsed(k - 1))
    && t.operations[id].phase.due == t.clock + (if k == 0 then 0 else POLL_INTERVAL_MS)
  }

  /** One turn of the loop as steps: sleep, read, and check the clock if nothing was there. */
  lemma PollPath(path: seq<State>, s: State, id: OperationId, found: Option<Message>, elapsed: nat -> nat, k: nat)
    returns (longer: seq<State>)
    requires IsPath(path) && path[0] == s && Ticks(elapsed)
    requires AtPoll(path[|path| - 1], s, id, elapsed, k)
    requires found.Some? && found.value.response.Some? ==> found.value.response.value.operationId in s.operations
    ensures longer != [] && IsPath(longer) && longer[0] == s
    ensures found.Some? ==> Carries(longer, s, id, Judge(found.value, id))
    ensures found.None? && elapsed(k) >= ASYNC_TIMEOUT_MS ==> Carries(longer, s, id, TimedOut)
    ensures found.None? && elapsed(k) < ASYNC_TIMEOUT_MS ==> AtPoll(longer[|longer| - 1], s, id, elapsed, k + 1)
  {
    hide Subject, Judge;
    longer := Onward(path, Tick(if k == 0 then 0 else POLL_INTERVAL_MS));
    longer := Show(longer, id, found);
    longer := Onward(longer, Read(id));
    if found.None? {
      var now := longer[|longer| - 1].clock - s.clock;
      assert k > 0 ==> elapsed(k - 1) + POLL_INTERVAL_MS * (k - (k - 1)) <= elapsed(k);
      longer := Onward(longer, Tick(elapsed(k) - now));
      longer := Onward(longer, Check(id));
    }
  }
}
