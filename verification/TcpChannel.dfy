/**
 The persistent mTLS channel: many web requests share one FIFO framed connection under a
 mutex, and any of them may be abandoned after its frame has gone out.

 The channel never matches an answer to a request by anything but position and id, so the
 questions are whether an answer can reach the wrong caller, and what an abandoned call does
 to the calls after it.  The environment is assumed to give each call a fresh request id and
 the peer to answer each frame once, in order, echoing its id; nothing else is assumed about
 timing, scheduling, or which calls are dropped.
 */
module TcpChannel {
  import opened Options
  import opened Text
  import opened Utf8
  import opened Json

  type Uuid = nat
  type CallId = nat

  datatype FrameRequest = FrameRequest(requestId: Uuid, tenantId: Uuid, bearer: string)

  datatype FrameResponse = FrameResponse(
    requestId: Uuid, status: string, payload: Option<Value>, error: Option<string>)

  const MAX_TOKEN_BYTES: nat := 16 * 1024
  const MAX_REQUEST_BYTES: nat := 20 * 1024

  predicate ValidToken(token: string) {
    && token != "" && |Encode(token)| <= MAX_TOKEN_BYTES
    && forall c :: c in token ==> !IsWhite(c) && !IsControl(c)
  }

  /** How many characters JSON writes with a backslash, of those a valid token can hold. */
  function Escapes(token: string): nat {
    if token == "" then 0
    else (if token[0] == '"' || token[0] == '\\' then 1 else 0) + Escapes(token[1..])
  }

  /** The token as JSON writes it between its quotes. */
  function Escaped(token: string): string {
    if token == "" then ""
    else (if token[0] == '"' || token[0] == '\\' then ['\\', token[0]] else [token[0]]) + Escaped(token[1..])
  }

  const UUID_LENGTH: nat := 36

  /** What a request frame holds besides the token: its keys, two hyphenated ids, the operation. */
  const FRAME_REST: nat :=
    |"{\"request_id\":\""| + UUID_LENGTH + |"\",\"tenant_id\":\""| + UUID_LENGTH + |"\",\"bearer_token\":\""|
    + |"\",\"operation\":\"list_cases\"}"|

  /** The length of the encoded frame. */
  function FrameLength(token: string): nat {
    FRAME_REST + |Encode(Escaped(token))|
  }

  /** A token the channel will put in a frame: valid, and the frame is not too long. */
  predicate CanSend(token: string) {
    ValidToken(token) && FrameLength(token) <= MAX_REQUEST_BYTES
  }

  /** 147 bytes, the token's own, and one more for each quote or backslash in it. */
  lemma FrameLengthIs(token: string)
    ensures FrameLength(token) == 147 + |Encode(token)| + Escapes(token)
  {
    EscapedLength(token);
    RestLength();
  }

  /** The tokens the channel will put in a frame, in plain numbers. */
  predicate Presentable(token: string) {
    && 1 <= |Encode(token)| <= 16384 && (forall c :: c in token ==> !IsWhite(c) && !IsControl(c))
    && 147 + |Encode(token)| + Escapes(token) <= 20480
  }

  lemma CanSendIff(token: string)
    ensures CanSend(token) <==> Presentable(token)
  {
    hide Encode, Escapes, FrameLength;
    EncodeLength(token);
    FrameLengthIs(token);
    assert token == "" ==> |Encode(token)| == 0;
  }

  lemma RestLength()
    ensures FRAME_REST == 147
  {}

  lemma {:induction false} EscapedLength(token: string)
    ensures |Encode(Escaped(token))| == |Encode(token)| + Escapes(token)
  {
    hide EncodeChar;
    if token == "" {
    } else {
      var head := if token[0] == '"' || token[0] == '\\' then ['\\', token[0]] else [token[0]];
      EscapedLength(token[1..]);
      EncodeConcat(head, Escaped(token[1..]));
      EncodeOne(token[0]);
      EncodeConcat(['\\'], [token[0]]);
      EncodeAscii('\\');
      assert ['\\'] + [token[0]] == ['\\', token[0]];
    }
  }

  /** A frame from the peer: a response, or bytes that are none. */
  type Frame = Option<FrameResponse>

  /** What a caller makes of the next frame: its own successful payload, or nothing. */
  function Judge(frame: Frame, requestId: Uuid): Option<Value> {
    match frame
    case None => None
    case Some(response) =>
      if response.requestId != requestId || response.status != "ok" || response.error.Some? then None
      else response.payload
  }

  // ---- all interleavings ----

  /**
   A call waits for the lock, holds it (`lag` is the lag it found), has its frame queued at
   position `index`, and ends with a payload or without one.
   */
  datatype Phase =
    | Waiting
    | Holding(requestId: Uuid, lag: int)
    | InFlight(requestId: Uuid, lag: int, index: nat)
    | Returned(requestId: Uuid, lag: int, index: nat, payload: Value)
    | Failed

  datatype Call = Call(tenantId: Uuid, bearer: string, phase: Phase)

  datatype State = State(
    calls: map<CallId, Call>,
    holder: Option<CallId>,
    usedIds: set<Uuid>,
    queued: seq<FrameRequest>,
    answers: seq<Frame>,
    taken: nat)

  const INITIAL := State(map[], None, {}, [], [], 0)

  datatype Step =
    | Arrive(call: CallId, tenantId: Uuid, bearer: string)
    | Acquire(call: CallId, requestId: Uuid)
    | Enqueue(call: CallId)
    | PeerAnswers(frame: Frame)
    | Receive(call: CallId)
    | Drop(call: CallId)

  /** The peer's response to a frame carries that frame's id. */
  predicate Echoes(frame: Frame, request: FrameRequest) {
    frame.Some? ==> frame.value.requestId == request.requestId
  }

  predicate Enabled(s: State, step: Step) {
    match step
    case Arrive(c, _, _) => c !in s.calls
    case Acquire(c, id) =>
      s.holder == None && c in s.calls && s.calls[c].phase.Waiting? && id !in s.usedIds
    case Enqueue(c) =>
      c in s.calls && s.calls[c].phase.Holding? && CanSend(s.calls[c].bearer)
    case PeerAnswers(frame) =>
      |s.answers| < |s.queued| && Echoes(frame, s.queued[|s.answers|])
    case Receive(c) =>
      c in s.calls && s.calls[c].phase.InFlight? && s.taken < |s.answers|
    case Drop(c) =>
      c in s.calls && !s.calls[c].phase.Returned? && !s.calls[c].phase.Failed?
  }

  function SetPhase(s: State, c: CallId, phase: Phase): State
    requires c in s.calls
  {
    s.(calls := s.calls[c := s.calls[c].(phase := phase)])
  }

  function Release(s: State, c: CallId): State {
    if s.holder == Some(c) then s.(holder := None) else s
  }

  function Lag(s: State): int {
    |s.queued| - s.taken
  }

  /**
   `Drop` is every way a call ends without an answer: refused before sending, timed out in
   either wait, a closed connection, or its web request going away at any await.
   */
  function Apply(s: State, step: Step): State
    requires Enabled(s, step)
  {
    match step
    case Arrive(c, tenant, bearer) => s.(calls := s.calls[c := Call(tenant, bearer, Waiting)])
    case Acquire(c, id) =>
      SetPhase(s, c, Holding(id, Lag(s))).(holder := Some(c), usedIds := s.usedIds + {id})
    case Enqueue(c) =>
      var call := s.calls[c];
      SetPhase(s, c, InFlight(call.phase.requestId, call.phase.lag, |s.queued|)).(
        queued := s.queued + [FrameRequest(call.phase.requestId, call.tenantId, call.bearer)])
    case PeerAnswers(frame) => s.(answers := s.answers + [frame])
    case Receive(c) =>
      var phase := s.calls[c].phase;
      var after := match Judge(s.answers[s.taken], phase.requestId)
                   case Some(payload) => Returned(phase.requestId, phase.lag, s.taken, payload)
                   case None => Failed;
      Release(SetPhase(s, c, after), c).(taken := s.taken + 1)
    case Drop(c) => Release(SetPhase(s, c, Failed), c)
  }

  ghost predicate Next(s: State, t: State) {
    exists step :: Enabled(s, step) && t == Apply(s, step)
  }

  ghost predicate IsPath(path: seq<State>) {
    path != [] && forall i :: 0 <= i < |path| - 1 ==> Next(path[i], path[i + 1])
  }

  ghost predicate IsRun(path: seq<State>) {
    IsPath(path) && path[0] == INITIAL
  }

  // ---- what every step keeps ----

  predicate ActivePhase(phase: Phase) {
    phase.Holding? || phase.InFlight?
  }

  predicate Stream(s: State) {
    && s.taken <= |s.answers| <= |s.queued|
    && (forall i :: 0 <= i < |s.answers| ==> Echoes(s.answers[i], s.queued[i]))
    && (forall i :: 0 <= i < |s.queued| ==> s.queued[i].requestId in s.usedIds)
    && (forall i, j :: 0 <= i < j < |s.queued| ==> s.queued[i].requestId != s.queued[j].requestId)
  }

  /** Only the lock's holder is between acquiring and releasing. */
  predicate Exclusive(s: State) {
    && (forall c :: c in s.calls && ActivePhase(s.calls[c].phase) ==> s.holder == Some(c))
    && (s.holder.Some? ==> s.holder.value in s.calls && ActivePhase(s.calls[s.holder.value].phase))
  }

  predicate CallOk(s: State, call: Call) {
    match call.phase
    case Waiting => true
    case Failed => true
    case Holding(id, lag) =>
      && id in s.usedIds && lag == Lag(s)
      && forall i :: 0 <= i < |s.queued| ==> s.queued[i].requestId != id
    case InFlight(id, lag, index) =>
      && index == |s.queued| - 1 && lag == index - s.taken >= 0
      && s.queued[index] == FrameRequest(id, call.tenantId, call.bearer) && CanSend(call.bearer)
    case Returned(id, lag, index, payload) =>
      && lag == 0 && index < s.taken <= |s.answers| <= |s.queued|
      && s.queued[index] == FrameRequest(id, call.tenantId, call.bearer) && CanSend(call.bearer)
      && Judge(s.answers[index], id) == Some(payload)
  }

  /** No frame was ever handed to two callers. */
  predicate HandedOnce(s: State) {
    forall c, d :: c in s.calls && d in s.calls && c != d
      && s.calls[c].phase.Returned? && s.calls[d].phase.Returned?
      ==> s.calls[c].phase.index != s.calls[d].phase.index
  }

  predicate Inv(s: State) {
    Stream(s) && Exclusive(s) && HandedOnce(s) && forall c :: c in s.calls ==> CallOk(s, s.calls[c])
  }

  lemma StreamStep(s: State, step: Step)
    requires Inv(s) && Enabled(s, step)
    ensures Stream(Apply(s, step))
  {
    hide CanSend, Judge;
  }

  lemma ExclusiveStep(s: State, step: Step)
    requires Inv(s) && Enabled(s, step)
    ensures Exclusive(Apply(s, step))
  {
    hide CanSend, Judge, CallOk, Stream;
  }

  lemma ReturnedBefore(s: State, c: CallId)
    requires Inv(s) && c in s.calls && s.calls[c].phase.Returned?
    ensures s.calls[c].phase.index < s.taken
  {
    assert CallOk(s, s.calls[c]);
  }

  /** A call that is handed a frame now is handed the next one. */
  lemma ReturnsNext(s: State, step: Step, c: CallId)
    requires Enabled(s, step) && c in Apply(s, step).calls && Apply(s, step).calls[c].phase.Returned?
    ensures (c in s.calls && s.calls[c] == Apply(s, step).calls[c])
            || (step == Receive(c) && Apply(s, step).calls[c].phase.index == s.taken)
  {
    hide CanSend, Judge;
  }

  lemma HandedOnceStep(s: State, step: Step)
    requires Inv(s) && Enabled(s, step)
    ensures HandedOnce(Apply(s, step))
  {
    var t := Apply(s, step);
    forall c, d | c in t.calls && d in t.calls && c != d && t.calls[c].phase.Returned? && t.calls[d].phase.Returned?
      ensures t.calls[c].phase.index != t.calls[d].phase.index
    {
      ReturnsNext(s, step, c);
      ReturnsNext(s, step, d);
      hide CallOk, Stream, Exclusive, Enabled, Apply;
      if c in s.calls && s.calls[c] == t.calls[c] {
        ReturnedBefore(s, c);
      }
      if d in s.calls && s.calls[d] == t.calls[d] {
        ReturnedBefore(s, d);
      }
    }
  }

  /** A call no step is about stays what it was; a frame queued or taken needs the lock. */
  lemma OtherCallOk(s: State, step: Step, c: CallId)
    requires Inv(s) && Enabled(s, step)
    requires c in s.calls && c in Apply(s, step).calls && Apply(s, step).calls[c] == s.calls[c]
    ensures CallOk(Apply(s, step), s.calls[c])
  {
    hide CanSend, Judge;
    assert CallOk(s, s.calls[c]);
  }

  lemma MovedCallOk(s: State, step: Step, c: CallId)
    requires Inv(s) && Enabled(s, step)
    requires c in Apply(s, step).calls && (c !in s.calls || Apply(s, step).calls[c] != s.calls[c])
    ensures CallOk(Apply(s, step), Apply(s, step).calls[c])
  {
    hide CanSend;
    if c in s.calls {
      assert CallOk(s, s.calls[c]);
    }
  }

  lemma InvStep(s: State, step: Step)
    requires Inv(s) && Enabled(s, step)
    ensures Inv(Apply(s, step))
  {
    hide CanSend, Judge, CallOk, Stream, Exclusive, HandedOnce;
    HandedOnceStep(s, step);
    StreamStep(s, step);
    ExclusiveStep(s, step);
    var t := Apply(s, step);
    forall c | c in t.calls
      ensures CallOk(t, t.calls[c])
    {
      if c in s.calls && t.calls[c] == s.calls[c] {
        OtherCallOk(s, step, c);
      } else {
        MovedCallOk(s, step, c);
      }
    }
  }

  lemma {:induction false} InvAlong(path: seq<State>, i: nat)
    requires IsPath(path) && Inv(path[0]) && i < |path|
    ensures Inv(path[i])
  {
    hide Inv, Enabled, Apply;
    if i == 0 {
    } else {
      InvAlong(path, i - 1);
      assert Next(path[i - 1], path[i - 1 + 1]);
      var step :| Enabled(path[i - 1], step) && path[i] == Apply(path[i - 1], step);
      InvStep(path[i - 1], step);
    }
  }

  lemma InvInitially()
    ensures Inv(INITIAL)
  {}

  // ---- safety ----

  /** `payload` is what the peer sent for a frame carrying exactly this tenant and bearer. */
  predicate AnsweredFor(s: State, call: Call, index: nat, payload: Value) {
    && index < |s.answers| <= |s.queued|
    && s.queued[index].tenantId == call.tenantId && s.queued[index].bearer == call.bearer
    && s.answers[index].Some? && s.answers[index].value.requestId == s.queued[index].requestId
    && s.answers[index].value.status == "ok" && s.answers[index].value.payload == Some(payload)
  }

  /**
   In every run, under every interleaving, timeout and late answer, a call that returned a
   payload returned the one the peer computed for that call's own frame, and no two calls
   ever returned the same frame.
   */
  lemma Correlation(path: seq<State>, i: nat, c: CallId)
    requires IsRun(path) && i < |path|
    requires c in path[i].calls && path[i].calls[c].phase.Returned?
    ensures var call := path[i].calls[c];
            AnsweredFor(path[i], call, call.phase.index, call.phase.payload)
            && path[i].queued[call.phase.index].requestId == call.phase.requestId
            && call.phase.lag == 0
    ensures HandedOnce(path[i])
  {
    hide CanSend;
    InvInitially();
    InvAlong(path, i);
    assert CallOk(path[i], path[i].calls[c]);
  }

  /** The lag as the next call will find it: now, or as it was when the holder took the lock. */
  function StartLag(s: State): int {
    if s.holder.Some? && s.holder.value in s.calls && ActivePhase(s.calls[s.holder.value].phase)
    then s.calls[s.holder.value].phase.lag
    else Lag(s)
  }

  lemma StartLagStep(s: State, step: Step)
    requires Inv(s) && Enabled(s, step)
    ensures StartLag(Apply(s, step)) >= StartLag(s)
  {
    hide CanSend, Judge;
    if s.holder.Some? {
      assert CallOk(s, s.calls[s.holder.value]);
    }
  }

  /** The lag at call starts never decreases. */
  lemma {:induction false} LagNeverDecreases(path: seq<State>, i: nat, j: nat)
    requires IsPath(path) && Inv(path[0]) && i <= j < |path|
    ensures StartLag(path[i]) <= StartLag(path[j])
    decreases j
  {
    hide Inv, Enabled, Apply, StartLag;
    if i == j {
    } else {
      LagNeverDecreases(path, i, j - 1);
      InvAlong(path, j - 1);
      assert Next(path[j - 1], path[j - 1 + 1]);
      var step :| Enabled(path[j - 1], step) && path[j] == Apply(path[j - 1], step);
      StartLagStep(path[j - 1], step);
    }
  }

  /** A call that returns does so from a state whose start lag was zero. */
  lemma ReturnNeedsZero(s: State, step: Step, c: CallId)
    requires Inv(s) && Enabled(s, step)
    requires c in Apply(s, step).calls && Apply(s, step).calls[c].phase.Returned?
    requires !(c in s.calls && s.calls[c].phase.Returned?)
    ensures StartLag(s) == 0
  {
    hide CanSend;
    assert CallOk(s, s.calls[c]);
  }

  /**
   Once the start lag is positive no call that has not already returned ever returns: later
   callers are turned away, and never handed somebody else's answer.
   */
  lemma {:induction false} LaggedForever(path: seq<State>, j: nat, c: CallId)
    requires IsPath(path) && Inv(path[0]) && StartLag(path[0]) > 0 && j < |path|
    requires c in path[j].calls && path[j].calls[c].phase.Returned?
    ensures c in path[0].calls && path[0].calls[c].phase.Returned?
  {
    hide Inv, Enabled, Apply, StartLag;
    if j == 0 {
    } else {
      assert Next(path[j - 1], path[j - 1 + 1]);
      var step :| Enabled(path[j - 1], step) && path[j] == Apply(path[j - 1], step);
      InvAlong(path, j - 1);
      LagNeverDecreases(path, 0, j - 1);
      if !(c in path[j - 1].calls && path[j - 1].calls[c].phase.Returned?) {
        ReturnNeedsZero(path[j - 1], step, c);
      }
      LaggedForever(path, j - 1, c);
    }
  }

  /** Dropping a call after its frame was queued leaves a positive lag, for good. */
  lemma DropInFlightLags(s: State, c: CallId)
    requires Inv(s) && c in s.calls && s.calls[c].phase.InFlight?
    ensures Enabled(s, Drop(c)) && StartLag(Apply(s, Drop(c))) == StartLag(s) + 1 > 0
  {
    hide CanSend, Judge;
    assert CallOk(s, s.calls[c]);
  }

  /** So after one call is abandoned in flight, every other unfinished or later call fails. */
  lemma AbandonedCallEndsSuccess(s: State, c: CallId, path: seq<State>, j: nat, d: CallId)
    requires Inv(s) && c in s.calls && s.calls[c].phase.InFlight?
    requires Enabled(s, Drop(c)) && IsPath(path) && path[0] == Apply(s, Drop(c)) && j < |path|
    requires d in path[j].calls && path[j].calls[d].phase.Returned?
    ensures d in path[0].calls && path[0].calls[d].phase.Returned?
  {
    hide Inv, Enabled, Apply, StartLag;
    DropInFlightLags(s, c);
    InvStep(s, Drop(c));
    LaggedForever(path, j, d);
  }

  // ---- exactly when a call can still succeed ----

  ghost predicate CanReturn(s: State, c: CallId, payload: Value) {
    exists path :: ReachesReturn(path, s, c, payload)
  }

  ghost predicate ReachesReturn(path: seq<State>, s: State, c: CallId, payload: Value) {
    IsPath(path) && path[0] == s
    && c in path[|path| - 1].calls && path[|path| - 1].calls[c].phase.Returned?
    && path[|path| - 1].calls[c].phase.payload == payload
  }

  lemma {:induction false} BearerFixed(path: seq<State>, i: nat, c: CallId)
    requires IsPath(path) && i < |path| && c in path[0].calls
    ensures c in path[i].calls && path[i].calls[c].bearer == path[0].calls[c].bearer
  {
    if i == 0 {
    } else {
      BearerFixed(path, i - 1, c);
      assert Next(path[i - 1], path[i - 1 + 1]);
      hide CanSend, Judge;
    }
  }

  lemma FreshId(used: set<Uuid>) returns (id: Uuid)
    ensures id !in used
  {
    var left := used;
    id := 0;
    while left != {}
      invariant forall u :: u in used && u !in left ==> u < id
      invariant left <= used
      decreases |left|
    {
      var u :| u in left;
      left := left - {u};
      id := if u < id then id else u + 1;
    }
  }

  /** A run gone on with one more step. */
  lemma Onward(path: seq<State>, step: Step) returns (longer: seq<State>)
    requires IsPath(path) && Enabled(path[|path| - 1], step)
    ensures IsPath(longer) && longer == path + [Apply(path[|path| - 1], step)]
  {
    hide Enabled, Apply;
    longer := path + [Apply(path[|path| - 1], step)];
    forall i | 0 <= i < |longer| - 1
      ensures Next(longer[i], longer[i + 1])
    {
      if i < |path| - 1 {
        assert Next(path[i], path[i + 1]);
      }
    }
  }

  /** From a free lock and no lag, a waiting call can be answered. */
  lemma SuccessPath(before: seq<State>, c: CallId, payload: Value) returns (path: seq<State>)
    requires IsPath(before)
    requires var s := before[|before| - 1];
             && Inv(s) && s.holder == None && Lag(s) == 0
             && c in s.calls && s.calls[c].phase.Waiting? && CanSend(s.calls[c].bearer)
    ensures ReachesReturn(path, before[0], c, payload)
  {
    hide CanSend;
    var s := before[|before| - 1];
    hide IsPath;
    var id := FreshId(s.usedIds);
    path := Onward(before, Acquire(c, id));
    path := Onward(path, Enqueue(c));
    var t := path[|path| - 1];
    assert |t.answers| == |s.queued| && t.queued[|s.queued|].requestId == id;
    path := Onward(path, PeerAnswers(Some(FrameResponse(id, "ok", Some(payload), None))));
    path := Onward(path, Receive(c));
  }

  /** With no start lag the lock can be given back without leaving any lag behind. */
  lemma FreeLock(s: State, c: CallId) returns (path: seq<State>)
    requires Inv(s) && StartLag(s) == 0 && c in s.calls && s.calls[c].phase.Waiting?
    ensures IsPath(path) && path[0] == s
    ensures var t := path[|path| - 1];
            t.holder == None && Lag(t) == 0 && c in t.calls && t.calls[c] == s.calls[c]
  {
    hide CanSend, Judge, IsPath;
    assert IsPath([s]) by { SinglePath(s); }
    path := [s];
    if s.holder.Some? {
      var h := s.holder.value;
      assert CallOk(s, s.calls[h]);
      if s.calls[h].phase.Holding? {
        path := Onward(path, Drop(h));
      } else {
        if |s.answers| < |s.queued| {
          path := Onward(path, PeerAnswers(None));
        }
        path := Onward(path, Receive(h));
      }
    }
  }

  lemma SinglePath(s: State)
    ensures IsPath([s])
  {}

  /**
   A waiting call can still return a payload, whatever that payload is, if and only if its
   token is valid and fits in a frame and the start lag is zero, whoever holds the lock and
   however far that call has got.
   */
  lemma CanReturnIff(s: State, c: CallId, payload: Value)
    requires Inv(s) && c in s.calls && s.calls[c].phase.Waiting?
    ensures CanReturn(s, c, payload) <==> StartLag(s) == 0 && Presentable(s.calls[c].bearer)
  {
    hide CanSend, Presentable, Judge, Enabled, Apply;
    CanSendIff(s.calls[c].bearer);
    if StartLag(s) == 0 && CanSend(s.calls[c].bearer) {
      var free := FreeLock(s, c);
      InvAlong(free, |free| - 1);
      var path := SuccessPath(free, c, payload);
    }
    if CanReturn(s, c, payload) {
      var path: seq<State> :| ReachesReturn(path, s, c, payload);
      var last := |path| - 1;
      InvAlong(path, last);
      BearerFixed(path, last, c);
      assert CallOk(path[last], path[last].calls[c]);
      StartLagIsCount(s);
      if StartLag(s) > 0 {
        LaggedForever(path, last, c);
      }
    }
  }

  /** As many quotes as a token may have bytes. */
  function LongToken(): string {
    seq(MAX_TOKEN_BYTES, _ => '"')
  }

  lemma {:induction false} AllEscaped(token: string)
    requires forall i :: 0 <= i < |token| ==> token[i] == '"'
    ensures Escapes(token) == |token|
  {
    if token == "" {
    } else {
      AllEscaped(token[1..]);
    }
  }

  /** A valid token can still be too long once it is escaped: its call never succeeds, even without lag. */
  lemma LongTokenNeverSucceeds(s: State, c: CallId, payload: Value)
    requires Inv(s) && c in s.calls && s.calls[c].phase.Waiting? && s.calls[c].bearer == LongToken()
    ensures ValidToken(s.calls[c].bearer) && !CanReturn(s, c, payload)
  {
    var token := LongToken();
    hide Inv, CanReturn, Encode, Escapes;
    AllEscaped(token);
    EncodeLength(token);
    CanReturnIff(s, c, payload);
  }

  lemma StartLagIsCount(s: State)
    requires Inv(s)
    ensures StartLag(s) >= 0
  {
    hide CanSend, Judge;
    if s.holder.Some? {
      assert CallOk(s, s.calls[s.holder.value]);
    }
  }

  // ---- one call on the channel, as the program runs it ----

  /** How far the bounded send got before it ended. */
  datatype SendOutcome = NotQueued | QueuedOnly | Flushed

  /** What the bounded wait for a frame ended in. */
  datatype ReceiveOutcome = NothingCame | Came(frame: Frame)

  /** A call about to take the free lock, with a fresh id. */
  predicate Ready(s: State, c: CallId, requestId: Uuid, tenantId: Uuid, bearer: string) {
    s.holder == None && c in s.calls && s.calls[c] == Call(tenantId, bearer, Waiting) && requestId !in s.usedIds
  }

  /** What an honest peer may go on to answer once `queued` is on the channel. */
  predicate Answerable(queued: seq<FrameRequest>, answered: nat, more: seq<Frame>) {
    && answered + |more| <= |queued|
    && forall i :: 0 <= i < |more| ==> Echoes(more[i], queued[answered + i])
  }

  lemma {:induction false} PeerCatchesUp(path: seq<State>, more: seq<Frame>) returns (longer: seq<State>)
    requires IsPath(path)
    requires Answerable(path[|path| - 1].queued, |path[|path| - 1].answers|, more)
    ensures longer != [] && IsPath(longer) && longer[0] == path[0]
    ensures var s := path[|path| - 1]; longer[|longer| - 1] == s.(answers := s.answers + more)
    decreases |more|
  {
    hide Echoes;
    var s := path[|path| - 1];
    hide IsPath;
    if more == [] {
      longer := path;
      assert s.answers + more == s.answers;
    } else {
      assert Echoes(more[0], s.queued[|s.answers| + 0]);
      var next := Onward(path, PeerAnswers(more[0]));
      var t := next[|next| - 1];
      forall i | 0 <= i < |more| - 1
        ensures Echoes(more[1..][i], t.queued[|t.answers| + i])
      {
        assert Echoes(more[i + 1], s.queued[|s.answers| + (i + 1)]);
      }
      longer := PeerCatchesUp(next, more[1..]);
      assert s.answers + [more[0]] + more[1..] == s.answers + more;
    }
  }

  /** `path` takes the call from waiting in `s` to its end with `r`, and touches no other call. */
  ghost predicate Carries(path: seq<State>, s: State, c: CallId, requestId: Uuid, r: Option<Value>) {
    && IsPath(path) && path[0] == s
    && var t := path[|path| - 1];
       && t.holder == None && c in t.calls && t.calls == s.calls[c := t.calls[c]]
       && match r
          case None => t.calls[c].phase.Failed?
          case Some(payload) =>
            t.calls[c].phase.Returned? && t.calls[c].phase.requestId == requestId && t.calls[c].phase.payload == payload
  }

  /** A call that is refused, or cannot be sent, gives the lock straight back. */
  lemma RefusedPath(s: State, c: CallId, request: FrameRequest) returns (path: seq<State>)
    requires Ready(s, c, request.requestId, request.tenantId, request.bearer)
    ensures Carries(path, s, c, request.requestId, None)
    ensures var t := path[|path| - 1]; t.queued == s.queued && t.taken == s.taken
  {
    assert IsPath([s]) by { SinglePath(s); }
    hide IsPath;
    path := Onward([s], Acquire(c, request.requestId));
    path := Onward(path, Drop(c));
  }

  /** A call up to the point where its frame is queued and the peer has answered `more`. */
  lemma QueuedPath(s: State, c: CallId, request: FrameRequest, more: seq<Frame>) returns (path: seq<State>)
    requires Ready(s, c, request.requestId, request.tenantId, request.bearer) && CanSend(request.bearer)
    requires Answerable(s.queued + [request], |s.answers|, more)
    ensures path != [] && IsPath(path) && path[0] == s
    ensures path[|path| - 1]
         == SetPhase(s, c, InFlight(request.requestId, Lag(s), |s.queued|)).(
              holder := Some(c), usedIds := s.usedIds + {request.requestId},
              queued := s.queued + [request], answers := s.answers + more)
  {
    hide CanSend, Echoes;
    assert IsPath([s]) by { SinglePath(s); }
    hide IsPath;
    path := Onward([s], Acquire(c, request.requestId));
    path := Onward(path, Enqueue(c));
    assert path[|path| - 1].calls == s.calls[c := path[|path| - 1].calls[c]];
    path := PeerCatchesUp(path, more);
  }

  /** A call whose answer does not come in time, or cannot come any more. */
  lemma AbandonedPath(s: State, c: CallId, request: FrameRequest, more: seq<Frame>) returns (path: seq<State>)
    requires Ready(s, c, request.requestId, request.tenantId, request.bearer) && CanSend(request.bearer)
    requires Answerable(s.queued + [request], |s.answers|, more)
    ensures Carries(path, s, c, request.requestId, None)
    ensures var t := path[|path| - 1]; t.queued == s.queued + [request] && t.taken == s.taken
  {
    hide CanSend, Echoes, IsPath;
    path := QueuedPath(s, c, request, more);
    path := Onward(path, Drop(c));
  }

  /** A call that takes a frame from the connection. */
  lemma AnsweredPath(s: State, c: CallId, request: FrameRequest, more: seq<Frame>) returns (path: seq<State>)
    requires Ready(s, c, request.requestId, request.tenantId, request.bearer) && CanSend(request.bearer)
    requires Answerable(s.queued + [request], |s.answers|, more) && s.taken < |s.answers + more|
    ensures Carries(path, s, c, request.requestId, Judge((s.answers + more)[s.taken], request.requestId))
    ensures var t := path[|path| - 1]; t.queued == s.queued + [request] && t.taken == s.taken + 1
  {
    hide CanSend, Echoes, Judge, IsPath;
    path := QueuedPath(s, c, request, more);
    path := Onward(path, Receive(c));
  }

  /** Every answer, given or to come, echoes the request in its place. */
  lemma EachEchoes(s: State, queued: seq<FrameRequest>, more: seq<Frame>, i: nat)
    requires Stream(s) && s.queued <= queued && Answerable(queued, |s.answers|, more) && i < |s.answers + more|
    ensures Echoes((s.answers + more)[i], queued[i])
  {
    if i < |s.answers| {
      assert Echoes(s.answers[i], s.queued[i]);
    } else {
      assert Echoes(more[i - |s.answers|], queued[|s.answers| + (i - |s.answers|)]);
    }
  }

  /** With an honest peer the frame that carries a fresh id is the last one queued. */
  lemma OwnFrameOnly(s: State, request: FrameRequest, more: seq<Frame>)
    requires request.requestId !in s.usedIds && Answerable(s.queued + [request], |s.answers|, more)
    requires s.taken < |s.answers + more|
    requires (s.answers + more)[s.taken].Some? && (s.answers + more)[s.taken].value.requestId == request.requestId
    ensures Inv(s) ==> Lag(s) == 0
  {
    hide CallOk, Exclusive, HandedOnce;
    if Inv(s) {
      EachEchoes(s, s.queued + [request], more, s.taken);
    }
  }

  lemma FreshWhenReady(s: State, c: CallId, request: FrameRequest)
    requires Ready(s, c, request.requestId, request.tenantId, request.bearer)
    ensures request.requestId !in s.usedIds
  {}

  /** A call about to take the lock, and a frame that an honest peer can have sent it. */
  ghost predicate Setting(s: State, c: CallId, request: FrameRequest, more: seq<Frame>, receive: ReceiveOutcome) {
    && Ready(s, c, request.requestId, request.tenantId, request.bearer)
    && Answerable(s.queued + [request], |s.answers|, more)
    && (receive.Came? ==> s.taken < |s.answers + more| && (s.answers + more)[s.taken] == receive.frame)
  }

  /** The steps of one call, for every way its two waits can end. */
  lemma CallPath(
    s: State, c: CallId, request: FrameRequest, more: seq<Frame>, send: SendOutcome, receive: ReceiveOutcome)
    returns (path: seq<State>)
    requires Setting(s, c, request, more, receive)
    ensures var enqueued := CanSend(request.bearer) && send != NotQueued;
            var received := enqueued && send == Flushed && receive.Came?;
            var r := if received then Judge(receive.frame, request.requestId) else None;
            && Carries(path, s, c, request.requestId, r)
            && path[|path| - 1].queued == s.queued + (if enqueued then [request] else [])
            && path[|path| - 1].taken == s.taken + (if received then 1 else 0)
            && (Inv(s) && r.Some? ==> Lag(s) == 0)
  {
    hide CanSend, Ready, Answerable, Carries, Inv;
    if !CanSend(request.bearer) || send == NotQueued {
      path := RefusedPath(s, c, request);
    } else if send == QueuedOnly || receive == NothingCame {
      path := AbandonedPath(s, c, request, more);
    } else {
      path := AnsweredPath(s, c, request, more);
      if Judge(receive.frame, request.requestId).Some? {
        assert request.requestId !in s.usedIds by { FreshWhenReady(s, c, request); }
        OwnFrameOnly(s, request, more);
      }
    }
  }

  class Channel {
    /** Frames handed to the codec, whether or not they have left the machine. */
    var queued: seq<FrameRequest>
    /** Frames taken from the connection. */
    var taken: nat

    constructor ()
      ensures queued == [] && taken == 0
    {
      queued := [];
      taken := 0;
    }

    ghost function Lag(): int
      reads this
    {
      |queued| - taken
    }

    /**
     `cases`, with the two waits' outcomes supplied by the environment. If `s` is a state of
     the shared protocol in which call `c` may take the lock, and the peer goes on honestly,
     the call does to the channel what its steps in the protocol do and ends as they end, and
     it returns a payload only if it found no lag.
     */
    method Cases(requestId: Uuid, tenantId: Uuid, bearer: string, send: SendOutcome, receive: ReceiveOutcome,
                 ghost s: State, ghost c: CallId, ghost more: seq<Frame>)
      returns (r: Option<Value>, ghost path: seq<State>)
      modifies this
      ensures var enqueued := Presentable(bearer) && send != NotQueued;
              var received := enqueued && send == Flushed && receive.Came?;
              && queued == old(queued) + (if enqueued then [FrameRequest(requestId, tenantId, bearer)] else [])
              && taken == old(taken) + (if received then 1 else 0)
              && forall payload :: r == Some(payload) <==>
                   received && receive.frame == Some(FrameResponse(requestId, "ok", Some(payload), None))
      ensures Setting(s, c, FrameRequest(requestId, tenantId, bearer), more, receive)
              && s.queued == old(queued) && s.taken == old(taken) ==>
                && Carries(path, s, c, requestId, r)
                && path[|path| - 1].queued == queued && path[|path| - 1].taken == taken
                && (Inv(s) && r.Some? ==> old(Lag()) == 0)
    {
      hide ValidToken, FrameLength, Inv, Carries, Setting, Presentable;
      CanSendIff(bearer);
      path := [];
      ghost var request := FrameRequest(requestId, tenantId, bearer);
      if Setting(s, c, request, more, receive) {
        path := CallPath(s, c, request, more, send, receive);
      }
      if !ValidToken(bearer) {
        return None, path;
      }
      var length := FrameLength(bearer);
      if length == 0 || length > MAX_REQUEST_BYTES {
        assert length != 0 by { FrameLengthIs(bearer); }
        return None, path;
      }
      if send == NotQueued {
        return None, path;
      }
      queued := queued + [FrameRequest(requestId, tenantId, bearer)];
      if send == QueuedOnly || receive == NothingCame {
        return None, path;
      }
      taken := taken + 1;
      var frame := receive.frame;
      if frame.None? {
        return None, path;
      }
      var response := frame.value;
      if response.requestId != requestId || response.status != "ok" || response.error.Some? {
        return None, path;
      }
      return response.payload, path;
    }
  }
}
