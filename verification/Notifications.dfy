/**
 The record-changed protocol: a client posts an item, which is pushed and then announced on a
 bounded, lossy broadcast; each socket loop forwards what it receives, skipping what it
 missed; a client that hears anything refetches the whole list, and the reply to its own post
 replaces the list it shows.

 `items` only grows, so a list a client shows is a prefix of it and a snapshot is a length.
 The environment is assumed to deliver what was sent on an open socket, and the client's
 HTMX elements to run one refetch and one post at a time, and one more refetch if the client
 heard anything meanwhile. Refetches and posts are not ordered among each other.
 */
module Notifications {
  import opened Options
  import opened Text

  const CAPACITY: nat := 256
  const MAX_SUMMARY: nat := 4000

  datatype Item = Item(title: string, summary: string)

  /** `create_item`'s input check: a title that is not blank; the summary is cut. */
  function Accept(title: string, summary: string): (r: Option<Item>)
    ensures r.Some? <==> Trim(title) != ""
    ensures r.Some? ==> TrimsTo(title, r.value.title)
    ensures r.Some? ==>
              && r.value.summary <= summary
              && |r.value.summary| == if |summary| < 4000 then |summary| else 4000
  {
    TrimPads(title);
    if Trim(title) == "" then None
    else Some(Item(Trim(title), if |summary| > MAX_SUMMARY then summary[..MAX_SUMMARY] else summary))
  }

  /** What a client's list section shows: the first `shown` items, or the alert about a blank title. */
  datatype View = Items(shown: nat) | Alert

  /** A refetch that was asked for, or one carrying the first `shown` items back. */
  datatype Fetch = Idle | Asked | Carrying(shown: nat)

  /**
   A post on its way: not yet looked at by the server, its item pushed, its item announced
   too, or its reply on the way back, with the item it created, if any.
   */
  datatype Form = NoPost | Sent(title: string, summary: string) | Created(own: nat) | Told(own: nat)
                | Replied(item: Option<nat>, reply: View)

  /** What wrote the view last: a refetch, or the reply to a post. */
  datatype Source = Fetched | Posted

  /**
   `subscribed` is the event count when the socket subscribed, `next` the event it reads
   next; `skipped` says the last read reported a lag; `wire` messages are on the socket.
   */
  datatype Client = Client(
    connected: bool, subscribed: nat, next: nat, skipped: bool,
    wire: nat, again: bool, fetch: Fetch, form: Form, view: View, source: Source)

  const FRESH := Client(false, 0, 0, false, 0, false, Asked, NoPost, Items(0), Fetched)

  /** One broadcast: the item it announces, and how many items there were when it was sent. */
  datatype Event = Event(item: nat, stamp: nat)

  /** `unannounced` are the items whose creator is between push and send. */
  datatype State = State(
    items: seq<Item>, unannounced: set<nat>, events: seq<Event>, clients: map<nat, Client>)

  const INITIAL := State([], {}, [], map[])

  datatype Step =
    | Open(client: nat)
    | Subscribe(client: nat)
    | Receive(client: nat)
    | Disconnect(client: nat)
    | Deliver(client: nat)
    | Read(client: nat)
    | Finish(client: nat)
    | Submit(client: nat, title: string, summary: string)
    | Create(client: nat)
    | Tell(client: nat)
    | Answer(client: nat)
    | Swap(client: nat)
    | Abandon(client: nat)

  predicate SomeoneListens(s: State) {
    exists c :: c in s.clients && s.clients[c].connected
  }

  /** The oldest event the ring of 256 slots still holds. */
  function Oldest(s: State): nat {
    if |s.events| > CAPACITY then |s.events| - CAPACITY else 0
  }

  /** What the server makes of a post that is still to be looked at. */
  function Wanted(form: Form): Option<Item> {
    if form.Sent? then Accept(form.title, form.summary) else None
  }

  predicate Enabled(s: State, step: Step) {
    var c := step.client;
    if step.Open? then c !in s.clients
    else
      && c in s.clients
      && var client := s.clients[c];
         match step
         case Open(_) => false
         case Subscribe(_) => !client.connected
         case Receive(_) => client.connected && client.next < |s.events|
         case Disconnect(_) => client.connected
         case Deliver(_) => client.wire > 0
         case Read(_) => client.fetch.Asked?
         case Finish(_) => client.fetch.Carrying?
         case Submit(_, _, _) => client.form.NoPost?
         case Create(_) => Wanted(client.form).Some?
         case Tell(_) => client.form.Created?
         case Answer(_) => client.form.Told? || (client.form.Sent? && Wanted(client.form).None?)
         case Swap(_) => client.form.Replied?
         case Abandon(_) => !client.form.NoPost? && !client.form.Created?
  }

  /** What one step does to the client it is about. */
  function Moved(s: State, step: Step, client: Client): Client {
    match step
    case Open(_) => FRESH
    case Subscribe(_) =>
      client.(connected := true, subscribed := |s.events|, next := |s.events|, skipped := false)
    case Receive(_) =>
      if client.next < Oldest(s) then client.(next := Oldest(s), skipped := true)
      else client.(next := client.next + 1, skipped := false, wire := client.wire + 1)
    case Disconnect(_) => client.(connected := false)
    case Deliver(_) =>
      if client.wire == 0 then client
      else if client.fetch.Idle? then client.(wire := client.wire - 1, fetch := Asked)
      else client.(wire := client.wire - 1, again := true)
    case Read(_) => client.(fetch := Carrying(|s.items|))
    case Finish(_) =>
      if !client.fetch.Carrying? then client
      else
        client.(view := Items(client.fetch.shown), source := Fetched, again := false,
                fetch := if client.again then Asked else Idle)
    case Submit(_, title, summary) => client.(form := Sent(title, summary))
    case Create(_) => client.(form := Created(|s.items|))
    case Tell(_) => if client.form.Created? then client.(form := Told(client.form.own)) else client
    case Answer(_) =>
      if client.form.Told? then client.(form := Replied(Some(client.form.own), Items(|s.items|)))
      else client.(form := Replied(None, Alert))
    case Swap(_) =>
      if client.form.Replied? then client.(view := client.form.reply, source := Posted, form := NoPost) else client
    case Abandon(_) => client.(form := NoPost)
  }

  function Pushed(s: State, item: Item): State {
    s.(items := s.items + [item], unannounced := s.unannounced + {|s.items|})
  }

  /** A broadcast without receivers is refused and leaves no trace; the result is ignored. */
  function Announced(s: State, index: nat): State {
    s.(unannounced := s.unannounced - {index},
       events := if SomeoneListens(s) then s.events + [Event(index, |s.items|)] else s.events)
  }

  /** What one step does to everything but the client it is about. */
  function Around(s: State, step: Step): State
    requires Enabled(s, step)
  {
    match step
    case Create(c) => Pushed(s, Wanted(s.clients[c].form).value)
    case Tell(c) => Announced(s, s.clients[c].form.own)
    case _ => s
  }

  function Apply(s: State, step: Step): State
    requires Enabled(s, step)
  {
    var before := if step.Open? then FRESH else s.clients[step.client];
    var t := Around(s, step);
    t.(clients := s.clients[step.client := Moved(s, step, before)])
  }

  ghost predicate Next(s: State, t: State) {
    exists step :: Enabled(s, step) && t == Apply(s, step)
  }

  ghost predicate IsRun(path: seq<State>) {
    path != [] && path[0] == INITIAL && forall i :: 0 <= i < |path| - 1 ==> Next(path[i], path[i + 1])
  }

  // ---- what the steps of a post do ----

  function With(s: State, c: nat, client: Client): State {
    s.(clients := s.clients[c := client])
  }

  lemma SubmitDoes(s: State, c: nat, title: string, summary: string)
    requires c in s.clients && s.clients[c].form.NoPost?
    ensures Enabled(s, Submit(c, title, summary))
    ensures Apply(s, Submit(c, title, summary)) == With(s, c, s.clients[c].(form := Sent(title, summary)))
  {
    hide Wanted, SomeoneListens;
  }

  lemma CreateDoes(s: State, c: nat, item: Item)
    requires c in s.clients && Wanted(s.clients[c].form) == Some(item)
    ensures Enabled(s, Create(c))
    ensures Apply(s, Create(c)) == With(Pushed(s, item), c, s.clients[c].(form := Created(|s.items|)))
  {
    hide Wanted, SomeoneListens;
  }

  lemma TellDoes(s: State, c: nat, own: nat)
    requires c in s.clients && s.clients[c].form == Created(own)
    ensures Enabled(s, Tell(c))
    ensures Apply(s, Tell(c)) == With(Announced(s, own), c, s.clients[c].(form := Told(own)))
  {
    hide Wanted, SomeoneListens;
  }

  lemma AnswerDoes(s: State, c: nat)
    requires c in s.clients && (s.clients[c].form.Told? || (s.clients[c].form.Sent? && Wanted(s.clients[c].form).None?))
    ensures Enabled(s, Answer(c))
    ensures Apply(s, Answer(c))
         == With(s, c, s.clients[c].(form :=
              if s.clients[c].form.Told? then Replied(Some(s.clients[c].form.own), Items(|s.items|))
              else Replied(None, Alert)))
  {
    hide Wanted, SomeoneListens;
  }

  lemma SwapDoes(s: State, c: nat)
    requires c in s.clients && s.clients[c].form.Replied?
    ensures Enabled(s, Swap(c))
    ensures Apply(s, Swap(c))
         == With(s, c, s.clients[c].(view := s.clients[c].form.reply, source := Posted, form := NoPost))
  {
    hide Wanted, SomeoneListens;
  }

  lemma AbandonDoes(s: State, c: nat)
    requires c in s.clients && !s.clients[c].form.NoPost? && !s.clients[c].form.Created?
    ensures Enabled(s, Abandon(c))
    ensures Apply(s, Abandon(c)) == With(s, c, s.clients[c].(form := NoPost))
  {
    hide Wanted, SomeoneListens;
  }

  // ---- the creator's request, as the program runs it ----

  class Board {
    var state: State

    constructor ()
      ensures state == INITIAL
    {
      state := INITIAL;
    }

    /**
     `create_item`: the push comes before the announcement, the reply is the list read after
     both; a refused title changes nothing and is answered by the alert.
     */
    method CreateItem(title: string, summary: string) returns (reply: View)
      modifies this
      ensures match Accept(title, summary)
              case None => state == old(state) && reply == Alert
              case Some(item) =>
                && state == Announced(Pushed(old(state), item), |old(state).items|)
                && reply == Items(|state.items|) && state.items == old(state).items + [item]
    {
      hide Trim, SomeoneListens;
      var trimmed := Trim(title);
      if trimmed == "" {
        return Alert;
      }
      var item := Item(trimmed, if |summary| > MAX_SUMMARY then summary[..MAX_SUMMARY] else summary);
      var index := |state.items|;
      state := state.(items := state.items + [item], unannounced := state.unannounced + {index});
      if SomeoneListens(state) {
        state := state.(events := state.events + [Event(index, |state.items|)]);
      }
      state := state.(unannounced := state.unannounced - {index});
      return Items(|state.items|);
    }
  }

  predicate SameBoard(s: State, t: State) {
    s.items == t.items && s.unannounced == t.unannounced && s.events == t.events
  }

  lemma ListenersKept(s: State, t: State)
    requires t.clients.Keys == s.clients.Keys
    requires forall c :: c in s.clients ==> t.clients[c].connected == s.clients[c].connected
    ensures SomeoneListens(s) <==> SomeoneListens(t)
  {}

  /** Undisturbed, the steps of a post do to the board what `create_item` does, and reply as it replies. */
  lemma PostIsCreateItem(s: State, c: nat) returns (path: seq<State>)
    requires c in s.clients && s.clients[c].form.Sent?
    ensures path != [] && path[0] == s && forall i :: 0 <= i < |path| - 1 ==> Next(path[i], path[i + 1])
    ensures var t := path[|path| - 1];
            && c in t.clients
            && match Wanted(s.clients[c].form)
               case None => SameBoard(t, s) && t.clients[c].form == Replied(None, Alert)
               case Some(item) =>
                 && SameBoard(t, Announced(Pushed(s, item), |s.items|))
                 && t.clients[c].form == Replied(Some(|s.items|), Items(|s.items| + 1))
  {
    hide SomeoneListens, Wanted, Enabled, Apply;
    match Wanted(s.clients[c].form)
    case None =>
      AnswerDoes(s, c);
      path := [s, Apply(s, Answer(c))];
      assert Next(s, path[1]);
    case Some(item) =>
      CreateDoes(s, c, item);
      var s1 := Apply(s, Create(c));
      TellDoes(s1, c, |s.items|);
      var s2 := Apply(s1, Tell(c));
      AnswerDoes(s2, c);
      var s3 := Apply(s2, Answer(c));
      ListenersKept(Pushed(s, item), s1);
      assert Next(s, s1) && Next(s1, s2) && Next(s2, s3);
      path := [s, s1, s2, s3];
  }

  // ---- what every step keeps ----

  predicate EventsOk(s: State) {
    && (forall e :: 0 <= e < |s.events| ==> s.events[e].item < s.events[e].stamp <= |s.items|)
    && (forall d, e :: 0 <= d < e < |s.events| ==> s.events[d].stamp <= s.events[e].stamp)
    && (forall i :: i in s.unannounced ==> i < |s.items|)
  }

  /** Something the client has heard will still make it read the list. */
  predicate WillRead(client: Client) {
    client.wire > 0 || client.again || client.fetch.Asked?
  }

  /** How many items it shows once what it is fetching has arrived, if no reply was swapped in. */
  function Coverage(client: Client): nat {
    if client.fetch.Carrying? then client.fetch.shown else if client.view.Items? then client.view.shown else 0
  }

  /** A post's item exists, and a reply that lists items lists its own. */
  predicate FormOk(s: State, form: Form) {
    match form
    case NoPost => true
    case Sent(_, _) => true
    case Created(own) => own < |s.items|
    case Told(own) => own < |s.items|
    case Replied(None, reply) => reply == Alert
    case Replied(Some(own), reply) => reply.Items? && own < reply.shown <= |s.items|
  }

  predicate ViewOk(s: State, client: Client) {
    && Coverage(client) <= |s.items| && (client.view.Items? ==> client.view.shown <= |s.items|)
    && (client.source.Fetched? ==> client.view.Items?)
  }

  /**
   A connected client that has nothing left to read, is not in the middle of a gap, and shows
   what it fetched, covers everything there was when the last event it passed was sent.
   */
  predicate ClientOk(s: State, client: Client) {
    && FormOk(s, client.form) && ViewOk(s, client)
    && (client.again ==> !client.fetch.Idle?)
    && (client.connected ==>
          && client.subscribed <= client.next <= |s.events|
          && (client.skipped ==> client.next < |s.events|)
          && (client.subscribed < client.next && !client.skipped && !WillRead(client)
              && (client.fetch.Carrying? || client.source.Fetched?) ==>
                Coverage(client) >= s.events[client.next - 1].stamp)
          && (client.subscribed < |s.events| ==>
                forall i :: s.events[|s.events| - 1].stamp <= i < |s.items| ==> i in s.unannounced))
  }

  predicate Inv(s: State) {
    EventsOk(s) && forall c :: c in s.clients ==> ClientOk(s, s.clients[c])
  }

  /** A client's promise depends on nothing but the board. */
  lemma SameBoardOk(s: State, t: State, client: Client)
    requires SameBoard(s, t) && ClientOk(s, client)
    ensures ClientOk(t, client)
  {}

  /** Steps that leave the board alone. */
  predicate Private(step: Step) {
    !step.Create? && !step.Tell?
  }

  lemma PrivateBoard(s: State, step: Step)
    requires Enabled(s, step) && Private(step)
    ensures SameBoard(s, Apply(s, step))
  {
    hide Moved, Wanted;
  }

  /** Hearing: subscribing, receiving, leaving, and being told on the socket. */
  lemma HearingOk(s: State, step: Step, client: Client)
    requires EventsOk(s) && ClientOk(s, client) && (step.Receive? ==> client.connected && client.next < |s.events|)
    requires step.Subscribe? || step.Receive? || step.Disconnect? || step.Deliver?
    ensures ClientOk(s, Moved(s, step, client))
  {}

  /** Fetching and posting. */
  lemma FetchingOk(s: State, step: Step, client: Client)
    requires EventsOk(s) && ClientOk(s, client) && (step.Read? ==> client.fetch.Asked?)
    requires step.Read? || step.Finish? || step.Submit? || step.Answer? || step.Swap? || step.Abandon?
    ensures ClientOk(s, Moved(s, step, client))
  {}

  lemma MovedOk(s: State, step: Step)
    requires Inv(s) && Enabled(s, step) && Private(step) && !step.Open?
    ensures ClientOk(Apply(s, step), Moved(s, step, s.clients[step.client]))
  {
    PrivateBoard(s, step);
    hide Apply, Moved, ClientOk, Wanted, EventsOk;
    var client := s.clients[step.client];
    if step.Subscribe? || step.Receive? || step.Disconnect? || step.Deliver? {
      HearingOk(s, step, client);
    } else {
      FetchingOk(s, step, client);
    }
    SameBoardOk(s, Apply(s, step), Moved(s, step, client));
  }

  lemma PushedOk(s: State, item: Item, client: Client)
    requires EventsOk(s) && ClientOk(s, client)
    ensures ClientOk(Pushed(s, item), client)
  {}

  lemma AnnouncedOk(s: State, own: nat, client: Client)
    requires EventsOk(s) && ClientOk(s, client) && own < |s.items| && (client.connected ==> SomeoneListens(s))
    ensures ClientOk(Announced(s, own), client)
  {
    hide SomeoneListens;
  }

  lemma AroundBoard(s: State, step: Step)
    requires Enabled(s, step)
    ensures SameBoard(Around(s, step), Apply(s, step))
  {
    hide Moved, Around, Wanted;
  }

  /** Clients keep their promise when the board changes under them. */
  lemma AroundOk(s: State, step: Step, client: Client)
    requires Inv(s) && Enabled(s, step) && ClientOk(s, client)
    requires client.connected ==> SomeoneListens(s)
    ensures ClientOk(Apply(s, step), client)
  {
    AroundBoard(s, step);
    if step.Tell? {
      CreatedExists(s, step);
    }
    hide Apply, ClientOk, Wanted, EventsOk, Pushed, Announced, SomeoneListens;
    if step.Create? {
      PushedOk(s, Wanted(s.clients[step.client].form).value, client);
    } else if step.Tell? {
      AnnouncedOk(s, s.clients[step.client].form.own, client);
    }
    SameBoardOk(Around(s, step), Apply(s, step), client);
  }

  lemma CreatedExists(s: State, step: Step)
    requires Inv(s) && Enabled(s, step) && step.Tell?
    ensures s.clients[step.client].form.Created? && s.clients[step.client].form.own < |s.items|
  {
    hide Wanted;
    assert ClientOk(s, s.clients[step.client]);
  }

  lemma OpenedOk(s: State, step: Step)
    requires Inv(s) && Enabled(s, step) && step.Open?
    ensures ClientOk(Apply(s, step), FRESH)
  {}

  lemma CreatorOk(s: State, step: Step)
    requires Inv(s) && Enabled(s, step) && (step.Create? || step.Tell?)
    ensures ClientOk(Apply(s, step), Moved(s, step, s.clients[step.client]))
  {
    var client := s.clients[step.client];
    hide SomeoneListens, Wanted;
    assert ClientOk(s, client);
    Listening(s, step.client);
    AroundOk(s, step, client);
    CreatorForm(s, step);
    hide Apply, Moved, Inv, Enabled;
    OnlyForm(Apply(s, step), client, Moved(s, step, client));
  }

  lemma CreatorForm(s: State, step: Step)
    requires Inv(s) && Enabled(s, step) && (step.Create? || step.Tell?)
    ensures var client, after := s.clients[step.client], Moved(s, step, s.clients[step.client]);
            after == client.(form := after.form) && FormOk(Apply(s, step), after.form)
  {
    hide SomeoneListens, Wanted;
    assert ClientOk(s, s.clients[step.client]);
  }

  /** A client's promise does not depend on its post. */
  lemma OnlyForm(s: State, client: Client, after: Client)
    requires ClientOk(s, client) && after == client.(form := after.form) && FormOk(s, after.form)
    ensures ClientOk(s, after)
  {}

  lemma Listening(s: State, c: nat)
    requires c in s.clients
    ensures s.clients[c].connected ==> SomeoneListens(s)
  {}

  lemma PushedEvents(s: State, item: Item)
    requires EventsOk(s)
    ensures EventsOk(Pushed(s, item))
  {}

  lemma AnnouncedEvents(s: State, own: nat)
    requires EventsOk(s) && own < |s.items|
    ensures EventsOk(Announced(s, own))
  {
    hide SomeoneListens;
  }

  lemma SameBoardEvents(s: State, t: State)
    requires SameBoard(s, t) && EventsOk(s)
    ensures EventsOk(t)
  {}

  lemma EventsStep(s: State, step: Step)
    requires Inv(s) && Enabled(s, step)
    ensures EventsOk(Apply(s, step))
  {
    AroundBoard(s, step);
    if step.Tell? {
      CreatedExists(s, step);
    }
    hide SomeoneListens, Wanted, Apply, ClientOk, EventsOk, Pushed, Announced;
    if step.Create? {
      PushedEvents(s, Wanted(s.clients[step.client].form).value);
    } else if step.Tell? {
      AnnouncedEvents(s, s.clients[step.client].form.own);
    }
    SameBoardEvents(Around(s, step), Apply(s, step));
  }

  lemma InvStep(s: State, step: Step)
    requires Inv(s) && Enabled(s, step)
    ensures Inv(Apply(s, step))
  {
    EventsStep(s, step);
    hide ClientOk, Moved, Around, Enabled, EventsOk;
    var t := Apply(s, step);
    forall c | c in t.clients
      ensures ClientOk(t, t.clients[c])
    {
      if c != step.client {
        Listening(s, c);
        AroundOk(s, step, s.clients[c]);
      } else if step.Open? {
        OpenedOk(s, step);
      } else if !Private(step) {
        CreatorOk(s, step);
      } else {
        MovedOk(s, step);
      }
    }
  }

  lemma {:induction false} InvAlong(path: seq<State>, i: nat)
    requires IsRun(path) && i < |path|
    ensures Inv(path[i])
  {
    hide Inv, Enabled, Apply;
    if i == 0 {
      InvInitially();
    } else {
      InvAlong(path, i - 1);
      assert Next(path[i - 1], path[i - 1 + 1]);
      var step :| Enabled(path[i - 1], step) && path[i] == Apply(path[i - 1], step);
      InvStep(path[i - 1], step);
    }
  }

  lemma InvInitially()
    ensures Inv(INITIAL)
  {}

  // ---- convergence ----

  /** The receiver is drained, nothing is on the socket, the last refetch is done, no post is out. */
  predicate Settled(s: State, client: Client) {
    client.connected && client.next == |s.events| && client.wire == 0 && client.fetch.Idle? && client.form.NoPost?
  }

  /**
   In every run a settled client that no reply has overwritten since its last refetch shows
   every item announced since it subscribed, however many events it lost to the ring on the
   way and whatever it posted before.
   */
  lemma Convergence(path: seq<State>, i: nat, c: nat)
    requires IsRun(path) && i < |path| && c in path[i].clients
    requires Settled(path[i], path[i].clients[c]) && path[i].clients[c].source.Fetched?
    ensures var s, client := path[i], path[i].clients[c];
            && client.view.Items?
            && forall e :: client.subscribed <= e < |s.events| ==>
                 s.events[e].item < client.view.shown <= |s.items|
                 && s.items[s.events[e].item] in s.items[..client.view.shown]
  {
    InvAlong(path, i);
    var s, client := path[i], path[i].clients[c];
    assert ClientOk(s, client);
    forall e | client.subscribed <= e < |s.events|
      ensures s.events[e].item < client.view.shown
    {
      assert s.events[e].stamp <= s.events[|s.events| - 1].stamp;
    }
    forall e | client.subscribed <= e < |s.events|
      ensures s.items[s.events[e].item] in s.items[..client.view.shown]
    {
      assert s.items[..client.view.shown][s.events[e].item] == s.items[s.events[e].item];
    }
  }

  predicate ShowsAll(s: State, client: Client) {
    client.view == Items(|s.items|)
  }

  /** And once no creator is half-way, it shows the whole list if it heard of any event at all. */
  lemma WholeListShown(path: seq<State>, i: nat, c: nat)
    requires IsRun(path) && i < |path| && c in path[i].clients
    requires Settled(path[i], path[i].clients[c]) && path[i].clients[c].source.Fetched?
    requires path[i].unannounced == {} && path[i].clients[c].subscribed < |path[i].events|
    ensures ShowsAll(path[i], path[i].clients[c])
  {
    InvAlong(path, i);
    var s, client := path[i], path[i].clients[c];
    assert ClientOk(s, client);
    var last := s.events[|s.events| - 1].stamp;
    assert last <= client.view.shown <= |s.items|;
    assert last < |s.items| ==> last in s.unannounced;
  }

  /** A client that posted an item sees that item at once: the reply lists it. */
  lemma OwnItemShown(path: seq<State>, i: nat, c: nat)
    requires IsRun(path) && i < |path| && Enabled(path[i], Swap(c))
    requires path[i].clients[c].form.item.Some?
    ensures var own, view := path[i].clients[c].form.item.value, Apply(path[i], Swap(c)).clients[c].view;
            view.Items? && own < view.shown <= |path[i].items| && path[i].items[own] in path[i].items[..view.shown]
  {
    InvAlong(path, i);
    var s := path[i];
    assert ClientOk(s, s.clients[c]);
    var own, shown := s.clients[c].form.item.value, s.clients[c].form.reply.shown;
    assert s.items[..shown][own] == s.items[own];
  }

  // ---- when the promise fails ----

  lemma Onward(path: seq<State>, step: Step) returns (longer: seq<State>)
    requires IsRun(path) && Enabled(path[|path| - 1], step)
    ensures IsRun(longer) && longer == path + [Apply(path[|path| - 1], step)]
  {
    hide Enabled, Apply;
    longer := path + [Apply(path[|path| - 1], step)];
    forall i | 0 <= i < |longer| - 1
      ensures Next(longer[i], longer[i + 1])
    {
      if i < |path| - 1 {
        assert Next(path[i], path[i + 1]);
      }
    }
  }

  /** Client 0 is settled, shows what it fetched and heard of all `heard` events; client 1 is about to post. */
  predicate Heard(s: State, heard: nat) {
    && 0 in s.clients && 1 in s.clients && |s.items| == |s.events| == heard && s.unannounced == {}
    && s.clients[0] == Client(true, 0, heard, false, 0, false, Idle, NoPost, Items(heard), Fetched)
    && s.clients[1].form.NoPost?
  }

  lemma HeardNothing() returns (path: seq<State>)
    ensures path != [] && IsRun(path) && Heard(path[|path| - 1], 0)
  {
    assert IsRun([INITIAL]);
    hide IsRun;
    path := Onward([INITIAL], Open(0));
    path := Onward(path, Read(0));
    path := Onward(path, Finish(0));
    path := Onward(path, Subscribe(0));
    path := Onward(path, Open(1));
  }

  lemma PlainTitle() returns (title: string, item: Item)
    ensures Wanted(Sent(title, "")) == Some(item)
  {
    TrimOfTrimmed("x");
    title, item := "x", Item("x", "");
  }

  /** Client `c` posts an item, up to its announcement. */
  lemma PostItem(before: seq<State>, c: nat) returns (path: seq<State>)
    requires IsRun(before) && c in before[|before| - 1].clients
    requires before[|before| - 1].clients[c].form.NoPost? && SomeoneListens(before[|before| - 1])
    ensures path != [] && IsRun(path)
    ensures var s, t := before[|before| - 1], path[|path| - 1];
            && t.unannounced == s.unannounced - {|s.items|}
            && t.clients == s.clients[c := s.clients[c].(form := Told(|s.items|))]
            && |t.items| == |s.items| + 1 && t.events == s.events + [Event(|s.items|, |t.items|)]
  {
    var s := before[|before| - 1];
    hide Wanted, IsRun, SomeoneListens;
    var title, item := PlainTitle();
    path := PostTitle(before, c, title, item);
    PushedIs(s, item);
    assert s.unannounced + {|s.items|} - {|s.items|} == s.unannounced - {|s.items|};
  }

  lemma PostTitle(before: seq<State>, c: nat, title: string, item: Item) returns (path: seq<State>)
    requires IsRun(before) && c in before[|before| - 1].clients && before[|before| - 1].clients[c].form.NoPost?
    requires Wanted(Sent(title, "")) == Some(item)
    ensures path != [] && IsRun(path)
    ensures var s, t := before[|before| - 1], path[|path| - 1];
            t == With(Announced(Pushed(s, item), |s.items|), c, s.clients[c].(form := Told(|s.items|)))
  {
    var s := before[|before| - 1];
    var created := s.clients[c].(form := Created(|s.items|));
    hide IsRun, Wanted, SomeoneListens, Enabled, Apply, With, Announced;
    path := PostCreate(before, c, title, item);
    WithIs(Pushed(s, item), c, created);
    TellDoes(With(Pushed(s, item), c, created), c, |s.items|);
    path := Onward(path, Tell(c));
    AnnouncedWith(Pushed(s, item), c, created, created.(form := Told(|s.items|)), |s.items|);
  }

  lemma PostCreate(before: seq<State>, c: nat, title: string, item: Item) returns (path: seq<State>)
    requires IsRun(before) && c in before[|before| - 1].clients && before[|before| - 1].clients[c].form.NoPost?
    requires Wanted(Sent(title, "")) == Some(item)
    ensures path != [] && IsRun(path)
    ensures var s, t := before[|before| - 1], path[|path| - 1];
            t == With(Pushed(s, item), c, s.clients[c].(form := Created(|s.items|)))
  {
    var s := before[|before| - 1];
    var sent := s.clients[c].(form := Sent(title, ""));
    hide IsRun, Wanted, Enabled, Apply, With, Pushed;
    SubmitDoes(s, c, title, "");
    path := Onward(before, Submit(c, title, ""));
    WithIs(s, c, sent);
    CreateDoes(With(s, c, sent), c, item);
    path := Onward(path, Create(c));
    PushedWith(s, c, sent, sent.(form := Created(|s.items|)), item);
  }

  lemma WithIs(s: State, c: nat, client: Client)
    ensures var t := With(s, c, client);
            c in t.clients && t.clients[c] == client && SameBoard(s, t)
  {}

  lemma PushedWith(s: State, c: nat, a: Client, b: Client, item: Item)
    ensures With(Pushed(With(s, c, a), item), c, b) == With(Pushed(s, item), c, b)
  {
    assert s.clients[c := a][c := b] == s.clients[c := b];
  }

  lemma AnnouncedWith(s: State, c: nat, a: Client, b: Client, index: nat)
    requires c in s.clients && s.clients[c].connected == a.connected
    ensures With(Announced(With(s, c, a), index), c, b) == With(Announced(s, index), c, b)
  {
    hide SomeoneListens;
    ListenersKept(s, With(s, c, a));
    assert s.clients[c := a][c := b] == s.clients[c := b];
  }

  lemma PushedIs(s: State, item: Item)
    requires SomeoneListens(s)
    ensures var t := Announced(Pushed(s, item), |s.items|);
            t.events == s.events + [Event(|s.items|, |t.items|)] && Pushed(s, item).clients == s.clients
  {}

  /** Client `c` posts an item and never hears back. */
  lemma PostAndLeave(before: seq<State>, c: nat) returns (path: seq<State>)
    requires IsRun(before) && c in before[|before| - 1].clients
    requires before[|before| - 1].clients[c].form.NoPost? && SomeoneListens(before[|before| - 1])
    ensures path != [] && IsRun(path)
    ensures var s, t := before[|before| - 1], path[|path| - 1];
            && t.unannounced == s.unannounced - {|s.items|} && t.clients == s.clients
            && |t.items| == |s.items| + 1 && t.events == s.events + [Event(|s.items|, |t.items|)]
  {
    var s := before[|before| - 1];
    hide IsRun, SomeoneListens, Enabled, Apply;
    path := PostItem(before, c);
    AbandonDoes(path[|path| - 1], c);
    path := Onward(path, Abandon(c));
    assert s.clients[c] == s.clients[c].(form := NoPost);
  }

  /** Client 0 hears of one event and fetches the list. */
  lemma HearAndFetch(before: seq<State>, c: nat) returns (path: seq<State>)
    requires IsRun(before) && c in before[|before| - 1].clients
    requires var s, client := before[|before| - 1], before[|before| - 1].clients[c];
             && client.connected && client.next == |s.events| - 1 && client.wire == 0 && !client.again
             && client.fetch.Idle?
    ensures path != [] && IsRun(path)
    ensures var s, t := before[|before| - 1], path[|path| - 1];
            && SameBoard(s, t) && c in t.clients && t.clients == s.clients[c := t.clients[c]]
            && t.clients[c]
               == s.clients[c].(next := |s.events|, skipped := false, view := Items(|s.items|), source := Fetched)
  {
    var s := before[|before| - 1];
    hide IsRun;
    path := Onward(before, Receive(c));
    path := Onward(path, Deliver(c));
    path := Onward(path, Read(c));
    path := Onward(path, Finish(c));
  }

  /**
   A reachable settled client that heard of `heard` events and whose view was last written by
   `source`, at a moment when no creator is half-way.
   */
  ghost predicate Quiet(path: seq<State>, i: nat, c: nat, heard: nat, source: Source) {
    && IsRun(path) && i < |path| && path[i].unannounced == {}
    && c in path[i].clients && Settled(path[i], path[i].clients[c]) && path[i].clients[c].source == source
    && |path[i].events| - path[i].clients[c].subscribed == heard
  }

  /** Every such client shows the whole list. */
  ghost predicate AllShown(heard: nat, source: Source) {
    forall path: seq<State>, i: nat, c: nat ::
      Quiet(path, i, c, heard, source) ==> ShowsAll(path[i], path[i].clients[c])
  }

  lemma {:induction false} HeardMany(heard: nat) returns (path: seq<State>)
    ensures path != [] && IsRun(path) && Heard(path[|path| - 1], heard)
  {
    hide IsRun, SomeoneListens;
    if heard == 0 {
      path := HeardNothing();
    } else {
      path := HeardMany(heard - 1);
      Listening(path[|path| - 1], 0);
      path := PostAndLeave(path, 1);
      path := HearAndFetch(path, 0);
    }
  }

  /**
   Submitting a blank title wipes the list: the alert replaces it, and stays until the next
   event, whatever the client heard before.
   */
  lemma BlankTitleHides(heard: nat) returns (path: seq<State>)
    ensures path != [] && Quiet(path, |path| - 1, 0, heard, Posted) && path[|path| - 1].clients[0].view == Alert
  {
    BlankIsRefused();
    path := HeardMany(heard);
    hide IsRun, Accept, Enabled, Apply;
    SubmitDoes(path[|path| - 1], 0, "", "");
    path := Onward(path, Submit(0, "", ""));
    AnswerDoes(path[|path| - 1], 0);
    path := Onward(path, Answer(0));
    SwapDoes(path[|path| - 1], 0);
    path := Onward(path, Swap(0));
  }

  lemma BlankIsRefused()
    ensures Accept("", "") == None
  {}

  /** A reply that is overtaken by a refetch puts an older list in the place of a newer one. */
  lemma StaleReplyHides() returns (path: seq<State>)
    ensures path != [] && Quiet(path, |path| - 1, 0, 2, Posted)
    ensures path[|path| - 1].clients[0].view == Items(1) && |path[|path| - 1].items| == 2
  {
    path := HeardNothing();
    hide IsRun, SomeoneListens, Enabled, Apply;
    Listening(path[|path| - 1], 0);
    path := PostItem(path, 0);
    AnswerDoes(path[|path| - 1], 0);
    path := Onward(path, Answer(0));
    path := HearAndFetch(path, 0);
    Listening(path[|path| - 1], 0);
    path := PostAndLeave(path, 1);
    path := HearAndFetch(path, 0);
    SwapDoes(path[|path| - 1], 0);
    path := Onward(path, Swap(0));
  }

  /** An item announced between the page's first fetch and its subscription stays invisible. */
  lemma MissedBeforeSubscribing() returns (path: seq<State>)
    ensures path != [] && Quiet(path, |path| - 1, 0, 0, Fetched)
    ensures path[|path| - 1].clients[0].view == Items(0) && |path[|path| - 1].items| == 1
  {
    path := OpenAndLeave();
    hide IsRun, Accept;
    path := Onward(path, Subscribe(0));
  }

  /** A page fetches the empty list and, before its socket is up, posts an item and leaves no trace. */
  lemma OpenAndLeave() returns (path: seq<State>)
    ensures path != [] && IsRun(path)
    ensures var s := path[|path| - 1];
            && s.clients == map[0 := FRESH.(fetch := Idle)]
            && s.unannounced == {} && s.events == [] && |s.items| == 1
  {
    hide IsRun, Wanted, Enabled, Apply;
    var title, item := PlainTitle();
    path := OpenedOnly();
    var s := path[|path| - 1];
    path := PostTitle(path, 0, title, item);
    Unheard(s, item);
    AbandonDoes(path[|path| - 1], 0);
    path := Onward(path, Abandon(0));
  }

  lemma Unheard(s: State, item: Item)
    requires s == INITIAL.(clients := map[0 := FRESH.(fetch := Idle)])
    ensures var t := Announced(Pushed(s, item), 0);
            t.unannounced == {} && t.events == [] && |t.items| == 1 && t.clients == s.clients
  {}

  lemma OpenedOnly() returns (path: seq<State>)
    ensures path != [] && IsRun(path)
    ensures path[|path| - 1] == INITIAL.(clients := map[0 := FRESH.(fetch := Idle)])
  {
    assert IsRun([INITIAL]);
    hide IsRun;
    path := Onward([INITIAL], Open(0));
    path := Onward(path, Read(0));
    path := Onward(path, Finish(0));
  }

  /**
   The list is always whole if and only if the client heard of an event since it subscribed,
   and its view was last written by a refetch and not by the reply to its own post.
   */
  lemma WholeListShownIff(heard: nat, source: Source)
    ensures AllShown(heard, source) <==> heard > 0 && source == Fetched
  {
    hide IsRun;
    if source == Posted {
      var path := BlankTitleHides(heard);
      assert Quiet(path, |path| - 1, 0, heard, source);
    } else if heard == 0 {
      var path := MissedBeforeSubscribing();
      assert Quiet(path, |path| - 1, 0, heard, source);
    } else {
      forall path: seq<State>, i: nat, c: nat | Quiet(path, i, c, heard, source)
        ensures ShowsAll(path[i], path[i].clients[c])
      {
        WholeListShown(path, i, c);
      }
    }
  }

  // ---- draining ----

  /** How many receives until the client has caught up, if nothing more is announced. */
  function ToDrain(s: State, client: Client): nat {
    if client.next < Oldest(s) then 1 + CAPACITY
    else if client.next < |s.events| then |s.events| - client.next
    else 0
  }

  /**
   A receiver can always make progress until it is drained, each receive brings it one step
   nearer, and a client lagging by any number of events is never more than 257 steps away. A
   receive forwards one event, or, more than 256 behind, loses all but the last 256.
   */
  lemma DrainsInBoundedSteps(s: State, c: nat)
    requires Inv(s) && c in s.clients && s.clients[c].connected
    ensures ToDrain(s, s.clients[c]) <= 257
    ensures ToDrain(s, s.clients[c]) == 0 <==> s.clients[c].next == |s.events|
    ensures Enabled(s, Receive(c)) <==> ToDrain(s, s.clients[c]) > 0
    ensures Enabled(s, Receive(c)) ==>
              var t := Apply(s, Receive(c));
              t.events == s.events && ToDrain(t, t.clients[c]) == ToDrain(s, s.clients[c]) - 1
    ensures Enabled(s, Receive(c)) ==>
              var client, after := s.clients[c], Apply(s, Receive(c)).clients[c];
              if |s.events| - client.next > 256 then after.next == |s.events| - 256 && after.wire == client.wire
              else after.next == client.next + 1 && after.wire == client.wire + 1
  {
    assert ClientOk(s, s.clients[c]);
  }
}
