/**
 * The synchronous messaging server (`messaging-system/server`): one
 * listener and a registry of client streams keyed by poll tokens. Token 0
 * is the listener; each accepted client gets the token `len + 1`. A
 * readable client event reads one frame from that client and writes the
 * frame's bytes to every other client.
 *
 * The poll, the listener and the sockets are given as scripts: the
 * outcomes of successive `accept` calls, each client's incoming byte
 * stream, and the outcomes of the successive writes to a client. The whole server state is
 * mirrored by a value (`State`) so that the methods are proved against
 * functions and the properties are lemmas about those functions.
 */
module FanOutServer {
  import opened Bytes
  import opened Wrappers
  import opened Transport
  import Text
  import Api

  const SERVER_TOKEN: nat := 0

  /**
   * A connected client: what it will send, what it was sent, and the
   * outcomes of the next `write_all` calls to it, in order (`true` for a
   * success); a write past the end of that script succeeds.
   */
  datatype Peer = Peer(inbound: seq<ReadEvent>, outbox: seq<seq<Byte>>, writes: seq<bool>)

  /** The outcome of one `accept` followed by `register` on the listener. */
  datatype AcceptOutcome = Accepted(stream: seq<ReadEvent>, writes: seq<bool>) | AcceptFailed | RegisterFailed

  /** A readiness event of the poll. */
  datatype Event = Event(token: nat, readable: bool)

  /** One call of `poll.poll`. */
  datatype PollOutcome = Polled(events: seq<Event>) | PollFailed

  datatype ServerError =
    | NotReadable
    | UnknownToken(token: nat)
    | FrameError(error: Api.ApiError)
    | AcceptError
    | RegisterError
    | PollError

  const UNKNOWN_TOKEN_PREFIX: string := "The TCP stream for following token: "
  const UNKNOWN_TOKEN_SUFFIX: string := " not found"

  /**
   * The text the server prints for an error it reports itself: a fixed
   * sentence for an unreadable event, and for an unknown token the token's
   * decimal numeral between a fixed prefix and suffix.
   */
  function ErrorMessage(e: ServerError): (m: string)
    requires e.NotReadable? || e.UnknownToken?
    ensures e.NotReadable? ==> m == "The event is not readable"
    ensures e.UnknownToken? ==> m == UNKNOWN_TOKEN_PREFIX + Text.NatToString(e.token) + UNKNOWN_TOKEN_SUFFIX
  {
    match e
    case NotReadable => "The event is not readable"
    case UnknownToken(t) => UNKNOWN_TOKEN_PREFIX + Text.NatToString(t) + UNKNOWN_TOKEN_SUFFIX
  }

  /**
   * The unknown-token message names the token: it starts with the prefix,
   * ends with " not found", and what lies between reads back as the token.
   */
  lemma UnknownTokenMessageNamesToken(t: nat)
    ensures var m := ErrorMessage(UnknownToken(t));
      |m| >= |UNKNOWN_TOKEN_PREFIX| + |UNKNOWN_TOKEN_SUFFIX| &&
      m[..|UNKNOWN_TOKEN_PREFIX|] == UNKNOWN_TOKEN_PREFIX &&
      m[|m| - |UNKNOWN_TOKEN_SUFFIX|..] == UNKNOWN_TOKEN_SUFFIX &&
      Text.DecimalValue(m[|UNKNOWN_TOKEN_PREFIX|..|m| - |UNKNOWN_TOKEN_SUFFIX|]) == t
  {
    var numeral := Text.NatToString(t);
    var m := ErrorMessage(UnknownToken(t));
    assert m == UNKNOWN_TOKEN_PREFIX + numeral + UNKNOWN_TOKEN_SUFFIX;
    assert m[..|UNKNOWN_TOKEN_PREFIX|] == UNKNOWN_TOKEN_PREFIX;
    assert m[|m| - |UNKNOWN_TOKEN_SUFFIX|..] == UNKNOWN_TOKEN_SUFFIX;
    assert m[|UNKNOWN_TOKEN_PREFIX|..|m| - |UNKNOWN_TOKEN_SUFFIX|] == numeral;
    Text.NatToStringValue(t);
  }

  /** The two messages differ, and messages for different tokens differ. */
  lemma ErrorMessagesDistinct(t: nat, u: nat)
    ensures ErrorMessage(NotReadable) != ErrorMessage(UnknownToken(t))
    ensures t != u ==> ErrorMessage(UnknownToken(t)) != ErrorMessage(UnknownToken(u))
  {
    UnknownTokenMessageNamesToken(t);
    UnknownTokenMessageNamesToken(u);
    var m := ErrorMessage(UnknownToken(t));
    assert m[0] == 'T' && ErrorMessage(NotReadable)[1] == 'h';
    assert m[4] == 'T' && ErrorMessage(NotReadable)[4] == 'e';
  }

  /**
   * The server as a value: the registry, the pending accept outcomes, the
   * tokens whose write failed (each one printed as "Cannot write into TCP
   * stream"), and the errors printed by the event loop.
   */
  datatype State = State(
    clients: map<nat, Peer>,
    accepts: seq<AcceptOutcome>,
    failedWrites: seq<nat>,
    errorLog: seq<ServerError>)

  /** The tokens `1..n`. */
  function Tokens(n: nat): (ts: set<nat>)
    ensures forall t :: t in ts <==> 1 <= t <= n
  {
    if n == 0 then {} else Tokens(n - 1) + {n}
  }

  /** Tokens are handed out as `len + 1`, so the registry holds exactly the tokens `1..len`. */
  predicate ValidRegistry(clients: map<nat, Peer>)
  {
    clients.Keys == Tokens(|clients|)
  }

  // ---------------------------------------------------------------------------
  // the specification functions

  /** `accept_client`. */
  function AcceptSpec(st: State): (res: (Result<(), ServerError>, State))
  {
    if st.accepts == [] then (Err(AcceptError), st)
    else
      match st.accepts[0]
      case Accepted(stream, w) =>
        (Ok(()), st.(clients := st.clients[|st.clients| + 1 := Peer(stream, [], w)], accepts := st.accepts[1..]))
      case AcceptFailed => (Err(AcceptError), st.(accepts := st.accepts[1..]))
      case RegisterFailed => (Err(RegisterError), st.(accepts := st.accepts[1..]))
  }

  /** Whether the next `write_all` to `p` succeeds. */
  predicate WriteSucceeds(p: Peer)
  {
    p.writes == [] || p.writes[0]
  }

  /** The write script once its first outcome has been used. */
  function AfterWrite(writes: seq<bool>): (rest: seq<bool>)
    ensures writes != [] ==> [writes[0]] + rest == writes
    ensures writes == [] ==> rest == []
  {
    if writes == [] then [] else writes[1..]
  }

  /**
   * One `write_all` of `msg`: it uses up the next outcome of the client's
   * write script, and the client receives `msg` exactly when that outcome
   * is a success.
   */
  function Deliver(p: Peer, msg: seq<Byte>): (q: Peer)
    ensures q.inbound == p.inbound && q.writes == AfterWrite(p.writes)
    ensures q.outbox == if WriteSucceeds(p) then p.outbox + [msg] else p.outbox
  {
    p.(outbox := if WriteSucceeds(p) then p.outbox + [msg] else p.outbox, writes := AfterWrite(p.writes))
  }

  /**
   * The registry after the fan-out has visited the tokens `1..k` in order:
   * each visited client other than `sender` has been written `msg`.
   */
  function RelayThrough(clients: map<nat, Peer>, sender: nat, msg: seq<Byte>, k: nat): map<nat, Peer>
  {
    if k == 0 then clients
    else
      var m := RelayThrough(clients, sender, msg, k - 1);
      if k != sender && k in clients then m[k := Deliver(clients[k], msg)] else m
  }

  /** The registry after the fan-out of `msg` to every client but `sender`. */
  function Relay(clients: map<nat, Peer>, sender: nat, msg: seq<Byte>): map<nat, Peer>
  {
    map t | t in clients :: if t != sender then Deliver(clients[t], msg) else clients[t]
  }

  /** The tokens in `1..n`, ascending, other than `sender`, whose write fails. */
  function Undelivered(clients: map<nat, Peer>, sender: nat, n: nat): seq<nat>
  {
    if n == 0 then []
    else Undelivered(clients, sender, n - 1)
         + (if n != sender && n in clients && !WriteSucceeds(clients[n]) then [n] else [])
  }

  /** `handle_client_event`. */
  function HandleSpec(st: State, ev: Event): (res: (Result<(), ServerError>, State))
  {
    if !ev.readable then (Err(NotReadable), st)
    else if ev.token !in st.clients then (Err(UnknownToken(ev.token)), st)
    else
      var peer := st.clients[ev.token];
      var frame := Api.ReadFrameSpec(peer.inbound);
      var clients := st.clients[ev.token := peer.(inbound := frame.1)];
      if frame.0.Err? then (Err(FrameError(frame.0.error)), st.(clients := clients))
      else
        (Ok(()), st.(clients := Relay(clients, ev.token, frame.0.value),
                     failedWrites := st.failedWrites + Undelivered(clients, ev.token, |clients|)))
  }

  /** One event of the loop in `start`: dispatch by token, print the error if any. */
  function StepSpec(st: State, ev: Event): (st': State)
  {
    var res := if ev.token == SERVER_TOKEN then AcceptSpec(st) else HandleSpec(st, ev);
    if res.0.Err? then res.1.(errorLog := res.1.errorLog + [res.0.error]) else res.1
  }

  /** The events of one poll, in order. */
  function DispatchSpec(st: State, events: seq<Event>): State
  {
    if events == [] then st
    else StepSpec(DispatchSpec(st, events[..|events| - 1]), events[|events| - 1])
  }

  /** `start` over a finite script of polls; a failing poll ends it with that error. */
  function StartSpec(st: State, polls: seq<PollOutcome>): (Result<(), ServerError>, State)
    decreases |polls|
  {
    if polls == [] then (Ok(()), st)
    else
      match polls[0]
      case PollFailed => (Err(PollError), st)
      case Polled(events) => StartSpec(DispatchSpec(st, events), polls[1..])
  }

  /**
   * The fan-out has visited the tokens `1..k`: the registry `cur` and the
   * failure list `curFailed` are what those visits produce.
   */
  predicate VisitedUpTo(clients: map<nat, Peer>, sender: nat, msg: seq<Byte>, failed: seq<nat>, k: nat,
                        cur: map<nat, Peer>, curFailed: seq<nat>)
  {
    cur == RelayThrough(clients, sender, msg, k) && curFailed == failed + Undelivered(clients, sender, k)
  }

  /**
   * The body of the fan-out loop for token `t`: unless `t` is the sender,
   * `write_all` the message to its client, or record the token when the
   * write fails.
   */
  method VisitToken(clients: map<nat, Peer>, sender: nat, msg: seq<Byte>, failed: seq<nat>, t: nat,
                    cur: map<nat, Peer>, curFailed: seq<nat>)
    returns (next: map<nat, Peer>, nextFailed: seq<nat>)
    requires ValidRegistry(clients) && 1 <= t <= |clients|
    requires VisitedUpTo(clients, sender, msg, failed, t - 1, cur, curFailed)
    ensures VisitedUpTo(clients, sender, msg, failed, t, next, nextFailed)
  {
    FanOutVisits(clients, sender, msg, t);
    UndeliveredStep(clients, sender, t, failed);
    next, nextFailed := cur, curFailed;
    if t != sender {
      var p := cur[t];
      var q := p.(writes := AfterWrite(p.writes));
      if p.writes == [] || p.writes[0] {
        q := q.(outbox := p.outbox + [msg]);
      } else {
        nextFailed := curFailed + [t];
      }
      next := cur[t := q];
    }
  }

  /**
   * The fan-out loop over the registry, in token order: each client other
   * than `sender` is written `msg`, or, when the write fails, its token is
   * added to `failed`.
   */
  method FanOut(clients: map<nat, Peer>, sender: nat, msg: seq<Byte>, failed: seq<nat>)
    returns (clients': map<nat, Peer>, failed': seq<nat>)
    requires ValidRegistry(clients)
    ensures clients' == Relay(clients, sender, msg)
    ensures failed' == failed + Undelivered(clients, sender, |clients|)
  {
    clients', failed' := clients, failed;
    var n := |clients|;
    var t: nat := 1;
    while t <= n
      invariant 1 <= t <= n + 1
      invariant VisitedUpTo(clients, sender, msg, failed, t - 1, clients', failed')
    {
      clients', failed' := VisitToken(clients, sender, msg, failed, t, clients', failed');
      t := t + 1;
    }
    RelayThroughAll(clients, sender, msg);
  }

  // ---------------------------------------------------------------------------
  // the server object

  class Server {
    var clients: map<nat, Peer>
    var accepts: seq<AcceptOutcome>
    var failedWrites: seq<nat>
    var errorLog: seq<ServerError>

    function Snapshot(): State
      reads this
    {
      State(clients, accepts, failedWrites, errorLog)
    }

    /** `Server::new`: an empty registry. */
    constructor(pending: seq<AcceptOutcome>)
      ensures Snapshot() == State(map[], pending, [], [])
      ensures ValidRegistry(clients)
    {
      clients := map[];
      accepts := pending;
      failedWrites := [];
      errorLog := [];
    }

    method AcceptClient() returns (r: Result<(), ServerError>)
      modifies this
      ensures (r, Snapshot()) == AcceptSpec(old(Snapshot()))
    {
      if accepts == [] {
        return Err(AcceptError);
      }
      var next := accepts[0];
      accepts := accepts[1..];
      match next
      case AcceptFailed =>
        r := Err(AcceptError);
      case RegisterFailed =>
        r := Err(RegisterError);
      case Accepted(stream, w) =>
        var token := |clients| + 1;
        clients := clients[token := Peer(stream, [], w)];
        r := Ok(());
    }

    method HandleClientEvent(ev: Event) returns (r: Result<(), ServerError>)
      requires ValidRegistry(clients)
      modifies this
      ensures (r, Snapshot()) == HandleSpec(old(Snapshot()), ev)
    {
      if !ev.readable {
        return Err(NotReadable);
      }
      if ev.token !in clients {
        return Err(UnknownToken(ev.token));
      }
      var peer := clients[ev.token];
      var res, rest := Api.ReadFrame(peer.inbound);
      clients := clients[ev.token := peer.(inbound := rest)];
      if res.Err? {
        return Err(FrameError(res.error));
      }
      assert clients.Keys == old(clients).Keys;
      WriteToOthers(ev.token, res.value);
      r := Ok(());
    }

    /** The `iter_mut().filter(..).for_each(..)` fan-out of `handle_client_event`, in token order. */
    method WriteToOthers(sender: nat, msg: seq<Byte>)
      requires ValidRegistry(clients)
      modifies this
      ensures clients == Relay(old(clients), sender, msg)
      ensures failedWrites == old(failedWrites) + Undelivered(old(clients), sender, |old(clients)|)
      ensures accepts == old(accepts) && errorLog == old(errorLog)
    {
      var m, failed := FanOut(clients, sender, msg, failedWrites);
      clients, failedWrites := m, failed;
    }

    /** The body of the loop in `start`: one event, dispatched by its token, its error printed. */
    method HandleEvent(ev: Event)
      requires ValidRegistry(clients)
      modifies this
      ensures ValidRegistry(clients)
      ensures Snapshot() == StepSpec(old(Snapshot()), ev)
    {
      var r;
      if ev.token == SERVER_TOKEN {
        r := AcceptClient();
      } else {
        r := HandleClientEvent(ev);
      }
      if r.Err? {
        errorLog := errorLog + [r.error];
      }
      StepKeepsRegistry(old(Snapshot()), ev);
    }

    /** The `for event in events.iter()` loop of `start`. */
    method Dispatch(events: seq<Event>)
      requires ValidRegistry(clients)
      modifies this
      ensures ValidRegistry(clients)
      ensures Snapshot() == DispatchSpec(old(Snapshot()), events)
    {
      var i := 0;
      while i < |events|
        invariant 0 <= i <= |events|
        invariant ValidRegistry(clients)
        invariant Snapshot() == DispatchSpec(old(Snapshot()), events[..i])
      {
        HandleEvent(events[i]);
        assert events[..i + 1][..i] == events[..i];
        i := i + 1;
      }
      assert events[..i] == events;
    }

    /** `start`: poll, then dispatch the events, until a poll fails or the script ends. */
    method Start(polls: seq<PollOutcome>) returns (r: Result<(), ServerError>)
      requires ValidRegistry(clients)
      modifies this
      ensures (r, Snapshot()) == StartSpec(old(Snapshot()), polls)
    {
      var i := 0;
      while i < |polls|
        invariant 0 <= i <= |polls|
        invariant ValidRegistry(clients)
        invariant StartSpec(Snapshot(), polls[i..]) == StartSpec(old(Snapshot()), polls)
      {
        StartSpecStep(Snapshot(), polls, i);
        match polls[i]
        case PollFailed =>
          return Err(PollError);
        case Polled(events) =>
          Dispatch(events);
        i := i + 1;
      }
      r := Ok(());
    }
  }

  // ---------------------------------------------------------------------------
  // properties

  /** `start` handles the polls one after another, and stops at the first that fails. */
  lemma StartSpecStep(st: State, polls: seq<PollOutcome>, i: nat)
    requires i < |polls|
    ensures StartSpec(st, polls[i..]) ==
      match polls[i]
      case PollFailed => (Err(PollError), st)
      case Polled(events) => StartSpec(DispatchSpec(st, events), polls[i + 1..])
  {
    assert polls[i..][1..] == polls[i + 1..];
  }

  /**
   * A successful accept registers exactly one new client, under the token
   * `len + 1`, which is never the listener's token and never one in use; a
   * failed accept leaves the registry as it was. Either way the registry
   * keeps the tokens `1..len`.
   */
  lemma AcceptKeepsRegistry(st: State)
    requires ValidRegistry(st.clients)
    ensures var (r, st') := AcceptSpec(st);
      ValidRegistry(st'.clients)
      && (r.Ok? ==> var t := |st.clients| + 1;
                    t != SERVER_TOKEN && t !in st.clients
                    && st'.clients.Keys == st.clients.Keys + {t}
                    && st'.clients[t].outbox == []
                    && forall u :: u in st.clients ==> st'.clients[u] == st.clients[u])
      && (r.Err? ==> st'.clients == st.clients)
  {
    var t := |st.clients| + 1;
    RegistryHas(st.clients, t);
    if st.accepts != [] && st.accepts[0].Accepted? {
      var p := Peer(st.accepts[0].stream, [], st.accepts[0].writes);
      assert AcceptSpec(st).1.clients == st.clients[t := p];
      RegistryExtend(st.clients, p);
      UpdateKeys(st.clients, t, p);
    } else {
      assert AcceptSpec(st).1.clients == st.clients;
    }
  }

  lemma UpdateKeys<K, V>(m: map<K, V>, k: K, v: V)
    ensures m[k := v].Keys == m.Keys + {k}
    ensures forall u :: u in m && u != k ==> m[k := v][u] == m[u]
  {
  }

  /** Registering a client under the token `len + 1` keeps the tokens dense from 1. */
  lemma RegistryExtend(clients: map<nat, Peer>, p: Peer)
    requires ValidRegistry(clients)
    ensures ValidRegistry(clients[|clients| + 1 := p])
  {
    var t := |clients| + 1;
    var m := clients[t := p];
    RegistryHas(clients, t);
    assert m.Keys == Tokens(|clients|) + {t};
    assert |m| == t;
    assert Tokens(|clients|) + {t} == Tokens(t);
  }

  /** Token `t` of the registry has not been visited by the fan-out before its turn. */
  lemma FanOutVisits(clients: map<nat, Peer>, sender: nat, msg: seq<Byte>, t: nat)
    requires ValidRegistry(clients) && 1 <= t <= |clients|
    ensures t in clients
    ensures t in RelayThrough(clients, sender, msg, t - 1)
    ensures RelayThrough(clients, sender, msg, t - 1)[t] == clients[t]
  {
    RegistryHas(clients, t);
    RelayThroughAt(clients, sender, msg, t - 1, t);
  }

  /** A well-formed registry holds exactly the tokens `1..len`. */
  lemma RegistryHas(clients: map<nat, Peer>, t: nat)
    requires ValidRegistry(clients)
    ensures t in clients <==> 1 <= t <= |clients|
  {
    assert t in clients <==> t in Tokens(|clients|);
  }

  /** Token `t` of the fan-out is recorded as failed exactly when it is not the sender and its write fails. */
  lemma UndeliveredStep(clients: map<nat, Peer>, sender: nat, t: nat, failed: seq<nat>)
    requires t in clients && t >= 1
    ensures failed + Undelivered(clients, sender, t) ==
      if t != sender && !WriteSucceeds(clients[t])
      then failed + Undelivered(clients, sender, t - 1) + [t]
      else failed + Undelivered(clients, sender, t - 1)
  {
    var u := Undelivered(clients, sender, t - 1);
    if t != sender && !WriteSucceeds(clients[t]) {
      assert failed + (u + [t]) == failed + u + [t];
    }
  }

  /** After visiting `1..k`, client `t` has been written `msg` exactly when `1 <= t <= k` and it is not the sender. */
  lemma {:induction false} RelayThroughAt(clients: map<nat, Peer>, sender: nat, msg: seq<Byte>, k: nat, t: nat)
    ensures RelayThrough(clients, sender, msg, k).Keys == clients.Keys
    ensures t in clients ==>
      RelayThrough(clients, sender, msg, k)[t] == if t != sender && 1 <= t <= k then Deliver(clients[t], msg) else clients[t]
  {
    if k > 0 {
      RelayThroughAt(clients, sender, msg, k - 1, t);
      var m := RelayThrough(clients, sender, msg, k - 1);
      if t in clients && t != k {
        assert RelayThrough(clients, sender, msg, k)[t] == m[t];
      }
    }
  }

  /** Visiting every token of a valid registry is the fan-out to every client but the sender. */
  lemma RelayThroughAll(clients: map<nat, Peer>, sender: nat, msg: seq<Byte>)
    requires ValidRegistry(clients)
    ensures RelayThrough(clients, sender, msg, |clients|) == Relay(clients, sender, msg)
  {
    var m := RelayThrough(clients, sender, msg, |clients|);
    RelayThroughAt(clients, sender, msg, |clients|, 0);
    forall t | t in clients ensures m[t] == Relay(clients, sender, msg)[t] {
      RegistryHas(clients, t);
      RelayThroughAt(clients, sender, msg, |clients|, t);
    }
  }

  /**
   * The fan-out: after a frame is read from the sender, the sender is sent
   * nothing, every other client whose write succeeds is sent exactly the
   * frame's bytes once more, and a client whose write fails is recorded and
   * does not stop the others. A read error sends nothing to anyone. No
   * event handled for a client adds or removes a client.
   */
  lemma HandleFanOut(st: State, ev: Event)
    requires ValidRegistry(st.clients)
    ensures var (r, st') := HandleSpec(st, ev);
      st'.clients.Keys == st.clients.Keys && st'.accepts == st.accepts
    ensures var (r, st') := HandleSpec(st, ev);
      r.Err? ==> forall t :: t in st.clients ==> st'.clients[t].outbox == st.clients[t].outbox
    ensures var (r, st') := HandleSpec(st, ev);
      r.Ok? ==> ev.token in st.clients && Api.ReadFrameSpec(st.clients[ev.token].inbound).0.Ok?
    ensures var (r, st') := HandleSpec(st, ev);
      r.Ok? ==> forall t :: t in st.clients ==>
        st'.clients[t].outbox ==
          if t == ev.token || !WriteSucceeds(st.clients[t]) then st.clients[t].outbox
          else st.clients[t].outbox + [Api.ReadFrameSpec(st.clients[ev.token].inbound).0.value]
    ensures var (r, st') := HandleSpec(st, ev);
      r.Ok? ==> forall t :: t in st.clients && t != ev.token ==> st'.clients[t].writes == AfterWrite(st.clients[t].writes)
    ensures var (r, st') := HandleSpec(st, ev);
      r.Ok? ==> forall t :: t in st.clients && t != ev.token ==>
        (!WriteSucceeds(st.clients[t]) <==> t in st'.failedWrites[|st.failedWrites|..])
  {
    if ev.readable && ev.token in st.clients {
      var peer := st.clients[ev.token];
      var frame := Api.ReadFrameSpec(peer.inbound);
      var clients := st.clients[ev.token := peer.(inbound := frame.1)];
      if frame.0.Ok? {
        var st' := HandleSpec(st, ev).1;
        assert st'.failedWrites[|st.failedWrites|..] == Undelivered(clients, ev.token, |clients|);
        forall t | t in st.clients && t != ev.token
          ensures !WriteSucceeds(st.clients[t]) <==> t in Undelivered(clients, ev.token, |clients|)
        {
          UndeliveredMembers(clients, ev.token, |clients|, t);
        }
      }
    }
  }

  /** A token is listed as undelivered exactly when it is in range, not the sender, and its next write fails. */
  lemma {:induction false} UndeliveredMembers(clients: map<nat, Peer>, sender: nat, n: nat, t: nat)
    ensures t in Undelivered(clients, sender, n) <==>
      1 <= t <= n && t != sender && t in clients && !WriteSucceeds(clients[t])
  {
    if n > 0 {
      UndeliveredMembers(clients, sender, n - 1, t);
    }
  }

  /** Every event of the loop keeps the registry's tokens `1..len`, and no client is ever removed. */
  lemma StepKeepsRegistry(st: State, ev: Event)
    requires ValidRegistry(st.clients)
    ensures ValidRegistry(StepSpec(st, ev).clients)
    ensures st.clients.Keys <= StepSpec(st, ev).clients.Keys
  {
    if ev.token == SERVER_TOKEN {
      AcceptKeepsRegistry(st);
    } else {
      HandleFanOut(st, ev);
    }
  }

  /**
   * Over a whole batch of events, the registry keeps the tokens `1..len`, no
   * client is removed, and what was sent to a client is only ever extended.
   */
  lemma {:induction false} DispatchKeepsRegistry(st: State, events: seq<Event>)
    requires ValidRegistry(st.clients)
    ensures var st' := DispatchSpec(st, events);
      ValidRegistry(st'.clients) && st.clients.Keys <= st'.clients.Keys
      && forall t :: t in st.clients ==> st.clients[t].outbox <= st'.clients[t].outbox
  {
    if events != [] {
      var mid := DispatchSpec(st, events[..|events| - 1]);
      DispatchKeepsRegistry(st, events[..|events| - 1]);
      var ev := events[|events| - 1];
      StepKeepsRegistry(mid, ev);
      StepExtendsOutboxes(mid, ev);
    }
  }

  lemma StepExtendsOutboxes(st: State, ev: Event)
    requires ValidRegistry(st.clients)
    ensures forall t :: t in st.clients ==> st.clients[t].outbox <= StepSpec(st, ev).clients[t].outbox
  {
    if ev.token == SERVER_TOKEN {
      AcceptKeepsRegistry(st);
    } else {
      HandleFanOut(st, ev);
    }
  }

  // ---------------------------------------------------------------------------
  // relaying a frame without its header

  /**
   * The server relays the bytes `read_frame` returned, which are the frame
   * without its length header, and the receiving clients read them with
   * `read_frame` again. A relayed payload `[5, 0, 0, 0, 1]` (five bytes)
   * is read by the peer as a header announcing five bytes followed by the
   * single byte `1`: the peer gets `[1]`, not the payload.
   */
  lemma RelayedPayloadMisread()
    ensures var payload: seq<Byte> := [5, 0, 0, 0, 1];
      Api.ReadFrameSpec([Data(payload)]).0 == Ok([1])
      && Api.ReadFrameSpec([Data(payload)]).0 != Ok(payload)
  {
    var payload: seq<Byte> := [5, 0, 0, 0, 1];
    var s := [Data(payload)];
    assert s[0] == Data(payload) && s[1..] == [];
    assert payload[..4] == [5, 0, 0, 0] && payload[4..] == [1];
    assert [Data(payload[4..])] + s[1..] == [Data([1])];
    assert Transport.Read(s, 4) == (Got([5, 0, 0, 0]), [Data([1])]);
    assert Transport.ReadExact([Data([1])], 0) == (Ok([]), [Data([1])]);
    var header: seq<Byte> := [5, 0, 0, 0];
    assert header + [] == header;
    assert Transport.ReadExact([Data(payload)], 4) == (Ok([5, 0, 0, 0]), [Data([1])]);
    assert FromLe([5, 0, 0, 0]) == 5;
    var one: seq<Byte> := [1];
    var t := [Data(one)];
    assert t[0] == Data(one) && t[1..] == [];
    assert Transport.Read(t, 5) == (Got(one), []);
    assert Api.ReadBody([], 4) == (Ok([]), []);
    assert one + [] == one;
    assert Api.ReadBody(t, 5) == Api.Prepend(one, Api.ReadBody([], 4));
  }

  /** A relayed payload of fewer than four bytes is not even read as a frame by the peer. */
  lemma RelayedShortPayloadFails(payload: seq<Byte>)
    requires |payload| < Api.HEADER_SIZE
    ensures Api.ReadFrameSpec([Data(payload)]).0.Err?
  {
    assert Flatten([Data(payload)]) == payload;
    Api.ReadFrameShortHeader([Data(payload)]);
  }

  /** What the fan-out evidently means to write: the payload framed again with its length. */
  function RelayedFrame(msg: seq<Byte>): (frame: seq<Byte>)
    requires |msg| < U32_LIMIT
    ensures |frame| == Api.HEADER_SIZE + |msg| && frame[Api.HEADER_SIZE..] == msg
    ensures FromLe(frame[..Api.HEADER_SIZE]) == |msg|
  {
    U32Le(|msg|) + msg
  }

  /**
   * With the header restored, a peer whose stream holds the relayed frame
   * (the header arriving without waiting, the rest in any pieces) reads back
   * exactly the relayed payload and is left at what follows it.
   */
  lemma RelayedFrameReadBack(msg: seq<Byte>, h: seq<ReadEvent>, b: seq<ReadEvent>, tail: seq<Byte>)
    requires |msg| < U32_LIMIT
    requires Ready(h) && Api.HEADER_SIZE <= |Flatten(h)| && Clean(b)
    requires Flatten(h) + Flatten(b) == RelayedFrame(msg) + tail
    ensures Api.ReadFrameSpec(h + b).0 == Ok(msg)
    ensures Clean(Api.ReadFrameSpec(h + b).1) && Flatten(Api.ReadFrameSpec(h + b).1) == tail
  {
    Api.ReadFrameWhole(RelayedFrame(msg), h, b, tail);
  }
}
