/** The pooled client of internal/rcache/valkey.go against a server, as atomic steps: lock sections
    of the pool, one write, one server execution, one complete read, one I/O failure. Any number of
    callers and connections are interleaved arbitrarily. */
module ValkeyPool {
  import opened Decimal
  import opened Options
  import opened Resp
  import opened ValkeyProtocol
  import Runs

  type CallerId = nat

  const POOL_MAX := 8

  // ---------------------------------------------------------------- the whole system

  /** A connection: bytes on their way to the server, bytes not yet read by the client, the server's
      session, and where in the log its latest command was executed. */
  datatype Conn = Conn(requests: string, replies: string, session: Session, deadline: bool, open: bool, served: nat)

  datatype Caller =
    | Dialing(task: Task, since: nat)
    | Active(id: ConnId, todo: seq<Command>, sent: bool, task: Task, since: nat, sentAt: nat)
    | Returning(id: ConnId, healthy: bool)

  /** A finished call: executed as entry `at`, called when the log had `since` entries, returned at `until`. */
  datatype Result = Result(task: Task, outcome: Reply, at: nat, since: nat, until: nat)

  datatype State = State(wire: Wire, store: map<DbKey, string>, log: seq<Entry>, conns: map<ConnId, Conn>,
                         pool: seq<ConnId>, callers: map<CallerId, Caller>, results: seq<Result>)

  ghost function Init(w: Wire): State {
    State(w, map[], [], map[], [], map[], [])
  }

  datatype Event =
    | Begin(caller: CallerId, task: Task)
    | DialOk(caller: CallerId, id: ConnId)
    | DialFail(caller: CallerId)
    | Send(caller: CallerId)
    | Serve(id: ConnId, refusal: Option<string>)
    | Receive(caller: CallerId)
    | Break(caller: CallerId, written: nat, read: nat)
    | Put(caller: CallerId)
    | Expire(at: DbKey)

  /** getConn's lock section: the most recently returned connection, if any. */
  function Take<T>(pool: seq<T>): (seq<T>, Option<T>) {
    if pool == [] then (pool, None) else (pool[..|pool| - 1], Some(pool[|pool| - 1]))
  }

  /** putConn: the new pool, and whether the socket is closed instead. */
  function PutBack<T>(pool: seq<T>, id: T, healthy: bool): (seq<T>, bool) {
    if !healthy || |pool| >= POOL_MAX then (pool, true) else (pool + [id], false)
  }

  function Current(w: Wire, c: Caller): Command
    requires c.Active?
  {
    if c.todo != [] then c.todo[0] else w.commandOf(c.task)
  }

  predicate IsActive(s: State, c: CallerId) {
    c in s.callers && s.callers[c].Active? && s.callers[c].id in s.conns
  }

  predicate Enabled(s: State, e: Event) {
    match e
    case Begin(c, _) => c !in s.callers
    case DialOk(c, id) => c in s.callers && s.callers[c].Dialing? && id !in s.conns
    case DialFail(c) => c in s.callers && s.callers[c].Dialing?
    case Send(c) => IsActive(s, c) && !s.callers[c].sent
    case Serve(id, refusal) =>
      id in s.conns && s.wire.decode(s.conns[id].requests).Got? && (refusal.Some? ==> s.wire.wellFormed(Failure(refusal.value)))
    case Receive(c) =>
      IsActive(s, c) && s.callers[c].sent && !s.wire.parse(s.conns[s.callers[c].id].replies).reply.Broken?
    case Break(c, _, _) => IsActive(s, c)
    case Put(c) => c in s.callers && s.callers[c].Returning? && s.callers[c].id in s.conns
    case Expire(at) => true
  }

  function Min(a: nat, b: nat): nat { if a < b then a else b }

  /** A failed exec: during the handshake getConn closes the socket at once, otherwise putConn will. */
  function Abandon(s: State, c: CallerId, conn: Conn): State
    requires IsActive(s, c)
  {
    var me := s.callers[c];
    if me.todo != []
    then s.(conns := s.conns[me.id := conn.(open := false)], callers := s.callers - {c})
    else s.(conns := s.conns[me.id := conn.(deadline := false)], callers := s.callers[c := Returning(me.id, false)])
  }

  /** The server has read `command`, leaving `rest`, and answers `a`. */
  function Respond(s: State, id: ConnId, command: Command, rest: string, a: Answer): State
    requires id in s.conns
  {
    var conn := s.conns[id];
    s.(store := a.store, log := s.log + [Served(id, conn.session.db, command, a.reply)],
       conns := s.conns[id := conn.(requests := rest, replies := conn.replies + s.wire.encodeReply(a.reply),
                                    session := a.session, served := |s.log|)])
  }

  function StepServe(s: State, id: ConnId, refusal: Option<string>): State
    requires Enabled(s, Serve(id, refusal))
  {
    var conn := s.conns[id];
    var got := s.wire.decode(conn.requests);
    Respond(s, id, got.value, got.rest,
            if refusal.Some? then Answer(s.store, conn.session, Failure(refusal.value))
            else s.wire.execute(s.store, conn.session, got.value))
  }

  function StepReceive(s: State, c: CallerId): State
    requires Enabled(s, Receive(c))
  {
    var me := s.callers[c];
    var conn := s.conns[me.id];
    var p := s.wire.parse(conn.replies);
    if p.reply.ServerError? || p.reply.Malformed? then Abandon(s, c, conn.(replies := p.rest))
    else if me.todo != [] then
      s.(conns := s.conns[me.id := conn.(replies := p.rest)],
         callers := s.callers[c := me.(todo := me.todo[1..], sent := false)])
    else
      s.(conns := s.conns[me.id := conn.(replies := p.rest, deadline := false)],
         callers := s.callers[c := Returning(me.id, true)],
         results := s.results + [Result(me.task, p.reply, conn.served, me.since, |s.log|)])
  }

  function Step(s: State, e: Event): State {
    if !Enabled(s, e) then s else
    match e
    case Begin(c, task) =>
      var (pool, top) := Take(s.pool);
      (match top
       case None => s.(callers := s.callers[c := Dialing(task, |s.log|)])
       case Some(id) =>
         if id !in s.conns then s else
         s.(pool := pool, conns := s.conns[id := s.conns[id].(deadline := true)],
            callers := s.callers[c := Active(id, [], false, task, |s.log|, 0)]))
    case DialOk(c, id) =>
      s.(conns := s.conns[id := Conn("", "", Session(false, 0), true, true, 0)],
         callers := s.callers[c := Active(id, s.wire.handshake, false, s.callers[c].task, s.callers[c].since, 0)])
    case DialFail(c) => s.(callers := s.callers - {c})
    case Send(c) =>
      var me := s.callers[c];
      var conn := s.conns[me.id];
      s.(conns := s.conns[me.id := conn.(requests := conn.requests + s.wire.encode(Current(s.wire, me)))],
         callers := s.callers[c := me.(sent := true, sentAt := |s.log|)])
    case Serve(id, refusal) => StepServe(s, id, refusal)
    case Receive(c) => StepReceive(s, c)
    case Break(c, written, read) =>
      var me := s.callers[c];
      var conn := s.conns[me.id];
      var extra := if me.sent then "" else s.wire.encode(Current(s.wire, me));
      Abandon(s, c, conn.(requests := conn.requests + extra[..Min(written, |extra|)],
                          replies := conn.replies[Min(read, |conn.replies|)..]))
    case Put(c) =>
      var me := s.callers[c];
      var (pool, closed) := PutBack(s.pool, me.id, me.healthy);
      s.(pool := pool, conns := s.conns[me.id := s.conns[me.id].(open := !closed)], callers := s.callers - {c})
    case Expire(at) => s.(store := s.store - {at}, log := s.log + [Expired(at)])
  }

  // ---------------------------------------------------------------- ownership and synchrony

  predicate Holds(s: State, c: CallerId, id: ConnId) {
    c in s.callers && !s.callers[c].Dialing? && s.callers[c].id == id
  }

  /** Ready for the next command: nothing unread, nothing unanswered, logged in, no deadline. */
  ghost predicate Pristine(w: Wire, conn: Conn) {
    conn.open && conn.requests == "" && conn.replies == "" && !conn.deadline && w.loggedIn(conn.session, [])
  }

  /** What the caller has still to send of the handshake. */
  ghost predicate Remaining(w: Wire, todo: seq<Command>) {
    |todo| <= |w.handshake| && todo == w.handshake[|w.handshake| - |todo|..]
  }

  function Rest(todo: seq<Command>): seq<Command> { if todo == [] then [] else todo[1..] }

  /** The reply waiting on a connection whose command has been executed. */
  ghost predicate ReplyOn(w: Wire, log: seq<Entry>, conn: Conn, me: Caller)
    requires me.Active?
  {
    && conn.requests == "" && me.sentAt <= conn.served < |log|
    && log[conn.served].Served? && log[conn.served].command == Current(w, me)
    && (me.todo == [] ==> log[conn.served].db == w.db)
    && w.wellFormed(log[conn.served].reply) && conn.replies == w.encodeReply(log[conn.served].reply)
    && (!log[conn.served].reply.Failure? ==> w.loggedIn(conn.session, Rest(me.todo)))
  }

  /** A connection with the caller's place in its exchange: about to send, sent, or answered. */
  ghost predicate ConnInStep(w: Wire, log: seq<Entry>, conn: Conn, me: Caller)
    requires me.Active?
  {
    && conn.deadline && me.since <= |log| && (me.sent ==> me.since <= me.sentAt <= |log|)
    && Remaining(w, me.todo)
    && if !me.sent then conn.requests == "" && conn.replies == "" && w.loggedIn(conn.session, me.todo)
       else || (conn.requests == w.encode(Current(w, me)) && conn.replies == "" && w.loggedIn(conn.session, me.todo))
            || ReplyOn(w, log, conn, me)
  }

  ghost predicate Answered(s: State, id: ConnId, me: Caller)
    requires me.Active? && id in s.conns
  {
    ReplyOn(s.wire, s.log, s.conns[id], me)
  }

  ghost predicate InStep(s: State, id: ConnId, me: Caller)
    requires me.Active? && id in s.conns
  {
    ConnInStep(s.wire, s.log, s.conns[id], me)
  }

  ghost predicate Ownership(s: State) {
    && |s.pool| <= POOL_MAX
    && (forall i, j :: 0 <= i < j < |s.pool| ==> s.pool[i] != s.pool[j])
    && (forall id :: id in s.pool ==> id in s.conns && Pristine(s.wire, s.conns[id]))
    && (forall c, id :: Holds(s, c, id) ==> id in s.conns && s.conns[id].open && id !in s.pool)
    && (forall c, d, id :: Holds(s, c, id) && Holds(s, d, id) ==> c == d)
    && (forall id :: id in s.conns && s.conns[id].open ==> id in s.pool || exists c :: Holds(s, c, id))
  }

  ghost predicate CallerInStep(s: State, c: CallerId)
    requires c in s.callers
  {
    match s.callers[c]
    case Dialing(_, since) => since <= |s.log|
    case Active(id, _, _, _, _, _) => id in s.conns && InStep(s, id, s.callers[c])
    case Returning(id, healthy) => healthy && id in s.conns ==> Pristine(s.wire, s.conns[id])
  }

  ghost predicate Synchrony(s: State) {
    forall c :: c in s.callers ==> CallerInStep(s, c)
  }

  // ---------------------------------------------------------------- history

  ghost predicate IsAnsweredGet(e: Entry) {
    e.Served? && IsGet(e.command) && !e.reply.Failure?
  }

  ghost predicate History(s: State) {
    && (forall k :: Lookup(s.store, k) == LastValue(s.log, k))
    && Storable(s.store)
    && (forall i :: 0 <= i < |s.log| && IsAnsweredGet(s.log[i]) ==>
          s.log[i].reply == GetReply(LastValue(s.log[..i], (s.log[i].db, s.log[i].command[1]))))
  }

  /** A recorded result is the meaning of the server's reply to this very command, executed during the call. */
  ghost predicate Faithful(s: State, r: Result) {
    && r.since <= r.at < r.until <= |s.log|
    && s.log[r.at].Served? && s.log[r.at].db == s.wire.db && s.log[r.at].command == s.wire.commandOf(r.task)
    && !s.log[r.at].reply.Failure? && r.outcome == Meaning(s.log[r.at].reply)
  }

  ghost predicate Inv(s: State) {
    Ownership(s) && Synchrony(s) && History(s) && forall i :: 0 <= i < |s.results| ==> Faithful(s, s.results[i])
  }

  // ---------------------------------------------------------------- every step keeps the invariant

  lemma HistoryAppend(s: State, t: State, e: Entry)
    requires History(s) && t.log == s.log + [e]
    requires Storable(t.store)
    requires forall k :: Lookup(t.store, k) == Effect(e, k, Lookup(s.store, k))
    requires IsAnsweredGet(e) ==> e.reply == GetReply(Lookup(s.store, (e.db, e.command[1])))
    ensures History(t)
  {
    assert t.log[..|s.log|] == s.log;
    forall k ensures Lookup(t.store, k) == LastValue(t.log, k) {
      assert Lookup(s.store, k) == LastValue(s.log, k);
    }
    forall i | 0 <= i < |t.log| && IsAnsweredGet(t.log[i])
      ensures t.log[i].reply == GetReply(LastValue(t.log[..i], (t.log[i].db, t.log[i].command[1])))
    {
      if i < |s.log| {
        assert t.log[..i] == s.log[..i] && t.log[i] == s.log[i];
      } else {
        assert Lookup(s.store, (e.db, e.command[1])) == LastValue(s.log, (e.db, e.command[1]));
      }
    }
  }

  lemma StepKeepsHistory(s: State, e: Event)
    requires Executes(s.wire) && History(s) && Enabled(s, e)
    ensures History(Step(s, e))
  {
    var t := Step(s, e);
    match e
    case Serve(id, refusal) =>
      var c := s.wire.decode(s.conns[id].requests).value;
      var a := s.wire.execute(s.store, s.conns[id].session, c);
      assert Honest(s.store, s.conns[id].session, c, a, s.wire.wellFormed(a.reply));
      HistoryAppend(s, t, t.log[|s.log|]);
    case Expire(at) =>
      HistoryAppend(s, t, Expired(at));
    case _ =>
      assert t.log == s.log && t.store == s.store;
  }

  lemma ResultsStable(s: State, t: State)
    requires s.wire == t.wire && s.log <= t.log
    requires forall i :: 0 <= i < |s.results| ==> Faithful(s, s.results[i])
    ensures forall i :: 0 <= i < |s.results| ==> Faithful(t, s.results[i])
  {
  }

  lemma ReceiveKeepsResults(s: State, c: CallerId)
    requires Framed(s.wire) && Inv(s) && Enabled(s, Receive(c))
    ensures var t := StepReceive(s, c); forall i :: 0 <= i < |t.results| ==> Faithful(t, t.results[i])
  {
    ReplyWaiting(s, c);
    ResultsStable(s, StepReceive(s, c));
  }

  lemma StepKeepsResults(s: State, e: Event)
    requires Framed(s.wire) && Inv(s) && Enabled(s, e)
    ensures forall i :: 0 <= i < |Step(s, e).results| ==> Faithful(Step(s, e), Step(s, e).results[i])
  {
    if e.Receive? {
      ReceiveKeepsResults(s, e.caller);
    } else {
      assert Step(s, e).results == s.results;
      ResultsStable(s, Step(s, e));
    }
  }

  /** When a caller finds a complete reply, it is the reply to its own command and nothing follows it. */
  lemma ReplyWaiting(s: State, c: CallerId)
    requires Framed(s.wire) && Inv(s) && Enabled(s, Receive(c))
    ensures Answered(s, s.callers[c].id, s.callers[c])
    ensures var conn := s.conns[s.callers[c].id];
      s.wire.parse(conn.replies) == Parsed(Meaning(s.log[conn.served].reply), "")
  {
    assert CallerInStep(s, c);
  }

  /** A connection nobody touched stays in step however the log grows. */
  lemma InStepStable(s: State, t: State, id: ConnId, me: Caller)
    requires me.Active? && id in s.conns && id in t.conns && InStep(s, id, me)
    requires s.wire == t.wire && s.conns[id] == t.conns[id] && s.log <= t.log
    ensures InStep(t, id, me)
  {
    if me.sent && Answered(s, id, me) {
      assert t.log[s.conns[id].served] == s.log[s.conns[id].served];
    }
  }

  lemma OwnershipUnmoved(s: State, t: State)
    requires Ownership(s) && t.pool == s.pool && t.wire == s.wire && t.conns.Keys == s.conns.Keys
    requires forall d, x :: Holds(t, d, x) <==> Holds(s, d, x)
    requires forall x :: x in s.conns ==> t.conns[x].open == s.conns[x].open
    requires forall x :: x in s.pool ==> t.conns[x] == s.conns[x]
    ensures Ownership(t)
  {
  }

  lemma BeginKeepsOwnership(s: State, c: CallerId, task: Task)
    requires Ownership(s) && Enabled(s, Begin(c, task)) && s.pool != []
    ensures Ownership(Step(s, Begin(c, task)))
  {
    var t := Step(s, Begin(c, task));
    var id := s.pool[|s.pool| - 1];
    assert id in s.pool && Holds(t, c, id);
    assert forall x :: x in s.pool <==> x in t.pool || x == id;
    assert id !in t.pool;
    assert forall d, x :: d != c ==> (Holds(t, d, x) <==> Holds(s, d, x));
  }

  lemma DialKeepsOwnership(s: State, c: CallerId, id: ConnId)
    requires Ownership(s) && Enabled(s, DialOk(c, id))
    ensures Ownership(Step(s, DialOk(c, id)))
  {
    var t := Step(s, DialOk(c, id));
    assert Holds(t, c, id);
    assert forall d, x :: d != c ==> (Holds(t, d, x) <==> Holds(s, d, x));
  }

  lemma PutKeepsOwnership(s: State, c: CallerId)
    requires Ownership(s) && Synchrony(s) && Enabled(s, Put(c))
    ensures Ownership(Step(s, Put(c)))
  {
    var t := Step(s, Put(c));
    var id := s.callers[c].id;
    assert Holds(s, c, id);
    assert forall d, x :: Holds(t, d, x) <==> Holds(s, d, x) && d != c;
    if t.conns[id].open {
      assert t.pool == s.pool + [id] && t.pool[|s.pool|] == id;
      assert forall x :: x in t.pool <==> x in s.pool || x == id;
      assert t.conns[id] == s.conns[id];
    }
  }

  lemma ServeKeepsOwnership(s: State, id: ConnId, refusal: Option<string>)
    requires Framed(s.wire) && Ownership(s) && Enabled(s, Serve(id, refusal))
    ensures Ownership(StepServe(s, id, refusal))
  {
    OwnershipUnmoved(s, StepServe(s, id, refusal));
  }

  lemma SendKeepsOwnership(s: State, c: CallerId)
    requires Ownership(s) && Enabled(s, Send(c))
    ensures Ownership(Step(s, Send(c)))
  {
    assert Holds(s, c, s.callers[c].id);
    OwnershipUnmoved(s, Step(s, Send(c)));
  }

  lemma ReceiveKeepsOwnership(s: State, c: CallerId)
    requires Ownership(s) && Enabled(s, Receive(c))
    ensures Ownership(StepReceive(s, c))
  {
    assert Holds(s, c, s.callers[c].id);
    OwnershipAfterExec(s, c, StepReceive(s, c));
  }

  lemma BreakKeepsOwnership(s: State, c: CallerId, written: nat, read: nat)
    requires Ownership(s) && Enabled(s, Break(c, written, read))
    ensures Ownership(Step(s, Break(c, written, read)))
  {
    assert Holds(s, c, s.callers[c].id);
    OwnershipAfterExec(s, c, Step(s, Break(c, written, read)));
  }

  lemma StepKeepsOwnership(s: State, e: Event)
    requires Framed(s.wire) && Ownership(s) && Synchrony(s) && Enabled(s, e)
    ensures Ownership(Step(s, e))
  {
    match e
    case Begin(c, task) =>
      if s.pool != [] { BeginKeepsOwnership(s, c, task); } else { OwnershipUnmoved(s, Step(s, e)); }
    case DialOk(c, id) => DialKeepsOwnership(s, c, id);
    case Receive(c) => ReceiveKeepsOwnership(s, c);
    case Break(c, written, read) => BreakKeepsOwnership(s, c, written, read);
    case Put(c) => PutKeepsOwnership(s, c);
    case Serve(id, refusal) => ServeKeepsOwnership(s, id, refusal);
    case Send(c) => SendKeepsOwnership(s, c);
    case DialFail(c) => OwnershipUnmoved(s, Step(s, e));
    case Expire(at) => OwnershipUnmoved(s, Step(s, e));
  }

  lemma OwnershipAfterExec(s: State, c: CallerId, t: State)
    requires Ownership(s) && IsActive(s, c) && t.wire == s.wire && t.pool == s.pool
    requires var id := s.callers[c].id;
      && t.conns.Keys == s.conns.Keys && (forall x :: x in s.conns && x != id ==> t.conns[x] == s.conns[x])
      && if c in t.callers
         then t.callers == s.callers[c := t.callers[c]] && !t.callers[c].Dialing? && t.callers[c].id == id && t.conns[id].open
         else t.callers == s.callers - {c} && !t.conns[id].open
    ensures Ownership(t)
  {
    var id := s.callers[c].id;
    assert Holds(s, c, id);
    assert forall d, x :: d != c ==> (Holds(t, d, x) <==> Holds(s, d, x));
    assert forall x :: Holds(t, c, x) ==> Holds(s, c, x);
    assert c in t.callers ==> Holds(t, c, id);
  }

  /** Callers whose connection a step does not touch stay in step. */
  lemma OthersInStep(s: State, t: State, d: CallerId)
    requires d in s.callers && d in t.callers && s.callers[d] == t.callers[d] && CallerInStep(s, d)
    requires s.wire == t.wire && s.log <= t.log
    requires !s.callers[d].Dialing? ==>
      var id := s.callers[d].id; id in s.conns && id in t.conns && s.conns[id] == t.conns[id]
    ensures CallerInStep(t, d)
  {
    if s.callers[d].Active? {
      InStepStable(s, t, s.callers[d].id, s.callers[d]);
    }
  }

  lemma SessionAfter(w: Wire, store: map<DbKey, string>, session: Session, me: Caller)
    requires LogsIn(w) && me.Active? && Remaining(w, me.todo) && w.loggedIn(session, me.todo)
    requires !w.execute(store, session, Current(w, me)).reply.Failure?
    ensures w.loggedIn(w.execute(store, session, Current(w, me)).session, Rest(me.todo))
  {
    if me.todo != [] {
      var k := |w.handshake| - |me.todo|;
      assert me.todo[0] == w.handshake[k] && me.todo[1..] == w.handshake[k + 1..];
    }
  }

  /** The only request a server can find on a connection in use is its holder's current command. */
  lemma PendingRequest(s: State, id: ConnId, d: CallerId)
    requires Framed(s.wire) && Synchrony(s) && Holds(s, d, id) && Enabled(s, Serve(id, None)) && s.callers[d].Active?
    ensures var me := s.callers[d]; var conn := s.conns[id];
      && InStep(s, id, me) && me.sent && s.wire.decode(conn.requests) == Got(Current(s.wire, me), "") && conn.replies == ""
      && s.wire.loggedIn(conn.session, me.todo)
  {
    assert CallerInStep(s, d);
  }

  lemma ServedInStep(s: State, id: ConnId, refusal: Option<string>, d: CallerId)
    requires Lawful(s.wire) && Synchrony(s) && History(s) && Enabled(s, Serve(id, refusal))
    requires Holds(s, d, id) && s.callers[d].Active?
    ensures CallerInStep(StepServe(s, id, refusal), d)
  {
    var me := s.callers[d];
    var session := s.conns[id].session;
    PendingRequest(s, id, d);
    var a := s.wire.execute(s.store, session, Current(s.wire, me));
    assert Honest(s.store, session, Current(s.wire, me), a, s.wire.wellFormed(a.reply));
    if refusal.None? && !a.reply.Failure? { SessionAfter(s.wire, s.store, session, me); }
    AnsweredAfterServe(s, id, if refusal.Some? then Answer(s.store, session, Failure(refusal.value)) else a, d);
  }

  lemma AnsweredAfterServe(s: State, id: ConnId, a: Answer, d: CallerId)
    requires LogsIn(s.wire) && Holds(s, d, id) && s.callers[d].Active? && id in s.conns && InStep(s, id, s.callers[d])
    requires var me := s.callers[d];
      && me.sent && s.conns[id].replies == "" && s.wire.wellFormed(a.reply) && s.wire.loggedIn(s.conns[id].session, me.todo)
      && (!a.reply.Failure? ==> s.wire.loggedIn(a.session, Rest(me.todo)))
    ensures CallerInStep(Respond(s, id, Current(s.wire, s.callers[d]), "", a), d)
  {
    var t := Respond(s, id, Current(s.wire, s.callers[d]), "", a);
    assert t.conns[id].replies == s.wire.encodeReply(a.reply);
    assert Answered(t, id, s.callers[d]);
  }

  lemma ServeKeepsSynchrony(s: State, id: ConnId, refusal: Option<string>)
    requires Lawful(s.wire) && Ownership(s) && Synchrony(s) && History(s) && Enabled(s, Serve(id, refusal))
    ensures Synchrony(StepServe(s, id, refusal))
  {
    var t := StepServe(s, id, refusal);
    forall d | d in t.callers ensures CallerInStep(t, d) {
      assert !s.callers[d].Dialing? ==> Holds(s, d, s.callers[d].id);
      if !Holds(s, d, id) {
        OthersInStep(s, t, d);
      } else if s.callers[d].Active? {
        ServedInStep(s, id, refusal, d);
      } else {
        assert CallerInStep(s, d);
      }
    }
  }

  lemma BeginKeepsSynchrony(s: State, c: CallerId, task: Task)
    requires Ownership(s) && Synchrony(s) && Enabled(s, Begin(c, task))
    ensures Synchrony(Step(s, Begin(c, task)))
  {
    var t := Step(s, Begin(c, task));
    forall d | d in t.callers ensures CallerInStep(t, d) {
      if d != c {
        assert !s.callers[d].Dialing? ==> Holds(s, d, s.callers[d].id);
        OthersInStep(s, t, d);
      } else if s.pool != [] {
        assert s.wire.handshake[|s.wire.handshake|..] == [];
        assert s.pool[|s.pool| - 1] in s.pool;
      }
    }
  }

  lemma DialKeepsSynchrony(s: State, c: CallerId, id: ConnId)
    requires LogsIn(s.wire) && Ownership(s) && Synchrony(s) && Enabled(s, DialOk(c, id))
    ensures Synchrony(Step(s, DialOk(c, id)))
  {
    var t := Step(s, DialOk(c, id));
    forall d | d in t.callers ensures CallerInStep(t, d) {
      if d != c {
        assert !s.callers[d].Dialing? ==> Holds(s, d, s.callers[d].id);
        OthersInStep(s, t, d);
      } else {
        assert CallerInStep(s, c);
        assert s.wire.handshake[0..] == s.wire.handshake;
      }
    }
  }

  lemma SendKeepsSynchrony(s: State, c: CallerId)
    requires Ownership(s) && Synchrony(s) && Enabled(s, Send(c))
    ensures Synchrony(Step(s, Send(c)))
  {
    var t := Step(s, Send(c));
    assert Holds(s, c, s.callers[c].id);
    forall d | d in t.callers ensures CallerInStep(t, d) {
      if d != c {
        assert !s.callers[d].Dialing? ==> Holds(s, d, s.callers[d].id);
        OthersInStep(s, t, d);
      } else {
        assert CallerInStep(s, c);
      }
    }
  }

  /** The reply to a handshake command is in: on to the next command. */
  lemma HandshakeReplyInStep(w: Wire, log: seq<Entry>, conn: Conn, me: Caller)
    requires me.Active? && me.todo != [] && ConnInStep(w, log, conn, me) && ReplyOn(w, log, conn, me)
    requires !log[conn.served].reply.Failure?
    ensures ConnInStep(w, log, conn.(replies := ""), me.(todo := me.todo[1..], sent := false))
  {
  }

  /** The reply to the caller's own command is in: the connection is as good as new. */
  lemma FinalReplyInStep(w: Wire, log: seq<Entry>, conn: Conn, me: Caller)
    requires me.Active? && me.todo == [] && conn.open && ReplyOn(w, log, conn, me)
    requires !log[conn.served].reply.Failure?
    ensures Pristine(w, conn.(replies := "", deadline := false))
  {
  }

  lemma ReceiverInStep(s: State, c: CallerId)
    requires Framed(s.wire) && Inv(s) && Enabled(s, Receive(c))
    ensures c in StepReceive(s, c).callers ==> CallerInStep(StepReceive(s, c), c)
  {
    ReplyWaiting(s, c);
    var me := s.callers[c];
    var conn := s.conns[me.id];
    assert Holds(s, c, me.id) && CallerInStep(s, c);
    if !s.log[conn.served].reply.Failure? {
      if me.todo != [] {
        HandshakeReplyInStep(s.wire, s.log, conn, me);
      } else {
        FinalReplyInStep(s.wire, s.log, conn, me);
      }
    }
  }

  /** A receiving caller changes nothing but itself and its connection. */
  lemma ReceiveLeavesOthers(s: State, c: CallerId, d: CallerId)
    requires Ownership(s) && Synchrony(s) && Enabled(s, Receive(c)) && d in s.callers && d != c
    ensures d in StepReceive(s, c).callers && CallerInStep(StepReceive(s, c), d)
  {
    assert Holds(s, c, s.callers[c].id);
    assert !s.callers[d].Dialing? ==> Holds(s, d, s.callers[d].id);
    assert CallerInStep(s, d);
    OthersInStep(s, StepReceive(s, c), d);
  }

  lemma ReceiveKeepsSynchrony(s: State, c: CallerId)
    requires Framed(s.wire) && Inv(s) && Enabled(s, Receive(c))
    ensures Synchrony(StepReceive(s, c))
  {
    forall d | d in StepReceive(s, c).callers ensures CallerInStep(StepReceive(s, c), d) {
      if d == c { ReceiverInStep(s, c); } else { ReceiveLeavesOthers(s, c, d); }
    }
  }

  lemma LeavingKeepsSynchrony(s: State, e: Event)
    requires Ownership(s) && Synchrony(s) && Enabled(s, e) && (e.Break? || e.Put?)
    ensures Synchrony(Step(s, e))
  {
    var t := Step(s, e);
    assert Holds(s, e.caller, s.callers[e.caller].id);
    forall d | d in t.callers ensures CallerInStep(t, d) {
      assert !s.callers[d].Dialing? ==> Holds(s, d, s.callers[d].id);
      if d != e.caller { OthersInStep(s, t, d); }
    }
  }

  lemma BystandersKeepSynchrony(s: State, e: Event)
    requires Ownership(s) && Synchrony(s) && Enabled(s, e) && (e.DialFail? || e.Expire?)
    ensures Synchrony(Step(s, e))
  {
    var t := Step(s, e);
    forall d | d in t.callers ensures CallerInStep(t, d) {
      assert !s.callers[d].Dialing? ==> Holds(s, d, s.callers[d].id);
      OthersInStep(s, t, d);
    }
  }

  /** Every step of every caller, connection and server keeps the whole invariant. */
  lemma StepKeepsInv(s: State, e: Event)
    requires Lawful(s.wire) && Inv(s) && Enabled(s, e)
    ensures Inv(Step(s, e)) && Step(s, e).wire == s.wire
  {
    StepKeepsHistory(s, e);
    StepKeepsResults(s, e);
    StepKeepsOwnership(s, e);
    match e
    case Begin(c, task) => BeginKeepsSynchrony(s, c, task);
    case DialOk(c, id) => DialKeepsSynchrony(s, c, id);
    case Send(c) => SendKeepsSynchrony(s, c);
    case Serve(id, refusal) => ServeKeepsSynchrony(s, id, refusal);
    case Receive(c) => ReceiveKeepsSynchrony(s, c);
    case Break(_, _, _) => LeavingKeepsSynchrony(s, e);
    case Put(_) => LeavingKeepsSynchrony(s, e);
    case _ => BystandersKeepSynchrony(s, e);
  }

  // ---------------------------------------------------------------- all runs

  ghost predicate Safe(w: Wire, s: State) { Inv(s) && s.wire == w }

  ghost predicate Reachable(cfg: Config, es: seq<Event>, s: State) {
    ValidConfig(cfg) && Runs.Legal(Enabled, Step, Init(WireOf(cfg)), es) && s == Runs.After(Step, Init(WireOf(cfg)), es)
  }

  lemma RunIsSafe(w: Wire, es: seq<Event>)
    requires Lawful(w) && Runs.Legal(Enabled, Step, Init(w), es)
    ensures Safe(w, Runs.After(Step, Init(w), es))
  {
    var safe := (s: State) => Safe(w, s);
    forall s, e | safe(s) && Enabled(s, e) ensures safe(Step(s, e)) {
      StepKeepsInv(s, e);
    }
    Runs.Keeps(safe, Enabled, Step, Init(w), es);
  }

  lemma ReachableIsSafe(cfg: Config, es: seq<Event>, s: State)
    requires Reachable(cfg, es, s)
    ensures Safe(WireOf(cfg), s) && Lawful(WireOf(cfg))
  {
    WireIsLawful(cfg);
    RunIsSafe(WireOf(cfg), es);
  }

  /** Who has a connection: the pool, the one caller holding it, or nobody because it is closed. */
  ghost predicate InPool(s: State, id: ConnId) { id in s.pool }

  ghost predicate Held(s: State, id: ConnId) { exists c :: Holds(s, c, id) }

  ghost predicate ClosedConn(s: State, id: ConnId) { id in s.conns && !s.conns[id].open }

  /** Open, no byte underway either way, no deadline, authenticated if a password is set, on the right database. */
  ghost predicate Reusable(cfg: Config, conn: Conn) {
    && conn.open && conn.requests == "" && conn.replies == "" && !conn.deadline
    && (cfg.password != "" ==> conn.session.authed) && conn.session.db == cfg.db
  }

  /** In every reachable state the pool has no duplicates and at most eight entries, every opened
      connection is in exactly one of pool, held by exactly one caller, or closed, and a pooled one is
      authenticated, on the right database, without deadline and without stray bytes either way. */
  lemma PoolDiscipline(cfg: Config, es: seq<Event>, s: State)
    requires Reachable(cfg, es, s)
    ensures |s.pool| <= POOL_MAX && forall i, j :: 0 <= i < j < |s.pool| ==> s.pool[i] != s.pool[j]
    ensures forall id :: id in s.conns ==>
      && (InPool(s, id) || Held(s, id) || ClosedConn(s, id))
      && !(InPool(s, id) && Held(s, id)) && !(InPool(s, id) && ClosedConn(s, id)) && !(Held(s, id) && ClosedConn(s, id))
    ensures forall id, c, d :: Holds(s, c, id) && Holds(s, d, id) ==> c == d
    ensures forall id :: InPool(s, id) ==> id in s.conns && Reusable(cfg, s.conns[id])
  {
    ReachableIsSafe(cfg, es, s);
    forall id | InPool(s, id) ensures id in s.conns && Reusable(cfg, s.conns[id]) {
      assert Pristine(WireOf(cfg), s.conns[id]);
    }
  }

  /** A connection that comes back healthy is pooled while fewer than eight are, any other is closed; a caller gets a
      pooled connection whenever there is one, the one that came back last. */
  lemma PoolIsUsed(cfg: Config, es: seq<Event>, s: State, c: CallerId, task: Task)
    requires Reachable(cfg, es, s)
    ensures Enabled(s, Put(c)) ==>
      var id := s.callers[c].id; var t := Step(s, Put(c));
      if s.callers[c].healthy && |s.pool| < 8 then t.pool == s.pool + [id] && t.conns[id].open
      else t.pool == s.pool && !t.conns[id].open
    ensures Enabled(s, Begin(c, task)) && s.pool != [] ==>
      var t := Step(s, Begin(c, task));
      c in t.callers && t.callers[c].Active? && s.pool == t.pool + [t.callers[c].id]
  {
    PoolDiscipline(cfg, es, s);
    if s.pool != [] { assert InPool(s, s.pool[|s.pool| - 1]); }
  }

  /** How a call ends: a reply that is no error gives its result and a healthy connection; an error or a broken
      connection gives none, closes a connection that is not through its handshake, and makes any other unhealthy. */
  lemma CallsEnd(s: State, c: CallerId, written: nat, read: nat)
    requires IsActive(s, c)
    ensures Enabled(s, Receive(c)) ==>
      var me := s.callers[c]; var reply := s.wire.parse(s.conns[me.id].replies).reply; var t := Step(s, Receive(c));
      if reply.ServerError? || reply.Malformed? then t.results == s.results && GivenUp(s, t, c)
      else if me.todo != [] then t.results == s.results && c in t.callers && t.callers[c].Active?
      else |t.results| == |s.results| + 1 && c in t.callers && t.callers[c] == Returning(me.id, true) && !t.conns[me.id].deadline
    ensures GivenUp(s, Step(s, Break(c, written, read)), c)
  {
  }

  ghost predicate GivenUp(s: State, t: State, c: CallerId)
    requires IsActive(s, c)
  {
    var me := s.callers[c];
    me.id in t.conns && if me.todo != [] then c !in t.callers && !t.conns[me.id].open
                        else c in t.callers && t.callers[c] == Returning(me.id, false) && !t.conns[me.id].deadline
  }

  // ---------------------------------------------------------------- calls can succeed

  /** From `s` some run gets call `n` of the results done, for this task. */
  ghost predicate CanSucceed(s: State, n: nat, task: Task) {
    exists es :: Runs.Legal(Enabled, Step, s, es) && var t := Runs.After(Step, s, es); n < |t.results| && t.results[n].task == task
  }

  lemma CanGoOn(s: State, e: Event, n: nat, task: Task)
    requires Enabled(s, e) && CanSucceed(Step(s, e), n, task)
    ensures CanSucceed(s, n, task)
  {
    var t := Step(s, e);
    var es :| Runs.Legal(Enabled, Step, t, es) && n < |Runs.After(Step, t, es).results| && Runs.After(Step, t, es).results[n].task == task;
    assert ([e] + es)[1..] == es;
    assert Runs.Legal(Enabled, Step, s, [e] + es);
    assert Runs.After(Step, s, [e] + es) == Runs.After(Step, t, es);
  }

  /** A caller about to send a command that will not be refused: it is sent, executed and answered. */
  lemma Exchange(s: State, c: CallerId) returns (t: State)
    requires Lawful(s.wire) && Inv(s) && IsActive(s, c) && !s.callers[c].sent
    requires var me := s.callers[c];
      !s.wire.execute(s.store, s.conns[me.id].session, Current(s.wire, me)).reply.Failure?
    ensures var me := s.callers[c];
      && Enabled(s, Send(c)) && Enabled(Step(s, Send(c)), Serve(me.id, None))
      && Enabled(Step(Step(s, Send(c)), Serve(me.id, None)), Receive(c))
      && t == Step(Step(Step(s, Send(c)), Serve(me.id, None)), Receive(c))
    ensures Inv(t) && t.wire == s.wire
    ensures var me := s.callers[c];
      if me.todo != [] then
        t.results == s.results && IsActive(t, c) && !t.callers[c].sent && t.callers[c].todo == me.todo[1..] && t.callers[c].task == me.task
      else |t.results| == |s.results| + 1 && t.results[|s.results|].task == me.task
  {
    var served := Executed(s, c);
    var me := s.callers[c];
    var reply := s.wire.execute(s.store, s.conns[me.id].session, Current(s.wire, me)).reply;
    Understood(s.wire, reply);
    t := Step(served, Receive(c));
    StepKeepsInv(served, Receive(c));
  }

  lemma Understood(w: Wire, reply: ServerReply)
    requires Framed(w) && w.wellFormed(reply) && !reply.Failure?
    ensures var p := w.parse(w.encodeReply(reply));
      p.rest == "" && !p.reply.Broken? && !p.reply.ServerError? && !p.reply.Malformed?
  {
  }

  /** Its command is sent and executed; the reply is waiting. */
  lemma Executed(s: State, c: CallerId) returns (served: State)
    requires Lawful(s.wire) && Inv(s) && IsActive(s, c) && !s.callers[c].sent
    ensures var me := s.callers[c];
      && Enabled(s, Send(c)) && Enabled(Step(s, Send(c)), Serve(me.id, None))
      && served == Step(Step(s, Send(c)), Serve(me.id, None))
    ensures Inv(served) && served.wire == s.wire && served.results == s.results && IsActive(served, c)
    ensures served.callers[c] == s.callers[c].(sent := true, sentAt := |s.log|)
    ensures var me := s.callers[c]; var reply := s.wire.execute(s.store, s.conns[me.id].session, Current(s.wire, me)).reply;
      s.wire.wellFormed(reply) && served.conns[me.id].replies == s.wire.encodeReply(reply)
  {
    var me := s.callers[c];
    assert CallerInStep(s, c);
    var sent := Step(s, Send(c));
    StepKeepsInv(s, Send(c));
    assert sent.conns[me.id].requests == s.wire.encode(Current(s.wire, me));
    served := Step(sent, Serve(me.id, None));
    StepKeepsInv(sent, Serve(me.id, None));
    assert Honest(s.store, s.conns[me.id].session, Current(s.wire, me),
                  s.wire.execute(s.store, s.conns[me.id].session, Current(s.wire, me)),
                  s.wire.wellFormed(s.wire.execute(s.store, s.conns[me.id].session, Current(s.wire, me)).reply));
  }

  lemma {:induction false} ActiveCanSucceed(s: State, c: CallerId)
    requires Lawful(s.wire) && Inv(s) && IsActive(s, c) && !s.callers[c].sent && Welcomes(s.wire, s.callers[c].task)
    ensures CanSucceed(s, |s.results|, s.callers[c].task)
    decreases |s.callers[c].todo|
  {
    var me, n := s.callers[c], |s.results|;
    assert CallerInStep(s, c);
    NotRefused(s, c);
    var t := Exchange(s, c);
    if me.todo != [] {
      ActiveCanSucceed(t, c);
    } else {
      assert Runs.Legal(Enabled, Step, t, []) && Runs.After(Step, t, []) == t;
    }
    CanGoOn(Step(Step(s, Send(c)), Serve(me.id, None)), Receive(c), n, me.task);
    CanGoOn(Step(s, Send(c)), Serve(me.id, None), n, me.task);
    CanGoOn(s, Send(c), n, me.task);
  }

  lemma NotRefused(s: State, c: CallerId)
    requires Inv(s) && IsActive(s, c) && !s.callers[c].sent && Welcomes(s.wire, s.callers[c].task)
    ensures var me := s.callers[c];
      !s.wire.execute(s.store, s.conns[me.id].session, Current(s.wire, me)).reply.Failure?
  {
    var me := s.callers[c];
    assert CallerInStep(s, c) && Remaining(s.wire, me.todo);
    if me.todo != [] {
      var k := |s.wire.handshake| - |me.todo|;
      assert me.todo == s.wire.handshake[k..] && me.todo[0] == s.wire.handshake[k];
    }
  }

  lemma FreshId(s: State) returns (id: ConnId)
    ensures id !in s.conns
  {
    id := FreshAbove(s.conns.Keys);
  }

  lemma FreshAbove(ids: set<nat>) returns (id: nat)
    ensures forall x :: x in ids ==> x < id
    decreases ids
  {
    if ids == {} { return 0; }
    var x :| x in ids;
    id := FreshAbove(ids - {x});
    assert forall y :: y in ids ==> y == x || y in ids - {x};
    if id <= x { id := x + 1; }
  }

  /** Whatever has happened before, who is calling and what has failed, a new call can succeed, on a pooled connection
      if there is one and on a fresh one otherwise, with a server that takes the password. What it then returns,
      GetReturnsLastSet says. */
  lemma CallsCanSucceed(cfg: Config, es: seq<Event>, s: State, c: CallerId, task: Task)
    requires Reachable(cfg, es, s) && c !in s.callers && Admitted(cfg) && Fits(task)
    ensures CanSucceed(s, |s.results|, task)
  {
    ReachableIsSafe(cfg, es, s);
    WireWelcomes(cfg, task);
    var n := |s.results|;
    var t := Step(s, Begin(c, task));
    StepKeepsInv(s, Begin(c, task));
    if s.pool != [] {
      assert s.pool[|s.pool| - 1] in s.pool;
      ActiveCanSucceed(t, c);
    } else {
      var id := FreshId(t);
      StepKeepsInv(t, DialOk(c, id));
      ActiveCanSucceed(Step(t, DialOk(c, id)), c);
      CanGoOn(t, DialOk(c, id), n, task);
    }
    CanGoOn(s, Begin(c, task), n, task);
  }

  /** The command a caller is waiting to hear about. */
  function CommandToSend(me: Caller): Command
    requires me.Active?
  {
    if me.todo != [] then me.todo[0] else CommandOf(me.task)
  }

  /** A caller never reads another command's reply, and reading its own leaves the stream empty. */
  lemma EachReplyIsOwn(cfg: Config, es: seq<Event>, s: State, c: CallerId)
    requires Reachable(cfg, es, s) && Enabled(s, Receive(c))
    ensures var me := s.callers[c]; var conn := s.conns[me.id];
      && conn.served < |s.log| && s.log[conn.served].Served? && s.log[conn.served].command == CommandToSend(me)
      && me.sentAt <= conn.served
      && ParseReply(conn.replies) == Parsed(Meaning(s.log[conn.served].reply), "")
  {
    ReachableIsSafe(cfg, es, s);
    ReplyWaiting(s, c);
  }

  /** Get reports exactly what the last SET before its own execution stored and nil when there is none:
      a linearizable register per key, each call taking effect between its start and its return. */
  lemma GetReturnsLastSet(cfg: Config, es: seq<Event>, s: State, i: nat)
    requires Reachable(cfg, es, s) && i < |s.results| && s.results[i].task.Fetch?
    ensures var r := s.results[i];
      && r.since <= r.at < r.until <= |s.log|
      && r.outcome == match LastValue(s.log[..r.at], (cfg.db, r.task.key))
                      case Some(v) => Text(v)
                      case None => Nil
  {
    ReachableIsSafe(cfg, es, s);
    var r := s.results[i];
    assert Faithful(s, r);
    assert IsAnsweredGet(s.log[r.at]);
  }

  ghost predicate Writes(e: Entry, k: DbKey, v: string) {
    e.Served? && IsSet(e.command) && (e.db, e.command[1]) == k && !e.reply.Failure? && e.command[2] == v
  }

  /** An entry that neither stores nor drops `k`. */
  ghost predicate LeavesAlone(e: Entry, k: DbKey) {
    match e
    case Expired(at) => at != k
    case Served(_, db, c, reply) => !(IsSet(c) && (db, c[1]) == k && !reply.Failure?)
  }

  /** LastValue is what its name says: some entry stored it and nothing later touched the key. */
  lemma {:induction false} LastValueMeaning(log: seq<Entry>, k: DbKey, v: string)
    ensures LastValue(log, k) == Some(v) <==>
      exists i :: 0 <= i < |log| && Writes(log[i], k, v) && forall j :: i < j < |log| ==> LeavesAlone(log[j], k)
    decreases |log|
  {
    if log != [] {
      var n := |log| - 1;
      var init := log[..n];
      LastValueMeaning(init, k, v);
      if Writes(log[n], k, v) {
        assert Writes(log[|log| - 1], k, v);
      } else if LeavesAlone(log[n], k) && LastValue(init, k) == Some(v) {
        var i :| 0 <= i < |init| && Writes(init[i], k, v) && forall j :: i < j < |init| ==> LeavesAlone(init[j], k);
        assert Writes(log[i], k, v);
        assert forall j :: i < j < |log| ==> LeavesAlone(log[j], k) by {
          forall j | i < j < |log| ensures LeavesAlone(log[j], k) {
            if j < n { assert log[j] == init[j]; }
          }
        }
      } else {
        assert forall i :: 0 <= i < n ==> log[i] == init[i];
      }
    }
  }

  lemma StillThere(log: seq<Entry>, k: DbKey, v: string, at: nat, until: nat)
    requires at < until <= |log| && Writes(log[at], k, v) && forall j :: at < j < until ==> LeavesAlone(log[j], k)
    ensures LastValue(log[..until], k) == Some(v)
  {
    var before := log[..until];
    assert Writes(before[at], k, v);
    LastValueMeaning(before, k, v);
  }

  lemma SetWrites(cfg: Config, es: seq<Event>, s: State, put: nat)
    requires Reachable(cfg, es, s) && put < |s.results| && s.results[put].task.Store?
    ensures var w := s.results[put];
      w.at < w.until <= |s.log| && Writes(s.log[w.at], (cfg.db, w.task.key), w.task.value)
  {
    ReachableIsSafe(cfg, es, s);
    var w := s.results[put];
    assert Faithful(s, w);
    EntryWrites(s.log[w.at], w.task, cfg.db);
  }

  lemma EntryWrites(e: Entry, task: Task, db: int)
    requires task.Store? && e.Served? && e.db == db && e.command == CommandOf(task) && !e.reply.Failure?
    ensures Writes(e, (db, task.key), task.value)
  {
    StoreIsSet(task);
  }

  /** Read your writes: once a Set has returned, a later Get of that key returns its bytes, as long as
      no other execution stored or dropped the key in between. */
  lemma ReadYourWrites(cfg: Config, es: seq<Event>, s: State, put: nat, get: nat)
    requires Reachable(cfg, es, s) && put < |s.results| && get < |s.results|
    requires var w := s.results[put]; var r := s.results[get];
      && w.task.Store? && r.task.Fetch? && w.task.key == r.task.key && w.until <= r.since
      && forall j :: w.at < j < r.at && j < |s.log| ==> LeavesAlone(s.log[j], (cfg.db, r.task.key))
    ensures s.results[get].outcome == Text(s.results[put].task.value)
  {
    GetReturnsLastSet(cfg, es, s, get);
    SetWrites(cfg, es, s, put);
    var w, r := s.results[put], s.results[get];
    StillThere(s.log, (cfg.db, r.task.key), w.task.value, w.at, r.at);
  }

  // ---------------------------------------------------------------- the client's own code

  class ValkeyConn {
    const br: Reader
    var written: string
    var open: bool

    constructor (br: Reader)
      ensures this.br == br && written == "" && open
    {
      this.br := br;
      written, open := "", true;
    }

    /** exec: one Write, then one reply. */
    method Exec(args: Command) returns (reply: Reply)
      modifies this`written, br
      ensures written == old(written) + EncodeCommand(args)
      ensures Parsed(reply, br.pending) == ParseReply(old(br.pending))
    {
      var bytes := WriteCommand(args);
      written := written + bytes;
      reply := br.ReadReply();
    }
  }

  class ValkeyClient {
    var pool: seq<ValkeyConn>

    constructor ()
      ensures pool == []
    {
      pool := [];
    }

    /** The lock section of getConn; null means a fresh dial. */
    method TakePooled() returns (vc: ValkeyConn?)
      modifies this
      ensures if |old(pool)| == 0 then vc == null && pool == [] else vc != null && old(pool) == pool + [vc]
      ensures pool == Take(old(pool)).0
      ensures match Take(old(pool)).1 case None => vc == null case Some(c) => vc == c
    {
      vc := null;
      var n := |pool|;
      if n > 0 {
        vc := pool[n - 1];
        pool := pool[..n - 1];
      }
    }

    method PutConn(vc: ValkeyConn, healthy: bool)
      modifies this, vc`open
      ensures if healthy && |old(pool)| < 8 then pool == old(pool) + [vc] && vc.open == old(vc.open)
              else pool == old(pool) && !vc.open
      ensures pool == PutBack(old(pool), vc, healthy).0
      ensures vc.open == (old(vc.open) && !PutBack(old(pool), vc, healthy).1)
    {
      if !healthy {
        vc.open := false;
        return;
      }
      if |pool| >= POOL_MAX {
        vc.open := false;
        return;
      }
      pool := pool + [vc];
    }

    /** The body of Get on a connection from getConn: the reply's bytes, nil, or an error that costs
        the connection its place in the pool. */
    method GetOn(vc: ValkeyConn, key: string) returns (reply: Reply)
      modifies this, vc, vc.br
      ensures Parsed(reply, vc.br.pending) == ParseReply(old(vc.br.pending))
      ensures vc.written == old(vc.written) + EncodeCommand(["GET", key]) == old(vc.written) + EncodeCommand(CommandOf(Fetch(key)))
      ensures var (newPool, closed) := PutBack(old(pool), vc, reply.Text? || reply.Nil?);
        pool == newPool && vc.open == (old(vc.open) && !closed)
      ensures if (reply.Text? || reply.Nil?) && |old(pool)| < 8 then pool == old(pool) + [vc] && vc.open == old(vc.open)
              else pool == old(pool) && !vc.open
    {
      reply := vc.Exec(["GET", key]);
      PutConn(vc, reply.Text? || reply.Nil?);
    }

    method SetOn(vc: ValkeyConn, key: string, value: string, ttl: int) returns (ok: bool)
      modifies this, vc, vc.br
      ensures var p := ParseReply(old(vc.br.pending));
        ok == (p.reply.Text? || p.reply.Nil?) && vc.br.pending == p.rest
      ensures vc.written == old(vc.written) + EncodeCommand(CommandOf(Store(key, value, ttl)))
      ensures exists d :: InSeconds(d, ttl) && vc.written == old(vc.written) + EncodeCommand(["SET", key, value, "EX", d])
      ensures var (newPool, closed) := PutBack(old(pool), vc, ok);
        pool == newPool && vc.open == (old(vc.open) && !closed)
      ensures if ok && |old(pool)| < 8 then pool == old(pool) + [vc] && vc.open == old(vc.open)
              else pool == old(pool) && !vc.open
    {
      var secs := ttl / SECOND;
      if secs < 1 { secs := 1; }
      SecondsExact(ttl);
      var reply := vc.Exec(["SET", key, value, "EX", Digits(secs)]);
      ok := reply.Text? || reply.Nil?;
      PutConn(vc, ok);
    }
  }
}
