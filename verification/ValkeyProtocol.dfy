/** What the client of internal/rcache/valkey.go says to the server and what the server does with it:
    commands, the handshake of a fresh connection, execution, and the laws that make the exchange work. */
module ValkeyProtocol {
  import opened Decimal
  import opened Options
  import opened Resp

  type ConnId = nat

  const SECOND := 1_000_000_000

  /** The client's settings, and the password the server demands ("" for none). */
  datatype Config = Config(password: string, db: int, serverPassword: string)

  predicate ValidConfig(cfg: Config) { -INT64_MAX - 1 <= cfg.db <= INT64_MAX }

  // ---------------------------------------------------------------- commands of the client

  datatype Task = Fetch(key: string) | Store(key: string, value: string, ttl: int)

  function Seconds(ttl: int): nat {
    if ttl < SECOND then 1 else ttl / SECOND
  }

  function CommandOf(t: Task): Command {
    match t
    case Fetch(key) => ["GET", key]
    case Store(key, value, ttl) => ["SET", key, value, "EX", Digits(Seconds(ttl))]
  }

  /** `d` is the number of whole seconds in `ttl` nanoseconds, and 1 when there is none. */
  ghost predicate InSeconds(d: string, ttl: int) {
    && AllDigits(d) && (ttl < 1_000_000_000 ==> Value(d) == 1)
    && (ttl >= 1_000_000_000 ==> Value(d) * 1_000_000_000 <= ttl < (Value(d) + 1) * 1_000_000_000)
  }

  lemma SecondsExact(ttl: int)
    ensures InSeconds(Digits(Seconds(ttl)), ttl)
  {
  }

  /** What the server reads when a value is stored or asked for, whatever follows on the stream. */
  lemma TaskOnTheWire(t: Task, rest: string)
    ensures match t
      case Fetch(key) => DecodeCommand(EncodeCommand(CommandOf(t)) + rest) == Got(["GET", key], rest)
      case Store(key, value, ttl) =>
        exists d ::
          InSeconds(d, ttl) && DecodeCommand(EncodeCommand(CommandOf(t)) + rest) == Got(["SET", key, value, "EX", d], rest)
  {
    CommandRoundTrip(CommandOf(t), rest);
    if t.Store? { SecondsExact(t.ttl); }
  }

  function AuthCommand(cfg: Config): Command { ["AUTH", cfg.password] }

  function SelectCommand(cfg: Config): Command { ["SELECT", Numeral(cfg.db)] }

  /** What getConn sends on a fresh connection. */
  function Handshake(cfg: Config): seq<Command> {
    (if cfg.password != "" then [AuthCommand(cfg)] else []) + (if cfg.db != 0 then [SelectCommand(cfg)] else [])
  }

  // ---------------------------------------------------------------- the server

  type DbKey = (int, string)

  datatype Session = Session(authed: bool, db: int)

  datatype Entry =
    | Served(conn: ConnId, db: int, command: Command, reply: ServerReply)
    | Expired(at: DbKey)

  datatype Answer = Answer(store: map<DbKey, string>, session: Session, reply: ServerReply)

  const OK := "OK"
  const ERR := "ERR"
  const NOAUTH := "NOAUTH"

  predicate Acceptable(c: Command) {
    forall i :: 0 <= i < |c| ==> |c[i]| <= INT64_MAX
  }

  predicate IsGet(c: Command) { |c| == 2 && c[0] == "GET" }

  predicate IsSet(c: Command) { |c| == 5 && c[0] == "SET" && c[3] == "EX" }

  function Execute(cfg: Config, store: map<DbKey, string>, s: Session, c: Command): Answer {
    if !Acceptable(c) then
      Answer(store, s, Failure(ERR))
    else if |c| == 2 && c[0] == "AUTH" then
      if cfg.serverPassword != "" && c[1] == cfg.serverPassword
      then Answer(store, s.(authed := true), Simple(OK))
      else Answer(store, s, Failure(ERR))
    else if cfg.serverPassword != "" && !s.authed then
      Answer(store, s, Failure(NOAUTH))
    else if |c| == 2 && c[0] == "SELECT" then
      match Atoi(c[1])
      case Int(n) => Answer(store, s.(db := n), Simple(OK))
      case NotAnInt => Answer(store, s, Failure(ERR))
    else if IsGet(c) then
      Answer(store, s, if (s.db, c[1]) in store then Bulk(store[(s.db, c[1])]) else Null)
    else if IsSet(c) then
      Answer(store[(s.db, c[1]) := c[2]], s, Simple(OK))
    else
      Answer(store, s, Failure(ERR))
  }

  /** The value a key has after the executions in `log`: its last successful SET, unless it expired since. */
  ghost function LastValue(log: seq<Entry>, k: DbKey): Option<string> {
    if log == [] then None else
    match log[|log| - 1]
    case Expired(at) => if at == k then None else LastValue(log[..|log| - 1], k)
    case Served(_, db, c, reply) =>
      if IsSet(c) && (db, c[1]) == k && !reply.Failure? then Some(c[2])
      else LastValue(log[..|log| - 1], k)
  }

  ghost function Lookup(store: map<DbKey, string>, k: DbKey): Option<string> {
    if k in store then Some(store[k]) else None
  }

  ghost function GetReply(v: Option<string>): ServerReply {
    if v.Some? then Bulk(v.value) else Null
  }

  /** Authenticated if a password is set, and on the database chosen so far. */
  ghost predicate LoggedIn(cfg: Config, session: Session, todo: seq<Command>) {
    && (cfg.password != "" && AuthCommand(cfg) !in todo ==> session.authed)
    && session.db == (if SelectCommand(cfg) in todo then 0 else cfg.db)
  }

  /** What one log entry does to a key. */
  ghost function Effect(e: Entry, k: DbKey, before: Option<string>): Option<string> {
    match e
    case Expired(at) => if at == k then None else before
    case Served(_, db, c, reply) =>
      if IsSet(c) && (db, c[1]) == k && !reply.Failure? then Some(c[2]) else before
  }

  /** Only an accepted SET touches the store. */
  lemma ExecuteStore(cfg: Config, store: map<DbKey, string>, session: Session, c: Command)
    ensures var a := Execute(cfg, store, session, c);
      a.store == (if IsSet(c) && !a.reply.Failure? then store[(session.db, c[1]) := c[2]] else store)
    ensures !Execute(cfg, store, session, c).reply.Failure? ==> Acceptable(c)
  {
    if IsSet(c) {
      assert c[0][0] == 'S';
      assert |c| != 2;
    }
  }

  lemma StoreIsSet(t: Task)
    requires t.Store?
    ensures IsSet(CommandOf(t)) && CommandOf(t)[1] == t.key && CommandOf(t)[2] == t.value
  {
  }

  lemma ServerTexts()
    ensures WellFormed(Simple(OK)) && WellFormed(Failure(ERR)) && WellFormed(Failure(NOAUTH))
  {
  }

  lemma ExecuteReply(cfg: Config, store: map<DbKey, string>, session: Session, c: Command)
    requires forall k :: k in store ==> |store[k]| <= INT64_MAX
    ensures WellFormed(Execute(cfg, store, session, c).reply)
    ensures var reply := Execute(cfg, store, session, c).reply;
      IsGet(c) && !reply.Failure? ==> reply == GetReply(Lookup(store, (session.db, c[1])))
  {
    ServerTexts();
    if IsGet(c) {
      assert c[0][0] == 'G' && "AUTH"[0] == 'A' && "SELECT"[0] == 'S';
    }
  }

  lemma ExecuteEffect(cfg: Config, store: map<DbKey, string>, session: Session, c: Command, id: ConnId)
    requires forall k :: k in store ==> |store[k]| <= INT64_MAX
    ensures var a := Execute(cfg, store, session, c);
      && (forall k :: k in a.store ==> |a.store[k]| <= INT64_MAX)
      && (forall k :: Lookup(a.store, k) == Effect(Served(id, session.db, c, a.reply), k, Lookup(store, k)))
  {
    ExecuteStore(cfg, store, session, c);
  }

  lemma NumeralReadBack(n: int)
    requires -INT64_MAX - 1 <= n <= INT64_MAX
    ensures Atoi(Numeral(n)) == Int(n)
  {
    if n < 0 {
      assert Numeral(n)[1..] == Digits(-n);
    }
  }

  lemma ExecuteTask(cfg: Config, store: map<DbKey, string>, session: Session, t: Task)
    ensures Execute(cfg, store, session, CommandOf(t)).session == session
  {
    assert "GET"[0] == 'G' && "AUTH"[0] == 'A' && "SELECT"[0] == 'S';
  }

  lemma ExecuteAuth(cfg: Config, store: map<DbKey, string>, session: Session)
    ensures var a := Execute(cfg, store, session, AuthCommand(cfg));
      !a.reply.Failure? ==> a.session == session.(authed := true)
  {
  }

  lemma ExecuteSelect(cfg: Config, store: map<DbKey, string>, session: Session)
    requires ValidConfig(cfg)
    ensures var a := Execute(cfg, store, session, SelectCommand(cfg));
      !a.reply.Failure? ==> a.session == session.(db := cfg.db)
  {
    assert "AUTH"[0] == 'A' && "SELECT"[0] == 'S';
    NumeralReadBack(cfg.db);
  }

  /** A successful reply moves the session one command further through the handshake. */
  lemma HandshakeStep(cfg: Config, store: map<DbKey, string>, session: Session, k: nat)
    requires ValidConfig(cfg) && k < |Handshake(cfg)| && LoggedIn(cfg, session, Handshake(cfg)[k..])
    requires !Execute(cfg, store, session, Handshake(cfg)[k]).reply.Failure?
    ensures LoggedIn(cfg, Execute(cfg, store, session, Handshake(cfg)[k]).session, Handshake(cfg)[k + 1..])
  {
    assert AuthCommand(cfg)[0][0] == 'A' && SelectCommand(cfg)[0][0] == 'S';
    var h := Handshake(cfg);
    if h[k] == AuthCommand(cfg) {
      ExecuteAuth(cfg, store, session);
      assert k == 0 && h[k..] == h && h[1..] == if cfg.db != 0 then [SelectCommand(cfg)] else [];
    } else {
      ExecuteSelect(cfg, store, session);
      assert h[k..] == [SelectCommand(cfg)] && h[k + 1..] == [];
    }
  }

  // ---------------------------------------------------------------- the exchange, and its laws

  /** All that the pool knows of the protocol. Keeping it as values keeps the proofs about the pool apart
      from those about the bytes. */
  datatype Wire = Wire(db: int, handshake: seq<Command>, commandOf: Task -> Command,
                       encode: Command -> string, decode: string -> Read<Command>,
                       encodeReply: ServerReply -> string, parse: string -> Parsed, wellFormed: ServerReply -> bool,
                       loggedIn: (Session, seq<Command>) -> bool,
                       execute: (map<DbKey, string>, Session, Command) -> Answer)

  ghost function WireOf(cfg: Config): Wire {
    Wire(cfg.db, Handshake(cfg), (t: Task) => CommandOf(t),
         (c: Command) => EncodeCommand(c), (b: string) => DecodeCommand(b),
         (r: ServerReply) => EncodeReply(r), (b: string) => ParseReply(b), (r: ServerReply) => WellFormed(r),
         (s: Session, todo: seq<Command>) => LoggedIn(cfg, s, todo),
         (store: map<DbKey, string>, s: Session, c: Command) => Execute(cfg, store, s, c))
  }

  /** A request is read back as it was sent, a reply as it was meant, and neither from an empty stream. */
  ghost predicate Framed(w: Wire) {
    && (forall c :: w.decode(w.encode(c)) == Got(c, ""))
    && w.decode("").Ended?
    && (forall r :: w.wellFormed(r) ==> w.parse(w.encodeReply(r)) == Parsed(Meaning(r), ""))
    && w.parse("").reply.Broken?
  }

  /** Sessions: a fresh one has the whole handshake before it, each accepted command of it brings it one
      further, and the client's own commands leave it alone. */
  ghost predicate LogsIn(w: Wire) {
    && w.loggedIn(Session(false, 0), w.handshake)
    && (forall s :: w.loggedIn(s, []) ==> s.db == w.db)
    && (forall store, s, t :: w.execute(store, s, w.commandOf(t)).session == s)
    && (forall store, s, k :: 0 <= k < |w.handshake| && w.loggedIn(s, w.handshake[k..])
          && !w.execute(store, s, w.handshake[k]).reply.Failure?
          ==> w.loggedIn(w.execute(store, s, w.handshake[k]).session, w.handshake[k + 1..]))
  }

  ghost predicate Storable(store: map<DbKey, string>) { forall k :: k in store ==> |store[k]| <= INT64_MAX }

  /** One execution: a well-formed reply, the effect a log entry of it stands for, and GET tells the truth. */
  ghost predicate Honest(store: map<DbKey, string>, s: Session, c: Command, a: Answer, wellFormed: bool) {
    && wellFormed && Storable(a.store)
    && (forall id, k :: Lookup(a.store, k) == Effect(Served(id, s.db, c, a.reply), k, Lookup(store, k)))
    && (IsGet(c) && !a.reply.Failure? ==> a.reply == GetReply(Lookup(store, (s.db, c[1]))))
  }

  ghost predicate Executes(w: Wire) {
    forall store, s, c :: Storable(store) ==>
      Honest(store, s, c, w.execute(store, s, c), w.wellFormed(w.execute(store, s, c).reply))
  }

  ghost predicate Lawful(w: Wire) { Framed(w) && LogsIn(w) && Executes(w) }

  /** The server takes the client's password and a task is not too large for it: then no command is refused on a
      connection that has come so far. */
  ghost predicate Welcomes(w: Wire, t: Task) {
    && (forall store, s, k :: 0 <= k < |w.handshake| && w.loggedIn(s, w.handshake[k..]) ==>
          !w.execute(store, s, w.handshake[k]).reply.Failure?)
    && (forall store, s :: w.loggedIn(s, []) ==> !w.execute(store, s, w.commandOf(t)).reply.Failure?)
  }

  predicate Fits(t: Task) {
    match t
    case Fetch(key) => |key| <= INT64_MAX
    case Store(key, value, ttl) => |key| <= INT64_MAX && |value| <= INT64_MAX && |Digits(Seconds(ttl))| <= INT64_MAX
  }

  predicate Admitted(cfg: Config) {
    ValidConfig(cfg) && cfg.password == cfg.serverPassword && |cfg.password| <= INT64_MAX && |Numeral(cfg.db)| <= INT64_MAX
  }

  lemma HandshakeWelcome(cfg: Config, store: map<DbKey, string>, s: Session, k: nat)
    requires Admitted(cfg) && k < |Handshake(cfg)| && LoggedIn(cfg, s, Handshake(cfg)[k..])
    ensures !Execute(cfg, store, s, Handshake(cfg)[k]).reply.Failure?
  {
    assert AuthCommand(cfg)[0][0] == 'A' && SelectCommand(cfg)[0][0] == 'S';
    var h := Handshake(cfg);
    if h[k] != AuthCommand(cfg) {
      assert h[k..] == [SelectCommand(cfg)];
      NumeralReadBack(cfg.db);
    }
  }

  lemma TaskWelcome(cfg: Config, store: map<DbKey, string>, s: Session, t: Task)
    requires Admitted(cfg) && Fits(t) && LoggedIn(cfg, s, [])
    ensures !Execute(cfg, store, s, CommandOf(t)).reply.Failure?
  {
    assert "GET"[0] == 'G' && "AUTH"[0] == 'A' && "SELECT"[0] == 'S' && "SET"[2] == 'T' && "SELECT"[2] == 'L';
  }

  lemma WireWelcomes(cfg: Config, t: Task)
    requires Admitted(cfg) && Fits(t)
    ensures Welcomes(WireOf(cfg), t)
  {
    forall store, s, k | 0 <= k < |Handshake(cfg)| && LoggedIn(cfg, s, Handshake(cfg)[k..])
      ensures !Execute(cfg, store, s, Handshake(cfg)[k]).reply.Failure?
    {
      HandshakeWelcome(cfg, store, s, k);
    }
    forall store, s | LoggedIn(cfg, s, []) ensures !Execute(cfg, store, s, CommandOf(t)).reply.Failure? {
      TaskWelcome(cfg, store, s, t);
    }
  }

  lemma WireIsFramed(cfg: Config)
    ensures Framed(WireOf(cfg))
  {
    forall c ensures DecodeCommand(EncodeCommand(c)) == Got(c, "") {
      CommandRoundTrip(c, "");
      assert EncodeCommand(c) + "" == EncodeCommand(c);
    }
    forall r | WellFormed(r) ensures ParseReply(EncodeReply(r)) == Parsed(Meaning(r), "") {
      ReplyRoundTrip(r, "");
      assert EncodeReply(r) + "" == EncodeReply(r);
    }
    assert DecodeCommand("").Ended? && ParseReply("").reply.Broken?;
  }

  lemma WireLogsIn(cfg: Config)
    requires ValidConfig(cfg)
    ensures LogsIn(WireOf(cfg))
  {
    forall store, s, t ensures Execute(cfg, store, s, CommandOf(t)).session == s { ExecuteTask(cfg, store, s, t); }
    forall store, s, k | 0 <= k < |Handshake(cfg)| && LoggedIn(cfg, s, Handshake(cfg)[k..])
        && !Execute(cfg, store, s, Handshake(cfg)[k]).reply.Failure?
      ensures LoggedIn(cfg, Execute(cfg, store, s, Handshake(cfg)[k]).session, Handshake(cfg)[k + 1..])
    {
      HandshakeStep(cfg, store, s, k);
    }
    FreshSession(cfg);
  }

  lemma FreshSession(cfg: Config)
    ensures LoggedIn(cfg, Session(false, 0), Handshake(cfg))
  {
    assert AuthCommand(cfg)[0][0] == 'A' && SelectCommand(cfg)[0][0] == 'S';
    assert cfg.password != "" ==> Handshake(cfg)[0] == AuthCommand(cfg);
    assert cfg.db != 0 ==> Handshake(cfg)[|Handshake(cfg)| - 1] == SelectCommand(cfg);
  }

  lemma WireExecutes(cfg: Config)
    ensures Executes(WireOf(cfg))
  {
    forall store, s, c | Storable(store)
      ensures var a := Execute(cfg, store, s, c); Honest(store, s, c, a, WellFormed(a.reply))
    {
      ExecuteReply(cfg, store, s, c);
      forall id { ExecuteEffect(cfg, store, s, c, id); }
    }
  }

  /** RESP2 and the server keep all these laws. */
  lemma WireIsLawful(cfg: Config)
    requires ValidConfig(cfg)
    ensures Lawful(WireOf(cfg))
  {
    WireIsFramed(cfg);
    WireLogsIn(cfg);
    WireExecutes(cfg);
  }
}
