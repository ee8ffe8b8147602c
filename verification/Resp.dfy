/** The RESP2 wire protocol as internal/rcache/valkey.go writes and reads it.
    A byte string is a `string`, one character a byte. */
module Resp {
  import opened Decimal

  const CRLF: string := "\r\n"

  // ---------------------------------------------------------------- printing commands

  type Command = seq<string>

  function EncodeBulk(a: string): string {
    "$" + Digits(|a|) + CRLF + a + CRLF
  }

  function EncodeBulks(args: seq<string>): string {
    if args == [] then "" else EncodeBulk(args[0]) + EncodeBulks(args[1..])
  }

  function EncodeCommand(args: Command): string {
    "*" + Digits(|args|) + CRLF + EncodeBulks(args)
  }

  function EncodeCommands(cs: seq<Command>): string {
    if cs == [] then "" else EncodeCommand(cs[0]) + EncodeCommands(cs[1..])
  }

  lemma {:induction false} EncodeBulksSnoc(args: seq<string>, a: string)
    ensures EncodeBulks(args + [a]) == EncodeBulks(args) + EncodeBulk(a)
  {
    if args == [] {
      assert args + [a] == [a] && [a][1..] == [];
    } else {
      assert (args + [a])[1..] == args[1..] + [a];
      EncodeBulksSnoc(args[1..], a);
    }
  }

  /** writeCommand's builder loop; the result is what goes to the socket in one Write. */
  method WriteCommand(args: Command) returns (b: string)
    ensures b == EncodeCommand(args)
  {
    b := "*" + Digits(|args|) + CRLF;
    var i := 0;
    while i < |args|
      invariant 0 <= i <= |args|
      invariant b == "*" + Digits(|args|) + CRLF + EncodeBulks(args[..i])
    {
      EncodeBulksSnoc(args[..i], args[i]);
      assert args[..i + 1] == args[..i] + [args[i]];
      b := b + ("$" + Digits(|args[i]|) + CRLF + args[i] + CRLF);
      i := i + 1;
    }
    assert args[..i] == args;
  }

  // ---------------------------------------------------------------- reading lines

  datatype Read<T> = Got(value: T, rest: string) | Ended

  /** strings.TrimRight(line, "\r\n") */
  function TrimLineEnd(s: string): (t: string)
    ensures t <= s
    ensures t == "" || t[|t| - 1] !in CRLF
    ensures forall i :: |t| <= i < |s| ==> s[i] in CRLF
  {
    if s != "" && s[|s| - 1] in CRLF then TrimLineEnd(s[..|s| - 1]) else s
  }

  /** Index of the first line feed, or |s|. */
  function LineFeed(s: string): (i: nat)
    ensures i <= |s|
    ensures forall k :: 0 <= k < i ==> s[k] != '\n'
    ensures i < |s| ==> s[i] == '\n'
  {
    if s == "" || s[0] == '\n' then 0 else 1 + LineFeed(s[1..])
  }

  /** readLine: everything up to the first line feed, without its line ending. */
  function Line(s: string): Read<string> {
    var i := LineFeed(s);
    if i == |s| then Ended else Got(TrimLineEnd(s[..i + 1]), s[i + 1..])
  }

  /** readFull of `n` bytes. */
  function Exactly(n: nat, s: string): Read<string> {
    if |s| < n then Ended else Got(s[..n], s[n..])
  }

  lemma TrimTerminator(s: string)
    ensures TrimLineEnd(s + CRLF) == TrimLineEnd(s)
  {
    assert (s + CRLF)[..|s| + 1] == s + "\r";
    assert (s + "\r")[..|s|] == s;
  }

  lemma LineOfTerminated(s: string, rest: string)
    requires '\n' !in s
    ensures Line(s + CRLF + rest) == Got(TrimLineEnd(s), rest)
  {
    var t := s + CRLF + rest;
    var i := LineFeed(t);
    assert t[|s| + 1] == '\n' && t[|s|] == '\r';
    assert forall k :: 0 <= k < |s| ==> t[k] == s[k];
    assert i == |s| + 1;
    assert t[..i + 1] == s + CRLF;
    TrimTerminator(s);
    assert t[i + 1..] == rest;
  }

  lemma TrimKeepsClean(s: string)
    requires s == "" || s[|s| - 1] !in CRLF
    ensures TrimLineEnd(s) == s
  {
  }

  lemma LineOfNumeral(c: char, n: nat, rest: string)
    requires c != '\n'
    ensures Line([c] + Digits(n) + CRLF + rest) == Got([c] + Digits(n), rest)
  {
    var s := [c] + Digits(n);
    assert '\n' !in s by { assert forall i :: 0 <= i < |Digits(n)| ==> s[i + 1] == Digits(n)[i]; }
    assert IsDigit(s[|s| - 1]);
    LineOfTerminated(s, rest);
    TrimKeepsClean(s);
  }

  // ---------------------------------------------------------------- the server's command reader

  /** One `$<size>` bulk argument. */
  function DecodeBulk(s: string): Read<string> {
    match Line(s)
    case Ended => Ended
    case Got(header, body) =>
      if header == "" || header[0] != '$' || !AllDigits(header[1..]) then Ended else
      match Exactly(Value(header[1..]) + 2, body)
      case Ended => Ended
      case Got(data, rest) => Got(data[..|data| - 2], rest)
  }

  function DecodeBulks(n: nat, s: string): Read<seq<string>> {
    if n == 0 then Got([], s) else
    match DecodeBulk(s)
    case Ended => Ended
    case Got(a, rest) =>
      match DecodeBulks(n - 1, rest)
      case Ended => Ended
      case Got(args, rest') => Got([a] + args, rest')
  }

  /** The array-of-bulk-strings reader, which is how a server reads a command. */
  function DecodeCommand(s: string): Read<Command> {
    match Line(s)
    case Ended => Ended
    case Got(header, body) =>
      if header == "" || header[0] != '*' || !AllDigits(header[1..]) then Ended
      else DecodeBulks(Value(header[1..]), body)
  }

  function DecodeCommands(n: nat, s: string): Read<seq<Command>> {
    if n == 0 then Got([], s) else
    match DecodeCommand(s)
    case Ended => Ended
    case Got(c, rest) =>
      match DecodeCommands(n - 1, rest)
      case Ended => Ended
      case Got(cs, rest') => Got([c] + cs, rest')
  }

  lemma BulkRoundTrip(a: string, rest: string)
    ensures DecodeBulk(EncodeBulk(a) + rest) == Got(a, rest)
  {
    var body := a + CRLF + rest;
    assert EncodeBulk(a) + rest == ['$'] + Digits(|a|) + CRLF + body;
    LineOfNumeral('$', |a|, body);
    assert (['$'] + Digits(|a|))[1..] == Digits(|a|);
    assert body[..|a| + 2][..|a|] == a;
    assert body[|a| + 2..] == rest;
  }

  lemma Assoc(a: string, b: string, c: string)
    ensures (a + b) + c == a + (b + c)
  {
  }

  lemma SplitsAt(a: string, b: string)
    ensures (a + b)[..|a|] == a && (a + b)[|a|..] == b
  {
  }

  lemma BulksStep(s: string, a: string, tail: string, args: seq<string>, rest: string)
    requires DecodeBulk(s) == Got(a, tail) && DecodeBulks(|args|, tail) == Got(args, rest)
    ensures DecodeBulks(1 + |args|, s) == Got([a] + args, rest)
  {
  }

  lemma {:induction false} BulksRoundTrip(args: seq<string>, rest: string)
    ensures DecodeBulks(|args|, EncodeBulks(args) + rest) == Got(args, rest)
  {
    if args == [] {
      assert EncodeBulks(args) + rest == rest;
    } else {
      var first, later := EncodeBulk(args[0]), EncodeBulks(args[1..]);
      BulkRoundTrip(args[0], later + rest);
      BulksRoundTrip(args[1..], rest);
      Assoc(first, later, rest);
      BulksStep((first + later) + rest, args[0], later + rest, args[1..], rest);
      assert args == [args[0]] + args[1..];
    }
  }

  /** A command's bytes are read back exactly, whatever its arguments and whatever follows. */
  lemma CommandRoundTrip(args: Command, rest: string)
    ensures DecodeCommand(EncodeCommand(args) + rest) == Got(args, rest)
  {
    var body := EncodeBulks(args) + rest;
    assert EncodeCommand(args) + rest == ['*'] + Digits(|args|) + CRLF + body;
    LineOfNumeral('*', |args|, body);
    assert (['*'] + Digits(|args|))[1..] == Digits(|args|);
    BulksRoundTrip(args, rest);
  }

  /** So is a whole pipeline of commands. */
  lemma {:induction false} CommandsRoundTrip(cs: seq<Command>, rest: string)
    ensures DecodeCommands(|cs|, EncodeCommands(cs) + rest) == Got(cs, rest)
  {
    if cs == [] {
      assert EncodeCommands(cs) + rest == rest;
    } else {
      var tail := EncodeCommands(cs[1..]) + rest;
      assert EncodeCommands(cs) + rest == EncodeCommand(cs[0]) + tail;
      CommandRoundTrip(cs[0], tail);
      CommandsRoundTrip(cs[1..], rest);
      assert cs == [cs[0]] + cs[1..];
    }
  }

  /** The bytes RESP2 prescribes, for the example of asking for key k. */
  lemma GetOnTheWire()
    ensures EncodeCommand(["GET", "k"]) == "*2\r\n$3\r\nGET\r\n$1\r\nk\r\n"
  {
    assert Digits(1) == "1" && Digits(2) == "2" && Digits(3) == "3" && CRLF == "\r\n";
    assert EncodeBulk("GET") == "$3\r\nGET\r\n" && EncodeBulk("k") == "$1\r\nk\r\n";
    assert EncodeBulks(["k"]) == EncodeBulk("k") + EncodeBulks([]);
    assert EncodeBulks(["GET", "k"]) == EncodeBulk("GET") + EncodeBulks(["k"]);
  }

  /** The encoding is prefix-free, hence injective: the bytes alone say where a command ends. */
  lemma CommandsPrefixFree(c: Command, d: Command, restC: string, restD: string)
    requires EncodeCommand(c) + restC == EncodeCommand(d) + restD
    ensures c == d && restC == restD
  {
    CommandRoundTrip(c, restC);
    CommandRoundTrip(d, restD);
  }

  /** Two different command sequences never produce the same byte stream. */
  lemma {:induction false} StreamsInjective(cs: seq<Command>, ds: seq<Command>)
    requires EncodeCommands(cs) == EncodeCommands(ds)
    ensures cs == ds
  {
    if cs != [] && ds != [] {
      CommandsPrefixFree(cs[0], ds[0], EncodeCommands(cs[1..]), EncodeCommands(ds[1..]));
      StreamsInjective(cs[1..], ds[1..]);
      assert cs == [cs[0]] + cs[1..] && ds == [ds[0]] + ds[1..];
    }
  }

  // ---------------------------------------------------------------- replies

  /** What a server may answer to the commands this client sends. */
  datatype ServerReply = Simple(text: string) | Failure(text: string) | Integer(n: int) | Bulk(data: string) | Null

  function Numeral(n: int): string {
    if n < 0 then "-" + Digits(-n) else Digits(n)
  }

  function EncodeReply(r: ServerReply): string {
    match r
    case Simple(text) => "+" + text + CRLF
    case Failure(text) => "-" + text + CRLF
    case Integer(n) => ":" + Numeral(n) + CRLF
    case Bulk(data) => EncodeBulk(data)
    case Null => "$-1" + CRLF
  }

  /** RESP2: simple strings and errors carry neither CR nor LF.
      A bulk string's length must fit the client's int. */
  predicate WellFormed(r: ServerReply) {
    match r
    case Simple(text) => '\r' !in text && '\n' !in text
    case Failure(text) => '\r' !in text && '\n' !in text
    case Bulk(data) => |data| <= INT64_MAX
    case _ => true
  }

  /** What readReply returns: a value, or one of its errors. */
  datatype Reply = Text(str: string) | Nil | ServerError(message: string) | Malformed | Broken

  function Meaning(r: ServerReply): Reply {
    match r
    case Simple(text) => Text(text)
    case Failure(text) => ServerError(text)
    case Integer(n) => Text(Numeral(n))
    case Bulk(data) => Text(data)
    case Null => Nil
  }

  datatype Parsed = Parsed(reply: Reply, rest: string)

  /** readReply as a function of the bytes the stream still holds. */
  function ParseReply(s: string): Parsed {
    match Line(s)
    case Ended => Parsed(Broken, "")
    case Got(line, body) =>
      if line == "" then Parsed(Malformed, body)
      else if line[0] == '+' || line[0] == ':' then Parsed(Text(line[1..]), body)
      else if line[0] == '-' then Parsed(ServerError(line[1..]), body)
      else if line[0] == '$' then
        match Atoi(line[1..])
        case NotAnInt => Parsed(Malformed, body)
        case Int(n) =>
          if n < 0 then Parsed(Nil, body) else
          match Exactly(n + 2, body)
          case Ended => Parsed(Broken, "")
          case Got(data, rest) => Parsed(Text(data[..n]), rest)
      else Parsed(Malformed, body)
  }

  lemma TextLineParsed(tag: char, text: string, rest: string)
    requires tag in "+-:" && '\n' !in text && (text == "" || text[|text| - 1] != '\r')
    ensures ParseReply([tag] + text + CRLF + rest)
         == Parsed(if tag == '-' then ServerError(text) else Text(text), rest)
  {
    var line := [tag] + text;
    assert '\n' !in line;
    LineOfTerminated(line, rest);
    TrimKeepsClean(line);
    assert line[1..] == text;
  }

  lemma SizeLineParsed(n: nat, body: string)
    requires n <= INT64_MAX && |body| >= n + 2
    ensures ParseReply(['$'] + Digits(n) + CRLF + body) == Parsed(Text(body[..n]), body[n + 2..])
  {
    LineOfNumeral('$', n, body);
    var line := ['$'] + Digits(n);
    assert line[1..] == Digits(n);
    assert Digits(n)[0] != '-' && Digits(n)[0] != '+';
    assert Atoi(Digits(n)) == Int(n);
    assert body[..n + 2][..n] == body[..n];
  }

  lemma BulkReplyParsed(data: string, rest: string)
    requires |data| <= INT64_MAX
    ensures ParseReply(EncodeBulk(data) + rest) == Parsed(Text(data), rest)
  {
    var body := data + CRLF + rest;
    assert EncodeBulk(data) + rest == ['$'] + Digits(|data|) + CRLF + body;
    SizeLineParsed(|data|, body);
    assert body[..|data|] == data && body[|data| + 2..] == rest;
  }

  lemma NullReplyParsed(rest: string)
    ensures ParseReply(EncodeReply(Null) + rest) == Parsed(Nil, rest)
  {
    LineOfTerminated("$-1", rest);
    TrimKeepsClean("$-1");
    assert "$-1"[1..] == "-1" && "-1"[1..] == "1";
    assert "1"[..0] == "" && Value("1") == 1;
    assert Atoi("-1") == Int(-1);
  }

  /** readReply consumes exactly one well-formed reply and reports what the server meant. */
  lemma ReplyRoundTrip(r: ServerReply, rest: string)
    requires WellFormed(r)
    ensures ParseReply(EncodeReply(r) + rest) == Parsed(Meaning(r), rest)
  {
    match r
    case Simple(text) => TextLineParsed('+', text, rest);
    case Failure(text) => TextLineParsed('-', text, rest);
    case Integer(n) =>
      assert forall i :: 0 <= i < |Numeral(n)| ==> Numeral(n)[i] == '-' || IsDigit(Numeral(n)[i]);
      TextLineParsed(':', Numeral(n), rest);
    case Bulk(data) => BulkReplyParsed(data, rest);
    case Null => NullReplyParsed(rest);
  }

  /** readLine trims every trailing CR and LF, so a text reply survives exactly when it has no LF
      and does not end in CR: RESP2's rule is sufficient, and this is the line the code draws. */
  lemma TextReplyExact(text: string, rest: string)
    ensures ParseReply("+" + text + CRLF + rest) == Parsed(Text(text), rest)
       <==> '\n' !in text && (text == "" || text[|text| - 1] != '\r')
  {
    var s := "+" + text + CRLF + rest;
    if '\n' !in text {
      var line := "+" + text;
      assert '\n' !in line;
      LineOfTerminated(line, rest);
      if text != "" && text[|text| - 1] == '\r' {
        assert TrimLineEnd(line) != line;
      } else {
        TextLineParsed('+', text, rest);
      }
    } else {
      var k :| 0 <= k < |text| && text[k] == '\n';
      assert s[k + 1] == '\n';
      assert |TrimLineEnd(s[..LineFeed(s) + 1])| <= |text| + 1;
      assert LineFeed(s) <= k + 1;
      var line := TrimLineEnd(s[..LineFeed(s) + 1]);
      assert |line| <= |text|  by { assert s[..LineFeed(s) + 1][LineFeed(s)] == '\n'; }
    }
  }

  // ---------------------------------------------------------------- the buffered reader

  /** bufio.Reader over a connection. `pending` is everything the peer still delivers before the
      stream ends or the deadline passes; how it is cut into reads is up to the network. */
  class Reader {
    var pending: string

    constructor (incoming: string)
      ensures pending == incoming
    {
      pending := incoming;
    }

    method ReadLine() returns (r: Read<string>)
      modifies this
      ensures r == Line(old(pending))
      ensures pending == if r.Ended? then "" else r.rest
    {
      var i := 0;
      while i < |pending| && pending[i] != '\n'
        invariant 0 <= i <= |pending|
        invariant forall k :: 0 <= k < i ==> pending[k] != '\n'
      {
        i := i + 1;
      }
      if i == |pending| {
        r, pending := Ended, "";
      } else {
        r := Got(TrimLineEnd(pending[..i + 1]), pending[i + 1..]);
        pending := r.rest;
      }
    }

    /** One Read of at most `max` bytes: it returns some positive number of them. */
    method ReadSome(max: nat) returns (chunk: string)
      requires 0 < max && pending != ""
      modifies this
      ensures 0 < |chunk| <= max && old(pending) == chunk + pending
    {
      var n: nat :| 0 < n <= max && n <= |pending|;
      chunk, pending := pending[..n], pending[n..];
    }

    /** readFull: short reads are repeated until the buffer is full or the stream ends. */
    method ReadFull(n: nat) returns (r: Read<string>)
      modifies this
      ensures r == Exactly(n, old(pending))
      ensures pending == if r.Ended? then "" else r.rest
    {
      var buf := "";
      while |buf| < n
        invariant |buf| <= n && old(pending) == buf + pending
      {
        if pending == "" { return Ended; }
        var chunk := ReadSome(n - |buf|);
        Assoc(buf, chunk, pending);
        buf := buf + chunk;
      }
      SplitsAt(buf, pending);
      r := Got(buf, pending);
    }

    method ReadReply() returns (reply: Reply)
      modifies this
      ensures Parsed(reply, pending) == ParseReply(old(pending))
    {
      var line := ReadLine();
      if line.Ended? { return Broken; }
      var s := line.value;
      if s == "" { return Malformed; }
      match s[0]
      case '+' => return Text(s[1..]);
      case '-' => return ServerError(s[1..]);
      case ':' => return Text(s[1..]);
      case '$' =>
        var size := Atoi(s[1..]);
        if size.NotAnInt? { return Malformed; }
        if size.n < 0 { return Nil; }
        var buf := ReadFull(size.n + 2);
        if buf.Ended? { return Broken; }
        return Text(buf.value[..size.n]);
      case _ => return Malformed;
    }
  }
}
