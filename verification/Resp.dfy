/** The RESP byte machine, the printer that is its inverse, and what the two
    promise together: exact round trip of a log, recovery of a torn log, and
    independence of how the bytes are cut into reads. */
module Resp {
  import opened Text

  datatype ParserState = Idle | ReadingArraySize | ReadingBulkSize | ReadingData

  /** The fields of a parser between two bytes. */
  datatype Parser = Parser(state: ParserState, args: seq<string>, arrayCount: int,
                           bulkLen: int, buffer: string, data: string)

  const INITIAL := Parser(Idle, [], 0, 0, "", "")

  /** What one byte does: nothing visible, a command handed over, or an
      exception nobody catches (an array size that is no int). */
  datatype Event = Quiet(next: Parser) | Dispatch(next: Parser, command: Command) | Fault

  function Step(p: Parser, c: char): Event {
    match p.state
    case Idle =>
      Quiet(if c == '*' then p.(state := ReadingArraySize, buffer := "") else p)
    case ReadingArraySize =>
      if c == '\n' then
        match Stoi(p.buffer)
        case Some(n) => Quiet(p.(arrayCount := n, buffer := "", state := ReadingBulkSize))
        case None => Fault
      else Quiet(if c != '\r' then p.(buffer := p.buffer + [c]) else p)
    case ReadingBulkSize =>
      if c == '$' then Quiet(p.(buffer := ""))
      else if c == '\n' then
        if p.buffer == "" then Quiet(p)
        else match Stoi(p.buffer)
          case Some(n) => Quiet(p.(bulkLen := n, buffer := "", data := "", state := ReadingData))
          case None => Quiet(INITIAL)
      else Quiet(if c != '\r' then p.(buffer := p.buffer + [c]) else p)
    case ReadingData =>
      if |p.data| < p.bulkLen then Quiet(p.(data := p.data + [c]))
      else if c != '\n' then Quiet(p)
      else
        var args := p.args + [p.data];
        if |args| == p.arrayCount then Dispatch(INITIAL, args)
        else Quiet(p.(args := args, buffer := "", state := ReadingBulkSize))
  }

  /** Commands handed over by a byte string, in order, and the parser left
      behind; None when the process died on the way. */
  datatype Fed = Fed(commands: seq<Command>, end: Option<Parser>)

  function Feed(p: Parser, bytes: string): Fed
    decreases |bytes|
  {
    if bytes == "" then Fed([], Some(p))
    else match Step(p, bytes[0])
      case Quiet(q) => Feed(q, bytes[1..])
      case Dispatch(q, command) =>
        var rest := Feed(q, bytes[1..]);
        Fed([command] + rest.commands, rest.end)
      case Fault => Fed([], None)
  }

  // ---------- the printer ----------

  function BulkString(s: string): string {
    "$" + ToString(|s|) + "\r\n" + s + "\r\n"
  }

  function BulkStrings(args: seq<string>): string {
    if args == [] then "" else BulkString(args[0]) + BulkStrings(args[1..])
  }

  function Format(args: Command): string {
    "*" + ToString(|args|) + "\r\n" + BulkStrings(args)
  }

  function FormatAll(commands: seq<Command>): string {
    if commands == [] then "" else Format(commands[0]) + FormatAll(commands[1..])
  }

  /** resp_bulk_string: appends to the reply under construction. */
  method AppendBulkString(res: string, s: string) returns (r: string)
    ensures r == res + BulkString(s)
  {
    r := res + "$";
    r := r + ToString(|s|);
    r := r + "\r\n";
    r := r + s;
    r := r + "\r\n";
    assert r == res + BulkString(s);
  }

  method FormatRespCommand(args: Command) returns (res: string)
    ensures res == Format(args)
  {
    hide ToString, BulkString;
    res := "*";
    res := res + ToString(|args|);
    res := res + "\r\n";
    for i := 0 to |args|
      invariant res + BulkStrings(args[i..]) == Format(args)
    {
      ghost var before := res;
      res := AppendBulkString(res, args[i]);
      assert args[i..][1..] == args[i + 1..];
      assert before + (BulkString(args[i]) + BulkStrings(args[i + 1..])) == res + BulkStrings(args[i + 1..]);
    }
    assert res + "" == res;
  }

  // ---------- the parser object ----------

  class RespParser {
    var state: ParserState
    var args: seq<string>
    var arrayCount: int
    var bulkLen: int
    var buffer: string
    var data: string

    function Current(): Parser
      reads this
    {
      Parser(state, args, arrayCount, bulkLen, buffer, data)
    }

    constructor ()
      ensures Current() == INITIAL
    {
      state, args, arrayCount, bulkLen, buffer, data := Idle, [], 0, 0, "", "";
    }

    method Reset()
      modifies this
      ensures Current() == INITIAL
    {
      state, args, arrayCount, bulkLen, buffer, data := Idle, [], 0, 0, "", "";
    }

    /** One turn of the parse_and_execute loop up to the point where a complete
        command is handed over. `ok` is false when std::stoi throws uncaught. */
    method Accept(c: char) returns (ok: bool, command: Option<Command>)
      modifies this
      ensures Step(old(Current()), c) ==
              if !ok then Fault
              else if command.Some? then Dispatch(Current(), command.value)
              else Quiet(Current())
      ensures !ok ==> command == None
    {
      ok, command := true, None;
      match state {
        case Idle =>
          if c == '*' {
            state, buffer := ReadingArraySize, "";
          }
        case ReadingArraySize =>
          if c == '\n' {
            var n := Stoi(buffer);
            if n == None {
              return false, None;
            }
            arrayCount, buffer, state := n.value, "", ReadingBulkSize;
          } else if c != '\r' {
            buffer := buffer + [c];
          }
        case ReadingBulkSize =>
          if c == '$' {
            buffer := "";
          } else if c == '\n' {
            if buffer != "" {
              var n := Stoi(buffer);
              if n == None {
                Reset();
              } else {
                bulkLen, buffer, data, state := n.value, "", "", ReadingData;
              }
            }
          } else if c != '\r' {
            buffer := buffer + [c];
          }
        case ReadingData =>
          if |data| < bulkLen {
            data := data + [c];
          } else if c == '\n' {
            args := args + [data];
            if |args| == arrayCount {
              command := Some(args);
              Reset();
            } else {
              buffer, state := "", ReadingBulkSize;
            }
          }
      }
    }
  }

  // ---------- fragmentation ----------

  function Then(first: Fed, bytes: string): Fed {
    match first.end
    case None => first
    case Some(p) =>
      var rest := Feed(p, bytes);
      Fed(first.commands + rest.commands, rest.end)
  }

  lemma {:induction false} FeedConcat(p: Parser, a: string, b: string)
    ensures Feed(p, a + b) == Then(Feed(p, a), b)
    decreases |a|
  {
    if a == "" {
      assert a + b == b;
    } else {
      assert (a + b)[1..] == a[1..] + b;
      match Step(p, a[0])
      case Quiet(q) => FeedConcat(q, a[1..], b);
      case Dispatch(q, command) => FeedConcat(q, a[1..], b);
      case Fault =>
    }
  }

  /** One parse_and_execute call after another on the same parser. */
  function FeedReads(p: Parser, chunks: seq<string>): Fed
    decreases |chunks|
  {
    if chunks == [] then Fed([], Some(p))
    else
      var first := Feed(p, chunks[0]);
      match first.end
      case None => first
      case Some(q) =>
        var rest := FeedReads(q, chunks[1..]);
        Fed(first.commands + rest.commands, rest.end)
  }

  function Joined(chunks: seq<string>): string {
    if chunks == [] then "" else chunks[0] + Joined(chunks[1..])
  }

  /** However a byte stream is cut into reads, the same commands come out in
      the same order and the parser ends in the same state. */
  lemma {:induction false} FragmentationIndependence(p: Parser, chunks: seq<string>)
    ensures FeedReads(p, chunks) == Feed(p, Joined(chunks))
    decreases |chunks|
  {
    if chunks != [] {
      FeedConcat(p, chunks[0], Joined(chunks[1..]));
      var first := Feed(p, chunks[0]);
      if first.end.Some? {
        FragmentationIndependence(first.end.value, chunks[1..]);
      }
    }
  }

  // ---------- what every parser state satisfies ----------

  function Declared(n: int): nat { if n < 0 then 0 else n }

  predicate Invariant(p: Parser) {
    && (p.state == Idle ==> p == INITIAL)
    && (p.state == ReadingArraySize ==> p.args == [])
    && (p.arrayCount > 0 ==> |p.args| < p.arrayCount)
    && (p.state == ReadingData ==> |p.data| <= Declared(p.bulkLen))
  }

  /** Every byte keeps the invariant; an argument is only ever accepted with
      exactly its declared length; and a command that is handed over has exactly
      the declared number of arguments, the old ones and that last one. */
  lemma StepInvariant(p: Parser, c: char)
    requires Invariant(p)
    ensures Step(p, c).Fault? || Invariant(Step(p, c).next)
    ensures Step(p, c).Quiet? && Step(p, c).next.args != p.args && Step(p, c).next != INITIAL ==>
              exists a :: Step(p, c).next.args == p.args + [a] && |a| == Declared(p.bulkLen)
    ensures Step(p, c).Dispatch? ==>
              && |Step(p, c).command| == p.arrayCount >= 1
              && Step(p, c).command == p.args + [p.data] && |p.data| == Declared(p.bulkLen)
              && Step(p, c).next == INITIAL
    ensures Step(p, c).Fault? <==> p.state == ReadingArraySize && c == '\n' && Stoi(p.buffer) == None
  {
    if p.state == ReadingData && |p.data| >= p.bulkLen && c == '\n' {
      assert |p.data| == Declared(p.bulkLen);
    }
  }

  lemma {:induction false} FeedInvariant(p: Parser, bytes: string)
    requires Invariant(p)
    ensures Feed(p, bytes).end.Some? ==> Invariant(Feed(p, bytes).end.value)
    ensures forall k :: 0 <= k < |Feed(p, bytes).commands| ==> Feed(p, bytes).commands[k] != []
    decreases |bytes|
  {
    if bytes != "" {
      StepInvariant(p, bytes[0]);
      var e := Step(p, bytes[0]);
      if !e.Fault? {
        FeedInvariant(e.next, bytes[1..]);
      }
    }
  }

  /** What a command was announced with: the array size and one size per argument. */
  datatype Header = Header(count: int, sizes: seq<int>)

  /** The headers of the commands a stream hands over, as its sizes are read;
      `sizes` are those of the arguments the parser already holds. */
  function Headers(p: Parser, sizes: seq<int>, bytes: string): seq<Header>
    decreases |bytes|
  {
    if bytes == "" then []
    else
      match Step(p, bytes[0])
      case Fault => []
      case Dispatch(q, _) => [Header(p.arrayCount, sizes + [p.bulkLen])] + Headers(q, [], bytes[1..])
      case Quiet(q) =>
        var more := if q.args == [] then [] else if |q.args| > |p.args| then sizes + [p.bulkLen] else sizes;
        Headers(q, more, bytes[1..])
  }

  predicate SizesHeld(args: seq<string>, sizes: seq<int>) {
    |args| == |sizes| && forall i :: 0 <= i < |args| ==> |args[i]| == Declared(sizes[i])
  }

  predicate AsDeclared(command: seq<string>, header: Header) {
    |command| == header.count >= 1 && SizesHeld(command, header.sizes)
  }

  /** Every command any bytes hand over has exactly the declared number of
      arguments, each of exactly its declared size. */
  lemma {:induction false} CommandsAsDeclared(p: Parser, sizes: seq<int>, bytes: string)
    requires Invariant(p) && SizesHeld(p.args, sizes)
    ensures |Feed(p, bytes).commands| == |Headers(p, sizes, bytes)|
    ensures forall k :: 0 <= k < |Feed(p, bytes).commands| ==>
              AsDeclared(Feed(p, bytes).commands[k], Headers(p, sizes, bytes)[k])
    decreases |bytes|
  {
    if bytes != "" {
      StepInvariant(p, bytes[0]);
      StepArgs(p, bytes[0]);
      hide Step, Invariant;
      match Step(p, bytes[0])
      case Fault =>
      case Dispatch(q, _) => CommandsAsDeclared(q, [], bytes[1..]);
      case Quiet(q) =>
        var more := if q.args == [] then [] else if |q.args| > |p.args| then sizes + [p.bulkLen] else sizes;
        CommandsAsDeclared(q, more, bytes[1..]);
    }
  }

  lemma StepArgs(p: Parser, c: char)
    requires Invariant(p)
    ensures Step(p, c).Quiet? ==>
              var args := Step(p, c).next.args;
              args == p.args || args == [] || (args == p.args + [p.data] && |p.data| == Declared(p.bulkLen))
    ensures Step(p, c).Dispatch? ==> |p.data| == Declared(p.bulkLen)
  {}

  // ---------- round trip ----------

  /** A command whose sizes fit the parser's ints. */
  predicate Sized(args: Command) {
    && 1 <= |args| <= INT_MAX
    && forall i :: 0 <= i < |args| ==> |args[i]| <= INT_MAX
  }

  lemma {:induction false} FeedDigits(p: Parser, d: string)
    requires p.state == ReadingArraySize || p.state == ReadingBulkSize
    requires forall i :: 0 <= i < |d| ==> IsDigit(d[i])
    ensures Feed(p, d) == Fed([], Some(p.(buffer := p.buffer + d)))
    decreases |d|
  {
    if d == "" {
      assert p.buffer + d == p.buffer;
    } else {
      var q := p.(buffer := p.buffer + [d[0]]);
      FeedDigits(q, d[1..]);
      assert q.buffer + d[1..] == p.buffer + d;
    }
  }

  lemma {:induction false} FeedPayload(p: Parser, s: string)
    requires p.state == ReadingData && |p.data| + |s| <= p.bulkLen
    ensures Feed(p, s) == Fed([], Some(p.(data := p.data + s)))
    decreases |s|
  {
    if s == "" {
      assert p.data + s == p.data;
    } else {
      var q := p.(data := p.data + [s[0]]);
      FeedPayload(q, s[1..]);
      assert q.data + s[1..] == p.data + s;
    }
  }

  /** Bytes that hand over nothing only move the parser on. */
  lemma Advance(p: Parser, a: string, q: Parser, b: string)
    requires Feed(p, a) == Fed([], Some(q))
    ensures Feed(p, a + b) == Feed(q, b)
  {
    FeedConcat(p, a, b);
    assert [] + Feed(q, b).commands == Feed(q, b).commands;
  }

  lemma FeedNothing(p: Parser)
    ensures Feed(p, "") == Fed([], Some(p))
  {}

  lemma AdvanceOne(p: Parser, a: string, q: Parser, c: char, r: Parser)
    requires Feed(p, a) == Fed([], Some(q)) && Step(q, c) == Quiet(r)
    ensures Feed(p, a + [c]) == Fed([], Some(r))
  {
    Advance(p, a, q, [c]);
    assert [c][1..] == "";
    assert Feed(q, [c]) == Feed(r, "");
  }

  /** A count in digits, CR and newline, whichever count it is. */
  lemma FeedCount(p: Parser, a: string, q: Parser, d: string, n: int, r: Parser)
    requires Feed(p, a) == Fed([], Some(q))
    requires q.state == ReadingArraySize || q.state == ReadingBulkSize
    requires q.buffer == "" && d != "" && Stoi(d) == Some(n)
    requires forall i :: 0 <= i < |d| ==> IsDigit(d[i])
    requires r == if q.state == ReadingArraySize
                  then q.(arrayCount := n, state := ReadingBulkSize)
                  else q.(bulkLen := n, data := "", state := ReadingData)
    ensures Feed(p, a + d + "\r" + "\n") == Fed([], Some(r))
  {
    var s := q.(buffer := d);
    assert Feed(p, a + d) == Fed([], Some(s)) by {
      FeedDigits(q, d);
      assert "" + d == d;
      Advance(p, a, q, d);
    }
    assert Step(s, '\r') == Quiet(s);
    AdvanceOne(p, a + d, s, '\r', s);
    assert Step(s, '\n') == Quiet(r);
    AdvanceOne(p, a + d + "\r", s, '\n', r);
  }

  /** The bytes of one argument but for the final newline. */
  function BulkBody(s: string): string {
    "$" + ToString(|s|) + "\r" + "\n" + s + "\r"
  }

  lemma FeedBulkBody(p: Parser, s: string)
    requires p.state == ReadingBulkSize && p.buffer == "" && |s| <= INT_MAX
    ensures BulkString(s) == BulkBody(s) + "\n"
    ensures Feed(p, BulkBody(s)) ==
            Fed([], Some(p.(bulkLen := |s|, buffer := "", data := s, state := ReadingData)))
  {
    assert BulkString(s) == BulkBody(s) + "\n";
    AdvanceOne(p, "", p, '$', p);
    assert "" + "$" == "$";
    var r := p.(bulkLen := |s|, data := "", state := ReadingData);
    StoiToString(|s|);
    FeedCount(p, "$", p, ToString(|s|), |s|, r);
    FeedPayload(r, s);
    assert "" + s == s;
    var prefix := "$" + ToString(|s|) + "\r" + "\n";
    Advance(p, prefix, r, s);
    var t := r.(data := s);
    AdvanceOne(p, prefix + s, t, '\r', t);
  }

  /** All the bytes of a command but the last: no command yet, and the parser
      waits for exactly one newline. */
  lemma {:induction false} FeedAllButLast(p: Parser, args: seq<string>)
    requires p.state == ReadingBulkSize && p.buffer == ""
    requires args != [] && forall i :: 0 <= i < |args| ==> |args[i]| <= INT_MAX
    requires |p.args| + |args| == p.arrayCount
    ensures |BulkStrings(args)| > 0 && BulkStrings(args)[|BulkStrings(args)| - 1] == '\n'
    ensures Feed(p, BulkStrings(args)[..|BulkStrings(args)| - 1]).commands == []
    ensures var end := Feed(p, BulkStrings(args)[..|BulkStrings(args)| - 1]).end;
            end.Some? && Step(end.value, '\n') == Dispatch(INITIAL, p.args + args)
    decreases |args|
  {
    hide Feed, BulkString, BulkBody;
    var s := args[0];
    FeedBulkBody(p, s);
    var q := p.(bulkLen := |s|, buffer := "", data := s, state := ReadingData);
    if |args| == 1 {
      assert args == [s];
      assert BulkStrings(args) == BulkString(s) + "" == BulkBody(s) + "\n";
      assert BulkStrings(args)[..|BulkStrings(args)| - 1] == BulkBody(s);
    } else {
      var rest := args[1..];
      var r := q.(args := p.args + [s], state := ReadingBulkSize);
      AdvanceOne(p, BulkBody(s), q, '\n', r);
      FeedAllButLast(r, rest);
      var tail := BulkStrings(rest);
      Advance(p, BulkString(s), r, tail[..|tail| - 1]);
      assert BulkStrings(args)[..|BulkStrings(args)| - 1] == BulkString(s) + tail[..|tail| - 1];
      assert p.args + [s] + rest == p.args + args;
    }
  }

  lemma FeedCommandBody(args: Command)
    requires Sized(args)
    ensures |Format(args)| > 0 && Format(args)[|Format(args)| - 1] == '\n'
    ensures Feed(INITIAL, Format(args)[..|Format(args)| - 1]).commands == []
    ensures var end := Feed(INITIAL, Format(args)[..|Format(args)| - 1]).end;
            end.Some? && Step(end.value, '\n') == Dispatch(INITIAL, args)
  {
    hide Feed, ToString, BulkStrings;
    var p := INITIAL.(state := ReadingArraySize);
    FeedNothing(INITIAL);
    AdvanceOne(INITIAL, "", INITIAL, '*', p);
    assert "" + "*" == "*";
    var r := p.(arrayCount := |args|, state := ReadingBulkSize);
    StoiToString(|args|);
    FeedCount(INITIAL, "*", p, ToString(|args|), |args|, r);
    FeedAllButLast(r, args);
    var header, body := "*" + ToString(|args|) + "\r" + "\n", BulkStrings(args);
    Advance(INITIAL, header, r, body[..|body| - 1]);
    assert Format(args) == header + body;
    assert Format(args)[..|Format(args)| - 1] == header + body[..|body| - 1];
    assert [] + args == args;
  }

  /** Parsing one printed command hands over exactly that command. */
  lemma CommandRoundTrip(args: Command)
    requires Sized(args)
    ensures Feed(INITIAL, Format(args)) == Fed([args], Some(INITIAL))
  {
    FeedCommandBody(args);
    var body := Format(args)[..|Format(args)| - 1];
    assert Format(args) == body + "\n";
    FeedConcat(INITIAL, body, "\n");
    var p := Feed(INITIAL, body).end.value;
    assert "\n"[1..] == "";
    assert Feed(p, "\n") == Fed([args] + Feed(INITIAL, "").commands, Some(INITIAL));
  }

  /** A log read back from a fresh parser is the list of commands that was
      written, whatever bytes the arguments hold, and nothing is left over. */
  lemma {:induction false} LogRoundTrip(commands: seq<Command>)
    requires forall i :: 0 <= i < |commands| ==> Sized(commands[i])
    ensures Feed(INITIAL, FormatAll(commands)) == Fed(commands, Some(INITIAL))
  {
    if commands != [] {
      CommandRoundTrip(commands[0]);
      LogRoundTrip(commands[1..]);
      FeedConcat(INITIAL, Format(commands[0]), FormatAll(commands[1..]));
      assert [commands[0]] + commands[1..] == commands;
    }
  }

  /** How many commands lie wholly inside the first n bytes of a log. */
  function Whole(commands: seq<Command>, n: nat): (k: nat)
    ensures k <= |commands|
  {
    if commands == [] || n < |Format(commands[0])| then 0
    else 1 + Whole(commands[1..], n - |Format(commands[0])|)
  }

  /** What Whole counts: the commands up to k end within the first n bytes and
      the next one does not. */
  lemma {:induction false} WholeIsExact(commands: seq<Command>, n: nat)
    requires n <= |FormatAll(commands)|
    ensures |FormatAll(commands[..Whole(commands, n)])| <= n
    ensures Whole(commands, n) < |commands| ==> n < |FormatAll(commands[..Whole(commands, n) + 1])|
  {
    hide Format;
    if commands != [] {
      var size := |Format(commands[0])|;
      if n < size {
        assert commands[..1][1..] == [];
      } else {
        WholeIsExact(commands[1..], n - size);
        var k := Whole(commands[1..], n - size);
        assert commands[..k + 1][1..] == commands[1..][..k];
        if k < |commands| - 1 {
          assert commands[..k + 2][1..] == commands[1..][..k + 1];
        }
      }
    }
  }

  lemma TornCommand(args: Command, n: nat)
    requires Sized(args) && n < |Format(args)|
    ensures Feed(INITIAL, Format(args)[..n]).commands == []
    ensures Feed(INITIAL, Format(args)[..n]).end.Some?
  {
    hide Feed, Format, Step;
    FeedCommandBody(args);
    var body := Format(args)[..|Format(args)| - 1];
    assert body == Format(args)[..n] + body[n..];
    FeedConcat(INITIAL, Format(args)[..n], body[n..]);
  }

  /** A log cut after any byte: exactly the commands whose encoding is complete
      are handed over, and nothing of the torn one. */
  lemma {:induction false} TornLog(commands: seq<Command>, n: nat)
    requires forall i :: 0 <= i < |commands| ==> Sized(commands[i])
    requires n <= |FormatAll(commands)|
    ensures Feed(INITIAL, FormatAll(commands)[..n]).commands == commands[..Whole(commands, n)]
    ensures Feed(INITIAL, FormatAll(commands)[..n]).end.Some?
    decreases |commands|
  {
    if commands == [] {
      assert FormatAll(commands)[..n] == "";
    } else {
      hide Feed, Format, Sized;
      var first, rest := Format(commands[0]), FormatAll(commands[1..]);
      var log := first + rest;
      assert FormatAll(commands) == log && commands[..0] == [];
      assert Whole(commands, n) == if n < |first| then 0 else 1 + Whole(commands[1..], n - |first|);
      assert Sized(commands[0]);
      hide FormatAll, Whole;
      PrefixOfTwo(first, rest, n);
      if n < |first| {
        TornCommand(commands[0], n);
      } else {
        TornLog(commands[1..], n - |first|);
        TornStep(commands[0], rest, n - |first|);
        TakeOneMore(commands, Whole(commands[1..], n - |first|));
      }
    }
  }

  lemma PrefixOfTwo(a: string, b: string, n: nat)
    requires n <= |a| + |b|
    ensures (a + b)[..n] == if n < |a| then a[..n] else a + b[..n - |a|]
  {}

  lemma TakeOneMore(commands: seq<Command>, k: nat)
    requires commands != [] && k < |commands|
    ensures [commands[0]] + commands[1..][..k] == commands[..k + 1]
  {}

  lemma TornStep(args: Command, rest: string, n: nat)
    requires Sized(args) && n <= |rest|
    ensures Feed(INITIAL, Format(args) + rest[..n]).commands == [args] + Feed(INITIAL, rest[..n]).commands
    ensures Feed(INITIAL, Format(args) + rest[..n]).end == Feed(INITIAL, rest[..n]).end
  {
    hide Feed, Format, Sized;
    CommandRoundTrip(args);
    FeedConcat(INITIAL, Format(args), rest[..n]);
  }

  // ---------- appending to a log that ends in any state ----------

  predicate StarFree(s: string) {
    forall i :: 0 <= i < |s| ==> s[i] != '*'
  }

  /** Without a star no new command begins: at most the one under way is completed,
      with the arguments already there and in the declared number. */
  lemma {:induction false} StarFreeFeed(p: Parser, bytes: string)
    requires StarFree(bytes)
    ensures p.state == Idle ==> Feed(p, bytes) == Fed([], Some(p))
    ensures |Feed(p, bytes).commands| <= 1
    ensures |Feed(p, bytes).commands| == 1 ==> p.args <= Feed(p, bytes).commands[0]
    ensures |Feed(p, bytes).commands| == 1 && (p.state == ReadingBulkSize || p.state == ReadingData) ==>
              |Feed(p, bytes).commands[0]| == p.arrayCount
    decreases |bytes|
  {
    if bytes != "" {
      var e := Step(p, bytes[0]);
      if !e.Fault? {
        StarFreeFeed(e.next, bytes[1..]);
      }
    }
  }

  /** ... and the argument under way comes out with its declared size. */
  lemma {:induction false} FirstArgument(p: Parser, bytes: string)
    requires Invariant(p) && p.state == ReadingData && StarFree(bytes)
    ensures |Feed(p, bytes).commands| <= 1
    ensures |Feed(p, bytes).commands| == 1 ==>
              var c := Feed(p, bytes).commands[0];
              |c| > |p.args| && |c[|p.args|]| == Declared(p.bulkLen)
    decreases |bytes|
  {
    if bytes != "" {
      StepInvariant(p, bytes[0]);
      var q := Step(p, bytes[0]).next;
      if q.state == ReadingData {
        FirstArgument(q, bytes[1..]);
      } else {
        StarFreeFeed(q, bytes[1..]);
      }
    }
  }

  /** The header of a command appended where an array or argument size is being read:
      its star ends the number, its newline the line. */
  lemma HeaderInSize(p: Parser, n: nat)
    requires p.state == ReadingArraySize || p.state == ReadingBulkSize
    ensures Feed(p, "*" + ToString(n) + "\r") == Fed([], Some(p.(buffer := p.buffer + "*" + ToString(n))))
    ensures Stoi(p.buffer + "*" + ToString(n)) == Stoi(p.buffer)
  {
    hide Feed, Digits, Stoi, ToString;
    var d := ToString(n);
    assert forall i :: 0 <= i < |d| ==> IsDigit(d[i]) by { DigitsRead(n); WrittenCount(n); }
    var q := p.(buffer := p.buffer + "*");
    FeedOne(p, '*', q);
    FeedDigits(q, d);
    assert q.buffer + d == p.buffer + "*" + d;
    Advance(p, "*", q, d);
    var r := p.(buffer := p.buffer + "*" + d);
    AdvanceOne(p, "*" + d, r, '\r', r);
    StarEndsNumber(p.buffer, d);
  }

  lemma WrittenCount(n: nat)
    ensures ToString(n) == Digits(n)
  {}

  lemma FeedOne(p: Parser, c: char, q: Parser)
    requires Step(p, c) == Quiet(q)
    ensures Feed(p, [c]) == Fed([], Some(q))
  {
    assert [c][1..] == "";
    assert Feed(p, [c]) == Feed(q, "");
  }

  lemma FeedFault(p: Parser, a: string, q: Parser, c: char, rest: string)
    requires Feed(p, a) == Fed([], Some(q)) && Step(q, c) == Fault
    ensures Feed(p, a + ([c] + rest)) == Fed([], None)
  {
    Advance(p, a, q, [c] + rest);
    assert ([c] + rest)[0] == c;
  }

  /** A command whose arguments are all of one byte or none. */
  function Probe(count: nat, byte: string): Command {
    seq(count, _ => byte)
  }

  lemma {:induction false} ProbeBytes(args: Command)
    requires forall i :: 0 <= i < |args| ==> args[i] == "" || args[i] == "x"
    ensures StarFree(BulkStrings(args))
    decreases |args|
  {
    hide Digits;
    if args != [] {
      DigitsRead(|args[0]|);
      ProbeBytes(args[1..]);
    }
  }

  /** Wherever a parser stands but at the start, some command is not read back when it
      is appended there. */
  lemma NotReadBack(p: Parser) returns (args: Command)
    requires Invariant(p) && p != INITIAL
    ensures Sized(args) && Feed(p, Format(args)) != Fed([args], Some(INITIAL))
  {
    match p.state {
      case ReadingArraySize =>
        args := Probe(if Stoi(p.buffer) == Some(1) then 2 else 1, "");
        LostInArraySize(p, args);
      case ReadingBulkSize =>
        args := Probe(1, if Stoi(p.buffer).Some? && Stoi(p.buffer).value <= 0 then "x" else "");
        LostInBulkSize(p, args);
      case ReadingData =>
        args := Probe(1, if p.bulkLen <= 0 then "x" else "");
        LostInData(p, args);
    }
  }

  lemma FormatSplit(args: Command)
    ensures Format(args) == "*" + ToString(|args|) + "\r" + (['\n'] + BulkStrings(args))
  {
    hide ToString, BulkStrings;
  }

  lemma AfterNewline(p: Parser, a: string, q: Parser, r: Parser, rest: string)
    requires Feed(p, a) == Fed([], Some(q)) && Step(q, '\n') == Quiet(r)
    ensures Feed(p, a + (['\n'] + rest)) == Feed(r, rest)
  {
    Advance(p, a, q, ['\n'] + rest);
    assert (['\n'] + rest)[0] == '\n' && (['\n'] + rest)[1..] == rest;
  }

  lemma LostInArraySize(p: Parser, args: Command)
    requires p.state == ReadingArraySize && Stoi(p.buffer) != Some(|args|)
    requires forall i :: 0 <= i < |args| ==> args[i] == "" || args[i] == "x"
    ensures Feed(p, Format(args)) != Fed([args], Some(INITIAL))
  {
    hide Feed, Stoi, BulkStrings, Format, ToString;
    HeaderInSize(p, |args|);
    FormatSplit(args);
    ProbeBytes(args);
    var head := "*" + ToString(|args|) + "\r";
    var q := p.(buffer := p.buffer + "*" + ToString(|args|));
    match Stoi(p.buffer)
    case None => FeedFault(p, head, q, '\n', BulkStrings(args));
    case Some(n) =>
      var r := q.(arrayCount := n, buffer := "", state := ReadingBulkSize);
      AfterNewline(p, head, q, r, BulkStrings(args));
      StarFreeFeed(r, BulkStrings(args));
  }

  lemma LostInBulkSize(p: Parser, args: Command)
    requires Invariant(p) && p.state == ReadingBulkSize && |args| == 1 && (args[0] == "" || args[0] == "x")
    requires Stoi(p.buffer).Some? ==> |args[0]| != Declared(Stoi(p.buffer).value)
    ensures Feed(p, Format(args)) != Fed([args], Some(INITIAL))
  {
    hide Feed, Stoi, BulkStrings, Format, ToString;
    HeaderInSize(p, |args|);
    FormatSplit(args);
    ProbeBytes(args);
    var head := "*" + ToString(|args|) + "\r";
    var q := p.(buffer := p.buffer + "*" + ToString(|args|));
    match Stoi(p.buffer)
    case None =>
      AfterNewline(p, head, q, INITIAL, BulkStrings(args));
      StarFreeFeed(INITIAL, BulkStrings(args));
    case Some(n) =>
      var r := q.(bulkLen := n, buffer := "", data := "", state := ReadingData);
      AfterNewline(p, head, q, r, BulkStrings(args));
      FirstArgument(r, BulkStrings(args));
  }

  lemma LostInData(p: Parser, args: Command)
    requires Invariant(p) && p.state == ReadingData && |args| == 1 && (args[0] == "" || args[0] == "x")
    requires |args[0]| != Declared(p.bulkLen)
    ensures Feed(p, Format(args)) != Fed([args], Some(INITIAL))
  {
    hide Feed, BulkStrings, Digits;
    StepInvariant(p, '*');
    var q := Step(p, '*').next;
    FeedOne(p, '*', q);
    ProbeBytes(args);
    DigitsRead(|args|);
    var rest := ToString(|args|) + "\r\n" + BulkStrings(args);
    Advance(p, "*", q, rest);
    assert Format(args) == "*" + rest;
    FirstArgument(q, rest);
  }

  /** A log can go on being written, whatever is written, if and only if it ends with
      a complete command: then, and only then, is every command appended to it read
      back as that command after those that were there. */
  lemma AppendableIff(log: string)
    requires Feed(INITIAL, log).end.Some?
    ensures (forall args :: Sized(args) ==>
               Feed(INITIAL, log + Format(args)) == Fed(Feed(INITIAL, log).commands + [args], Some(INITIAL)))
            <==> Feed(INITIAL, log).end == Some(INITIAL)
  {
    hide Feed, Format, Sized;
    FeedInvariant(INITIAL, log);
    var p := Feed(INITIAL, log).end.value;
    if p == INITIAL {
      forall args | Sized(args)
        ensures Feed(INITIAL, log + Format(args)) == Fed(Feed(INITIAL, log).commands + [args], Some(INITIAL)) {
        CommandRoundTrip(args);
        FeedConcat(INITIAL, log, Format(args));
      }
    } else {
      var args := NotReadBack(p);
      FeedConcat(INITIAL, log, Format(args));
      var rest := Feed(p, Format(args));
      var first := Feed(INITIAL, log).commands;
      assert first + rest.commands == first + [args] ==> rest.commands == [args] by {
        SameTail(first, rest.commands, [args]);
      }
    }
  }

  lemma SameTail<T>(a: seq<T>, b: seq<T>, c: seq<T>)
    ensures a + b == a + c ==> b == c
  {
    assert (a + b)[|a|..] == b && (a + c)[|a|..] == c;
  }

  /** The star of a command that was torn after one byte spoils the array size of
      the next. */
  lemma StrayStar(args: Command)
    ensures Feed(INITIAL, "*") == Fed([], Some(INITIAL.(state := ReadingArraySize)))
    ensures Feed(INITIAL, "*" + Format(args)) == Fed([], None)
  {
    hide Feed, Stoi, BulkStrings, Format, ToString;
    var p := INITIAL.(state := ReadingArraySize);
    FeedOne(INITIAL, '*', p);
    HeaderInSize(p, |args|);
    NoNumber();
    FormatSplit(args);
    var q := p.(buffer := p.buffer + "*" + ToString(|args|));
    FeedFault(p, "*" + ToString(|args|) + "\r", q, '\n', BulkStrings(args));
    Advance(INITIAL, "*", p, Format(args));
  }

  lemma NoNumber()
    ensures Stoi("") == None
  {}

  lemma {:induction false} FeedSkipped(p: Parser, s: string)
    requires p.state == ReadingData && |p.data| >= p.bulkLen
    requires forall i :: 0 <= i < |s| ==> s[i] != '\n'
    ensures Feed(p, s) == Fed([], Some(p))
    decreases |s|
  {
    if s != "" {
      FeedSkipped(p, s[1..]);
    }
  }

  /** A deletion torn after its name, whatever key it was for. */
  const TORN_DEL := "*2\r\n" + BulkBody("DEL")

  lemma TornDel()
    ensures Feed(INITIAL, TORN_DEL) == Fed([], Some(Parser(ReadingData, [], 2, 3, "", "DEL")))
  {
    hide Feed, BulkBody;
    var p := INITIAL.(state := ReadingArraySize);
    FeedOne(INITIAL, '*', p);
    StoiToString(2);
    assert ToString(2) == "2";
    var q := p.(arrayCount := 2, state := ReadingBulkSize);
    FeedCount(INITIAL, "*", p, "2", 2, q);
    FeedBulkBody(q, "DEL");
    assert "*" + "2" + "\r" + "\n" == "*2\r\n";
    Advance(INITIAL, "*2\r\n", q, BulkBody("DEL"));
  }

  /** Torn there, the log makes the name of the next command the key to delete: a
      command nobody sent is handed over, the one appended is lost, and the parser
      is none the wiser. */
  lemma ForgedDelete(key: string, args: Command)
    requires Sized(args) && StarFree(BulkStrings(args[1..]))
    ensures TORN_DEL <= Format(["DEL", key])
    ensures Feed(INITIAL, TORN_DEL + Format(args)) == Fed([["DEL", args[0]]], Some(INITIAL))
  {
    TornPrefix(key);
    assert args != [];
    hide Feed, Format, BulkStrings, BulkBody, BulkString, ToString, Digits, Sized;
    TornDel();
    var p := Parser(ReadingData, [], 2, 3, "", "DEL");
    Advance(INITIAL, TORN_DEL, p, Format(args));
    FormatSplit(args);
    var head := "*" + ToString(|args|) + "\r";
    assert forall i :: 0 <= i < |head| ==> head[i] != '\n' by { DigitsRead(|args|); WrittenCount(|args|); }
    FeedSkipped(p, head);
    var q := p.(args := ["DEL"], buffer := "", state := ReadingBulkSize);
    assert p.args + [p.data] == ["DEL"];
    AfterNewline(p, head, p, q, BulkStrings(args));
    DispatchNext(q, args);
    assert q.args + [args[0]] == ["DEL", args[0]];
  }

  /** The first of some arguments completes the command under way. */
  lemma DispatchNext(q: Parser, args: Command)
    requires Sized(args) && StarFree(BulkStrings(args[1..]))
    requires q.state == ReadingBulkSize && q.buffer == "" && |q.args| + 1 == q.arrayCount
    ensures Feed(q, BulkStrings(args)) == Fed([q.args + [args[0]]], Some(INITIAL))
  {
    hide Feed, BulkBody, BulkString;
    var s, rest := args[0], BulkStrings(args[1..]);
    FeedBulkBody(q, s);
    var r := q.(bulkLen := |s|, buffer := "", data := s, state := ReadingData);
    assert BulkStrings(args) == BulkBody(s) + (['\n'] + rest);
    Advance(q, BulkBody(s), r, ['\n'] + rest);
    FeedDispatch(r, rest, q.args + [s]);
    StarFreeFeed(INITIAL, rest);
  }

  lemma FeedDispatch(r: Parser, rest: string, command: Command)
    requires Step(r, '\n') == Dispatch(INITIAL, command)
    ensures Feed(r, ['\n'] + rest) == Fed([command] + Feed(INITIAL, rest).commands, Feed(INITIAL, rest).end)
  {
    assert (['\n'] + rest)[0] == '\n' && (['\n'] + rest)[1..] == rest;
  }

  lemma TornPrefix(key: string)
    ensures TORN_DEL <= Format(["DEL", key])
  {
    var args := ["DEL", key];
    assert ToString(2) == "2";
    assert args[1..] == [key];
    hide ToString;
    assert BulkString("DEL") == BulkBody("DEL") + "\n";
    assert Format(args) == "*2\r\n" + (BulkString("DEL") + BulkStrings([key]));
    assert Format(args) == TORN_DEL + ("\n" + BulkStrings([key]));
  }

  // ---------- where a torn log ends ----------

  lemma {:induction false} WithoutNewline(p: Parser, s: string)
    requires p.state != Idle && forall i :: 0 <= i < |s| ==> s[i] != '\n'
    ensures Feed(p, s).end.Some? && Feed(p, s).end.value.state == p.state
    decreases |s|
  {
    if s != "" {
      WithoutNewline(Step(p, s[0]).next, s[1..]);
    }
  }

  lemma BusyBody(p: Parser, s: string, j: nat)
    requires p.state == ReadingBulkSize && p.buffer == "" && |s| <= INT_MAX
    requires j <= |BulkBody(s)|
    ensures Feed(p, BulkBody(s)[..j]).end.Some? && Feed(p, BulkBody(s)[..j]).end.value.state != Idle
  {
    hide Feed, Digits;
    var d := ToString(|s|);
    StoiToString(|s|);
    var head, rest := "$" + d + "\r", s + "\r";
    assert BulkBody(s) == head + "\n" + rest;
    if j <= |head| {
      assert BulkBody(s)[..j] == head[..j];
      WithoutNewline(p, head[..j]);
    } else {
      FeedOne(p, '$', p);
      var r := p.(bulkLen := |s|, data := "", state := ReadingData);
      FeedCount(p, "$", p, d, |s|, r);
      var i := j - |head| - 1;
      assert BulkBody(s)[..j] == head + "\n" + rest[..i];
      Advance(p, head + "\n", r, rest[..i]);
      BusyPayload(r, s, i);
    }
  }

  lemma BusyPayload(r: Parser, s: string, i: nat)
    requires r.state == ReadingData && r.data == "" && r.bulkLen == |s| && i <= |s| + 1
    ensures Feed(r, (s + "\r")[..i]).end.Some? && Feed(r, (s + "\r")[..i]).end.value.state != Idle
  {
    hide Feed;
    if i <= |s| {
      assert (s + "\r")[..i] == s[..i];
      FeedPayload(r, s[..i]);
    } else {
      assert (s + "\r")[..i] == s + "\r";
      FeedPayload(r, s);
      assert r.data + s == s;
      var t := r.(data := s);
      AdvanceOne(r, s, t, '\r', t);
    }
  }

  lemma {:induction false} BusyBulks(p: Parser, args: seq<string>, j: nat)
    requires p.state == ReadingBulkSize && p.buffer == ""
    requires args != [] && forall i :: 0 <= i < |args| ==> |args[i]| <= INT_MAX
    requires |p.args| + |args| == p.arrayCount && j < |BulkStrings(args)|
    ensures Feed(p, BulkStrings(args)[..j]).end.Some? && Feed(p, BulkStrings(args)[..j]).end.value.state != Idle
    decreases |args|
  {
    var s, rest := args[0], args[1..];
    assert BulkStrings(args) == BulkString(s) + BulkStrings(rest);
    hide Feed, BulkBody, BulkString, BulkStrings;
    FeedBulkBody(p, s);
    PrefixOfTwo(BulkString(s), BulkStrings(rest), j);
    if j <= |BulkBody(s)| {
      assert BulkString(s)[..j] == BulkBody(s)[..j];
      BusyBody(p, s, j);
    } else {
      NoBytes();
      var q := p.(bulkLen := |s|, buffer := "", data := s, state := ReadingData);
      var r := q.(args := p.args + [s], state := ReadingBulkSize);
      AdvanceOne(p, BulkBody(s), q, '\n', r);
      Advance(p, BulkString(s), r, BulkStrings(rest)[..j - |BulkString(s)|]);
      BusyBulks(r, rest, j - |BulkString(s)|);
    }
  }

  lemma NoBytes()
    ensures BulkStrings([]) == ""
  {}

  /** Inside a command the parser is never back at the start. */
  lemma BusyCommand(args: Command, j: nat)
    requires Sized(args) && 0 < j < |Format(args)|
    ensures Feed(INITIAL, Format(args)[..j]).end.Some?
    ensures Feed(INITIAL, Format(args)[..j]).end.value.state != Idle
  {
    hide Feed, BulkStrings, Digits;
    var p := INITIAL.(state := ReadingArraySize);
    var d := ToString(|args|);
    StoiToString(|args|);
    FeedOne(INITIAL, '*', p);
    var head := d + "\r";
    assert Format(args) == "*" + head + "\n" + BulkStrings(args);
    if j <= |head| + 1 {
      assert Format(args)[..j] == "*" + head[..j - 1];
      WithoutNewline(p, head[..j - 1]);
      Advance(INITIAL, "*", p, head[..j - 1]);
    } else {
      var r := p.(arrayCount := |args|, state := ReadingBulkSize);
      FeedCount(INITIAL, "*", p, d, |args|, r);
      var i := j - |head| - 2;
      assert Format(args)[..j] == "*" + d + "\r" + "\n" + BulkStrings(args)[..i];
      Advance(INITIAL, "*" + d + "\r" + "\n", r, BulkStrings(args)[..i]);
      BusyBulks(r, args, i);
    }
  }

  lemma FirstOf(commands: seq<Command>, k: nat)
    requires k < |commands|
    ensures FormatAll(commands[..k + 1]) == Format(commands[0]) + FormatAll(commands[1..][..k])
  {
    hide Format;
    assert commands[..k + 1][1..] == commands[1..][..k];
  }

  lemma SamePrefix(a: string, b: string, c: string)
    ensures a + b == a + c <==> b == c
  {
    SameTail(a, b, c);
  }

  lemma IntactStep(c: Command, more: seq<Command>, m: nat, whole: string)
    requires Sized(c) && m <= |FormatAll(more)|
    requires Feed(INITIAL, FormatAll(more)[..m]).end == Some(INITIAL) <==> FormatAll(more)[..m] == whole
    ensures Feed(INITIAL, Format(c) + FormatAll(more)[..m]).end == Some(INITIAL)
            <==> Format(c) + FormatAll(more)[..m] == Format(c) + whole
  {
    hide Feed, Format, Sized, FormatAll;
    TornStep(c, FormatAll(more), m);
    SamePrefix(Format(c), FormatAll(more)[..m], whole);
  }

  lemma NothingIntact()
    ensures FormatAll([]) == "" && Feed(INITIAL, "").end == Some(INITIAL)
  {}

  /** A torn log leaves the parser at the start if and only if it is torn between two
      commands. */
  lemma {:induction false} IntactIff(commands: seq<Command>, n: nat)
    requires forall i :: 0 <= i < |commands| ==> Sized(commands[i])
    requires n <= |FormatAll(commands)|
    ensures Feed(INITIAL, FormatAll(commands)[..n]).end == Some(INITIAL)
            <==> FormatAll(commands)[..n] == FormatAll(commands[..Whole(commands, n)])
    decreases |commands|
  {
    NothingIntact();
    if commands == [] {
      assert FormatAll(commands)[..n] == "" && commands[..Whole(commands, n)] == [];
    } else {
      var first, rest := Format(commands[0]), FormatAll(commands[1..]);
      assert FormatAll(commands) == first + rest;
      assert Whole(commands, n) == if n < |first| then 0 else 1 + Whole(commands[1..], n - |first|);
      assert Sized(commands[0]);
      hide Feed, Format, Whole, Sized, FormatAll;
      PrefixOfTwo(first, rest, n);
      if n < |first| {
        assert commands[..0] == [];
        if n > 0 { BusyCommand(commands[0], n); } else { assert first[..0] == ""; }
      } else {
        var m := n - |first|;
        var k := Whole(commands[1..], m);
        IntactIff(commands[1..], m);
        FirstOf(commands, k);
        IntactStep(commands[0], commands[1..], m, FormatAll(commands[1..][..k]));
      }
    }
  }
}
