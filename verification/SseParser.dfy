/** The bounded Server-Sent Events parser, after section 9.2.6 of the HTML Living Standard.
    Among the differences, all as in the source: a line without a colon is ignored, an
    unterminated last event is emitted, and an empty event name stays empty.  `decode` is
    JSON parsing to an object, none when the text is not one; lines are text already
    decoded from UTF-8. */
module SseParser {
  import opened Common

  datatype Event<+J> = Event(name: string, payload: J)

  datatype Error = LimitsNotPositive | TooManyLines | TooManyBytes | BadJson

  /** The events yielded, and the error raised after the last of them, if any. */
  datatype Outcome<+J> = Outcome(events: seq<Event<J>>, error: Option<Error>)

  type Decoder<!J> = string -> Option<J>

  datatype Limits = Limits(maximumBytes: int, maximumLines: int)

  /** The event being collected. */
  datatype Pending = Pending(name: string, data: seq<string>, bytes: nat)

  const FRESH := Pending("message", [], 0)

  // ----- one line -----

  datatype Field = Blank | Ignored | Name(value: string) | Data(value: string)

  function StripOne(value: string): string {
    if value != [] && value[0] == ' ' then value[1..] else value
  }

  function FieldOf(line: string): Field {
    if line == "" then Blank
    else
      var colon := Find(line, ':');
      if colon == 0 || colon == |line| then Ignored
      else
        var value := StripOne(line[colon + 1..]);
        if line[..colon] == "event" then Name(value) else if line[..colon] == "data" then Data(value) else Ignored
  }

  /** A line is a field when it has a colon that is not its first character; only data and
      event fields matter, and one space after the colon is dropped. */
  lemma FieldsExactly(name: string, value: string)
    requires ':' !in name
    ensures FieldOf("") == Blank && FieldOf(":" + value) == Ignored && (name != "" ==> FieldOf(name) == Ignored)
    ensures name != "" && name != "data" && name != "event" ==> FieldOf(name + ":" + value) == Ignored
    ensures value == "" || value[0] != ' ' ==> FieldOf("data:" + value) == Data(value)
    ensures value == "" || value[0] != ' ' ==> FieldOf("event:" + value) == Name(value)
    ensures FieldOf("data: " + value) == Data(value) && FieldOf("event: " + value) == Name(value)
  {
    assert forall i :: 0 <= i < |name| ==> name[i] in name;
    Splits(name, value);
    Splits("data", value);
    Splits("event", value);
    Splits("data", " " + value);
    Splits("event", " " + value);
    assert "data: " + value == "data" + ":" + (" " + value) && "event: " + value == "event" + ":" + (" " + value);
    assert "data:" + value == "data" + ":" + value && "event:" + value == "event" + ":" + value;
    assert (" " + value)[1..] == value;
  }

  lemma Splits(name: string, value: string)
    requires ':' !in name
    ensures var line := name + ":" + value;
            Find(line, ':') == |name| && line[..|name|] == name && line[|name| + 1..] == value
  {
    assert forall i :: 0 <= i < |name| ==> name[i] in name;
    FindIsFirst(name + ":" + value, ':', |name|);
  }

  /** The length of one character in UTF-8. */
  function Utf8Width(c: char): nat {
    if c as int < 0x80 then 1 else if c as int < 0x800 then 2 else if c as int < 0x1_0000 then 3 else 4
  }

  /** The number of characters that `w` bytes of UTF-8 can distinguish: 7 bits in one byte,
      5 w + 1 bits in more. */
  function Capacity(w: nat): nat {
    if w == 0 then 0 else if w == 1 then 0x80 else if w == 2 then 0x800 else 32 * Capacity(w - 1)
  }

  /** Each character takes the fewest bytes that can hold it. */
  lemma Utf8WidthIsLeast(c: char)
    ensures Capacity(Utf8Width(c) - 1) <= c as int < Capacity(Utf8Width(c)) && 1 <= Utf8Width(c) <= 4
  {
    assert Capacity(3) == 32 * Capacity(2) && Capacity(4) == 32 * Capacity(3);
  }

  function Utf8Length(s: string): nat {
    if s == [] then 0 else Utf8Width(s[0]) + Utf8Length(s[1..])
  }

  // ----- the parser -----

  /** `"\n".join(lines)`. */
  function Join(lines: seq<string>): string {
    if lines == [] then "" else if |lines| == 1 then lines[0] else lines[0] + "\n" + Join(lines[1..])
  }

  /** Lines are joined with one line feed between neighbours. */
  lemma {:induction false} JoinExactly(lines: seq<string>, last: string)
    ensures Join([last]) == last
    ensures lines != [] ==> Join(lines + [last]) == Join(lines) + "\n" + last
  {
    if lines != [] {
      var rest := lines[1..];
      assert (lines + [last])[0] == lines[0] && (lines + [last])[1..] == rest + [last];
      if rest == [] {
        assert rest + [last] == [last];
      } else {
        JoinExactly(rest, last);
        Regroup(lines[0] + "\n", Join(rest) + "\n", last);
        assert Join(lines + [last]) == lines[0] + "\n" + Join(rest + [last]);
        Regroup(lines[0] + "\n", Join(rest), "\n");
        Regroup(lines[0] + "\n", Join(rest), "\n" + last);
      }
    }
  }

  /** What the end of an event yields. */
  function Emitted<J>(decode: Decoder<J>, p: Pending): Outcome<J> {
    if p.data == [] then Outcome([], None)
    else
      match decode(Join(p.data))
      case None => Outcome([], Some(BadJson))
      case Some(j) => Outcome([Event(p.name, j)], None)
  }

  /** The first outcome, and the second after it unless the first raised an error. */
  function Then<J>(a: Outcome<J>, b: Outcome<J>): Outcome<J> {
    if a.error.Some? then a else Outcome(a.events + b.events, b.error)
  }

  function WithData(p: Pending, value: string): Pending {
    Pending(p.name, p.data + [value], p.bytes + Utf8Length(value))
  }

  function Run<J>(limits: Limits, decode: Decoder<J>, lines: seq<string>, p: Pending): Outcome<J> {
    if lines == [] then Emitted(decode, p)
    else
      match FieldOf(lines[0])
      case Blank => Then(Emitted(decode, p), Run(limits, decode, lines[1..], FRESH))
      case Ignored => Run(limits, decode, lines[1..], p)
      case Name(value) => Run(limits, decode, lines[1..], p.(name := value))
      case Data(value) =>
        var q := WithData(p, value);
        if |q.data| > limits.maximumLines then Outcome([], Some(TooManyLines))
        else if q.bytes > limits.maximumBytes then Outcome([], Some(TooManyBytes))
        else Run(limits, decode, lines[1..], q)
  }

  function Parse<J>(limits: Limits, decode: Decoder<J>, lines: seq<string>): Outcome<J> {
    if limits.maximumBytes <= 0 || limits.maximumLines <= 0 then Outcome([], Some(LimitsNotPositive))
    else Run(limits, decode, lines, FRESH)
  }

  lemma ThenNothing<J>(o: Outcome<J>)
    ensures Then(Outcome([], None), o) == o
  {
    assert [] + o.events == o.events;
  }

  lemma ThenAssociates<J>(a: Outcome<J>, b: Outcome<J>, c: Outcome<J>)
    ensures Then(a, Then(b, c)) == Then(Then(a, b), c)
  {
    assert a.events + (b.events + c.events) == a.events + b.events + c.events;
  }

  /** The parser as the source runs it: one pass that updates the pending event and
      yields on blank lines; the yielded events are collected. */
  method ParseSse<J>(limits: Limits, decode: Decoder<J>, lines: seq<string>) returns (r: Outcome<J>)
    ensures r == Parse(limits, decode, lines)
  {
    if limits.maximumBytes <= 0 || limits.maximumLines <= 0 { return Outcome([], Some(LimitsNotPositive)); }
    var name, data: seq<string>, bytes: nat := "message", [], 0;
    var events: seq<Event<J>> := [];
    assert lines[0..] == lines;
    ThenNothing(Run(limits, decode, lines, FRESH));
    for i := 0 to |lines|
      invariant Parse(limits, decode, lines)
             == Then(Outcome(events, None), Run(limits, decode, lines[i..], Pending(name, data, bytes)))
    {
      ghost var rest := lines[i + 1..];
      assert lines[i..][0] == lines[i] && lines[i..][1..] == rest;
      match FieldOf(lines[i]) {
        case Blank =>
          if data != [] {
            var payload := decode(Join(data));
            if payload.None? { return Outcome(events, Some(BadJson)); }
            ThenAssociates(
              Outcome(events, None), Outcome([Event(name, payload.value)], None), Run(limits, decode, rest, FRESH));
            events := events + [Event(name, payload.value)];
          } else {
            ThenNothing(Run(limits, decode, rest, FRESH));
          }
          name, data, bytes := "message", [], 0;
        case Ignored =>
        case Name(value) =>
          name := value;
        case Data(value) =>
          data := data + [value];
          bytes := bytes + Utf8Length(value);
          if |data| > limits.maximumLines { return Outcome(events, Some(TooManyLines)); }
          if bytes > limits.maximumBytes { return Outcome(events, Some(TooManyBytes)); }
      }
    }
    assert lines[|lines|..] == [];
    if data != [] {
      var payload := decode(Join(data));
      if payload.None? { return Outcome(events, Some(BadJson)); }
      events := events + [Event(name, payload.value)];
    }
    r := Outcome(events, None);
  }

  // ----- composition -----

  lemma {:induction false} RunComposes<J>(
    limits: Limits, decode: Decoder<J>, a: seq<string>, b: seq<string>, p: Pending)
    ensures Run(limits, decode, a + [""] + b, p)
         == Then(Run(limits, decode, a, p), Run(limits, decode, b, FRESH))
  {
    var whole := a + [""] + b;
    if a == [] {
      assert whole[0] == "" && whole[1..] == b;
    } else {
      assert whole[0] == a[0] && whole[1..] == a[1..] + [""] + b;
      match FieldOf(a[0]) {
        case Blank =>
          RunComposes(limits, decode, a[1..], b, FRESH);
          ThenAssociates(Emitted(decode, p), Run(limits, decode, a[1..], FRESH), Run(limits, decode, b, FRESH));
        case Ignored => RunComposes(limits, decode, a[1..], b, p);
        case Name(value) => RunComposes(limits, decode, a[1..], b, p.(name := value));
        case Data(value) => RunComposes(limits, decode, a[1..], b, WithData(p, value));
      }
    }
  }

  /** A blank line separates: parsing the two halves one after the other gives the same
      events and the same error as parsing them as one transcript. */
  lemma ParseComposes<J>(limits: Limits, decode: Decoder<J>, a: seq<string>, b: seq<string>)
    ensures Parse(limits, decode, a + [""] + b) == Then(Parse(limits, decode, a), Parse(limits, decode, b))
  {
    RunComposes(limits, decode, a, b, FRESH);
  }

  // ----- limits -----

  function TotalLength(data: seq<string>): nat {
    if data == [] then 0 else TotalLength(data[..|data| - 1]) + Utf8Length(data[|data| - 1])
  }

  predicate InLimits(limits: Limits, data: seq<string>) {
    |data| <= limits.maximumLines && TotalLength(data) <= limits.maximumBytes
  }

  /** The pending event is within the limits, and its byte count is that of its lines. */
  ghost predicate Sane(limits: Limits, p: Pending) {
    InLimits(limits, p.data) && p.bytes == TotalLength(p.data)
  }

  // ----- the transcript, block by block -----

  /** The pieces between blank lines; there is always at least one. */
  function Blocks(lines: seq<string>): (r: seq<seq<string>>)
    ensures r != []
    decreases |lines|
  {
    var blank := Find(lines, "");
    if blank == |lines| then [lines] else [lines[..blank]] + Blocks(lines[blank + 1..])
  }

  /** The values of a block's data lines, in order. */
  function DataOf(block: seq<string>): seq<string> {
    if block == [] then []
    else (if FieldOf(block[0]).Data? then [FieldOf(block[0]).value] else []) + DataOf(block[1..])
  }

  /** The value of a block's last event line, or `otherwise`. */
  function NameOf(block: seq<string>, otherwise: string): string {
    if block == [] then otherwise
    else NameOf(block[1..], if FieldOf(block[0]).Name? then FieldOf(block[0]).value else otherwise)
  }

  /** Which limit the lines break first. */
  function BrokenLimit(limits: Limits, data: seq<string>): Error
    requires limits.maximumLines >= 0
  {
    var allowed := if |data| < limits.maximumLines then |data| else limits.maximumLines;
    if TotalLength(data[..allowed]) > limits.maximumBytes then TooManyBytes else TooManyLines
  }

  /** What data lines under a name are worth on their own. */
  function Judged<J>(limits: Limits, decode: Decoder<J>, name: string, data: seq<string>): Outcome<J>
    requires limits.maximumLines >= 0
  {
    if !InLimits(limits, data) then Outcome([], Some(BrokenLimit(limits, data)))
    else if data == [] then Outcome([], None)
    else
      match decode(Join(data))
      case None => Outcome([], Some(BadJson))
      case Some(j) => Outcome([Event(name, j)], None)
  }

  function JudgedBlock<J>(limits: Limits, decode: Decoder<J>, block: seq<string>): Outcome<J>
    requires limits.maximumLines >= 0
  {
    Judged(limits, decode, NameOf(block, "message"), DataOf(block))
  }

  /** The blocks judged one after another, up to the first that fails. */
  function InOrder<J>(limits: Limits, decode: Decoder<J>, blocks: seq<seq<string>>): Outcome<J>
    requires limits.maximumLines >= 0
  {
    if blocks == [] then Outcome([], None)
    else Then(JudgedBlock(limits, decode, blocks[0]), InOrder(limits, decode, blocks[1..]))
  }

  lemma {:induction false} TotalLengthGrows(a: seq<string>, b: seq<string>)
    ensures TotalLength(a) <= TotalLength(a + b)
  {
    if b == [] {
      assert a + b == a;
    } else {
      assert (a + b)[..|a + b| - 1] == a + b[..|b| - 1];
      TotalLengthGrows(a, b[..|b| - 1]);
    }
  }

  lemma {:induction false} Utf8LengthAdds(a: string, b: string)
    ensures Utf8Length(a + b) == Utf8Length(a) + Utf8Length(b)
  {
    if a == "" {
      assert a + b == b;
    } else {
      assert (a + b)[0] == a[0] && (a + b)[1..] == a[1..] + b;
      Utf8LengthAdds(a[1..], b);
    }
  }

  lemma Utf8LengthOfOne(c: char)
    ensures Utf8Length([c]) == Utf8Width(c) && Utf8Length("") == 0
  {
  }

  lemma TotalLengthNext(data: seq<string>, value: string)
    ensures TotalLength(data + [value]) == TotalLength(data) + Utf8Length(value)
  {
    assert (data + [value])[..|data|] == data;
  }

  /** Lines that break a limit at their last line, and no earlier, are reported as the
      parser reports them, whatever follows. */
  lemma FirstExcess(limits: Limits, data: seq<string>, value: string, more: seq<string>)
    requires InLimits(limits, data) && !InLimits(limits, data + [value])
    ensures !InLimits(limits, data + [value] + more)
    ensures BrokenLimit(limits, data + [value] + more)
         == if |data + [value]| > limits.maximumLines then TooManyLines else TooManyBytes
  {
    var broken := data + [value];
    var all := broken + more;
    TotalLengthGrows(broken, more);
    var allowed := if |all| < limits.maximumLines then |all| else limits.maximumLines;
    if |broken| > limits.maximumLines {
      assert all[..allowed] == data;
    } else {
      assert all[..allowed] == broken + more[..allowed - |broken|];
      TotalLengthGrows(broken, more[..allowed - |broken|]);
    }
  }

  /** What running a block from `p` should give. */
  ghost predicate RunsTo<J>(limits: Limits, decode: Decoder<J>, block: seq<string>, p: Pending)
    requires limits.maximumLines >= 0
  {
    Run(limits, decode, block, p) == Judged(limits, decode, NameOf(block, p.name), p.data + DataOf(block))
  }

  lemma RunDataLine<J>(limits: Limits, decode: Decoder<J>, block: seq<string>, p: Pending, value: string)
    requires limits.maximumLines > 0 && Sane(limits, p)
    requires block != [] && FieldOf(block[0]) == Data(value)
    requires InLimits(limits, p.data + [value]) ==> RunsTo(limits, decode, block[1..], WithData(p, value))
    ensures RunsTo(limits, decode, block, p)
  {
    var rest := block[1..];
    TotalLengthNext(p.data, value);
    assert p.data + ([value] + DataOf(rest)) == p.data + [value] + DataOf(rest);
    if !InLimits(limits, p.data + [value]) { FirstExcess(limits, p.data, value, DataOf(rest)); }
  }

  lemma RunOtherLine<J>(limits: Limits, decode: Decoder<J>, block: seq<string>, p: Pending)
    requires limits.maximumLines > 0 && block != [] && (FieldOf(block[0]).Ignored? || FieldOf(block[0]).Name?)
    requires RunsTo(
               limits, decode, block[1..],
               if FieldOf(block[0]).Name? then p.(name := FieldOf(block[0]).value) else p)
    ensures RunsTo(limits, decode, block, p)
  {
    assert [] + DataOf(block[1..]) == DataOf(block[1..]);
  }

  /** Within one block the parser collects the data and the last name. */
  lemma {:induction false} RunBlock<J>(limits: Limits, decode: Decoder<J>, block: seq<string>, p: Pending)
    requires limits.maximumBytes > 0 && limits.maximumLines > 0 && "" !in block && Sane(limits, p)
    ensures RunsTo(limits, decode, block, p)
  {
    if block == [] {
      assert p.data + [] == p.data;
    } else {
      var rest := block[1..];
      assert block[0] in block && forall line :: line in rest ==> line in block;
      match FieldOf(block[0]) {
        case Blank =>
        case Ignored =>
          RunBlock(limits, decode, rest, p);
          RunOtherLine(limits, decode, block, p);
        case Name(value) =>
          RunBlock(limits, decode, rest, p.(name := value));
          RunOtherLine(limits, decode, block, p);
        case Data(value) =>
          TotalLengthNext(p.data, value);
          if InLimits(limits, p.data + [value]) { RunBlock(limits, decode, rest, WithData(p, value)); }
          RunDataLine(limits, decode, block, p, value);
      }
    }
  }

  /** The parser judges the transcript block by block: each block by the data and the name
      written in it, up to the first that breaks a limit or does not decode. */
  lemma {:induction false} ParsesBlockByBlock<J>(limits: Limits, decode: Decoder<J>, lines: seq<string>)
    requires limits.maximumBytes > 0 && limits.maximumLines > 0
    ensures Parse(limits, decode, lines) == InOrder(limits, decode, Blocks(lines))
    decreases |lines|
  {
    var blank := Find(lines, "");
    var block := lines[..blank];
    RunBlock(limits, decode, block, FRESH);
    assert [] + DataOf(block) == DataOf(block);
    if blank == |lines| {
      assert block == lines;
      OneBlock(limits, decode, lines);
    } else {
      var rest := lines[blank + 1..];
      assert lines == block + [""] + rest;
      RunComposes(limits, decode, block, rest, FRESH);
      ParsesBlockByBlock(limits, decode, rest);
      NextBlock(limits, decode, block, Blocks(rest));
    }
  }

  lemma OneBlock<J>(limits: Limits, decode: Decoder<J>, block: seq<string>)
    requires limits.maximumLines >= 0
    ensures InOrder(limits, decode, [block]) == JudgedBlock(limits, decode, block)
  {
    var o := JudgedBlock(limits, decode, block);
    assert [block][1..] == [] && o.events + [] == o.events;
  }

  lemma NextBlock<J>(limits: Limits, decode: Decoder<J>, block: seq<string>, blocks: seq<seq<string>>)
    requires limits.maximumLines >= 0
    ensures InOrder(limits, decode, [block] + blocks)
         == Then(JudgedBlock(limits, decode, block), InOrder(limits, decode, blocks))
  {
    assert ([block] + blocks)[1..] == blocks;
  }

  // ----- what is emitted -----

  /** The block respects both limits and its data, if it has any, decodes. */
  predicate Fine<J>(limits: Limits, decode: Decoder<J>, block: seq<string>) {
    InLimits(limits, DataOf(block)) && (DataOf(block) != [] ==> decode(Join(DataOf(block))).Some?)
  }

  /** The number of blocks before the first that is not fine. */
  function FineBlocks<J>(limits: Limits, decode: Decoder<J>, blocks: seq<seq<string>>): (n: nat)
    ensures n <= |blocks| && (n < |blocks| ==> !Fine(limits, decode, blocks[n]))
    ensures forall i :: 0 <= i < n ==> Fine(limits, decode, blocks[i])
  {
    if blocks == [] || !Fine(limits, decode, blocks[0]) then 0 else FineBlocks(limits, decode, blocks[1..]) + 1
  }

  /** The event that a block with data says. */
  function EventIn<J>(limits: Limits, decode: Decoder<J>, block: seq<string>): seq<Event<J>>
    requires Fine(limits, decode, block)
  {
    if DataOf(block) == [] then [] else [Event(NameOf(block, "message"), decode(Join(DataOf(block))).value)]
  }

  /** The events in the first `n` blocks. */
  function EventsOf<J>(limits: Limits, decode: Decoder<J>, blocks: seq<seq<string>>, n: nat): seq<Event<J>>
    requires n <= FineBlocks(limits, decode, blocks)
  {
    if n == 0 then [] else EventsOf(limits, decode, blocks, n - 1) + EventIn(limits, decode, blocks[n - 1])
  }

  lemma {:induction false} EventsOfTail<J>(limits: Limits, decode: Decoder<J>, blocks: seq<seq<string>>, n: nat)
    requires 0 < n <= FineBlocks(limits, decode, blocks)
    ensures EventsOf(limits, decode, blocks, n)
         == EventIn(limits, decode, blocks[0]) + EventsOf(limits, decode, blocks[1..], n - 1)
  {
    if n > 1 {
      EventsOfTail(limits, decode, blocks, n - 1);
      assert blocks[n - 1] == blocks[1..][n - 2];
    }
  }

  lemma {:induction false} InOrderEmits<J>(limits: Limits, decode: Decoder<J>, blocks: seq<seq<string>>)
    requires limits.maximumLines >= 0
    ensures var n := FineBlocks(limits, decode, blocks);
            && InOrder(limits, decode, blocks).events == EventsOf(limits, decode, blocks, n)
            && (InOrder(limits, decode, blocks).error.None? <==> n == |blocks|)
  {
    if blocks != [] && Fine(limits, decode, blocks[0]) {
      InOrderEmits(limits, decode, blocks[1..]);
      EventsOfTail(limits, decode, blocks, FineBlocks(limits, decode, blocks));
    }
  }

  /** The events are those of the transcript's blocks before the first that breaks a limit
      or does not decode, one for each that has data; there is no error exactly when no
      block does. */
  lemma EventsExactly<J>(limits: Limits, decode: Decoder<J>, lines: seq<string>)
    requires limits.maximumBytes > 0 && limits.maximumLines > 0
    ensures var n := FineBlocks(limits, decode, Blocks(lines));
            && Parse(limits, decode, lines).events == EventsOf(limits, decode, Blocks(lines), n)
            && (Parse(limits, decode, lines).error.None? <==> n == |Blocks(lines)|)
  {
    ParsesBlockByBlock(limits, decode, lines);
    InOrderEmits(limits, decode, Blocks(lines));
  }

  /** `e` is what block `i` of the transcript says, with at least one and not too many data
      lines and bytes. */
  ghost predicate ComesFrom<J>(limits: Limits, decode: Decoder<J>, e: Event<J>, blocks: seq<seq<string>>, i: nat) {
    && i < |blocks|
    && var data := DataOf(blocks[i]);
       && 0 < |data| <= limits.maximumLines && TotalLength(data) <= limits.maximumBytes
       && decode(Join(data)) == Some(e.payload) && e.name == NameOf(blocks[i], "message")
  }

  /** Every event ever emitted comes from a block of the transcript that respects the line
      limit and the byte limit. */
  lemma EventsRespectLimits<J>(limits: Limits, decode: Decoder<J>, lines: seq<string>, k: nat) returns (i: nat)
    requires k < |Parse(limits, decode, lines).events|
    ensures ComesFrom(limits, decode, Parse(limits, decode, lines).events[k], Blocks(lines), i)
  {
    EventsExactly(limits, decode, lines);
    i := BlockOfEvent(limits, decode, Blocks(lines), FineBlocks(limits, decode, Blocks(lines)), k);
  }

  lemma {:induction false} BlockOfEvent<J>(limits: Limits, decode: Decoder<J>, blocks: seq<seq<string>>, n: nat, k: nat)
    returns (i: nat)
    requires n <= FineBlocks(limits, decode, blocks) && k < |EventsOf(limits, decode, blocks, n)|
    ensures ComesFrom(limits, decode, EventsOf(limits, decode, blocks, n)[k], blocks, i)
  {
    if k < |EventsOf(limits, decode, blocks, n - 1)| {
      i := BlockOfEvent(limits, decode, blocks, n - 1, k);
    } else {
      i := n - 1;
    }
  }

  // ----- printing -----

  datatype Message = Message(name: string, data: seq<string>)

  function DataLines(data: seq<string>): seq<string> {
    if data == [] then [] else ["data: " + data[0]] + DataLines(data[1..])
  }

  /** Each message as an event line, its data lines and a blank line. */
  function Print(messages: seq<Message>): seq<string> {
    if messages == [] then []
    else PrintedEvent(messages[0]) + [""] + Print(messages[1..])
  }

  lemma PrintedFields(value: string)
    ensures FieldOf("event: " + value) == Name(value)
    ensures FieldOf("data: " + value) == Data(value)
  {
    var event, data := "event: " + value, "data: " + value;
    FindIsFirst(event, ':', 5);
    FindIsFirst(data, ':', 4);
    assert event[..5] == "event" && event[6..] == " " + value;
    assert data[..4] == "data" && data[5..] == " " + value;
  }

  lemma {:induction false} PrintedData(data: seq<string>, otherwise: string)
    ensures DataOf(DataLines(data)) == data && NameOf(DataLines(data), otherwise) == otherwise
    ensures "" !in DataLines(data)
  {
    if data != [] {
      PrintedFields(data[0]);
      PrintedData(data[1..], otherwise);
      assert DataLines(data)[1..] == DataLines(data[1..]);
    }
  }

  ghost predicate Sendable<J>(limits: Limits, decode: Decoder<J>, m: Message) {
    m.data != [] && InLimits(limits, m.data) && decode(Join(m.data)).Some?
  }

  ghost function Received<J>(limits: Limits, decode: Decoder<J>, messages: seq<Message>): seq<Event<J>>
    requires forall i :: 0 <= i < |messages| ==> Sendable(limits, decode, messages[i])
  {
    seq(|messages|, i requires 0 <= i < |messages| =>
      assert Sendable(limits, decode, messages[i]);
      Event(messages[i].name, decode(Join(messages[i].data)).value))
  }

  function PrintedEvent(m: Message): seq<string> {
    ["event: " + m.name] + DataLines(m.data)
  }

  /** A printed message is judged by its own name and data. */
  lemma PrintedEventParses<J>(limits: Limits, decode: Decoder<J>, m: Message)
    requires limits.maximumBytes > 0 && limits.maximumLines > 0
    ensures Parse(limits, decode, PrintedEvent(m)) == Judged(limits, decode, m.name, m.data)
  {
    var lines := PrintedEvent(m);
    PrintedFields(m.name);
    PrintedData(m.data, m.name);
    assert lines[0] == "event: " + m.name && lines[1..] == DataLines(m.data);
    assert [] + m.data == m.data;
    RunBlock(limits, decode, lines, FRESH);
  }

  /** A printed message is accepted exactly when it respects both limits and its joined
      data lines decode. */
  lemma PrintedEventExactly<J>(limits: Limits, decode: Decoder<J>, m: Message)
    requires limits.maximumBytes > 0 && limits.maximumLines > 0 && m.data != []
    ensures Parse(limits, decode, PrintedEvent(m)).error.None? <==> Sendable(limits, decode, m)
  {
    PrintedEventParses(limits, decode, m);
  }

  /** Printing any list of messages within the limits and parsing gives them back. */
  lemma {:induction false} PrintedMessagesParse<J>(limits: Limits, decode: Decoder<J>, messages: seq<Message>)
    requires limits.maximumBytes > 0 && limits.maximumLines > 0
    requires forall i :: 0 <= i < |messages| ==> Sendable(limits, decode, messages[i])
    ensures Parse(limits, decode, Print(messages)) == Outcome(Received(limits, decode, messages), None)
  {
    if messages != [] {
      var m, rest := messages[0], messages[1..];
      assert Sendable(limits, decode, messages[0]);
      PrintedMessagesParse(limits, decode, rest);
      PrintedEventParses(limits, decode, m);
      ParseComposes(limits, decode, PrintedEvent(m), Print(rest));
      assert Received(limits, decode, messages)
          == [Event(m.name, decode(Join(m.data)).value)] + Received(limits, decode, rest);
    }
  }
}
