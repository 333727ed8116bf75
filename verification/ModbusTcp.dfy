/** The read-only Modbus TCP client: MBAP header as in section 3.1.3 of the MODBUS
    Messaging on TCP/IP Implementation Guide V1.0b, functions 3 and 4 as in sections 6.3
    and 6.4 of the MODBUS Application Protocol Specification V1.1b3. */
module ModbusTcp {
  import opened Common

  const MAXIMUM_ID := 65535

  datatype Error =
    | InvalidArgument | TargetNotPrivate | Unavailable | ClosedEarly
    | InvalidLength | WrongTransaction | WrongProtocol | WrongUnit
    | DeviceException | WrongFunction | Truncated | WrongCount

  datatype ReadResult = ReadResult(functionCode: byte, startAddress: int, registers: seq<int>)

  // ----- bytes -----

  ghost predicate Words(registers: seq<int>) {
    forall i :: 0 <= i < |registers| ==> 0 <= registers[i] < 0x1_0000
  }

  function PackWords(registers: seq<int>): (r: seq<byte>)
    requires Words(registers)
    ensures |r| == 2 * |registers|
  {
    if registers == [] then [] else U16(registers[0]) + PackWords(registers[1..])
  }

  function UnpackWords(bytes: seq<byte>): (r: seq<int>)
    requires |bytes| % 2 == 0
    ensures |bytes| == 2 * |r| && Words(r)
  {
    if bytes == [] then [] else [FromU16(bytes[..2])] + UnpackWords(bytes[2..])
  }

  lemma {:induction false} UnpackPacked(registers: seq<int>)
    requires Words(registers)
    ensures UnpackWords(PackWords(registers)) == registers
  {
    if registers != [] {
      U16RoundTrip(registers[0]);
      UnpackPacked(registers[1..]);
      assert PackWords(registers)[..2] == U16(registers[0]) && PackWords(registers)[2..] == PackWords(registers[1..]);
    }
  }

  lemma {:induction false} PackUnpacked(bytes: seq<byte>)
    requires |bytes| % 2 == 0
    ensures PackWords(UnpackWords(bytes)) == bytes
  {
    if bytes != [] {
      U16Reprint(bytes[..2]);
      PackUnpacked(bytes[2..]);
      assert bytes == bytes[..2] + bytes[2..];
    }
  }

  predicate ValidRead(functionCode: int, startAddress: int, count: int) {
    (functionCode == 3 || functionCode == 4) && 0 <= startAddress <= 65535 && 1 <= count <= 125
    && startAddress + count <= 65536
  }

  predicate IsAddress(a: int) { 0 <= a < 0x1_0000 }

  /** A read is valid when it is one of the two reads, of 1 to 125 registers, all of which
      exist. */
  lemma ValidReadExactly(functionCode: int, startAddress: int, count: int)
    ensures ValidRead(functionCode, startAddress, count) <==>
              && functionCode in {3, 4} && 0 < count < 126
              && forall a :: startAddress <= a < startAddress + count ==> IsAddress(a)
  {
    if count > 0 { assert IsAddress(startAddress) && IsAddress(startAddress + count - 1) ==> startAddress >= 0; }
  }

  function Request(id: int, unit: byte, functionCode: byte, startAddress: int, count: int): seq<byte>
    requires 0 <= id <= MAXIMUM_ID && ValidRead(functionCode, startAddress, count)
  {
    U16(id) + U16(0) + U16(6) + [unit, functionCode] + U16(startAddress) + U16(count)
  }

  /** Two bytes of a message, the more significant first. */
  function WordAt(bytes: seq<byte>, i: nat): int
    requires i + 1 < |bytes|
  {
    (bytes[i] as int) * 256 + bytes[i + 1]
  }

  /** The message reads, field by field, as a request for `count` registers from
      `startAddress` on. */
  ghost predicate AsksFor(bytes: seq<byte>, id: int, unit: byte, functionCode: byte, startAddress: int, count: int) {
    && |bytes| == 12
    && WordAt(bytes, 0) == id && WordAt(bytes, 2) == 0 && WordAt(bytes, 4) == |bytes[6..]|
    && bytes[6] == unit && bytes[7] == functionCode
    && WordAt(bytes, 8) == startAddress && WordAt(bytes, 10) == count
  }

  /** What a server reads from the bytes sent are the arguments of the read. */
  lemma RequestAsks(id: int, unit: byte, functionCode: byte, startAddress: int, count: int)
    requires 0 <= id <= MAXIMUM_ID && ValidRead(functionCode, startAddress, count)
    ensures AsksFor(Request(id, unit, functionCode, startAddress, count), id, unit, functionCode, startAddress, count)
  {
    U16BigEndian(id);
    U16BigEndian(startAddress);
    U16BigEndian(count);
  }

  /** The `k`-th register of an answer. */
  function RegisterAt(bytes: seq<byte>, k: nat): int
    requires 10 + 2 * k < |bytes|
  {
    WordAt(bytes, 9 + 2 * k)
  }

  /** The message reads, field by field, as an answer with these registers. */
  ghost predicate Carries(bytes: seq<byte>, id: int, unit: byte, functionCode: byte, registers: seq<int>) {
    && |bytes| == 9 + 2 * |registers|
    && WordAt(bytes, 0) == id && WordAt(bytes, 2) == 0 && WordAt(bytes, 4) == |bytes[6..]|
    && bytes[6] == unit && bytes[7] == functionCode && bytes[8] as int == |bytes[9..]|
    && forall k :: 0 <= k < |registers| ==> RegisterAt(bytes, k) == registers[k]
  }

  lemma {:induction false} PackedAt(registers: seq<int>, k: nat)
    requires Words(registers) && k < |registers|
    ensures WordAt(PackWords(registers), 2 * k) == registers[k]
  {
    U16BigEndian(registers[0]);
    if k > 0 {
      PackedAt(registers[1..], k - 1);
      assert PackWords(registers)[2..] == PackWords(registers[1..]);
      assert PackWords(registers)[2 * k..][..2] == PackWords(registers[1..])[2 * (k - 1)..][..2];
    }
  }

  /** A response carries its registers, and no other byte string does. */
  lemma ResponseCarries(bytes: seq<byte>, id: int, unit: byte, functionCode: byte, registers: seq<int>)
    requires 0 <= id <= MAXIMUM_ID && Words(registers) && |registers| <= 125
    ensures Carries(bytes, id, unit, functionCode, registers) <==> bytes == Response(id, unit, functionCode, registers)
  {
    var response := Response(id, unit, functionCode, registers);
    U16BigEndian(id);
    U16BigEndian(2 * |registers| + 3);
    forall k | 0 <= k < |registers| ensures RegisterAt(response, k) == registers[k] {
      PackedAt(registers, k);
    }
    assert Carries(response, id, unit, functionCode, registers);
    if Carries(bytes, id, unit, functionCode, registers) {
      SameWords(bytes, response, |registers|);
    }
  }

  lemma WordsDecide(a: seq<byte>, b: seq<byte>, i: nat)
    requires i + 1 < |a| && i + 1 < |b| && WordAt(a, i) == WordAt(b, i)
    ensures a[i] == b[i] && a[i + 1] == b[i + 1]
  {
  }

  lemma SameWords(a: seq<byte>, b: seq<byte>, n: nat)
    requires |a| == |b| == 9 + 2 * n
    requires WordAt(a, 0) == WordAt(b, 0) && WordAt(a, 2) == WordAt(b, 2) && WordAt(a, 4) == WordAt(b, 4)
    requires a[6] == b[6] && a[7] == b[7] && a[8] == b[8]
    requires forall k :: 0 <= k < n ==> RegisterAt(a, k) == RegisterAt(b, k)
    ensures a == b
  {
    WordsDecide(a, b, 0);
    WordsDecide(a, b, 2);
    WordsDecide(a, b, 4);
    forall i | 9 <= i < |a| ensures a[i] == b[i] {
      var k := (i - 9) / 2;
      assert i == 9 + 2 * k || i == 9 + 2 * k + 1;
      assert RegisterAt(a, k) == RegisterAt(b, k);
      WordsDecide(a, b, 9 + 2 * k);
    }
  }

  function Header(id: int, length: int, unit: byte): (r: seq<byte>)
    requires 0 <= id <= MAXIMUM_ID && 0 <= length < 0x1_0000
    ensures |r| == 7
  {
    U16(id) + U16(0) + U16(length) + [unit]
  }

  /** The one encoding of a register vector as a response. */
  function Response(id: int, unit: byte, functionCode: byte, registers: seq<int>): seq<byte>
    requires 0 <= id <= MAXIMUM_ID && Words(registers) && |registers| <= 125
  {
    Header(id, 2 * |registers| + 3, unit) + [functionCode, 2 * |registers|] + PackWords(registers)
  }

  // ----- the connection -----

  datatype End = Closed | Broken

  /** What the target's name resolves to. */
  datatype Address = Private | LinkLocal | Elsewhere

  /** The refusal of a target before anything is sent, if any. */
  function TargetError(addresses: set<Address>): Option<Error> {
    if addresses == {} then Some(Unavailable) else if Elsewhere in addresses then Some(TargetNotPrivate) else None
  }

  /** A target is refused when its name has no address, or one that is neither private nor
      link-local. */
  lemma TargetsExactly(addresses: set<Address>)
    ensures TargetError(addresses) == None <==> addresses != {} && addresses <= {Private, LinkLocal}
    ensures TargetError(addresses) == Some(TargetNotPrivate) <==> Elsewhere in addresses
    ensures TargetError(addresses) == Some(Unavailable) <==> addresses == {}
  {
    if Elsewhere !in addresses {
      forall a | a in addresses ensures a in {Private, LinkLocal} {
        assert a != Elsewhere;
      }
    }
  }

  /** A connection that delivers `pending` in pieces of its own choosing and then is
      closed by the peer or breaks; `writable` says whether sending succeeds. */
  class Connection {
    var pending: seq<byte>
    var sent: seq<byte>
    const end: End
    const writable: bool

    constructor (pending: seq<byte>, end: End, writable: bool)
      ensures this.pending == pending && sent == [] && this.end == end && this.writable == writable
    {
      this.pending, sent, this.end, this.writable := pending, [], end, writable;
    }

    method Recv(size: nat) returns (r: Result<seq<byte>, Error>)
      requires size > 0
      modifies this`pending
      ensures old(pending) == [] ==> pending == [] && r == if end == Closed then Ok([]) else Err(Unavailable)
      ensures old(pending) != [] ==> r.Ok? && 0 < |r.value| <= size && old(pending) == r.value + pending
    {
      if pending == [] {
        return if end == Closed then Ok([]) else Err(Unavailable);
      }
      var k: nat :| 0 < k <= size && k <= |pending|;
      r := Ok(pending[..k]);
      pending := pending[k..];
    }

    method SendAll(bytes: seq<byte>) returns (ok: bool)
      modifies this`sent
      ensures ok == writable && (ok ==> sent == old(sent) + bytes)
    {
      if writable { sent := sent + bytes; }
      ok := writable;
    }
  }

  /** However the bytes arrive, the result is the first `size` of them, or the error that
      the end of the connection calls for. */
  method ReceiveExact(connection: Connection, size: nat) returns (r: Result<seq<byte>, Error>)
    modifies connection`pending
    ensures |old(connection.pending)| >= size ==>
              r.Ok? && |r.value| == size && old(connection.pending) == r.value + connection.pending
    ensures |old(connection.pending)| < size ==> r == Err(if connection.end == Closed then ClosedEarly else Unavailable)
  {
    var chunks: seq<byte> := [];
    while |chunks| < size
      invariant |chunks| <= size && old(connection.pending) == chunks + connection.pending
    {
      var chunk := connection.Recv(size - |chunks|);
      if chunk.Err? { return Err(chunk.error); }
      if chunk.value == [] { return Err(ClosedEarly); }
      chunks := chunks + chunk.value;
    }
    r := Ok(chunks);
  }

  // ----- the client -----

  function NextId(id: int): int { id % MAXIMUM_ID + 1 }

  /** The stream starts with a response that carries `registers`. */
  ghost predicate Answers(stream: seq<byte>, id: int, unit: byte, functionCode: byte, count: int, registers: seq<int>)
    requires 0 <= id <= MAXIMUM_ID
  {
    && Words(registers) && |registers| == count <= 125
    && |stream| >= 9 + 2 * count && Carries(stream[..9 + 2 * count], id, unit, functionCode, registers)
  }

  class Client {
    const unit: byte
    var transactionId: int

    ghost predicate Valid() reads this { 0 <= transactionId <= MAXIMUM_ID }

    constructor (unit: byte)
      ensures Valid() && this.unit == unit && transactionId == 0
    {
      this.unit, transactionId := unit, 0;
    }

    /** A read is sent when its arguments are valid and its target is private; anything else
        changes nothing.  A sent read accepts a response exactly when the stream starts, byte
        for byte, with the encoding of some vector of `count` registers for this transaction,
        unit and function, and returns that vector. */
    method ReadRegisters(
      functionCode: byte, startAddress: int, count: int, addresses: set<Address>, connection: Connection)
      returns (r: Result<ReadResult, Error>)
      requires Valid()
      modifies this`transactionId, connection
      ensures Valid()
      ensures !ValidRead(functionCode, startAddress, count) ==> r == Err(InvalidArgument)
      ensures ValidRead(functionCode, startAddress, count) && TargetError(addresses).Some? ==>
                r == Err(TargetError(addresses).value)
      ensures !(ValidRead(functionCode, startAddress, count) && TargetError(addresses).None?) ==>
                transactionId == old(transactionId) && unchanged(connection)
      ensures ValidRead(functionCode, startAddress, count) && TargetError(addresses).None? ==>
                && transactionId == NextId(old(transactionId))
                && (connection.writable ==>
                      && old(connection.sent) <= connection.sent
                      && AsksFor(connection.sent[|old(connection.sent)|..],
                                 transactionId, unit, functionCode, startAddress, count))
                && (!connection.writable ==> r == Err(Unavailable))
                && (connection.writable ==>
                      forall registers :: r == Ok(ReadResult(functionCode, startAddress, registers)) <==>
                        Answers(old(connection.pending), transactionId, unit, functionCode, count, registers))
      ensures r.Ok? ==> r.value.functionCode == functionCode && r.value.startAddress == startAddress
    {
      if !ValidRead(functionCode, startAddress, count) { return Err(InvalidArgument); }
      var refusal := TargetError(addresses);
      if refusal.Some? { return Err(refusal.value); }
      transactionId := transactionId % MAXIMUM_ID + 1;
      RequestAsks(transactionId, unit, functionCode, startAddress, count);
      var sent := connection.SendAll(Request(transactionId, unit, functionCode, startAddress, count));
      if !sent { return Err(Unavailable); }
      var registers := ReceiveResponse(connection, transactionId, unit, functionCode, count);
      forall rs
        ensures Answers(old(connection.pending), transactionId, unit, functionCode, count, rs) <==> registers == Ok(rs)
      {
        AcceptsExactly(old(connection.pending), connection.end, transactionId, unit, functionCode, count, rs);
      }
      if registers.Err? { return Err(registers.error); }
      r := Ok(ReadResult(functionCode, startAddress, registers.value));
    }
  }

  method ReceiveResponse(connection: Connection, id: int, unit: byte, functionCode: byte, count: int)
    returns (r: Result<seq<int>, Error>)
    requires 1 <= count <= 125 && (functionCode == 3 || functionCode == 4)
    modifies connection`pending
    ensures r == Decode(old(connection.pending), connection.end, id, unit, functionCode, count)
  {
    ghost var stream := connection.pending;
    var header := ReceiveExact(connection, 7);
    if header.Err? { return Err(header.error); }
    assert header.value == stream[..7] && header.value[4..6] == stream[4..6];
    var length := FromU16(header.value[4..6]);
    if !(2 <= length <= 254) { return Err(InvalidLength); }
    assert connection.pending == stream[7..];
    var pdu := ReceiveExact(connection, length - 1);
    if pdu.Err? { return Err(pdu.error); }
    assert pdu.value == stream[7..6 + length];
    r := CheckResponse(header.value, pdu.value, id, unit, functionCode, count);
  }

  /** The checks on a received header and PDU, in the source's order. */
  function CheckResponse(header: seq<byte>, pdu: seq<byte>, id: int, unit: byte, functionCode: byte, count: int):
    Result<seq<int>, Error>
    requires |header| == 7 && |pdu| >= 1 && 1 <= count <= 125 && (functionCode == 3 || functionCode == 4)
  {
    if FromU16(header[..2]) != id then Err(WrongTransaction)
    else if FromU16(header[2..4]) != 0 then Err(WrongProtocol)
    else if header[6] != unit then Err(WrongUnit)
    else if pdu[0] == functionCode + 0x80 then Err(DeviceException)
    else if pdu[0] != functionCode then Err(WrongFunction)
    else if |pdu| < 2 then Err(Truncated)
    else if pdu[1] != count * 2 || |pdu| != 2 * count + 2 then Err(WrongCount)
    else
      assert |pdu[2..]| == 2 * count;
      Ok(UnpackWords(pdu[2..]))
  }

  /** What the client makes of a byte stream, wherever the pieces were cut. */
  function Decode(stream: seq<byte>, end: End, id: int, unit: byte, functionCode: byte, count: int):
    Result<seq<int>, Error>
    requires 1 <= count <= 125 && (functionCode == 3 || functionCode == 4)
  {
    if |stream| < 7 then Err(if end == Closed then ClosedEarly else Unavailable)
    else
      var length := FromU16(stream[4..6]);
      if !(2 <= length <= 254) then Err(InvalidLength)
      else if |stream| < 6 + length then Err(if end == Closed then ClosedEarly else Unavailable)
      else CheckResponse(stream[..7], stream[7..6 + length], id, unit, functionCode, count)
  }

  lemma AnswersDecode(
    stream: seq<byte>, end: End, id: int, unit: byte, functionCode: byte, count: int, registers: seq<int>)
    requires 1 <= id <= MAXIMUM_ID && 1 <= count <= 125 && (functionCode == 3 || functionCode == 4)
    requires Answers(stream, id, unit, functionCode, count, registers)
    ensures Decode(stream, end, id, unit, functionCode, count) == Ok(registers)
  {
    var response, length := Response(id, unit, functionCode, registers), 2 * count + 3;
    assert |response| == 6 + length;
    ResponseCarries(stream[..9 + 2 * count], id, unit, functionCode, registers);
    assert forall i :: 0 <= i < |response| ==> stream[i] == response[i];
    assert stream[..2] == U16(id) && stream[2..4] == U16(0) && stream[4..6] == U16(length);
    U16RoundTrip(id);
    U16RoundTrip(0);
    U16RoundTrip(length);
    var pdu := stream[7..6 + length];
    assert pdu == [functionCode, 2 * count] + PackWords(registers);
    assert pdu[2..] == PackWords(registers);
    UnpackPacked(registers);
  }

  lemma CheckedHeader(header: seq<byte>, id: int, length: int, unit: byte)
    requires |header| == 7 && 0 <= id <= MAXIMUM_ID && 0 <= length < 0x1_0000
    requires FromU16(header[..2]) == id && FromU16(header[2..4]) == 0 && FromU16(header[4..6]) == length
    requires header[6] == unit
    ensures header == Header(id, length, unit)
  {
    U16Reprint(header[..2]);
    U16Reprint(header[2..4]);
    U16Reprint(header[4..6]);
    assert header == header[..2] + header[2..4] + header[4..6] + [header[6]];
  }

  lemma CheckedPdu(pdu: seq<byte>)
    requires |pdu| >= 2 && |pdu| % 2 == 0
    ensures pdu == [pdu[0], pdu[1]] + PackWords(UnpackWords(pdu[2..]))
  {
    assert |pdu[2..]| == |pdu| - 2;
    PackUnpacked(pdu[2..]);
  }

  lemma CheckedResponse(header: seq<byte>, pdu: seq<byte>, id: int, unit: byte, functionCode: byte, count: int)
    requires |header| == 7 && |pdu| >= 1 && 1 <= count <= 125 && (functionCode == 3 || functionCode == 4)
    requires 1 <= id <= MAXIMUM_ID && FromU16(header[4..6]) == |pdu| + 1
    requires CheckResponse(header, pdu, id, unit, functionCode, count).Ok?
    ensures var registers := CheckResponse(header, pdu, id, unit, functionCode, count).value;
            Words(registers) && |registers| == count && header + pdu == Response(id, unit, functionCode, registers)
  {
    CheckedHeader(header, id, |pdu| + 1, unit);
    CheckedPdu(pdu);
    assert pdu[0] == functionCode && pdu[1] == 2 * count;
  }

  lemma DecodedAnswers(stream: seq<byte>, end: End, id: int, unit: byte, functionCode: byte, count: int)
    requires 1 <= id <= MAXIMUM_ID && 1 <= count <= 125 && (functionCode == 3 || functionCode == 4)
    requires Decode(stream, end, id, unit, functionCode, count).Ok?
    ensures Answers(stream, id, unit, functionCode, count, Decode(stream, end, id, unit, functionCode, count).value)
  {
    var length := FromU16(stream[4..6]);
    var header, pdu := stream[..7], stream[7..6 + length];
    assert header[4..6] == stream[4..6];
    CheckedResponse(header, pdu, id, unit, functionCode, count);
    assert header + pdu == stream[..6 + length];
    ResponseCarries(stream[..6 + length], id, unit, functionCode, UnpackWords(pdu[2..]));
  }

  /** Acceptance is exact: a stream decodes to `registers` if and only if it starts with
      the encoding of `registers`. */
  lemma AcceptsExactly(
    stream: seq<byte>, end: End, id: int, unit: byte, functionCode: byte, count: int, registers: seq<int>)
    requires 1 <= id <= MAXIMUM_ID && 1 <= count <= 125 && (functionCode == 3 || functionCode == 4)
    ensures Decode(stream, end, id, unit, functionCode, count) == Ok(registers)
       <==> Answers(stream, id, unit, functionCode, count, registers)
  {
    if Answers(stream, id, unit, functionCode, count, registers) {
      AnswersDecode(stream, end, id, unit, functionCode, count, registers);
    }
    if Decode(stream, end, id, unit, functionCode, count).Ok? {
      DecodedAnswers(stream, end, id, unit, functionCode, count);
    }
  }

  /** The header names a length from 2 to 254 and that many bytes follow it. */
  ghost predicate Complete(stream: seq<byte>) {
    |stream| >= 7 && 2 <= WordAt(stream, 4) <= 254 && |stream| >= 6 + WordAt(stream, 4)
  }

  /** A complete message for this transaction, protocol and unit. */
  ghost predicate Addressed(stream: seq<byte>, id: int, unit: byte) {
    Complete(stream) && WordAt(stream, 0) == id && WordAt(stream, 2) == 0 && stream[6] == unit
  }

  lemma WordsAgree(stream: seq<byte>, i: nat)
    requires i + 1 < |stream|
    ensures FromU16(stream[i..i + 2]) == WordAt(stream, i)
  {
  }

  /** Each error has its own exact cause in the bytes that arrive; ... */
  lemma FramingErrors(stream: seq<byte>, end: End, id: int, unit: byte, functionCode: byte, count: int)
    requires 1 <= count <= 125 && (functionCode == 3 || functionCode == 4)
    ensures var r := Decode(stream, end, id, unit, functionCode, count);
            && (r == Err(InvalidLength) <==> |stream| >= 7 && (WordAt(stream, 4) < 2 || WordAt(stream, 4) > 254))
            && (r == Err(ClosedEarly) <==> !Complete(stream) && r != Err(InvalidLength) && end == Closed)
            && (r == Err(Unavailable) <==> !Complete(stream) && r != Err(InvalidLength) && end == Broken)
            && (r == Err(WrongTransaction) <==> Complete(stream) && WordAt(stream, 0) != id)
            && (r == Err(WrongProtocol) <==> Complete(stream) && WordAt(stream, 0) == id && WordAt(stream, 2) != 0)
            && (r == Err(WrongUnit) <==>
                  Complete(stream) && WordAt(stream, 0) == id && WordAt(stream, 2) == 0 && stream[6] != unit)
  {
    if |stream| >= 7 {
      WordsAgree(stream, 4);
      assert stream[..7][..2] == stream[0..2] && stream[..7][2..4] == stream[2..4];
      WordsAgree(stream, 0);
      WordsAgree(stream, 2);
    }
  }

  /** ... so have those about the message itself. */
  lemma MessageErrors(stream: seq<byte>, end: End, id: int, unit: byte, functionCode: byte, count: int)
    requires 1 <= count <= 125 && (functionCode == 3 || functionCode == 4)
    ensures var r := Decode(stream, end, id, unit, functionCode, count);
            && (r == Err(DeviceException) <==>
                  Addressed(stream, id, unit) && stream[7] as int == functionCode as int + 128)
            && (r == Err(WrongFunction) <==>
                  && Addressed(stream, id, unit) && stream[7] != functionCode
                  && stream[7] as int != functionCode as int + 128)
            && (r == Err(Truncated) <==>
                  Addressed(stream, id, unit) && stream[7] == functionCode && WordAt(stream, 4) == 2)
            && (r == Err(WrongCount) <==>
                  && Addressed(stream, id, unit) && stream[7] == functionCode && WordAt(stream, 4) > 2
                  && (stream[8] as int != 2 * count || WordAt(stream, 4) != 2 * count + 3))
  {
    FramingErrors(stream, end, id, unit, functionCode, count);
    if |stream| >= 7 {
      WordsAgree(stream, 4);
      assert stream[..7][..2] == stream[0..2] && stream[..7][2..4] == stream[2..4];
      WordsAgree(stream, 0);
      WordsAgree(stream, 2);
    }
  }

  // ----- transaction ids -----

  /** The id of request number `k`, from a new client. */
  function IdOf(k: nat): (id: int)
    ensures 0 <= id <= 65535 && (k > 0 ==> 1 <= id)
  {
    if k == 0 then 0 else NextId(IdOf(k - 1))
  }

  lemma {:induction false} IdClosedForm(k: nat)
    requires k > 0
    ensures IdOf(k) == (k - 1) % 65535 + 1
  {
    if k > 1 {
      IdClosedForm(k - 1);
      NextRemainder(k - 2);
    }
  }

  lemma NextRemainder(n: nat)
    ensures (n % MAXIMUM_ID + 1) % MAXIMUM_ID == (n + 1) % MAXIMUM_ID
  {
    var q, r := n / MAXIMUM_ID, n % MAXIMUM_ID;
    assert n == MAXIMUM_ID * q + r;
    if r + 1 == MAXIMUM_ID {
      assert n + 1 == MAXIMUM_ID * (q + 1);
    } else {
      assert n + 1 == MAXIMUM_ID * q + (r + 1);
    }
  }

  lemma RemaindersRepeat(qa: int, ra: int, qb: int, rb: int)
    requires 0 <= ra < MAXIMUM_ID && 0 <= rb < MAXIMUM_ID
    requires 0 < (MAXIMUM_ID * qb + rb) - (MAXIMUM_ID * qa + ra) <= MAXIMUM_ID
    ensures ra == rb <==> (MAXIMUM_ID * qb + rb) - (MAXIMUM_ID * qa + ra) == MAXIMUM_ID
  {
  }

  /** Any 65535 consecutive requests carry different ids, and one more repeats. */
  lemma IdsRepeatExactly(i: nat, j: nat)
    requires 0 < i < j <= i + 65535
    ensures IdOf(i) == IdOf(j) <==> j == i + 65535
  {
    IdClosedForm(i);
    IdClosedForm(j);
    RemaindersRepeat((i - 1) / MAXIMUM_ID, (i - 1) % MAXIMUM_ID, (j - 1) / MAXIMUM_ID, (j - 1) % MAXIMUM_ID);
  }
}
