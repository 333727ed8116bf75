/** ECHONET Lite frames (ECHONET Lite Specification Part II, section 3.2) and the
    property maps of Appendix 1 of the APPENDIX on device objects. */
module Echonet {
  import opened Common

  const FORMAT_1: seq<byte> := [0x10, 0x81]
  const GET_REQUEST: byte := 0x62
  const WATER_HEATER_CLASS: seq<byte> := [0x02, 0x6B]
  const CONTROLLER_OBJECT: seq<byte> := [0x05, 0xFF, 0x01]

  datatype Error =
    | TransactionIdOutOfRange | InstanceOutOfRange | NoEpcs | TooManyEpcs | DuplicateEpcs | EpcOutOfRange
    | TooShort | UnsupportedHeader | HeaderTruncated | DataTruncated | TrailingBytes
    | NotAPropertyMap | EmptyMap | BadListLength | BadBitmapLength | BadBitmapCount | DuplicateInMap | DuplicateMap

  datatype Property = Property(epc: byte, data: seq<byte>)

  datatype Frame = Frame(
    transactionId: int, source: seq<byte>, destination: seq<byte>, service: byte, properties: seq<Property>)

  // ----- frames -----

  /** The frames the wire format can carry. */
  ghost predicate Printable(f: Frame) {
    && 0 <= f.transactionId < 0x1_0000 && |f.source| == 3 && |f.destination| == 3
    && |f.properties| <= 255 && forall p :: p in f.properties ==> |p.data| <= 255
  }

  function PrintProperties(ps: seq<Property>): seq<byte>
    requires forall p :: p in ps ==> |p.data| <= 255
  {
    if ps == [] then [] else [ps[0].epc, |ps[0].data|] + ps[0].data + PrintProperties(ps[1..])
  }

  function Print(f: Frame): seq<byte>
    requires Printable(f)
  {
    FORMAT_1 + U16(f.transactionId) + f.source + f.destination
    + [f.service, |f.properties|] + PrintProperties(f.properties)
  }

  /** Exactly `n` properties and nothing after them. */
  function ParseProperties(raw: seq<byte>, n: nat): Result<seq<Property>, Error> {
    if n == 0 then (if raw == [] then Ok([]) else Err(TrailingBytes))
    else if |raw| < 2 then Err(HeaderTruncated)
    else
      var length: int := raw[1];
      if |raw| < 2 + length then Err(DataTruncated)
      else Prepend([Property(raw[0], raw[2..2 + length])], ParseProperties(raw[2 + length..], n - 1))
  }

  function Parse(raw: seq<byte>): Result<Frame, Error> {
    if |raw| < 12 then Err(TooShort)
    else if raw[..2] != FORMAT_1 then Err(UnsupportedHeader)
    else
      match ParseProperties(raw[12..], raw[11])
      case Err(e) => Err(e)
      case Ok(ps) => Ok(Frame(FromU16(raw[2..4]), raw[4..7], raw[7..10], raw[10], ps))
  }

  lemma ParseAt(raw: seq<byte>, offset: nat, n: nat)
    requires offset + 2 <= |raw| && offset + 2 + raw[offset + 1] as int <= |raw| && n > 0
    ensures var length: int := raw[offset + 1];
            ParseProperties(raw[offset..], n)
            == Prepend([Property(raw[offset], raw[offset + 2..offset + 2 + length])],
                       ParseProperties(raw[offset + 2 + length..], n - 1))
  {
    var rest, length: int := raw[offset..], raw[offset + 1];
    assert rest[2 + length..] == raw[offset + 2 + length..];
    assert rest[2..2 + length] == raw[offset + 2..offset + 2 + length];
  }

  /** What parsing the body will give: the properties so far, then `k` more at `offset`. */
  ghost predicate BodyAt(raw: seq<byte>, start: nat, count: nat, ps: seq<Property>, offset: nat, k: nat)
    requires start <= |raw| && offset <= |raw|
  {
    ParseProperties(raw[start..], count) == Prepend(ps, ParseProperties(raw[offset..], k))
  }

  lemma BodyStarts(raw: seq<byte>, start: nat, count: nat)
    requires start <= |raw|
    ensures BodyAt(raw, start, count, [], start, count)
  {
    assert forall rest: seq<Property> :: [] + rest == rest;
  }

  lemma BodyAdvances(raw: seq<byte>, start: nat, count: nat, ps: seq<Property>, offset: nat, k: nat)
    requires start <= |raw| && k > 0 && offset + 2 <= |raw| && offset + 2 + raw[offset + 1] as int <= |raw|
    requires BodyAt(raw, start, count, ps, offset, k)
    ensures var end: int := offset + 2 + raw[offset + 1] as int;
            BodyAt(raw, start, count, ps + [Property(raw[offset], raw[offset + 2..end])], end, k - 1)
  {
    var end: int := offset + 2 + raw[offset + 1] as int;
    ParseAt(raw, offset, k);
    PrependTwice(ps, [Property(raw[offset], raw[offset + 2..end])], ParseProperties(raw[end..], k - 1));
  }

  lemma BodyEnds(raw: seq<byte>, start: nat, count: nat, ps: seq<Property>, offset: nat)
    requires start <= |raw| && offset <= |raw| && BodyAt(raw, start, count, ps, offset, 0)
    ensures ParseProperties(raw[start..], count) == if offset == |raw| then Ok(ps) else Err(TrailingBytes)
  {
    assert |raw[offset..]| == |raw| - offset && ps + [] == ps;
  }

  /** The property loop: one offset advancing over the bytes. */
  method ParseBody(raw: seq<byte>, start: nat, count: nat) returns (r: Result<seq<Property>, Error>)
    requires start <= |raw|
    ensures r == ParseProperties(raw[start..], count)
  {
    var offset := start;
    var properties: seq<Property> := [];
    BodyStarts(raw, start, count);
    for i := 0 to count
      invariant start <= offset <= |raw|
      invariant BodyAt(raw, start, count, properties, offset, count - i)
    {
      if offset + 2 > |raw| { return Err(HeaderTruncated); }
      var epc := raw[offset];
      var length: int := raw[offset + 1];
      if offset + 2 + length > |raw| { return Err(DataTruncated); }
      BodyAdvances(raw, start, count, properties, offset, count - i);
      offset := offset + 2;
      properties := properties + [Property(epc, raw[offset..offset + length])];
      offset := offset + length;
    }
    BodyEnds(raw, start, count, properties, offset);
    if offset != |raw| { return Err(TrailingBytes); }
    r := Ok(properties);
  }

  method ParseFrame(raw: seq<byte>) returns (r: Result<Frame, Error>)
    ensures r == Parse(raw)
  {
    if |raw| < 12 { return Err(TooShort); }
    if raw[..2] != FORMAT_1 { return Err(UnsupportedHeader); }
    var properties := ParseBody(raw, 12, raw[11]);
    if properties.Err? { return Err(properties.error); }
    r := Ok(Frame(FromU16(raw[2..4]), raw[4..7], raw[7..10], raw[10], properties.value));
  }

  lemma {:induction false} PropertiesRoundTrip(ps: seq<Property>)
    requires forall p :: p in ps ==> |p.data| <= 255
    ensures ParseProperties(PrintProperties(ps), |ps|) == Ok(ps)
  {
    if ps != [] {
      PropertiesRoundTrip(ps[1..]);
      var raw := PrintProperties(ps);
      var n := |ps[0].data|;
      assert raw[2..2 + n] == ps[0].data && raw[2 + n..] == PrintProperties(ps[1..]);
      assert [ps[0]] + ps[1..] == ps;
    }
  }

  lemma PropertyBytes(raw: seq<byte>, length: nat)
    requires 2 + length <= |raw|
    ensures raw == [raw[0], raw[1]] + raw[2..2 + length] + raw[2 + length..]
  {
  }

  lemma {:induction false} PropertiesReprint(raw: seq<byte>, n: nat)
    requires ParseProperties(raw, n).Ok?
    ensures var ps := ParseProperties(raw, n).value;
            |ps| == n && (forall p :: p in ps ==> |p.data| <= 255) && PrintProperties(ps) == raw
  {
    if n > 0 {
      var length: int := raw[1];
      var rest := ParseProperties(raw[2 + length..], n - 1).value;
      PropertiesReprint(raw[2 + length..], n - 1);
      PropertyBytes(raw, length);
      var ps := [Property(raw[0], raw[2..2 + length])] + rest;
      assert ParseProperties(raw, n) == Ok(ps) && ps[1..] == rest;
    }
  }

  lemma PrintedParts(a: seq<byte>, b: seq<byte>, c: seq<byte>, d: seq<byte>, e: seq<byte>, rest: seq<byte>)
    requires |a| == 2 && |b| == 2 && |c| == 3 && |d| == 3 && |e| == 2
    ensures var raw := a + b + c + d + e + rest;
            && raw[..2] == a && raw[2..4] == b && raw[4..7] == c && raw[7..10] == d
            && raw[10] == e[0] && raw[11] == e[1] && raw[12..] == rest
  {
  }

  /** What an accepted byte string says, byte by byte. */
  lemma ParsedFields(raw: seq<byte>)
    requires Parse(raw).Ok?
    ensures var f := Parse(raw).value;
            && |raw| >= 12 && raw[0] == 0x10 && raw[1] == 0x81
            && f.transactionId == (raw[2] as int) * 256 + raw[3]
            && f.source == [raw[4], raw[5], raw[6]] && f.destination == [raw[7], raw[8], raw[9]]
            && f.service == raw[10] && |f.properties| == raw[11] as int
  {
    assert raw[..2] == [raw[0], raw[1]];
    PropertiesReprint(raw[12..], raw[11]);
  }

  /** Which of the two header errors is reported, and when neither is. */
  lemma HeaderErrors(raw: seq<byte>)
    ensures Parse(raw) == Err(TooShort) <==> |raw| < 12
    ensures Parse(raw) == Err(UnsupportedHeader) <==> |raw| >= 12 && !(raw[0] == 0x10 && raw[1] == 0x81)
    ensures |raw| >= 12 && raw[0] == 0x10 && raw[1] == 0x81 ==>
              (Parse(raw).Ok? <==> ParseProperties(raw[12..], raw[11]).Ok?)
              && (Parse(raw).Err? ==> Parse(raw).error == ParseProperties(raw[12..], raw[11]).error)
  {
    if |raw| >= 12 {
      assert raw[..2] == [raw[0], raw[1]];
      if ParseProperties(raw[12..], raw[11]).Err? { var m, k := BodyErrors(raw[12..], raw[11]); }
    }
  }

  /** After `m` properties in the first `k` bytes, the body has bytes left over, lacks a
      property header, or lacks some of the announced data. */
  ghost predicate FailsAt(raw: seq<byte>, n: nat, m: nat, k: nat, e: Error) {
    && m <= n && k <= |raw| && ParseProperties(raw[..k], m).Ok?
    && (e == TrailingBytes <==> m == n)
    && (e == HeaderTruncated <==> m < n && |raw| < k + 2)
    && (e == DataTruncated <==> m < n && |raw| >= k + 2 && |raw| < k + 2 + raw[k + 1] as int)
    && (e == TrailingBytes ==> k < |raw|) && (e == TrailingBytes || e == HeaderTruncated || e == DataTruncated)
  }

  /** A refused body fails at one point, for the reason reported. */
  lemma {:induction false} BodyErrors(raw: seq<byte>, n: nat) returns (m: nat, k: nat)
    requires ParseProperties(raw, n).Err?
    ensures FailsAt(raw, n, m, k, ParseProperties(raw, n).error)
  {
    if n > 0 && |raw| >= 2 && |raw| >= 2 + raw[1] as int {
      var length: int := raw[1];
      var rest := raw[2 + length..];
      m, k := BodyErrors(rest, n - 1);
      FailsLater(raw, n, m, k, ParseProperties(raw, n).error);
      m, k := m + 1, k + 2 + length;
    } else {
      m, k := 0, 0;
    }
  }

  lemma FailsLater(raw: seq<byte>, n: nat, m: nat, k: nat, e: Error)
    requires n > 0 && |raw| >= 2 && |raw| >= 2 + raw[1] as int && FailsAt(raw[2 + raw[1] as int..], n - 1, m, k, e)
    ensures FailsAt(raw, n, m + 1, k + 2 + raw[1] as int, e)
  {
    var length: int := raw[1];
    var rest, front := raw[2 + length..], raw[..k + 2 + length];
    assert front[2 + length..] == rest[..k] && front[1] == raw[1];
  }

  /** Every frame survives printing and parsing. */
  lemma ParsePrint(f: Frame)
    requires Printable(f)
    ensures Parse(Print(f)) == Ok(f)
  {
    PrintedParts(
      FORMAT_1, U16(f.transactionId), f.source, f.destination, [f.service, |f.properties|],
      PrintProperties(f.properties));
    U16RoundTrip(f.transactionId);
    PropertiesRoundTrip(f.properties);
  }

  /** Every accepted byte string is the printing of the frame it parses to. */
  lemma PrintParse(raw: seq<byte>)
    requires Parse(raw).Ok?
    ensures Printable(Parse(raw).value) && Print(Parse(raw).value) == raw
  {
    PropertiesReprint(raw[12..], raw[11]);
    U16Reprint(raw[2..4]);
    assert raw == raw[..2] + raw[2..4] + raw[4..7] + raw[7..10] + [raw[10], raw[11]] + raw[12..];
  }

  predicate AreBytes(epcs: seq<int>) {
    forall i :: 0 <= i < |epcs| ==> 0 <= epcs[i] < 256
  }

  function GetProperties(epcs: seq<int>): seq<byte>
    requires AreBytes(epcs)
  {
    if epcs == [] then [] else [epcs[0], 0] + GetProperties(epcs[1..])
  }

  function BuildGetRequest(transactionId: int, epcs: seq<int>, instance: int): Result<seq<byte>, Error> {
    if !(0 <= transactionId <= 0xFFFF) then Err(TransactionIdOutOfRange)
    else if !(1 <= instance <= 0xFF) then Err(InstanceOutOfRange)
    else if epcs == [] then Err(NoEpcs)
    else if |epcs| > 0xFF then Err(TooManyEpcs)
    else if exists i, j :: 0 <= i < j < |epcs| && epcs[i] == epcs[j] then Err(DuplicateEpcs)
    else if !AreBytes(epcs) then Err(EpcOutOfRange)
    else Ok(FORMAT_1 + U16(transactionId) + CONTROLLER_OBJECT + WATER_HEATER_CLASS + [instance]
            + [GET_REQUEST, |epcs|] + GetProperties(epcs))
  }

  function EmptyProperties(epcs: seq<int>): (ps: seq<Property>)
    requires AreBytes(epcs)
    ensures forall p :: p in ps ==> p.data == []
  {
    seq(|epcs|, i requires 0 <= i < |epcs| => Property(epcs[i], []))
  }

  lemma {:induction false} GetPropertiesPrint(epcs: seq<int>)
    requires AreBytes(epcs)
    ensures GetProperties(epcs) == PrintProperties(EmptyProperties(epcs))
  {
    if epcs != [] {
      GetPropertiesPrint(epcs[1..]);
      assert EmptyProperties(epcs)[1..] == EmptyProperties(epcs[1..]);
      assert PrintProperties(EmptyProperties(epcs))
          == [epcs[0], 0] + [] + PrintProperties(EmptyProperties(epcs)[1..]);
    }
  }

  /** Requests are built for exactly the 16-bit transactions, the instances 1 to 255 and the
      1 to 255 different EPCs of one byte. */
  lemma RequestsExactly(transactionId: int, epcs: seq<int>, instance: int)
    ensures BuildGetRequest(transactionId, epcs, instance).Ok? <==>
              && 0 <= transactionId < 65536 && 1 <= instance <= 255 && 1 <= |epcs| <= 255
              && (forall i :: 0 <= i < |epcs| ==> 0 <= epcs[i] <= 255)
              && forall i, j :: 0 <= i < j < |epcs| ==> epcs[i] != epcs[j]
  {
  }

  ghost predicate Repeats(epcs: seq<int>) {
    exists i, j :: 0 <= i < j < |epcs| && epcs[i] == epcs[j]
  }

  /** What is wrong with a refused request: the first of these. */
  lemma RequestErrors(transactionId: int, epcs: seq<int>, instance: int)
    ensures var r := BuildGetRequest(transactionId, epcs, instance);
            var transaction, instances := 0 <= transactionId < 65536, 1 <= instance <= 255;
            && (r == Err(TransactionIdOutOfRange) <==> !transaction)
            && (r == Err(InstanceOutOfRange) <==> transaction && !instances)
            && (r == Err(NoEpcs) <==> transaction && instances && |epcs| == 0)
            && (r == Err(TooManyEpcs) <==> transaction && instances && |epcs| > 255)
            && (r == Err(DuplicateEpcs) <==> transaction && instances && 1 <= |epcs| <= 255 && Repeats(epcs))
            && (r == Err(EpcOutOfRange) <==>
                  && transaction && instances && 1 <= |epcs| <= 255 && !Repeats(epcs)
                  && exists i :: 0 <= i < |epcs| && (epcs[i] < 0 || epcs[i] > 255))
  {
    assert AreBytes(epcs) <==> !exists i :: 0 <= i < |epcs| && (epcs[i] < 0 || epcs[i] > 255);
  }

  lemma {:induction false} GetPropertiesAt(epcs: seq<int>, k: nat)
    requires AreBytes(epcs)
    ensures |GetProperties(epcs)| == 2 * |epcs|
    ensures k < |epcs| ==> GetProperties(epcs)[2 * k] == epcs[k] && GetProperties(epcs)[2 * k + 1] == 0
  {
    if epcs != [] { GetPropertiesAt(epcs[1..], if k > 0 then k - 1 else 0); }
  }

  /** A request byte by byte: header, transaction, controller, water heater, Get, count, and
      for each EPC the EPC and a zero. */
  lemma RequestBytes(transactionId: int, epcs: seq<int>, instance: int)
    requires BuildGetRequest(transactionId, epcs, instance).Ok?
    ensures var r := BuildGetRequest(transactionId, epcs, instance).value;
            && |r| == 12 + 2 * |epcs|
            && r[0] == 0x10 && r[1] == 0x81 && (r[2] as int) * 256 + r[3] == transactionId
            && r[4..10] == [0x05, 0xFF, 0x01, 0x02, 0x6B, instance] && r[10] == 0x62 && r[11] as int == |epcs|
            && forall k :: 0 <= k < |epcs| ==> r[12..][2 * k] == epcs[k] && r[12..][2 * k + 1] == 0
  {
    var r := BuildGetRequest(transactionId, epcs, instance).value;
    U16BigEndian(transactionId);
    GetPropertiesAt(epcs, 0);
    assert r[4..10] == CONTROLLER_OBJECT + WATER_HEATER_CLASS + [instance];
    assert r[12..] == GetProperties(epcs);
    forall k | 0 <= k < |epcs| ensures r[12..][2 * k] == epcs[k] && r[12..][2 * k + 1] == 0 {
      GetPropertiesAt(epcs, k);
    }
  }

  /** From the controller to water heater `instance`: the EPCs in order, without data. */
  function GetFrame(transactionId: int, epcs: seq<int>, instance: byte): Frame
    requires AreBytes(epcs)
  {
    Frame(transactionId, CONTROLLER_OBJECT, WATER_HEATER_CLASS + [instance], GET_REQUEST, EmptyProperties(epcs))
  }

  /** A Get request asks for the given EPCs, in order, and carries no data. */
  lemma GetRequestParses(transactionId: int, epcs: seq<int>, instance: int)
    requires BuildGetRequest(transactionId, epcs, instance).Ok?
    ensures AreBytes(epcs)
    ensures Parse(BuildGetRequest(transactionId, epcs, instance).value)
         == Ok(GetFrame(transactionId, epcs, instance))
  {
    var f := GetFrame(transactionId, epcs, instance);
    GetPropertiesPrint(epcs);
    ParsePrint(f);
    assert BuildGetRequest(transactionId, epcs, instance).value == Print(f);
  }
}
