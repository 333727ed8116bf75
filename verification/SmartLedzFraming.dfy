/** Smart LEDZ frames: one short frame, or up to 255 fragments that may arrive in any
    order.  The flag byte's bits are read by division: bits 0-5 the request id, bit 6
    the notification flag, bit 7 the fragmentation flag. */
module SmartLedzFraming {
  import opened Common

  const START: byte := 0xCC
  const END: byte := 0xAA
  const FRAGMENTED := 0x80
  const NOTIFICATION := 0x40
  const REQUEST_ID_MASK := 0x3F
  const SHORT_LIMIT := 65501
  const FRAGMENT_SIZE := 65493
  const MAXIMUM_PAYLOAD := 255 * FRAGMENT_SIZE

  datatype Error =
    | RequestIdOutOfRange | TooManyFragments
    | TooShort | BadBoundary | FragmentTooShort | BadPosition | BadFragmentLength | LengthMismatch
    | NoFrames | MixedFrames | RequestIdsDiffer | NotificationsDiffer | CountsDiffer | TotalsDiffer
    | Incomplete | BadIndexes | TotalMismatch

  datatype Frame = Frame(
    requestId: int, payload: seq<byte>, notification: bool,
    index: int, count: int, totalLength: Option<int>)
  {
    predicate Fragmented() { count > 1 }
  }

  // ----- encoding -----

  function Flags(requestId: int, notification: bool): (r: int)
    requires 0 <= requestId <= REQUEST_ID_MASK
    ensures 0 <= r < FRAGMENTED
  {
    requestId + (if notification then NOTIFICATION else 0)
  }

  function ShortFrame(payload: seq<byte>, requestId: int, notification: bool): seq<byte>
    requires 0 <= requestId <= REQUEST_ID_MASK && |payload| < 0x1_0000
  {
    [START, Flags(requestId, notification)] + U16(|payload|) + payload + [END]
  }

  function FragmentFrame(
    chunk: seq<byte>, requestId: int, notification: bool, index: byte, count: byte, total: int): seq<byte>
    requires 0 <= requestId <= REQUEST_ID_MASK && 0 <= total < 0x1_0000_0000
  {
    [START, Flags(requestId, notification) + FRAGMENTED, index, count] + U32(total) + chunk + [END]
  }

  function Chunks(payload: seq<byte>): seq<seq<byte>> {
    if |payload| <= FRAGMENT_SIZE then (if payload == [] then [] else [payload])
    else [payload[..FRAGMENT_SIZE]] + Chunks(payload[FRAGMENT_SIZE..])
  }

  lemma {:induction false} ChunksCut(payload: seq<byte>)
    ensures Flatten(Chunks(payload)) == payload
    ensures forall chunk :: chunk in Chunks(payload) ==> 0 < |chunk| <= FRAGMENT_SIZE
    ensures (|Chunks(payload)| - 1) * FRAGMENT_SIZE < |payload| <= |Chunks(payload)| * FRAGMENT_SIZE || payload == []
  {
    if |payload| > FRAGMENT_SIZE {
      ChunksCut(payload[FRAGMENT_SIZE..]);
      assert payload == payload[..FRAGMENT_SIZE] + payload[FRAGMENT_SIZE..];
    } else if payload != [] {
      assert Flatten([payload]) == payload + Flatten([]);
    }
  }

  function EncodeFrames(payload: seq<byte>, requestId: int, notification: bool): Result<seq<seq<byte>>, Error> {
    if !(0 <= requestId <= REQUEST_ID_MASK) then Err(RequestIdOutOfRange)
    else if |payload| < SHORT_LIMIT then Ok([ShortFrame(payload, requestId, notification)])
    else
      var chunks := Chunks(payload);
      if |chunks| > 255 then Err(TooManyFragments)
      else
        ChunksCut(payload);
        Ok(seq(|chunks|, i requires 0 <= i < |chunks| =>
          FragmentFrame(chunks[i], requestId, notification, i, |chunks|, |payload|)))
  }

  // ----- decoding -----

  function DecodeFrame(raw: seq<byte>): Result<Frame, Error> {
    if |raw| < 5 then Err(TooShort)
    else if raw[0] != START || raw[|raw| - 1] != END then Err(BadBoundary)
    else
      var requestId := raw[1] % (REQUEST_ID_MASK + 1);
      var notification := (raw[1] / NOTIFICATION) % 2 == 1;
      if raw[1] / FRAGMENTED == 1 then
        if |raw| < 9 then Err(FragmentTooShort)
        else
          var total := FromU32(raw[4..8]);
          var payload := raw[8..|raw| - 1];
          if raw[3] == 0 || raw[2] >= raw[3] then Err(BadPosition)
          else if total <= 0 || |payload| > FRAGMENT_SIZE then Err(BadFragmentLength)
          else Ok(Frame(requestId, payload, notification, raw[2], raw[3], Some(total)))
      else
        var payload := raw[4..|raw| - 1];
        if |payload| != FromU16(raw[2..4]) then Err(LengthMismatch)
        else Ok(Frame(requestId, payload, notification, 0, 1, None))
  }

  /** A short frame byte by byte. */
  lemma ShortFrameBytes(payload: seq<byte>, requestId: int, notification: bool)
    requires 0 <= requestId <= REQUEST_ID_MASK && |payload| < 0x1_0000
    ensures var f := ShortFrame(payload, requestId, notification);
            && |f| == |payload| + 5 && f[0] == 0xCC && f[|f| - 1] == 0xAA
            && f[1] == requestId + (if notification then 64 else 0)
            && (f[2] as int) * 256 + f[3] == |payload| && f[4..|f| - 1] == payload
  {
    U16BigEndian(|payload|);
  }

  /** A fragment byte by byte. */
  lemma FragmentBytes(chunk: seq<byte>, requestId: int, notification: bool, index: byte, count: byte, total: int)
    requires 0 <= requestId <= REQUEST_ID_MASK && 0 <= total < 0x1_0000_0000
    ensures var f := FragmentFrame(chunk, requestId, notification, index, count, total);
            && |f| == |chunk| + 9 && f[0] == 0xCC && f[|f| - 1] == 0xAA
            && f[1] == 128 + requestId + (if notification then 64 else 0) && f[2] == index && f[3] == count
            && (f[4] as int) * 0x100_0000 + (f[5] as int) * 0x1_0000 + (f[6] as int) * 0x100 + f[7] == total
            && f[8..|f| - 1] == chunk
  {
    U32BigEndian(total);
  }

  /** How many frames a payload takes: one short frame below 65501 bytes, else one fragment
      for every 65493 bytes begun. */
  lemma FramesSent(payload: seq<byte>, requestId: int, notification: bool)
    ensures EncodeFrames(payload, requestId, notification) == Err(RequestIdOutOfRange) <==>
              !(0 <= requestId < 64)
    ensures EncodeFrames(payload, requestId, notification) == Err(TooManyFragments) <==>
              0 <= requestId < 64 && |payload| > 255 * 65493
    ensures EncodeFrames(payload, requestId, notification).Ok? ==>
              var sent := EncodeFrames(payload, requestId, notification).value;
              && (|payload| < 65501 ==> sent == [ShortFrame(payload, requestId, notification)])
              && (|payload| >= 65501 ==> (|sent| - 1) * 65493 < |payload| <= |sent| * 65493)
  {
    ChunksCut(payload);
  }

  /** The flag byte of a frame that is fragmented. */
  ghost predicate SaysFragmented(raw: seq<byte>) {
    |raw| >= 5 && raw[0] == 0xCC && raw[|raw| - 1] == 0xAA && raw[1] >= 128
  }

  /** What is wrong with a refused frame: its size or boundaries, ... */
  lemma FrameErrors(raw: seq<byte>)
    ensures DecodeFrame(raw) == Err(TooShort) <==> |raw| < 5
    ensures DecodeFrame(raw) == Err(BadBoundary) <==> |raw| >= 5 && !(raw[0] == 0xCC && raw[|raw| - 1] == 0xAA)
    ensures DecodeFrame(raw) == Err(LengthMismatch) <==>
              && |raw| >= 5 && raw[0] == 0xCC && raw[|raw| - 1] == 0xAA && raw[1] < 128
              && (raw[2] as int) * 256 + raw[3] != |raw| - 5
    ensures DecodeFrame(raw) == Err(FragmentTooShort) <==> SaysFragmented(raw) && |raw| < 9
  {
  }

  /** ... its place among the fragments, or the lengths it declares and has. */
  lemma FragmentErrors(raw: seq<byte>)
    requires SaysFragmented(raw) && |raw| >= 9
    ensures DecodeFrame(raw) == Err(BadPosition) <==> raw[3] == 0 || raw[2] >= raw[3]
    ensures DecodeFrame(raw) == Err(BadFragmentLength) <==>
              && raw[2] < raw[3]
              && ((raw[4] == raw[5] == raw[6] == raw[7] == 0) || |raw| - 9 > 65493)
  {
    var word := raw[4..8];
    assert word[..2] == [raw[4], raw[5]] && word[2..] == [raw[6], raw[7]];
  }

  lemma DecodeShortFrame(payload: seq<byte>, requestId: int, notification: bool)
    requires 0 <= requestId <= REQUEST_ID_MASK && |payload| < 0x1_0000
    ensures DecodeFrame(ShortFrame(payload, requestId, notification))
         == Ok(Frame(requestId, payload, notification, 0, 1, None))
  {
    var raw := ShortFrame(payload, requestId, notification);
    assert raw[2..4] == U16(|payload|) && raw[4..|raw| - 1] == payload;
    U16RoundTrip(|payload|);
  }

  lemma DecodeFragmentFrame(chunk: seq<byte>, requestId: int, notification: bool, index: byte, count: byte, total: int)
    requires 0 <= requestId <= REQUEST_ID_MASK && 0 < total < 0x1_0000_0000
    requires index < count && |chunk| <= FRAGMENT_SIZE
    ensures DecodeFrame(FragmentFrame(chunk, requestId, notification, index, count, total))
         == Ok(Frame(requestId, chunk, notification, index, count, Some(total)))
  {
    var raw := FragmentFrame(chunk, requestId, notification, index, count, total);
    assert raw[4..8] == U32(total) && raw[8..|raw| - 1] == chunk;
    U32RoundTrip(total);
  }

  /** Decoding loses nothing: an accepted byte string is the one encoding of its frame. */
  lemma DecodeIsInjective(raw: seq<byte>)
    requires DecodeFrame(raw).Ok?
    ensures var f := DecodeFrame(raw).value;
            && 0 <= f.requestId <= REQUEST_ID_MASK
            && match f.totalLength
               case None => |f.payload| < 0x1_0000 && raw == ShortFrame(f.payload, f.requestId, f.notification)
               case Some(total) =>
                 && 0 <= f.index < f.count < 256 && 0 < total < 0x1_0000_0000 && |f.payload| <= FRAGMENT_SIZE
                 && raw == FragmentFrame(f.payload, f.requestId, f.notification, f.index, f.count, total)
  {
    var f := DecodeFrame(raw).value;
    if f.totalLength.Some? {
      U32Reprint(raw[4..8]);
      assert raw == [raw[0], raw[1], raw[2], raw[3]] + raw[4..8] + raw[8..|raw| - 1] + [raw[|raw| - 1]];
    } else {
      U16Reprint(raw[2..4]);
      assert raw == [raw[0], raw[1]] + raw[2..4] + raw[4..|raw| - 1] + [raw[|raw| - 1]];
    }
  }

  // ----- reassembly -----

  predicate ByIndex(a: Frame, b: Frame) { a.index <= b.index }

  predicate CompleteIndexes(frames: seq<Frame>) {
    forall i :: 0 <= i < |frames| ==> frames[i].index == i
  }

  function Payloads(frames: seq<Frame>): seq<seq<byte>> {
    Map((f: Frame) => f.payload, frames)
  }

  function Reassemble(frames: seq<Frame>): Result<seq<byte>, Error> {
    if frames == [] then Err(NoFrames)
    else
      var first := frames[0];
      if |frames| == 1 && !first.Fragmented() then Ok(first.payload)
      else if exists f | f in frames :: !f.Fragmented() then Err(MixedFrames)
      else if exists f | f in frames :: f.requestId != first.requestId then Err(RequestIdsDiffer)
      else if exists f | f in frames :: f.notification != first.notification then Err(NotificationsDiffer)
      else if exists f | f in frames :: f.count != first.count then Err(CountsDiffer)
      else if exists f | f in frames :: f.totalLength != first.totalLength then Err(TotalsDiffer)
      else if |frames| != first.count then Err(Incomplete)
      else
        var ordered := Sort(ByIndex, frames);
        if !CompleteIndexes(ordered) then Err(BadIndexes)
        else
          var payload := Flatten(Payloads(ordered));
          if Some(|payload|) != first.totalLength then Err(TotalMismatch) else Ok(payload)
  }

  lemma LastFragmentsAgree(a: seq<Frame>, b: seq<Frame>)
    requires CompleteIndexes(a) && Sorted(ByIndex, b) && multiset(a) == multiset(b) && |a| == |b| > 0
    ensures a[|a| - 1] == b[|b| - 1]
  {
    var n := |a| - 1;
    assert a[n] in multiset(b);
    var j :| 0 <= j < |b| && b[j] == a[n];
    assert j < n ==> ByIndex(b[j], b[n]);
    assert b[n] in multiset(a);
    var i :| 0 <= i < |a| && a[i] == b[n];
  }

  /** A complete fragment set has only one sorted order. */
  lemma {:induction false} CompleteOrderIsUnique(a: seq<Frame>, b: seq<Frame>)
    requires CompleteIndexes(a) && Sorted(ByIndex, b) && multiset(a) == multiset(b)
    ensures a == b
  {
    assert |multiset(a)| == |multiset(b)|;
    if a != [] {
      var n := |a| - 1;
      LastFragmentsAgree(a, b);
      RemoveOne(a, n);
      RemoveOne(b, n);
      assert a[..n] + a[n + 1..] == a[..n] && b[..n] + b[n + 1..] == b[..n];
      CancelOne(multiset(a[..n]), multiset(b[..n]), a[n]);
      CompleteOrderIsUnique(a[..n], b[..n]);
      assert a == a[..n] + [a[n]] && b == b[..n] + [b[n]];
    }
  }

  lemma SortedFragments(a: seq<Frame>, b: seq<Frame>)
    requires multiset(a) == multiset(b)
    ensures CompleteIndexes(Sort(ByIndex, a)) <==> CompleteIndexes(Sort(ByIndex, b))
    ensures CompleteIndexes(Sort(ByIndex, a)) ==> Sort(ByIndex, a) == Sort(ByIndex, b)
  {
    SortPermutes(ByIndex, a);
    SortPermutes(ByIndex, b);
    SortSorted(ByIndex, a);
    SortSorted(ByIndex, b);
    if CompleteIndexes(Sort(ByIndex, a)) { CompleteOrderIsUnique(Sort(ByIndex, a), Sort(ByIndex, b)); }
    if CompleteIndexes(Sort(ByIndex, b)) { CompleteOrderIsUnique(Sort(ByIndex, b), Sort(ByIndex, a)); }
  }

  /** Neither success, nor the payload, nor the reported error depends on arrival order. */
  lemma ArrivalOrderIsIrrelevant(a: seq<Frame>, b: seq<Frame>)
    requires multiset(a) == multiset(b)
    ensures Reassemble(a) == Reassemble(b)
  {
    assert |multiset(a)| == |multiset(b)|;
    forall f ensures f in a <==> f in b {
      assert f in multiset(a) <==> f in multiset(b);
    }
    if a != [] {
      assert a[0] in b && b[0] in a;
      SortedFragments(a, b);
    }
  }

  /** The frames a receiver decodes from the encoding of `payload`, in sending order. */
  function SentFrames(payload: seq<byte>, requestId: int, notification: bool): seq<Frame> {
    if |payload| < SHORT_LIMIT then [Frame(requestId, payload, notification, 0, 1, None)]
    else
      var chunks := Chunks(payload);
      seq(|chunks|, i requires 0 <= i < |chunks| =>
        Frame(requestId, chunks[i], notification, i, |chunks|, Some(|payload|)))
  }

  /** Encoding accepts exactly the ids of 6 bits and the payloads of up to 255
      fragments; a payload it fragments has at least two. */
  lemma AcceptedPayloads(payload: seq<byte>, requestId: int, notification: bool)
    ensures var encoded := EncodeFrames(payload, requestId, notification);
            && (encoded.Ok? <==> 0 <= requestId <= REQUEST_ID_MASK && |payload| <= MAXIMUM_PAYLOAD)
            && (encoded.Ok? && |payload| >= SHORT_LIMIT ==> 2 <= |encoded.value| <= 255)
  {
    ChunksCut(payload);
  }

  lemma EncodedFramesDecode(payload: seq<byte>, requestId: int, notification: bool)
    requires EncodeFrames(payload, requestId, notification).Ok?
    ensures var encoded := EncodeFrames(payload, requestId, notification).value;
            var sent := SentFrames(payload, requestId, notification);
            |encoded| == |sent| && forall i :: 0 <= i < |sent| ==> DecodeFrame(encoded[i]) == Ok(sent[i])
  {
    var encoded := EncodeFrames(payload, requestId, notification).value;
    if |payload| < SHORT_LIMIT {
      DecodeShortFrame(payload, requestId, notification);
    } else {
      ChunksCut(payload);
      var chunks := Chunks(payload);
      forall i | 0 <= i < |chunks|
        ensures DecodeFrame(encoded[i]) == Ok(Frame(requestId, chunks[i], notification, i, |chunks|, Some(|payload|)))
      {
        assert chunks[i] in chunks;
        DecodeFragmentFrame(chunks[i], requestId, notification, i, |chunks|, |payload|);
      }
    }
  }

  /** Every two frames agree on `field`. */
  ghost predicate AllAgree<T>(frames: seq<Frame>, field: Frame -> T) {
    forall f, g :: f in frames && g in frames ==> field(f) == field(g)
  }

  function RequestIdOf(): Frame -> int { (f: Frame) => f.requestId }
  function NotificationOf(): Frame -> bool { (f: Frame) => f.notification }
  function CountOf(): Frame -> int { (f: Frame) => f.count }
  function TotalOf(): Frame -> Option<int> { (f: Frame) => f.totalLength }

  ghost predicate AllFragmented(frames: seq<Frame>) {
    frames != [] && forall f :: f in frames ==> f.count > 1
  }

  /** Fragments of one message: alike in everything but payload and index, and as many as
      they declare. */
  ghost predicate OneMessage(frames: seq<Frame>) {
    && AllFragmented(frames)
    && AllAgree(frames, RequestIdOf()) && AllAgree(frames, NotificationOf())
    && AllAgree(frames, CountOf()) && AllAgree(frames, TotalOf())
    && |frames| == frames[0].count
  }

  /** Each index from 0 on occurs. */
  ghost predicate AllIndexes(frames: seq<Frame>) {
    forall i :: 0 <= i < |frames| ==> HasIndex(frames, i)
  }

  ghost predicate HasIndex(frames: seq<Frame>, i: int) {
    exists f :: f in frames && f.index == i
  }

  lemma AgreeWithFirst<T>(frames: seq<Frame>, field: Frame -> T)
    requires frames != []
    ensures AllAgree(frames, field) <==> !exists f :: f in frames && field(f) != field(frames[0])
  {
    assert frames[0] in frames;
  }

  /** Which of several defects is reported: the first in this order. */
  lemma ReassemblyErrors(frames: seq<Frame>)
    requires AllFragmented(frames)
    ensures var r := Reassemble(frames);
            && (r == Err(RequestIdsDiffer) <==> !AllAgree(frames, RequestIdOf()))
            && (r == Err(NotificationsDiffer) <==>
                  AllAgree(frames, RequestIdOf()) && !AllAgree(frames, NotificationOf()))
            && (r == Err(CountsDiffer) <==>
                  && AllAgree(frames, RequestIdOf()) && AllAgree(frames, NotificationOf())
                  && !AllAgree(frames, CountOf()))
            && (r == Err(TotalsDiffer) <==>
                  && AllAgree(frames, RequestIdOf()) && AllAgree(frames, NotificationOf())
                  && AllAgree(frames, CountOf()) && !AllAgree(frames, TotalOf()))
            && (r == Err(Incomplete) <==>
                  && AllAgree(frames, RequestIdOf()) && AllAgree(frames, NotificationOf())
                  && AllAgree(frames, CountOf()) && AllAgree(frames, TotalOf()) && |frames| != frames[0].count)
  {
    AgreeWithFirst(frames, RequestIdOf());
    AgreeWithFirst(frames, NotificationOf());
    AgreeWithFirst(frames, CountOf());
    AgreeWithFirst(frames, TotalOf());
    assert frames[0] in frames;
  }

  /** Frames that are not all fragments are only accepted as one short frame. */
  lemma ShortOrMixed(frames: seq<Frame>)
    requires !AllFragmented(frames)
    ensures Reassemble(frames)
         == if frames == [] then Err(NoFrames)
            else if |frames| == 1 then Ok(frames[0].payload)
            else Err(MixedFrames)
  {
    if |frames| == 1 { assert forall f :: f in frames ==> f == frames[0]; }
  }

  lemma IndexesAreComplete(frames: seq<Frame>)
    ensures CompleteIndexes(Sort(ByIndex, frames)) <==> AllIndexes(frames)
  {
    var sorted := Sort(ByIndex, frames);
    SortPermutes(ByIndex, frames);
    SortSorted(ByIndex, frames);
    forall f ensures f in sorted <==> f in frames {
      assert f in multiset(sorted) <==> f in multiset(frames);
    }
    assert |multiset(sorted)| == |multiset(frames)|;
    if CompleteIndexes(sorted) {
      forall i | 0 <= i < |frames| ensures HasIndex(frames, i) {
        assert sorted[i] in sorted;
      }
    }
    if AllIndexes(frames) {
      forall i | 0 <= i < |sorted| ensures HasIndex(sorted, i) {
        assert HasIndex(frames, i);
      }
      IndexesDiffer(sorted);
      SortedIndexesAreComplete(sorted, |sorted|);
    }
  }

  function Indexes(frames: seq<Frame>): seq<int> {
    Map((f: Frame) => f.index, frames)
  }

  lemma IndexesInRange(frames: seq<Frame>)
    requires AllIndexes(frames)
    ensures ElementsOf(Indexes(frames)) == Range(0, |frames|)
  {
    var found := ElementsOf(Indexes(frames));
    forall i | i in Range(0, |frames|) ensures i in found {
      assert HasIndex(frames, i);
      var f :| f in frames && f.index == i;
      var k :| 0 <= k < |frames| && frames[k] == f;
      assert Indexes(frames)[k] == i;
    }
    FewerElements(Indexes(frames));
    assert found == Range(0, |frames|) + (found - Range(0, |frames|));
    assert |found| == |Range(0, |frames|)| + |found - Range(0, |frames|)|;
  }

  /** As many indexes as frames leave no room for a repetition. */
  lemma IndexesDiffer(frames: seq<Frame>)
    requires AllIndexes(frames)
    ensures Distinct(Indexes(frames))
  {
    IndexesInRange(frames);
    if !Distinct(Indexes(frames)) { RepetitionShrinks(Indexes(frames)); }
  }

  /** In sorted frames with different indexes, all of them below their number, none is
      skipped. */
  lemma {:induction false} SortedIndexesAreComplete(sorted: seq<Frame>, n: nat)
    requires n <= |sorted| && Sorted(ByIndex, sorted) && AllIndexes(sorted) && Distinct(Indexes(sorted))
    ensures forall i :: 0 <= i < n ==> sorted[i].index == i
  {
    if n > 0 {
      SortedIndexesAreComplete(sorted, n - 1);
      NextIndex(sorted, n - 1);
    }
  }

  lemma NextIndex(sorted: seq<Frame>, k: nat)
    requires k < |sorted| && Sorted(ByIndex, sorted) && AllIndexes(sorted) && Distinct(Indexes(sorted))
    requires forall i :: 0 <= i < k ==> sorted[i].index == i
    ensures sorted[k].index == k
  {
    if k == 0 {
      FirstIndex(sorted);
    } else {
      assert HasIndex(sorted, k);
      var f :| f in sorted && f.index == k;
      var j :| 0 <= j < |sorted| && sorted[j] == f;
      assert j >= k && (j > k ==> ByIndex(sorted[k], sorted[j]));
      assert ByIndex(sorted[k - 1], sorted[k]) && Indexes(sorted)[k - 1] != Indexes(sorted)[k];
    }
  }

  lemma FirstIndex(sorted: seq<Frame>)
    requires sorted != [] && Sorted(ByIndex, sorted) && AllIndexes(sorted) && Distinct(Indexes(sorted))
    ensures sorted[0].index == 0
  {
    IndexesInRange(sorted);
    assert HasIndex(sorted, 0);
    var f :| f in sorted && f.index == 0;
    var j :| 0 <= j < |sorted| && sorted[j] == f;
    assert j > 0 ==> ByIndex(sorted[0], sorted[j]);
    assert Indexes(sorted)[0] in ElementsOf(Indexes(sorted));
  }

  /** Fragments are accepted exactly when they are of one message, every index from 0 on
      occurs, and they have the declared length together. */
  lemma MessagesExactly(frames: seq<Frame>)
    requires AllFragmented(frames)
    ensures var length := |Flatten(Payloads(frames))|;
            && (Reassemble(frames).Ok? <==>
                  OneMessage(frames) && AllIndexes(frames) && frames[0].totalLength == Some(length))
            && (Reassemble(frames) == Err(BadIndexes) <==> OneMessage(frames) && !AllIndexes(frames))
            && (Reassemble(frames) == Err(TotalMismatch) <==>
                  OneMessage(frames) && AllIndexes(frames) && frames[0].totalLength != Some(length))
  {
    ReassemblyErrors(frames);
    IndexesAreComplete(frames);
    SamePayloadLength(frames);
    AgreeWithFirst(frames, RequestIdOf());
    AgreeWithFirst(frames, NotificationOf());
    AgreeWithFirst(frames, CountOf());
    AgreeWithFirst(frames, TotalOf());
    assert frames[0] in frames;
  }

  lemma SamePayloadLength(frames: seq<Frame>)
    ensures |Flatten(Payloads(Sort(ByIndex, frames)))| == |Flatten(Payloads(frames))|
  {
    SortPermutes(ByIndex, frames);
    MapPermutation((f: Frame) => f.payload, Sort(ByIndex, frames), frames);
    FlattenPermutation(Payloads(Sort(ByIndex, frames)), Payloads(frames));
    assert |multiset(Flatten(Payloads(Sort(ByIndex, frames))))| == |multiset(Flatten(Payloads(frames)))|;
  }

  lemma UniformFragmentsReassemble(frames: seq<Frame>, payload: seq<byte>, requestId: int, notification: bool)
    requires |frames| >= 2 && CompleteIndexes(frames) && Flatten(Payloads(frames)) == payload
    requires forall f :: f in frames ==> f.requestId == requestId && f.notification == notification
                                         && f.count == |frames| && f.totalLength == Some(|payload|)
    ensures Reassemble(frames) == Ok(payload)
  {
    SortPermutes(ByIndex, frames);
    SortSorted(ByIndex, frames);
    CompleteOrderIsUnique(frames, Sort(ByIndex, frames));
  }

  lemma SentFramesReassemble(payload: seq<byte>, requestId: int, notification: bool)
    ensures Reassemble(SentFrames(payload, requestId, notification)) == Ok(payload)
  {
    if |payload| >= SHORT_LIMIT {
      ChunksCut(payload);
      var sent := SentFrames(payload, requestId, notification);
      assert Payloads(sent) == Chunks(payload);
      UniformFragmentsReassemble(sent, payload, requestId, notification);
    }
  }

  function DecodedOr(raw: seq<byte>, default: Frame): Frame {
    match DecodeFrame(raw) case Ok(f) => f case Err(_) => default
  }

  /** The decoding of `arrived`, position by position. */
  function DecodedAll(arrived: seq<seq<byte>>): seq<Frame> {
    Map((raw: seq<byte>) => DecodedOr(raw, Frame(0, [], false, 0, 0, None)), arrived)
  }

  /** The frames that arrive are those sent, in the order of arrival. */
  lemma ArrivedFrames(payload: seq<byte>, requestId: int, notification: bool, arrived: seq<seq<byte>>)
    requires EncodeFrames(payload, requestId, notification).Ok?
    requires multiset(arrived) == multiset(EncodeFrames(payload, requestId, notification).value)
    ensures multiset(DecodedAll(arrived)) == multiset(SentFrames(payload, requestId, notification))
    ensures forall i :: 0 <= i < |arrived| ==> DecodeFrame(arrived[i]) == Ok(DecodedAll(arrived)[i])
  {
    var encoded := EncodeFrames(payload, requestId, notification).value;
    EncodedFramesDecode(payload, requestId, notification);
    assert DecodedAll(encoded) == SentFrames(payload, requestId, notification);
    MapPermutation((raw: seq<byte>) => DecodedOr(raw, Frame(0, [], false, 0, 0, None)), arrived, encoded);
    forall i | 0 <= i < |arrived| ensures DecodeFrame(arrived[i]).Ok? {
      assert arrived[i] in multiset(encoded);
    }
  }

  /** Whatever the arrival order of the encoded frames, each decodes with the request id
      and the notification flag of the message, and together they give the payload. */
  lemma RoundTripInAnyOrder(payload: seq<byte>, requestId: int, notification: bool, arrived: seq<seq<byte>>)
    returns (frames: seq<Frame>)
    requires EncodeFrames(payload, requestId, notification).Ok?
    requires multiset(arrived) == multiset(EncodeFrames(payload, requestId, notification).value)
    ensures |frames| == |arrived|
    ensures forall i :: 0 <= i < |arrived| ==> DecodeFrame(arrived[i]) == Ok(frames[i])
    ensures forall f :: f in frames ==> f.requestId == requestId && f.notification == notification
    ensures Reassemble(frames) == Ok(payload)
  {
    frames := DecodedAll(arrived);
    ArrivedFrames(payload, requestId, notification, arrived);
    ArrivalOrderIsIrrelevant(frames, SentFrames(payload, requestId, notification));
    SentFramesReassemble(payload, requestId, notification);
    forall f | f in frames ensures f.requestId == requestId && f.notification == notification {
      assert f in multiset(SentFrames(payload, requestId, notification));
    }
  }

  /** Accepted frames that declare `count` fragments and a total length. */
  ghost predicate Declares(frames: seq<Frame>, count: int) {
    frames != [] && frames[0].count == count && frames[0].totalLength.Some? && Reassemble(frames).Ok?
  }

  ghost predicate LengthMatches(frames: seq<Frame>)
    requires frames != [] && Reassemble(frames).Ok?
  {
    frames[0].totalLength == Some(|Reassemble(frames).value|)
  }

  /** A frame that declares itself the only fragment is taken as it is, whatever total
      length it declares: here 7 bytes declared, none present. */
  lemma SingleFragmentLengthIsNotChecked() returns (frames: seq<Frame>)
    ensures |frames| == 1 && DecodeFrame(FragmentFrame([], 0, false, 0, 1, 7)) == Ok(frames[0])
    ensures Declares(frames, 1) && !LengthMatches(frames)
  {
    DecodeFragmentFrame([], 0, false, 0, 1, 7);
    frames := [Frame(0, [], false, 0, 1, Some(7))];
  }

  /** Reassembly vouches for the declared total length exactly when two or more fragments
      are declared. */
  lemma LengthIsCheckedExactly(count: int)
    requires count >= 1
    ensures (forall frames :: Declares(frames, count) ==> LengthMatches(frames)) <==> count >= 2
  {
    if count == 1 {
      var frames := SingleFragmentLengthIsNotChecked();
      assert Declares(frames, count) && !LengthMatches(frames);
    }
  }
}
