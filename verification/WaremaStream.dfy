/** The WAREMA stream splitter: bytes arrive in arbitrary chunks and are cut into
    candidate frames at each `}`.  The per-frame decoder is a parameter; `FrameDecoder` is
    the source's own, reduced to acceptance and the kind of frame. */
module WaremaStream {
  import opened Common

  const OPEN: byte := 0x7B
  const CLOSE: byte := 0x7D

  datatype Error = BufferLimit | BadFrame

  type Decoder<!F> = seq<byte> -> Option<F>

  /** What a call leaves behind and what it answers. */
  datatype Outcome<+F> = Outcome(buffer: seq<byte>, result: Result<seq<F>, Error>)

  function WithFrames<F>(frames: seq<F>, o: Outcome<F>): Outcome<F> {
    Outcome(o.buffer, Prepend(frames, o.result))
  }

  /** The frame in one candidate (bytes up to and including a `}`): none when it has no
      `{`, else what the decoder makes of the part from the first `{`. */
  function DecodeCandidate<F>(decode: Decoder<F>, candidate: seq<byte>): Result<seq<F>, Error> {
    var start := Find(candidate, OPEN);
    if start == |candidate| then Ok([])
    else match decode(candidate[start..]) case None => Err(BadFrame) case Some(f) => Ok([f])
  }

  /** Cuts candidates off the front while there is a `}`. */
  function Drain<F>(decode: Decoder<F>, buffer: seq<byte>): Outcome<F>
    decreases |buffer|
  {
    var end := Find(buffer, CLOSE);
    if end == |buffer| then Outcome(buffer, Ok([]))
    else
      match DecodeCandidate(decode, buffer[..end + 1])
      case Err(e) => Outcome(buffer[end + 1..], Err(e))
      case Ok(frames) => WithFrames(frames, Drain(decode, buffer[end + 1..]))
  }

  function Fed<F>(decode: Decoder<F>, maximum: nat, buffer: seq<byte>, chunk: seq<byte>): Outcome<F> {
    if |buffer + chunk| > maximum then Outcome([], Err(BufferLimit)) else Drain(decode, buffer + chunk)
  }

  class FrameStream<!F> {
    const decode: Decoder<F>
    const maximum: nat
    var buffer: seq<byte>

    constructor (decode: Decoder<F>, maximum: nat)
      ensures this.decode == decode && this.maximum == maximum && buffer == []
    {
      this.decode, this.maximum, buffer := decode, maximum, [];
    }

    method Feed(chunk: seq<byte>) returns (r: Result<seq<F>, Error>)
      modifies this
      ensures Outcome(buffer, r) == Fed(decode, maximum, old(buffer), chunk)
    {
      buffer := buffer + chunk;
      if |buffer| > maximum {
        buffer := [];
        return Err(BufferLimit);
      }
      ghost var start := buffer;
      var frames: seq<F> := [];
      Begins(decode, start);
      while CLOSE in buffer
        invariant DrainedTo(decode, start, frames, buffer)
        decreases |buffer|
      {
        var end := Find(buffer, CLOSE);
        var candidate := buffer[..end + 1];
        ghost var before := buffer;
        buffer := buffer[end + 1..];
        var open := Find(candidate, OPEN);
        if open < |candidate| {
          var decoded := decode(candidate[open..]);
          if decoded.None? {
            StopsAtBadFrame(decode, start, frames, before);
            return Err(BadFrame);
          }
          TakesFrame(decode, start, frames, before);
          frames := frames + [decoded.value];
        } else {
          SkipsNoise(decode, start, frames, before);
        }
      }
      Ends(decode, start, frames, buffer);
      r := Ok(frames);
    }
  }

  /** A call that would overfill the buffer empties it and fails; any other drains what was
      left and what came, in this order. */
  lemma FedExactly<F>(decode: Decoder<F>, maximum: nat, buffer: seq<byte>, chunk: seq<byte>)
    ensures Fed(decode, maximum, buffer, chunk) == Outcome([], Err(BufferLimit)) <==> |buffer| + |chunk| > maximum
    ensures |buffer| + |chunk| <= maximum ==> Fed(decode, maximum, buffer, chunk) == Drain(decode, buffer + chunk)
  {
    if |buffer| + |chunk| <= maximum { DrainNeverOverfills(decode, buffer + chunk); }
  }

  lemma {:induction false} DrainNeverOverfills<F>(decode: Decoder<F>, buffer: seq<byte>)
    ensures Drain(decode, buffer).result != Err(BufferLimit)
    decreases |buffer|
  {
    var end := Find(buffer, CLOSE);
    if end < |buffer| { DrainNeverOverfills(decode, buffer[end + 1..]); }
  }

  /** Draining `start` comes to `frames` and then whatever draining `buffer` gives. */
  ghost predicate DrainedTo<F>(decode: Decoder<F>, start: seq<byte>, frames: seq<F>, buffer: seq<byte>) {
    Drain(decode, start) == WithFrames(frames, Drain(decode, buffer))
  }

  /** What decoding the first candidate of `buffer` gives. */
  ghost function FirstDecoded<F>(decode: Decoder<F>, buffer: seq<byte>): Result<seq<F>, Error>
    requires Find(buffer, CLOSE) < |buffer|
  {
    DecodeCandidate(decode, buffer[..Find(buffer, CLOSE) + 1])
  }

  lemma Begins<F>(decode: Decoder<F>, start: seq<byte>)
    ensures DrainedTo(decode, start, [], start)
  {
    PrependNothing(Drain(decode, start).result);
  }

  lemma SkipsNoise<F>(decode: Decoder<F>, start: seq<byte>, frames: seq<F>, buffer: seq<byte>)
    requires DrainedTo(decode, start, frames, buffer)
    requires Find(buffer, CLOSE) < |buffer| && FirstDecoded(decode, buffer) == Ok([])
    ensures DrainedTo(decode, start, frames, buffer[Find(buffer, CLOSE) + 1..])
  {
    PrependNothing(Drain(decode, buffer[Find(buffer, CLOSE) + 1..]).result);
  }

  lemma TakesFrame<F>(decode: Decoder<F>, start: seq<byte>, frames: seq<F>, buffer: seq<byte>)
    requires DrainedTo(decode, start, frames, buffer)
    requires Find(buffer, CLOSE) < |buffer| && FirstDecoded(decode, buffer).Ok?
    ensures DrainedTo(decode, start, frames + FirstDecoded(decode, buffer).value, buffer[Find(buffer, CLOSE) + 1..])
  {
    PrependTwice(frames, FirstDecoded(decode, buffer).value, Drain(decode, buffer[Find(buffer, CLOSE) + 1..]).result);
  }

  lemma StopsAtBadFrame<F>(decode: Decoder<F>, start: seq<byte>, frames: seq<F>, buffer: seq<byte>)
    requires DrainedTo(decode, start, frames, buffer)
    requires Find(buffer, CLOSE) < |buffer| && FirstDecoded(decode, buffer) == Err(BadFrame)
    ensures Drain(decode, start) == Outcome(buffer[Find(buffer, CLOSE) + 1..], Err(BadFrame))
  {
  }

  lemma Ends<F>(decode: Decoder<F>, start: seq<byte>, frames: seq<F>, buffer: seq<byte>)
    requires DrainedTo(decode, start, frames, buffer) && CLOSE !in buffer
    ensures Drain(decode, start) == Outcome(buffer, Ok(frames))
  {
    assert frames + [] == frames;
  }

  /** Noise before a frame is skipped: the decoder gets the part from the first `{` on, and
      a candidate without one holds no frame and is no error. */
  lemma NoiseIsSkipped<F>(decode: Decoder<F>, noise: seq<byte>, frame: seq<byte>)
    requires OPEN !in noise
    ensures DecodeCandidate(decode, noise) == Ok([])
    ensures frame != [] && frame[0] == OPEN ==>
              && (decode(frame).None? ==> DecodeCandidate(decode, noise + frame) == Err(BadFrame))
              && (decode(frame).Some? ==> DecodeCandidate(decode, noise + frame) == Ok([decode(frame).value]))
  {
    assert forall i :: 0 <= i < |noise| ==> noise[i] in noise;
    if frame != [] && frame[0] == OPEN {
      FindIsFirst(noise + frame, OPEN, |noise|);
      assert (noise + frame)[|noise|..] == frame;
    }
  }

  // ----- candidates -----

  /** One candidate: a `}` at the end and nowhere else. */
  ghost predicate IsCandidate(s: seq<byte>) {
    s != [] && s[|s| - 1] == CLOSE && forall i :: 0 <= i < |s| - 1 ==> s[i] != CLOSE
  }

  /** The complete candidates of an input: what cutting after each `}` gives. */
  function Candidates(x: seq<byte>): seq<seq<byte>>
    decreases |x|
  {
    var end := Find(x, CLOSE);
    if end == |x| then [] else [x[..end + 1]] + Candidates(x[end + 1..])
  }

  /** A non-empty candidate list starts with the first candidate. */
  lemma FirstCandidate(x: seq<byte>) returns (candidate: seq<byte>, rest: seq<byte>)
    requires Candidates(x) != []
    ensures IsCandidate(candidate) && x == candidate + rest && |rest| < |x|
    ensures Candidates(x) == [candidate] + Candidates(rest)
  {
    var end := Find(x, CLOSE);
    candidate, rest := x[..end + 1], x[end + 1..];
  }

  /** A candidate at the front is cut off and decoded first. */
  lemma DrainCandidate<F>(decode: Decoder<F>, candidate: seq<byte>, rest: seq<byte>)
    requires IsCandidate(candidate)
    ensures var decoded := DecodeCandidate(decode, candidate);
            Drain(decode, candidate + rest)
            == if decoded.Ok? then WithFrames(decoded.value, Drain(decode, rest)) else Outcome(rest, Err(decoded.error))
  {
    var end := |candidate| - 1;
    FindIsFirst(candidate + rest, CLOSE, end);
    assert (candidate + rest)[..end + 1] == candidate && (candidate + rest)[end + 1..] == rest;
  }

  // ----- chunking -----

  /** What draining `a` and then whatever follows it comes to. */
  ghost predicate Composes<F>(decode: Decoder<F>, a: seq<byte>, b: seq<byte>) {
    var first := Drain(decode, a);
    && (first.result.Ok? ==> Drain(decode, a + b) == WithFrames(first.result.value, Drain(decode, first.buffer + b)))
    && (Drain(decode, a + b).result.Ok? ==> first.result.Ok?)
  }

  lemma WithFramesTwice<F>(a: seq<F>, b: seq<F>, o: Outcome<F>)
    ensures WithFrames(a, WithFrames(b, o)) == WithFrames(a + b, o)
  {
    PrependTwice(a, b, o.result);
  }

  lemma CandidateComposes<F>(decode: Decoder<F>, candidate: seq<byte>, rest: seq<byte>, b: seq<byte>)
    requires IsCandidate(candidate) && Composes(decode, rest, b)
    ensures Composes(decode, candidate + rest, b)
  {
    var decoded, first := DecodeCandidate(decode, candidate), Drain(decode, rest);
    assert (candidate + rest) + b == candidate + (rest + b);
    DrainCandidate(decode, candidate, rest);
    DrainCandidate(decode, candidate, rest + b);
    if decoded.Ok? {
      assert Drain(decode, candidate + rest) == WithFrames(decoded.value, first);
      if first.result.Ok? { WithFramesTwice(decoded.value, first.result.value, Drain(decode, first.buffer + b)); }
    } else {
      assert Drain(decode, candidate + rest).result.Err? && Drain(decode, (candidate + rest) + b).result.Err?;
    }
  }

  /** Bytes that arrive later continue where the first ones were left; and if the whole
      drains without an error, so does every prefix. */
  lemma {:induction false} DrainComposes<F>(decode: Decoder<F>, a: seq<byte>, b: seq<byte>)
    ensures Composes(decode, a, b)
    decreases |a|
  {
    if Candidates(a) == [] {
      PrependNothing(Drain(decode, a + b).result);
    } else {
      var candidate, rest := FirstCandidate(a);
      DrainComposes(decode, rest, b);
      CandidateComposes(decode, candidate, rest, b);
    }
  }

  /** What is left never grows. */
  lemma {:induction false} DrainShrinks<F>(decode: Decoder<F>, a: seq<byte>)
    ensures |Drain(decode, a).buffer| <= |a|
    decreases |a|
  {
    var end := Find(a, CLOSE);
    if end < |a| { DrainShrinks(decode, a[end + 1..]); }
  }

  /** A stream being fed: its buffer, the frames its calls have returned, and the error of
      the first call that failed. */
  datatype Session<+F> = Session(buffer: seq<byte>, delivered: seq<F>, error: Option<Error>)

  function NextCall<F>(decode: Decoder<F>, maximum: nat, before: Session<F>, chunk: seq<byte>): Session<F> {
    if before.error.Some? then before
    else
      var after := Fed(decode, maximum, before.buffer, chunk);
      match after.result
      case Ok(frames) => Session(after.buffer, before.delivered + frames, None)
      case Err(e) => Session(after.buffer, before.delivered, Some(e))
  }

  /** Feeding `chunks` one after another to an empty stream, until one call fails. */
  function FedAll<F>(decode: Decoder<F>, maximum: nat, chunks: seq<seq<byte>>): Session<F> {
    if chunks == [] then Session([], [], None)
    else NextCall(decode, maximum, FedAll(decode, maximum, chunks[..|chunks| - 1]), chunks[|chunks| - 1])
  }

  lemma FlattenLast<T>(parts: seq<seq<T>>)
    requires parts != []
    ensures Flatten(parts) == Flatten(parts[..|parts| - 1]) + parts[|parts| - 1]
  {
    FlattenSnoc(parts[..|parts| - 1], parts[|parts| - 1]);
    assert parts == parts[..|parts| - 1] + [parts[|parts| - 1]];
  }

  /** Whatever the chunks, as long as no call fails the frames and the residue are those
      of the whole input given at once. */
  lemma {:induction false} ChunksAgreeWithWhole<F>(decode: Decoder<F>, maximum: nat, chunks: seq<seq<byte>>)
    requires FedAll(decode, maximum, chunks).error.None?
    ensures var fed := FedAll(decode, maximum, chunks);
            Drain(decode, Flatten(chunks)) == Outcome(fed.buffer, Ok(fed.delivered))
  {
    if chunks != [] {
      var front, last := chunks[..|chunks| - 1], chunks[|chunks| - 1];
      ChunksAgreeWithWhole(decode, maximum, front);
      FlattenLast(chunks);
      DrainComposes(decode, Flatten(front), last);
    }
  }

  lemma {:induction false} NoCallFails<F>(decode: Decoder<F>, maximum: nat, chunks: seq<seq<byte>>)
    requires |Flatten(chunks)| <= maximum && Drain(decode, Flatten(chunks)).result.Ok?
    ensures FedAll(decode, maximum, chunks).error.None?
  {
    if chunks != [] {
      var front, last := chunks[..|chunks| - 1], chunks[|chunks| - 1];
      FlattenLast(chunks);
      DrainComposes(decode, Flatten(front), last);
      NoCallFails(decode, maximum, front);
      ChunksAgreeWithWhole(decode, maximum, front);
      DrainShrinks(decode, Flatten(front));
    }
  }

  lemma FedAtOnce<F>(decode: Decoder<F>, maximum: nat, x: seq<byte>)
    ensures Flatten([x]) == x
    ensures FedAll(decode, maximum, [x]) == NextCall(decode, maximum, Session([], [], None), x)
  {
    assert [x][..0] == [] && Flatten([x]) == x + Flatten([]);
  }

  // ----- the buffer after a call -----

  /** `rest` is what follows the last `}` of `buffer`. */
  ghost predicate FollowsLastClose(buffer: seq<byte>, consumed: seq<byte>, rest: seq<byte>) {
    && buffer == consumed + rest && (consumed == [] || consumed[|consumed| - 1] == CLOSE)
    && forall i :: 0 <= i < |rest| ==> rest[i] != CLOSE
  }

  lemma CandidateBefore(candidate: seq<byte>, buffer: seq<byte>, consumed: seq<byte>, rest: seq<byte>)
    requires IsCandidate(candidate) && FollowsLastClose(buffer, consumed, rest)
    ensures FollowsLastClose(candidate + buffer, candidate + consumed, rest)
  {
    assert candidate + (consumed + rest) == candidate + consumed + rest;
  }

  /** A normal return leaves exactly the bytes after the last `}`. */
  lemma {:induction false} ResidueFollowsLastClose<F>(decode: Decoder<F>, buffer: seq<byte>)
    returns (consumed: seq<byte>)
    requires Drain(decode, buffer).result.Ok?
    ensures FollowsLastClose(buffer, consumed, Drain(decode, buffer).buffer)
    decreases |buffer|
  {
    var end := Find(buffer, CLOSE);
    if end == |buffer| {
      consumed := [];
      assert [] + buffer == buffer;
    } else {
      var candidate, rest := buffer[..end + 1], buffer[end + 1..];
      assert buffer == candidate + rest;
      DrainCandidate(decode, candidate, rest);
      consumed := ResidueFollowsLastClose(decode, rest);
      CandidateBefore(candidate, rest, consumed, Drain(decode, rest).buffer);
      consumed := candidate + consumed;
    }
  }

  // ----- the candidates of an input -----

  /** The candidates are the input up to its last `}`, cut after each `}`. */
  lemma {:induction false} CandidatesCut(x: seq<byte>) returns (rest: seq<byte>)
    ensures FollowsLastClose(x, Flatten(Candidates(x)), rest)
    ensures forall c :: c in Candidates(x) ==> IsCandidate(c)
    decreases |x|
  {
    var end := Find(x, CLOSE);
    if end == |x| {
      rest := x;
      assert [] + x == x;
    } else {
      rest := CandidatesCut(x[end + 1..]);
      assert x == x[..end + 1] + x[end + 1..];
      CandidateBefore(x[..end + 1], x[end + 1..], Flatten(Candidates(x[end + 1..])), rest);
    }
  }

  lemma CandidatesHead(candidate: seq<byte>, rest: seq<byte>)
    requires IsCandidate(candidate)
    ensures Candidates(candidate + rest) == [candidate] + Candidates(rest)
  {
    var end := |candidate| - 1;
    FindIsFirst(candidate + rest, CLOSE, end);
    assert (candidate + rest)[..end + 1] == candidate && (candidate + rest)[end + 1..] == rest;
  }

  predicate Decodes<F>(decode: Decoder<F>, candidate: seq<byte>) {
    DecodeCandidate(decode, candidate).Ok?
  }

  /** The frames of the candidates before the first that does not decode. */
  function FramesBefore<F>(decode: Decoder<F>, cs: seq<seq<byte>>): seq<F> {
    if cs == [] || !Decodes(decode, cs[0]) then []
    else DecodeCandidate(decode, cs[0]).value + FramesBefore(decode, cs[1..])
  }

  lemma {:induction false} FramesExtend<F>(decode: Decoder<F>, a: seq<seq<byte>>, b: seq<seq<byte>>)
    requires a <= b
    ensures FramesBefore(decode, a) <= FramesBefore(decode, b)
  {
    if a != [] && Decodes(decode, a[0]) {
      assert a[0] == b[0];
      FramesExtend(decode, a[1..], b[1..]);
    }
  }

  lemma {:induction false} NoFramesExactly<F>(decode: Decoder<F>, cs: seq<seq<byte>>)
    requires forall k :: 0 <= k < |cs| ==> Decodes(decode, cs[k])
    ensures FramesBefore(decode, cs) == [] <==> forall k :: 0 <= k < |cs| ==> OPEN !in cs[k]
  {
    if cs != [] {
      var rest := cs[1..];
      NoFramesExactly(decode, rest);
      assert forall k :: 0 < k < |cs| ==> cs[k] == rest[k - 1];
      assert forall k :: 0 <= k < |rest| ==> rest[k] == cs[k + 1];
      assert DecodeCandidate(decode, cs[0]).value == [] <==> OPEN !in cs[0];
    }
  }

  ghost predicate AllDecode<F>(decode: Decoder<F>, x: seq<byte>) {
    forall c :: c in Candidates(x) ==> Decodes(decode, c)
  }

  lemma HeadDecodes<F>(decode: Decoder<F>, candidate: seq<byte>, rest: seq<byte>)
    requires IsCandidate(candidate)
    ensures AllDecode(decode, candidate + rest) <==> Decodes(decode, candidate) && AllDecode(decode, rest)
  {
    CandidatesHead(candidate, rest);
    assert forall c :: c in [candidate] + Candidates(rest) <==> c == candidate || c in Candidates(rest);
  }

  lemma FramesHead<F>(decode: Decoder<F>, candidate: seq<byte>, cs: seq<seq<byte>>)
    ensures FramesBefore(decode, [candidate] + cs)
         == if !Decodes(decode, candidate) then []
            else DecodeCandidate(decode, candidate).value + FramesBefore(decode, cs)
  {
    assert ([candidate] + cs)[1..] == cs;
  }

  /** Draining an input succeeds exactly when all its candidates decode, and then gives
      their frames. */
  lemma {:induction false} DrainsExactly<F>(decode: Decoder<F>, x: seq<byte>)
    ensures Drain(decode, x).result
         == if AllDecode(decode, x) then Ok(FramesBefore(decode, Candidates(x))) else Err(BadFrame)
    decreases |x|
  {
    if Candidates(x) != [] {
      var candidate, rest := FirstCandidate(x);
      DrainsExactly(decode, rest);
      DrainCandidate(decode, candidate, rest);
      HeadDecodes(decode, candidate, rest);
      FramesHead(decode, candidate, Candidates(rest));
    }
  }

  /** An input that fits the buffer and whose candidates all decode never fails, in any
      chunking, and every chunking ends as a single call does. */
  lemma ChunkingIsIrrelevant<F>(decode: Decoder<F>, maximum: nat, chunks: seq<seq<byte>>)
    requires |Flatten(chunks)| <= maximum && AllDecode(decode, Flatten(chunks))
    ensures FedAll(decode, maximum, chunks).error.None?
    ensures FedAll(decode, maximum, chunks) == FedAll(decode, maximum, [Flatten(chunks)])
  {
    var x := Flatten(chunks);
    DrainsExactly(decode, x);
    FedAtOnce(decode, maximum, x);
    NoCallFails(decode, maximum, chunks);
    NoCallFails(decode, maximum, [x]);
    ChunksAgreeWithWhole(decode, maximum, chunks);
    ChunksAgreeWithWhole(decode, maximum, [x]);
  }

  /** `buffer` starts with `good`, which drains to the frames before the first bad candidate,
      and then `bad`, that candidate; draining stops right after it. */
  ghost predicate StopsAt<F>(decode: Decoder<F>, buffer: seq<byte>, good: seq<byte>, bad: seq<byte>) {
    && Drain(decode, buffer).result == Err(BadFrame)
    && buffer == good + bad + Drain(decode, buffer).buffer
    && Drain(decode, good) == Outcome([], Ok(FramesBefore(decode, Candidates(buffer))))
    && IsCandidate(bad) && DecodeCandidate(decode, bad) == Err(BadFrame)
  }

  lemma GoodCandidateFirst<F>(
    decode: Decoder<F>, candidate: seq<byte>, rest: seq<byte>, good: seq<byte>, bad: seq<byte>)
    requires IsCandidate(candidate) && DecodeCandidate(decode, candidate).Ok? && StopsAt(decode, rest, good, bad)
    ensures StopsAt(decode, candidate + rest, candidate + good, bad)
  {
    DrainCandidate(decode, candidate, rest);
    DrainCandidate(decode, candidate, good);
    CandidatesHead(candidate, rest);
    var left := Drain(decode, rest).buffer;
    Regroup(candidate, good, bad);
    Regroup(candidate, good + bad, left);
  }

  lemma NothingDrains<F>(decode: Decoder<F>)
    ensures Drain(decode, []) == Outcome([], Ok([]))
  {
  }

  lemma BadCandidateFirst<F>(decode: Decoder<F>, candidate: seq<byte>, rest: seq<byte>)
    requires IsCandidate(candidate) && !Decodes(decode, candidate)
    ensures StopsAt(decode, candidate + rest, [], candidate)
  {
    DrainCandidate(decode, candidate, rest);
    CandidatesHead(candidate, rest);
    FramesHead(decode, candidate, Candidates(rest));
    NothingDrains(decode);
    assert [] + candidate == candidate;
  }

  /** A decode error consumes the good candidates before it, whose frames are lost with
      the failed call, and the offending candidate; every later byte stays buffered. */
  lemma {:induction false} ErrorConsumesOneCandidate<F>(decode: Decoder<F>, buffer: seq<byte>)
    returns (good: seq<byte>, bad: seq<byte>)
    requires Drain(decode, buffer).result.Err?
    ensures StopsAt(decode, buffer, good, bad)
    decreases |buffer|
  {
    var candidate, rest := FirstCandidate(buffer);
    if Decodes(decode, candidate) {
      DrainCandidate(decode, candidate, rest);
      good, bad := ErrorConsumesOneCandidate(decode, rest);
      GoodCandidateFirst(decode, candidate, rest, good, bad);
      good := candidate + good;
    } else {
      good, bad := [], candidate;
      BadCandidateFirst(decode, candidate, rest);
    }
  }

  // ----- exactly when chunking matters -----

  /** A candidate a stream can get past: it decodes and fits the buffer. */
  predicate Usable<F>(decode: Decoder<F>, maximum: nat, candidate: seq<byte>) {
    Decodes(decode, candidate) && |candidate| <= maximum
  }

  /** The number of candidates before the first that is not usable. */
  function UsableCount<F>(decode: Decoder<F>, maximum: nat, cs: seq<seq<byte>>): (n: nat)
    ensures n <= |cs| && (n < |cs| ==> !Usable(decode, maximum, cs[n]))
    ensures forall k :: 0 <= k < n ==> Usable(decode, maximum, cs[k])
  {
    if cs == [] || !Usable(decode, maximum, cs[0]) then 0 else UsableCount(decode, maximum, cs[1..]) + 1
  }

  /** Those candidates. */
  function UsableOf<F>(decode: Decoder<F>, maximum: nat, x: seq<byte>): seq<seq<byte>> {
    Candidates(x)[..UsableCount(decode, maximum, Candidates(x))]
  }

  /** What follows an input that drains adds its candidates to those of the input. */
  lemma {:induction false} CandidatesCompose<F>(decode: Decoder<F>, a: seq<byte>, b: seq<byte>)
    requires Drain(decode, a).result.Ok?
    ensures Candidates(a + b) == Candidates(a) + Candidates(Drain(decode, a).buffer + b)
    decreases |a|
  {
    if Candidates(a) == [] {
      assert [] + Candidates(a + b) == Candidates(a + b);
    } else {
      var candidate, rest := FirstCandidate(a);
      DrainCandidate(decode, candidate, rest);
      CandidatesCompose(decode, rest, b);
      CandidatesHead(candidate, rest + b);
      Regroup(candidate, rest, b);
      Regroup([candidate], Candidates(rest), Candidates(Drain(decode, rest).buffer + b));
    }
  }

  lemma {:induction false} CandidatesExtend(a: seq<byte>, b: seq<byte>) returns (more: seq<seq<byte>>)
    ensures Candidates(a + b) == Candidates(a) + more
    decreases |a|
  {
    if Candidates(a) == [] {
      more := Candidates(a + b);
      assert [] + more == more;
    } else {
      var candidate, rest := FirstCandidate(a);
      more := CandidatesExtend(rest, b);
      CandidatesHead(candidate, rest + b);
      Regroup(candidate, rest, b);
      Regroup([candidate], Candidates(rest), more);
    }
  }

  lemma {:induction false} CandidatesFit(x: seq<byte>)
    ensures forall c :: c in Candidates(x) ==> |c| <= |x|
    decreases |x|
  {
    if Candidates(x) != [] {
      var candidate, rest := FirstCandidate(x);
      CandidatesFit(rest);
    }
  }

  /** Calls that all succeed have only seen usable candidates. */
  lemma {:induction false} SuccessfulCallsFit<F>(decode: Decoder<F>, maximum: nat, chunks: seq<seq<byte>>)
    requires FedAll(decode, maximum, chunks).error.None?
    ensures forall c :: c in Candidates(Flatten(chunks)) ==> |c| <= maximum
  {
    if chunks != [] {
      var front, last := chunks[..|chunks| - 1], chunks[|chunks| - 1];
      var before := FedAll(decode, maximum, front);
      SuccessfulCallsFit(decode, maximum, front);
      ChunksAgreeWithWhole(decode, maximum, front);
      FlattenLast(chunks);
      CandidatesCompose(decode, Flatten(front), last);
      CandidatesFit(before.buffer + last);
    }
  }

  lemma AllUsable<F>(decode: Decoder<F>, maximum: nat, x: seq<byte>)
    requires forall c :: c in Candidates(x) ==> Usable(decode, maximum, c)
    ensures UsableOf(decode, maximum, x) == Candidates(x)
  {
    var cs := Candidates(x);
    assert forall k :: 0 <= k < |cs| ==> cs[k] in cs;
  }

  lemma SuccessUsesAll<F>(decode: Decoder<F>, maximum: nat, chunks: seq<seq<byte>>)
    requires FedAll(decode, maximum, chunks).error.None?
    ensures UsableOf(decode, maximum, Flatten(chunks)) == Candidates(Flatten(chunks))
    ensures FedAll(decode, maximum, chunks).delivered == FramesBefore(decode, Candidates(Flatten(chunks)))
  {
    var x := Flatten(chunks);
    SuccessfulCallsFit(decode, maximum, chunks);
    ChunksAgreeWithWhole(decode, maximum, chunks);
    DrainsExactly(decode, x);
    AllUsable(decode, maximum, x);
  }

  lemma UsableExtend<F>(decode: Decoder<F>, maximum: nat, a: seq<byte>, b: seq<byte>)
    ensures UsableOf(decode, maximum, a) <= UsableOf(decode, maximum, a + b)
  {
    var more := CandidatesExtend(a, b);
    var cs, all := Candidates(a), Candidates(a + b);
    var m, n := UsableCount(decode, maximum, cs), UsableCount(decode, maximum, all);
    assert forall k :: 0 <= k < |cs| ==> all[k] == cs[k];
    assert m <= n;
  }

  /** In any chunking, with any failure, the frames delivered are the first of those in the
      usable candidates. */
  lemma {:induction false} DeliveredComeFirst<F>(decode: Decoder<F>, maximum: nat, chunks: seq<seq<byte>>)
    ensures FedAll(decode, maximum, chunks).delivered
         <= FramesBefore(decode, UsableOf(decode, maximum, Flatten(chunks)))
  {
    if chunks != [] {
      var front, last := chunks[..|chunks| - 1], chunks[|chunks| - 1];
      DeliveredComeFirst(decode, maximum, front);
      FlattenLast(chunks);
      UsableExtend(decode, maximum, Flatten(front), last);
      FramesExtend(decode, UsableOf(decode, maximum, Flatten(front)), UsableOf(decode, maximum, Flatten(chunks)));
      if FedAll(decode, maximum, chunks).error.None? { SuccessUsesAll(decode, maximum, chunks); }
    }
  }

  /** All chunkings of `x` deliver the frames that a single call delivers. */
  ghost predicate DeliversAlike<F>(decode: Decoder<F>, maximum: nat, x: seq<byte>) {
    forall chunks: seq<seq<byte>> :: Flatten(chunks) == x ==>
      FedAll(decode, maximum, chunks).delivered == FedAll(decode, maximum, [x]).delivered
  }

  /** The input fits the buffer and all its candidates decode, or no candidate before the
      first that does not decode or does not fit contains a `{`. */
  ghost predicate NothingToLose<F>(decode: Decoder<F>, maximum: nat, x: seq<byte>) {
    || (|x| <= maximum && AllDecode(decode, x))
    || forall k :: 0 <= k < UsableCount(decode, maximum, Candidates(x)) ==> OPEN !in Candidates(x)[k]
  }

  lemma BadInputFedAtOnce<F>(decode: Decoder<F>, maximum: nat, x: seq<byte>)
    requires !(|x| <= maximum && AllDecode(decode, x))
    ensures FedAll(decode, maximum, [x]).delivered == []
  {
    FedAtOnce(decode, maximum, x);
    assert [] + x == x;
    DrainsExactly(decode, x);
  }

  lemma {:induction false} FramesSnoc<F>(decode: Decoder<F>, cs: seq<seq<byte>>, last: seq<byte>)
    requires Decodes(decode, last) && forall k :: 0 <= k < |cs| ==> Decodes(decode, cs[k])
    ensures FramesBefore(decode, cs + [last]) == FramesBefore(decode, cs) + DecodeCandidate(decode, last).value
  {
    var value := DecodeCandidate(decode, last).value;
    if cs == [] {
      FramesHead(decode, last, []);
      assert [] + [last] == [last] + [] && value + [] == value == [] + value;
    } else {
      FramesHead(decode, cs[0], cs[1..] + [last]);
      FramesSnoc(decode, cs[1..], last);
      Regroup([cs[0]], cs[1..], [last]);
      assert cs == [cs[0]] + cs[1..];
      Regroup(DecodeCandidate(decode, cs[0]).value, FramesBefore(decode, cs[1..]), value);
    }
  }

  /** Fed one by one, usable candidates are all delivered. */
  lemma {:induction false} FedOneByOne<F>(decode: Decoder<F>, maximum: nat, cs: seq<seq<byte>>)
    requires forall k :: 0 <= k < |cs| ==> IsCandidate(cs[k]) && Usable(decode, maximum, cs[k])
    ensures FedAll(decode, maximum, cs) == Session([], FramesBefore(decode, cs), None)
  {
    if cs != [] {
      var front, last := cs[..|cs| - 1], cs[|cs| - 1];
      FedOneByOne(decode, maximum, front);
      assert cs == front + [last];
      FramesSnoc(decode, front, last);
      DrainCandidate(decode, last, []);
      NothingDrains(decode);
      var value := DecodeCandidate(decode, last).value;
      assert [] + last == last && last + [] == last && value + [] == value;
    }
  }

  lemma UsableThenTail<F>(decode: Decoder<F>, maximum: nat, x: seq<byte>) returns (tail: seq<byte>)
    ensures Flatten(UsableOf(decode, maximum, x) + [tail]) == x
    ensures forall c :: c in UsableOf(decode, maximum, x) ==> IsCandidate(c)
  {
    var rest := CandidatesCut(x);
    var cs, good := Candidates(x), UsableOf(decode, maximum, x);
    var others := cs[|good|..];
    assert cs == good + others;
    FlattenConcat(good, others);
    tail := Flatten(others) + rest;
    Regroup(Flatten(good), Flatten(others), rest);
    FlattenSnoc(good, tail);
  }

  lemma NextCallKeeps<F>(decode: Decoder<F>, maximum: nat, chunks: seq<seq<byte>>, chunk: seq<byte>)
    ensures FedAll(decode, maximum, chunks).delivered <= FedAll(decode, maximum, chunks + [chunk]).delivered
  {
    assert (chunks + [chunk])[..|chunks|] == chunks;
  }

  /** Cut after each of its usable candidates, any input delivers all frames in them. */
  lemma CutAfterUsable<F>(decode: Decoder<F>, maximum: nat, x: seq<byte>) returns (chunks: seq<seq<byte>>)
    ensures Flatten(chunks) == x
    ensures FedAll(decode, maximum, chunks).delivered == FramesBefore(decode, UsableOf(decode, maximum, x))
  {
    var good := UsableOf(decode, maximum, x);
    var tail := UsableThenTail(decode, maximum, x);
    assert forall k :: 0 <= k < |good| ==> good[k] in good;
    FedOneByOne(decode, maximum, good);
    NextCallKeeps(decode, maximum, good, tail);
    chunks := good + [tail];
    DeliveredComeFirst(decode, maximum, chunks);
  }

  lemma GoodInputDeliversAlike<F>(decode: Decoder<F>, maximum: nat, x: seq<byte>)
    requires |x| <= maximum && AllDecode(decode, x)
    ensures DeliversAlike(decode, maximum, x)
  {
    forall chunks: seq<seq<byte>> | Flatten(chunks) == x
      ensures FedAll(decode, maximum, chunks).delivered == FedAll(decode, maximum, [x]).delivered
    {
      ChunkingIsIrrelevant(decode, maximum, chunks);
    }
  }

  lemma NoFramesDeliverAlike<F>(decode: Decoder<F>, maximum: nat, x: seq<byte>)
    requires FramesBefore(decode, UsableOf(decode, maximum, x)) == []
    ensures DeliversAlike(decode, maximum, x)
  {
    FedAtOnce(decode, maximum, x);
    DeliveredComeFirst(decode, maximum, [x]);
    forall chunks: seq<seq<byte>> | Flatten(chunks) == x
      ensures FedAll(decode, maximum, chunks).delivered == FedAll(decode, maximum, [x]).delivered
    {
      DeliveredComeFirst(decode, maximum, chunks);
    }
  }

  /** For every input, the frames delivered do not depend on how it is cut exactly when it
      fits the buffer and all its candidates decode, or there is no frame before the first
      candidate that does not decode or does not fit. */
  lemma ChunkingMattersExactly<F>(decode: Decoder<F>, maximum: nat, x: seq<byte>)
    ensures DeliversAlike(decode, maximum, x) <==> NothingToLose(decode, maximum, x)
  {
    NoFramesExactly(decode, UsableOf(decode, maximum, x));
    if |x| <= maximum && AllDecode(decode, x) {
      GoodInputDeliversAlike(decode, maximum, x);
    } else {
      BadInputFedAtOnce(decode, maximum, x);
      var chunks := CutAfterUsable(decode, maximum, x);
      if FramesBefore(decode, UsableOf(decode, maximum, x)) == [] { NoFramesDeliverAlike(decode, maximum, x); }
    }
  }

  /** A good candidate is delivered by a call of its own, and lost in one with a bad one. */
  lemma LostWithBadOne<F>(decode: Decoder<F>, maximum: nat, good: seq<byte>, bad: seq<byte>)
    requires IsCandidate(good) && IsCandidate(bad) && |good| <= maximum
    requires Decodes(decode, good) && !Decodes(decode, bad)
    ensures FedAll(decode, maximum, [good + bad]).delivered == []
    ensures FedAll(decode, maximum, [good, bad]).delivered == DecodeCandidate(decode, good).value
  {
    HeadDecodes(decode, good, bad);
    HeadDecodes(decode, bad, []);
    assert bad + [] == bad && [] + bad == bad;
    BadInputFedAtOnce(decode, maximum, good + bad);
    FedOneByOne(decode, maximum, [good]);
    FramesHead(decode, good, []);
    var frames := DecodeCandidate(decode, good).value;
    assert [good] + [] == [good] && frames + [] == frames && [good, bad][..1] == [good];
    DrainCandidate(decode, bad, []);
  }

  // ----- the source's decoder, and an input on which a frame is lost -----

  datatype Kind = Ack | Forward | StickName | StickVersion | Unknown
                | StateReport | Movement | ScanResponse | RestrictedJoinNetwork | MovementResponse | UnknownRadio

  predicate IsHexDigit(c: char) {
    '0' <= c <= '9' || 'A' <= c <= 'F' || 'a' <= c <= 'f'
  }

  predicate IsHex(text: string, length: nat) {
    |text| == length && forall i :: 0 <= i < |text| ==> IsHexDigit(text[i])
  }

  /** The kind of a radio frame's command and payload, none when it is refused. */
  function RadioKind(command: string, payload: string): Option<Kind> {
    if !IsHex(command, 4) then None
    else if command == "8011" && ("01000003" <= payload || "01000005" <= payload) then
      if |payload| < 18 || !IsHex(payload[8..10], 2) || !IsHex(payload[10..12], 2) then None else Some(StateReport)
    else if command == "7070" then
      if |payload| < 6 || !IsHex(payload[2..4], 2) || !IsHex(payload[4..6], 2) then None else Some(Movement)
    else if command == "7021" then (if |payload| < 6 then None else Some(ScanResponse))
    else if command == "5018" then Some(RestrictedJoinNetwork)
    else if command == "7071" then Some(MovementResponse)
    else Some(UnknownRadio)
  }

  function TextKind(text: string): Option<Kind> {
    if |text| > 8192 || !("{" <= text) || text[|text| - 1] != '}' then None
    else if text == "{a}" then Some(Ack)
    else if text == "{f}" then Some(Forward)
    else if "{g" <= text then Some(StickName)
    else if "{v" <= text then Some(StickVersion)
    else if !("{r" <= text) then Some(Unknown)
    else if |text| < 13 then None
    else RadioKind(text[8..12], text[12..|text| - 1])
  }

  /** The hexadecimal digits, in either case. */
  lemma HexDigitsAre(c: char)
    ensures IsHexDigit(c) <==>
              || c == '0' || c == '1' || c == '2' || c == '3' || c == '4'
              || c == '5' || c == '6' || c == '7' || c == '8' || c == '9'
              || c == 'A' || c == 'B' || c == 'C' || c == 'D' || c == 'E' || c == 'F'
              || c == 'a' || c == 'b' || c == 'c' || c == 'd' || c == 'e' || c == 'f'
  {
  }

  ghost predicate HexFrom(text: string, lo: nat, hi: nat) {
    hi <= |text| && forall i :: lo <= i < hi ==> IsHexDigit(text[i])
  }

  lemma PairsAreHex(payload: string, i: nat)
    requires i + 4 <= |payload|
    ensures IsHex(payload[i..i + 2], 2) && IsHex(payload[i + 2..i + 4], 2) <==> HexFrom(payload, i, i + 4)
  {
    var a, b := payload[i..i + 2], payload[i + 2..i + 4];
    assert a[0] == payload[i] && a[1] == payload[i + 1] && b[0] == payload[i + 2] && b[1] == payload[i + 3];
    assert IsHex(a, 2) <==> IsHexDigit(a[0]) && IsHexDigit(a[1]);
    assert IsHex(b, 2) <==> IsHexDigit(b[0]) && IsHexDigit(b[1]);
  }

  lemma CommandsAreHex()
    ensures IsHex("8011", 4) && IsHex("7070", 4) && IsHex("7021", 4) && IsHex("5018", 4) && IsHex("7071", 4)
  {
  }

  lemma CommandsDiffer()
    ensures "8011" != "7070" && "8011" != "7021" && "8011" != "5018" && "8011" != "7071"
    ensures "7070" != "7021" && "7070" != "5018" && "7070" != "7071"
    ensures "7021" != "5018" && "7021" != "7071" && "5018" != "7071"
  {
    assert "8011"[0] == '8' && "5018"[0] == '5' && "7070"[2] == '7' && "7021"[2] == '2';
    assert "7070"[3] == '0' && "7071"[3] == '1';
  }

  /** The payload of a state report starts with one of two words. */
  ghost predicate Reports(command: string, payload: string) {
    command == "8011" && |payload| >= 8 && (payload[..8] == "01000003" || payload[..8] == "01000005")
  }

  /** Which command a radio frame needs for each kind, and what of the payload. */
  lemma RadioExactly(command: string, payload: string)
    ensures var kind := RadioKind(command, payload);
            && (kind == Some(RestrictedJoinNetwork) <==> command == "5018")
            && (kind == Some(MovementResponse) <==> command == "7071")
            && (kind == Some(ScanResponse) <==> command == "7021" && |payload| >= 6)
            && (kind == Some(Movement) <==> command == "7070" && HexFrom(payload, 2, 6))
            && (kind == Some(StateReport) <==> Reports(command, payload) && |payload| >= 18 && HexFrom(payload, 8, 12))
            && (kind == Some(UnknownRadio) <==>
                  && HexFrom(command, 0, 4) && |command| == 4 && !Reports(command, payload)
                  && command != "7070" && command != "7021" && command != "5018" && command != "7071")
  {
    CommandsAreHex();
    CommandsDiffer();
    assert "01000003" <= payload <==> |payload| >= 8 && payload[..8] == "01000003";
    assert "01000005" <= payload <==> |payload| >= 8 && payload[..8] == "01000005";
    if |payload| >= 6 { PairsAreHex(payload, 2); }
    if |payload| >= 12 { PairsAreHex(payload, 8); }
  }

  lemma RadioIsRadio(command: string, payload: string)
    ensures RadioKind(command, payload).Some? ==>
              var kind := RadioKind(command, payload).value;
              kind != Ack && kind != Forward && kind != StickName && kind != StickVersion && kind != Unknown
  {
  }

  ghost predicate Framed(text: string) {
    2 <= |text| <= 8192 && text[0] == '{' && text[|text| - 1] == '}'
  }

  /** Which kind a frame is by its second character, and when it is refused. */
  lemma KindExactly(text: string)
    ensures !Framed(text) ==> TextKind(text) == None
    ensures TextKind(text) == Some(Ack) <==> text == ['{', 'a', '}']
    ensures TextKind(text) == Some(Forward) <==> text == ['{', 'f', '}']
    ensures Framed(text) ==>
              && (TextKind(text) == Some(StickName) <==> text[1] == 'g')
              && (TextKind(text) == Some(StickVersion) <==> text[1] == 'v')
              && (TextKind(text) == Some(Unknown) <==>
                    text[1] !in {'g', 'v', 'r'} && text != "{a}" && text != "{f}")
              && (text[1] == 'r' ==>
                    TextKind(text) == if |text| < 13 then None else RadioKind(text[8..12], text[12..|text| - 1]))
  {
    if |text| >= 13 { RadioIsRadio(text[8..12], text[12..|text| - 1]); }
    if |text| >= 2 {
      assert "{g" <= text <==> text[0] == '{' && text[1] == 'g';
      assert "{v" <= text <==> text[0] == '{' && text[1] == 'v';
      assert "{r" <= text <==> text[0] == '{' && text[1] == 'r';
    }
  }

  predicate IsAscii(raw: seq<byte>) {
    forall i :: 0 <= i < |raw| ==> raw[i] < 128
  }

  function Text(raw: seq<byte>): string
    requires IsAscii(raw)
  {
    seq(|raw|, i requires 0 <= i < |raw| => raw[i] as char)
  }

  /** The source's `decode_frame`, reduced to acceptance and the kind of frame. */
  function FrameDecoder(): Decoder<Kind> {
    (raw: seq<byte>) => if IsAscii(raw) then TextKind(Text(raw)) else None
  }

  /** A frame with a byte beyond 127 is refused; any other is read character by character. */
  lemma DecoderExactly(raw: seq<byte>, text: string)
    requires |text| == |raw| && forall i :: 0 <= i < |raw| && raw[i] < 128 ==> text[i] == raw[i] as char
    ensures FrameDecoder()(raw) == if exists i :: 0 <= i < |raw| && raw[i] > 127 then None else TextKind(text)
  {
    if !exists i :: 0 <= i < |raw| && raw[i] > 127 {
      assert IsAscii(raw) && Text(raw) == text;
    }
  }

  /** `{a}` and `{r}`. */
  const ACK: seq<byte> := [OPEN, 0x61, CLOSE]
  const SHORT_RADIO: seq<byte> := [OPEN, 0x72, CLOSE]

  lemma AckThenShortRadio()
    ensures DecodeCandidate(FrameDecoder(), ACK) == Ok([Ack])
    ensures DecodeCandidate(FrameDecoder(), SHORT_RADIO) == Err(BadFrame)
  {
    assert ACK[0..] == ACK && SHORT_RADIO[0..] == SHORT_RADIO;
    assert Text(ACK) == "{a}" && Text(SHORT_RADIO) == "{r}";
  }

  /** A frame lost: of `{a}{r}`, one call for everything returns nothing, and of two calls
      the first returns the acknowledgement. */
  lemma FrameIsLost()
    ensures FedAll(FrameDecoder(), 8192, [ACK + SHORT_RADIO]).delivered == []
    ensures FedAll(FrameDecoder(), 8192, [ACK, SHORT_RADIO]).delivered == [Ack]
  {
    AckThenShortRadio();
    LostWithBadOne(FrameDecoder(), 8192, ACK, SHORT_RADIO);
  }
}
