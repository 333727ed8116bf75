/** Lossless JSON Lines archives.

    A record is identified with its canonical JSON line: canonical JSON is assumed
    injective, and it contains no line feed.  A SHA-256 digest is a free constructor over
    the bytes digested, that is, assumed injective.  The data file is the list of its
    lines; a line that is not a JSON object is `None`. */
module JsonlArchive {
  import opened Common

  const LINE_FEED: byte := 0x0A
  const FORMAT_VERSION := 1

  type Record = line: seq<byte> | forall i :: 0 <= i < |line| ==> line[i] != LINE_FEED witness []

  datatype Digest = Sha256(content: seq<byte>)

  /** The digest of a compressed file, by what the file decompresses to. */
  datatype FileDigest = OfFile(data: seq<Option<Record>>)

  datatype Stamp = Stamp(text: string, instant: int)

  /** Reads a record's timestamp field: none when it is missing, malformed or without a
      time zone. */
  type Clock = (string, Record) -> Option<Stamp>

  datatype Selection = Selection(start: string, endExclusive: string)

  datatype Manifest = Manifest(
    formatVersion: int, compression: string, source: string, schemaName: string, timestampField: string,
    summary: Summary, sizeRecorded: bool, compressedDigest: FileDigest, selection: Option<Selection>)

  datatype Summary = Summary(count: int, first: Option<string>, last: Option<string>, digest: Digest, size: int)

  datatype Archive = Archive(manifest: Manifest, data: seq<Option<Record>>)

  datatype Error =
    | BadTimestamp | NoRecords | UnsupportedFormat | UnsupportedCompression | CompressedMismatch
    | InvalidTimestampField | InvalidLine | SummaryMismatch | RecordsDiffer

  // ----- what the streaming loop computes -----

  function Bytes(records: seq<Record>): seq<byte> {
    if records == [] then [] else Bytes(records[..|records| - 1]) + records[|records| - 1] + [LINE_FEED]
  }

  /** Each record's line is followed by one line feed, byte 10, and holds none itself. */
  lemma BytesExactly(records: seq<Record>, last: Record)
    ensures Bytes([]) == [] && Bytes(records + [last]) == Bytes(records) + last + [10]
    ensures 10 !in last
  {
    assert (records + [last])[..|records|] == records;
  }

  ghost predicate Stamped(clock: Clock, field: string, records: seq<Record>) {
    forall i :: 0 <= i < |records| ==> clock(field, records[i]).Some? && clock(field, records[i]).value.text != ""
  }

  function InstantAt(clock: Clock, field: string, records: seq<Record>, i: nat): int
    requires Stamped(clock, field, records) && i < |records|
  {
    clock(field, records[i]).value.instant
  }

  /** The first record of the earliest instant. */
  ghost predicate IsEarliest(clock: Clock, field: string, records: seq<Record>, k: nat)
    requires Stamped(clock, field, records)
  {
    k < |records| && forall i :: 0 <= i < |records| ==>
      if i < k then InstantAt(clock, field, records, k) < InstantAt(clock, field, records, i)
      else InstantAt(clock, field, records, k) <= InstantAt(clock, field, records, i)
  }

  /** The first record of the latest instant. */
  ghost predicate IsLatest(clock: Clock, field: string, records: seq<Record>, k: nat)
    requires Stamped(clock, field, records)
  {
    k < |records| && forall i :: 0 <= i < |records| ==>
      if i < k then InstantAt(clock, field, records, k) > InstantAt(clock, field, records, i)
      else InstantAt(clock, field, records, k) >= InstantAt(clock, field, records, i)
  }

  /** `s` is the summary of `records`. */
  ghost predicate Summarises(clock: Clock, field: string, records: seq<Record>, s: Summary)
    requires Stamped(clock, field, records)
  {
    && s.count == |records| && s.digest == Sha256(Bytes(records)) && s.size == |Bytes(records)|
    && (records == [] ==> s.first == None && s.last == None)
    && (records != [] ==>
          && (exists k: nat :: IsEarliest(clock, field, records, k)
                               && s.first == Some(clock(field, records[k]).value.text))
          && (exists k: nat :: IsLatest(clock, field, records, k)
                               && s.last == Some(clock(field, records[k]).value.text)))
  }

  lemma SummaryIsUnique(clock: Clock, field: string, records: seq<Record>, s: Summary, t: Summary)
    requires Stamped(clock, field, records)
    requires Summarises(clock, field, records, s) && Summarises(clock, field, records, t)
    ensures s == t
  {
    if records != [] {
      var i: nat :| IsEarliest(clock, field, records, i) && s.first == Some(clock(field, records[i]).value.text);
      var j: nat :| IsEarliest(clock, field, records, j) && t.first == Some(clock(field, records[j]).value.text);
      assert i == j by { var a, b := InstantAt(clock, field, records, i), InstantAt(clock, field, records, j); }
      var k: nat :| IsLatest(clock, field, records, k) && s.last == Some(clock(field, records[k]).value.text);
      var l: nat :| IsLatest(clock, field, records, l) && t.last == Some(clock(field, records[l]).value.text);
      assert k == l by { var a, b := InstantAt(clock, field, records, k), InstantAt(clock, field, records, l); }
    }
  }

  lemma NextEarliest(clock: Clock, field: string, records: seq<Record>, n: nat, k: nat)
    requires 0 < n < |records| && Stamped(clock, field, records[..n + 1])
    requires Stamped(clock, field, records[..n]) && IsEarliest(clock, field, records[..n], k)
    ensures var e := if clock(field, records[n]).value.instant < clock(field, records[k]).value.instant then n else k;
            IsEarliest(clock, field, records[..n + 1], e)
  {
    var seen, before := records[..n + 1], records[..n];
    assert forall i :: 0 <= i < n ==> InstantAt(clock, field, seen, i) == InstantAt(clock, field, before, i);
  }

  lemma NextLatest(clock: Clock, field: string, records: seq<Record>, n: nat, k: nat)
    requires 0 < n < |records| && Stamped(clock, field, records[..n + 1])
    requires Stamped(clock, field, records[..n]) && IsLatest(clock, field, records[..n], k)
    ensures var e := if clock(field, records[n]).value.instant > clock(field, records[k]).value.instant then n else k;
            IsLatest(clock, field, records[..n + 1], e)
  {
    var seen, before := records[..n + 1], records[..n];
    assert forall i :: 0 <= i < n ==> InstantAt(clock, field, seen, i) == InstantAt(clock, field, before, i);
  }

  /** The loop that creating, verifying and matching all run over their records. */
  method Scan(clock: Clock, field: string, records: seq<Record>) returns (r: Result<Summary, Error>)
    ensures r.Ok? <==> Stamped(clock, field, records)
    ensures r.Ok? ==> Summarises(clock, field, records, r.value)
    ensures r.Err? ==> r.error == BadTimestamp
  {
    var digested: seq<byte> := [];
    var size, count := 0, 0;
    var first, last: Option<Stamp> := None, None;
    ghost var earliest: nat, latest: nat := 0, 0;
    for n := 0 to |records|
      invariant Stamped(clock, field, records[..n])
      invariant count == n && digested == Bytes(records[..n]) && size == |digested|
      invariant n == 0 ==> first == None && last == None
      invariant n > 0 ==> IsEarliest(clock, field, records[..n], earliest) && first == clock(field, records[earliest])
      invariant n > 0 ==> IsLatest(clock, field, records[..n], latest) && last == clock(field, records[latest])
    {
      var stamp := clock(field, records[n]);
      ghost var seen := records[..n + 1];
      assert seen[n] == records[n] && seen[..n] == records[..n];
      if stamp.None? || stamp.value.text == "" {
        assert !Stamped(clock, field, records);
        return Err(BadTimestamp);
      }
      digested := digested + records[n] + [LINE_FEED];
      size := size + |records[n]| + 1;
      if n > 0 {
        NextEarliest(clock, field, records, n, earliest);
        NextLatest(clock, field, records, n, latest);
      }
      count := count + 1;
      if first.None? || stamp.value.instant < first.value.instant { first, earliest := stamp, n; }
      if last.None? || stamp.value.instant > last.value.instant { last, latest := stamp, n; }
    }
    assert records[..|records|] == records;
    r := Ok(Summary(count, if first.Some? then Some(first.value.text) else None,
                    if last.Some? then Some(last.value.text) else None, Sha256(digested), size));
  }

  // ----- the byte stream determines the records -----

  lemma LastLineStarts(a: seq<byte>, x: Record, b: seq<byte>, y: Record)
    requires a + x + [LINE_FEED] == b + y + [LINE_FEED] && (b == [] || b[|b| - 1] == LINE_FEED)
    ensures |b| <= |a|
  {
    var whole := a + x + [LINE_FEED];
    assert |whole| == |a| + |x| + 1 == |b| + |y| + 1;
    assert forall i :: |a| <= i < |a| + |x| ==> whole[i] == x[i - |a|];
    assert b != [] ==> whole[|b| - 1] == b[|b| - 1];
  }

  lemma LastLine(a: seq<byte>, x: Record, b: seq<byte>, y: Record)
    requires a + x + [LINE_FEED] == b + y + [LINE_FEED]
    requires (a == [] || a[|a| - 1] == LINE_FEED) && (b == [] || b[|b| - 1] == LINE_FEED)
    ensures a == b && x == y
  {
    LastLineStarts(a, x, b, y);
    LastLineStarts(b, y, a, x);
    var whole := a + x + [LINE_FEED];
    assert a == whole[..|a|] && b == whole[..|b|];
    assert x == whole[|a|..|whole| - 1] && y == whole[|b|..|whole| - 1];
  }

  lemma {:induction false} BytesDetermineRecords(a: seq<Record>, b: seq<Record>)
    requires Bytes(a) == Bytes(b)
    ensures a == b
  {
    if a != [] && b != [] {
      var m, n := |a| - 1, |b| - 1;
      BytesEndInLineFeed(a[..m]);
      BytesEndInLineFeed(b[..n]);
      LastLine(Bytes(a[..m]), a[m], Bytes(b[..n]), b[n]);
      BytesDetermineRecords(a[..m], b[..n]);
      assert a == a[..m] + [a[m]] && b == b[..n] + [b[n]];
    }
  }

  lemma BytesEndInLineFeed(a: seq<Record>)
    ensures Bytes(a) == [] || Bytes(a)[|Bytes(a)| - 1] == LINE_FEED
  {
  }

  // ----- create, verify, match -----

  ghost predicate AllObjects(data: seq<Option<Record>>) {
    forall i :: 0 <= i < |data| ==> data[i].Some?
  }

  function Objects(data: seq<Option<Record>>): (r: seq<Record>)
    requires AllObjects(data)
    ensures |r| == |data|
  {
    seq(|data|, i requires 0 <= i < |data| => data[i].value)
  }

  function Lines(records: seq<Record>): (data: seq<Option<Record>>)
    ensures AllObjects(data) && Objects(data) == records
  {
    seq(|records|, i requires 0 <= i < |records| => Some(records[i]))
  }

  /** The manifest describes `s`; the size only counts when the manifest records one. */
  predicate Agrees(m: Manifest, s: Summary) {
    && m.summary.count == s.count && m.summary.first == s.first && m.summary.last == s.last
    && m.summary.digest == s.digest && (m.sizeRecorded ==> m.summary.size == s.size)
  }

  ghost predicate Describes(clock: Clock, m: Manifest, records: seq<Record>) {
    Stamped(clock, m.timestampField, records)
    && exists s :: Summarises(clock, m.timestampField, records, s) && Agrees(m, s)
  }

  /** An archive that verification accepts. */
  ghost predicate Sound(clock: Clock, a: Archive) {
    && a.manifest.formatVersion == FORMAT_VERSION && a.manifest.compression == "gzip"
    && a.manifest.compressedDigest == OfFile(a.data) && a.manifest.timestampField != ""
    && AllObjects(a.data) && Describes(clock, a.manifest, Objects(a.data))
  }

  /** The text of a record's timestamp. */
  function TextOf(clock: Clock, field: string, record: Record): Option<string> {
    match clock(field, record) case None => None case Some(stamp) => Some(stamp.text)
  }

  /** Which archives are sound, field by field: version 1, gzip, an untouched data file of
      objects only, valid timestamps, and the right count, digest, size (when recorded) and
      first and last timestamps. */
  lemma SoundExactly(clock: Clock, a: Archive)
    ensures Sound(clock, a) <==>
              var m, s := a.manifest, a.manifest.summary;
              && m.formatVersion == 1 && m.compression == "gzip" && m.compressedDigest == OfFile(a.data)
              && m.timestampField != "" && AllObjects(a.data)
              && var records := Objects(a.data);
                 && Stamped(clock, m.timestampField, records)
                 && s.count == |records| && s.digest == Sha256(Bytes(records))
                 && (m.sizeRecorded ==> s.size == |Bytes(records)|)
                 && EndsExactly(clock, m.timestampField, records, s.first, s.last)
  {
    if AllObjects(a.data) && Stamped(clock, a.manifest.timestampField, Objects(a.data)) {
      DescribesExactly(clock, a.manifest, Objects(a.data));
    }
  }

  /** The first record of the earliest instant has the text `first`, and the first of the
      latest instant the text `last`. */
  ghost predicate EndsExactly(
    clock: Clock, field: string, records: seq<Record>, first: Option<string>, last: Option<string>)
    requires Stamped(clock, field, records)
  {
    if records == [] then first == None && last == None
    else
      && (exists k: nat :: IsEarliest(clock, field, records, k) && first == TextOf(clock, field, records[k]))
      && (exists k: nat :: IsLatest(clock, field, records, k) && last == TextOf(clock, field, records[k]))
  }

  lemma DescribesExactly(clock: Clock, m: Manifest, records: seq<Record>)
    requires Stamped(clock, m.timestampField, records)
    ensures Describes(clock, m, records) <==>
              && m.summary.count == |records| && m.summary.digest == Sha256(Bytes(records))
              && (m.sizeRecorded ==> m.summary.size == |Bytes(records)|)
              && EndsExactly(clock, m.timestampField, records, m.summary.first, m.summary.last)
  {
    var s := m.summary.(size := |Bytes(records)|);
    if Describes(clock, m, records) {
      var t :| Summarises(clock, m.timestampField, records, t) && Agrees(m, t);
    }
    if m.summary.count == |records| && m.summary.digest == Sha256(Bytes(records))
       && (m.sizeRecorded ==> m.summary.size == |Bytes(records)|)
       && EndsExactly(clock, m.timestampField, records, m.summary.first, m.summary.last)
    {
      assert Summarises(clock, m.timestampField, records, s) && Agrees(m, s);
    }
  }

  /** The records before the first line that is not an object. */
  function Leading(data: seq<Option<Record>>): seq<Record> {
    if data == [] || data[0].None? then [] else [data[0].value] + Leading(data[1..])
  }

  lemma {:induction false} LeadingObjects(data: seq<Option<Record>>, n: nat)
    requires n <= |data| && AllObjects(data[..n])
    ensures n == |data| || data[n].None? ==> Leading(data) == Objects(data[..n])
  {
    if n > 0 {
      assert data[..n][0] == data[0] && data[1..][..n - 1] == data[..n][1..];
      assert forall i :: 0 <= i < n - 1 ==> data[..n][1..][i] == data[..n][i + 1];
      LeadingObjects(data[1..], n - 1);
    }
  }

  method ReadLines(data: seq<Option<Record>>) returns (records: seq<Record>, complete: bool)
    ensures records == Leading(data) && (complete <==> AllObjects(data))
    ensures complete ==> records == Objects(data)
  {
    records := [];
    for i := 0 to |data|
      invariant AllObjects(data[..i]) && records == Objects(data[..i])
    {
      if data[i].None? {
        LeadingObjects(data, i);
        return records, false;
      }
      records := records + [data[i].value];
    }
    assert data[..|data|] == data;
    LeadingObjects(data, |data|);
    complete := true;
  }

  ghost predicate Readable(m: Manifest) {
    m.formatVersion == 1 && m.compression == "gzip"
  }

  ghost predicate Untouched(a: Archive) {
    Readable(a.manifest) && a.manifest.compressedDigest == OfFile(a.data)
  }

  method Verify(clock: Clock, a: Archive) returns (r: Result<Manifest, Error>)
    ensures r.Ok? <==> Sound(clock, a)
    ensures r.Ok? ==> r.value == a.manifest
    ensures r == Err(UnsupportedFormat) <==> a.manifest.formatVersion != 1
    ensures r == Err(UnsupportedCompression) <==> a.manifest.formatVersion == 1 && a.manifest.compression != "gzip"
    ensures r == Err(CompressedMismatch) <==> Readable(a.manifest) && a.manifest.compressedDigest != OfFile(a.data)
    ensures r == Err(InvalidTimestampField) <==> Untouched(a) && a.manifest.timestampField == ""
    ensures r == Err(BadTimestamp) <==>
              && Untouched(a) && a.manifest.timestampField != ""
              && !Stamped(clock, a.manifest.timestampField, Leading(a.data))
    ensures r == Err(InvalidLine) <==>
              && Untouched(a) && a.manifest.timestampField != "" && !AllObjects(a.data)
              && Stamped(clock, a.manifest.timestampField, Leading(a.data))
    ensures r == Err(SummaryMismatch) <==>
              && Untouched(a) && a.manifest.timestampField != "" && AllObjects(a.data)
              && Stamped(clock, a.manifest.timestampField, Objects(a.data)) && !Sound(clock, a)
  {
    var m := a.manifest;
    if m.formatVersion != FORMAT_VERSION { return Err(UnsupportedFormat); }
    if m.compression != "gzip" { return Err(UnsupportedCompression); }
    if m.compressedDigest != OfFile(a.data) { return Err(CompressedMismatch); }
    if m.timestampField == "" { return Err(InvalidTimestampField); }
    var records, complete := ReadLines(a.data);
    var summary := Scan(clock, m.timestampField, records);
    if summary.Err? { return Err(summary.error); }
    if !complete { return Err(InvalidLine); }
    CheckDecides(clock, m, records, summary.value);
    if !Agrees(m, summary.value) { return Err(SummaryMismatch); }
    r := Ok(m);
  }

  lemma CheckDecides(clock: Clock, m: Manifest, records: seq<Record>, s: Summary)
    requires Stamped(clock, m.timestampField, records) && Summarises(clock, m.timestampField, records, s)
    ensures Agrees(m, s) <==> Describes(clock, m, records)
  {
    forall t | Summarises(clock, m.timestampField, records, t) ensures t == s {
      SummaryIsUnique(clock, m.timestampField, records, s, t);
    }
  }

  method MatchRecords(clock: Clock, a: Archive, records: seq<Record>) returns (r: Result<Manifest, Error>)
    ensures r.Ok? <==> Sound(clock, a) && records == Objects(a.data)
    ensures r.Ok? ==> r.value == a.manifest
    ensures Sound(clock, a) ==>
              && (r == Err(BadTimestamp) <==> !Stamped(clock, a.manifest.timestampField, records))
              && (r == Err(RecordsDiffer) <==>
                    Stamped(clock, a.manifest.timestampField, records) && records != Objects(a.data))
  {
    r := Verify(clock, a);
    if r.Err? { return; }
    MatchesExactly(clock, a, records);
    var summary := Scan(clock, r.value.timestampField, records);
    if summary.Err? { return Err(summary.error); }
    CheckDecides(clock, a.manifest, records, summary.value);
    if !Agrees(r.value, summary.value) { return Err(RecordsDiffer); }
  }

  /** The manifest of a verified archive describes one sequence of records only: the
      archived ones, in the archived order. */
  lemma MatchesExactly(clock: Clock, a: Archive, records: seq<Record>)
    requires Sound(clock, a)
    ensures Describes(clock, a.manifest, records) <==> records == Objects(a.data)
  {
    if Describes(clock, a.manifest, records) { BytesDetermineRecords(records, Objects(a.data)); }
  }

  method Create(clock: Clock, records: seq<Record>, source: string, schemaName: string, field: string,
                selection: Option<Selection>) returns (r: Result<Archive, Error>)
    ensures r.Ok? <==> records != [] && field != "" && Stamped(clock, field, records)
    ensures r == Err(BadTimestamp) <==> !Stamped(clock, field, records)
    ensures r == Err(NoRecords) <==> records == []
    ensures r == Err(InvalidTimestampField) <==> records != [] && Stamped(clock, field, records) && field == ""
    ensures r.Ok? ==> Sound(clock, r.value) && r.value.data == Lines(records)
    ensures r.Ok? ==> r.value.manifest.source == source && r.value.manifest.schemaName == schemaName
                      && r.value.manifest.selection == selection
                      && r.value.manifest.timestampField == field && r.value.manifest.sizeRecorded
    ensures r.Ok? ==> Summarises(clock, field, records, r.value.manifest.summary)
  {
    var summary := Scan(clock, field, records);
    if summary.Err? { return Err(summary.error); }
    if summary.value.count == 0 { return Err(NoRecords); }
    var data := Lines(records);
    var manifest := Manifest(
      FORMAT_VERSION, "gzip", source, schemaName, field, summary.value, true, OfFile(data), selection);
    var a := Archive(manifest, data);
    CheckDecides(clock, a.manifest, records, summary.value);
    var verified := Verify(clock, a);
    if verified.Err? { return Err(verified.error); }
    r := Ok(a);
  }
}
