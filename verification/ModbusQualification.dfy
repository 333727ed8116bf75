/** The 24-hour cutover gate: a verdict on the Modbus snapshots of the current
    continuity epoch.  Instants are microseconds since 1970. */
module ModbusQualification {
  import opened Common
  import Continuity = ModbusContinuity

  type Instant = nat

  const SECOND := 1_000_000
  const SOURCE := "fusionsolar_modbus_tcp"
  const INTERVAL := 300
  const REQUIRED_SECONDS := 24 * 60 * 60
  const EXPECTED_SLOTS := 288
  const MAXIMUM_GAP := 15 * 60 * SECOND
  const FRESHNESS := 15 * 60 * SECOND
  const WINDOW := REQUIRED_SECONDS * SECOND

  /** The stored `continuity_reason`: one of the sentinel's, or anything else. */
  datatype ReasonText = Known(reason: Continuity.Reason) | Unknown

  datatype Metadata = Metadata(continuityId: Option<string>, continuityReason: ReasonText)

  datatype RawData = RawData(source: string, timestamp: Instant, metadata: Option<Metadata>, payload: string)

  datatype Record = Record(source: string, timestamp: Instant, metric: string, value: string)

  datatype Reason =
    | NoSnapshots | ContinuityEvidenceMissing
    | InsufficientObservedHours | SuccessRateBelow99Percent | GapOver15Minutes | IncompleteRecords
    | LatestSnapshotInFuture | LatestSnapshotDelayed | BootEvidenceUnavailable

  datatype Report = Report(
    qualified: bool, reasons: seq<Reason>, successfulSlots: nat,
    completeSnapshots: nat, totalSnapshots: nat, latestSnapshotFresh: bool)

  /** Whether the stored records are an exact decode of a snapshot. */
  type Matcher = (RawData, seq<Record>) -> bool

  // ----- selections -----

  predicate NotLater(a: RawData, b: RawData) { a.timestamp <= b.timestamp }

  predicate IsHexDigit(c: char) { c in "0123456789abcdef" }

  function ContinuityId(item: RawData): Option<string> {
    if item.metadata.None? || item.metadata.value.continuityId.None? then None
    else
      var id := item.metadata.value.continuityId.value;
      if |id| == 32 && forall c | c in id :: IsHexDigit(c) then Some(id) else None
  }

  predicate TrustedReason(item: RawData) {
    item.metadata.Some? ==>
      item.metadata.value.continuityReason.Known? &&
      item.metadata.value.continuityReason.reason != Continuity.BootEvidenceUnavailable
  }

  predicate HasBootEvidence(items: seq<RawData>) {
    && (exists item | item in items :: item.metadata.Some?)
    && (forall item | item in items :: TrustedReason(item))
  }

  function IsOurs(): RawData -> bool { (item: RawData) => item.source == SOURCE }

  function HasId(id: Option<string>): RawData -> bool { (item: RawData) => ContinuityId(item) == id }

  function NotBefore(start: int): RawData -> bool { (item: RawData) => item.timestamp >= start }

  function Snapshots(raw: seq<RawData>): seq<RawData> {
    Sort(NotLater, Filter(IsOurs(), raw))
  }

  function Last(items: seq<RawData>): RawData
    requires items != []
  {
    items[|items| - 1]
  }

  function Latest(raw: seq<RawData>): RawData
    requires Snapshots(raw) != []
  {
    Last(Snapshots(raw))
  }

  /** The snapshots that carry the identifier of the latest one. */
  function Epoch(raw: seq<RawData>): seq<RawData>
    requires Snapshots(raw) != []
  {
    Filter(HasId(ContinuityId(Latest(raw))), Snapshots(raw))
  }

  /** Those of the last 24 hours. */
  function Current(raw: seq<RawData>): seq<RawData>
    requires Snapshots(raw) != []
  {
    Filter(NotBefore(Latest(raw).timestamp - WINDOW), Epoch(raw))
  }

  function SlotOf(t: Instant): int { t / SECOND / INTERVAL }

  function RequiredSlots(latest: Instant): set<int> {
    Range(SlotOf(latest) - EXPECTED_SLOTS + 1, SlotOf(latest) + 1)
  }

  function SlotsOf(items: seq<RawData>): set<int> {
    set item | item in items :: SlotOf(item.timestamp)
  }

  function AtTime(t: Instant): Record -> bool { (record: Record) => record.source == SOURCE && record.timestamp == t }

  function RecordsAt(records: seq<Record>, t: Instant): seq<Record> {
    Filter(AtTime(t), records)
  }

  predicate GapFree(items: seq<RawData>) {
    forall i :: 0 <= i < |items| - 1 ==> items[i + 1].timestamp - items[i].timestamp <= MAXIMUM_GAP
  }

  // ----- the checker -----

  function Empty(reason: Reason): Report {
    Report(false, [reason], 0, 0, 0, false)
  }

  function Lookup(table: map<Instant, seq<Record>>, t: Instant): seq<Record> {
    if t in table then table[t] else []
  }

  /** The source's `records_by_timestamp`, filled in one pass. */
  method GroupRecords(records: seq<Record>) returns (table: map<Instant, seq<Record>>)
    ensures forall t :: Lookup(table, t) == RecordsAt(records, t)
  {
    table := map[];
    for i := 0 to |records|
      invariant forall t :: Lookup(table, t) == RecordsAt(records[..i], t)
    {
      var record := records[i];
      assert records[..i + 1] == records[..i] + [record];
      forall t ensures RecordsAt(records[..i + 1], t)
                    == RecordsAt(records[..i], t) + (if AtTime(t)(record) then [record] else [])
      {
        FilterSnoc(AtTime(t), records[..i], record);
      }
      if record.source == SOURCE {
        table := table[record.timestamp := Lookup(table, record.timestamp) + [record]];
      }
    }
    assert records[..|records|] == records;
  }

  function AppendIf(reasons: seq<Reason>, condition: bool, reason: Reason): (r: seq<Reason>)
    ensures forall x :: x in r <==> x in reasons || (condition && x == reason)
    ensures r == [] <==> reasons == [] && !condition
  {
    if condition then reasons + [reason] else reasons
  }

  /** The source's list of reasons, appended to check by check. */
  method CollectReasons(observed: int, slots: int, gapFree: bool, complete: bool, age: int, evidence: bool)
    returns (reasons: seq<Reason>)
    ensures InsufficientObservedHours in reasons <==> observed < WINDOW
    ensures SuccessRateBelow99Percent in reasons <==> slots * 100 < EXPECTED_SLOTS * 99
    ensures GapOver15Minutes in reasons <==> !gapFree
    ensures IncompleteRecords in reasons <==> !complete
    ensures LatestSnapshotInFuture in reasons <==> age < 0
    ensures LatestSnapshotDelayed in reasons <==> age > FRESHNESS
    ensures BootEvidenceUnavailable in reasons <==> !evidence
    ensures reasons == [] <==>
      && observed >= WINDOW && slots * 100 >= EXPECTED_SLOTS * 99 && gapFree && complete
      && 0 <= age <= FRESHNESS && evidence
  {
    reasons := AppendIf([], observed < WINDOW, InsufficientObservedHours);
    reasons := AppendIf(reasons, slots * 100 < EXPECTED_SLOTS * 99, SuccessRateBelow99Percent);
    reasons := AppendIf(reasons, !gapFree, GapOver15Minutes);
    reasons := AppendIf(reasons, !complete, IncompleteRecords);
    reasons := AppendIf(reasons, age < 0, LatestSnapshotInFuture);
    reasons := AppendIf(reasons, age > FRESHNESS, LatestSnapshotDelayed);
    reasons := AppendIf(reasons, !evidence, BootEvidenceUnavailable);
  }

  /** How many items are exact decodes of the records stored for their instant. */
  ghost function DecodedCount(items: seq<RawData>, records: seq<Record>, matches: Matcher): nat {
    if items == [] then 0
    else
      (if matches(items[0], RecordsAt(records, items[0].timestamp)) then 1 else 0)
      + DecodedCount(items[1..], records, matches)
  }

  lemma {:induction false} CountFiltered(
    p: RawData -> bool, items: seq<RawData>, records: seq<Record>, matches: Matcher)
    requires forall x :: p(x) <==> matches(x, RecordsAt(records, x.timestamp))
    ensures |Filter(p, items)| == DecodedCount(items, records, matches)
  {
    if items != [] { CountFiltered(p, items[1..], records, matches); }
  }

  /** The records of an instant are those of this source stored for it, in stored order. */
  lemma RecordsExactly(records: seq<Record>, t: Instant, record: Record)
    ensures record in RecordsAt(records, t) <==>
              record in records && record.source == "fusionsolar_modbus_tcp" && record.timestamp == t
    ensures RecordsAt(records + [record], t)
         == RecordsAt(records, t)
            + (if record.source == "fusionsolar_modbus_tcp" && record.timestamp == t then [record] else [])
  {
    FilterFacts(AtTime(t), records);
    FilterSnoc(AtTime(t), records, record);
  }

  method CountComplete(current: seq<RawData>, records: seq<Record>, matches: Matcher) returns (n: nat)
    ensures n <= |current| && (n == |current| <==> AllDecode(current, records, matches))
    ensures n == DecodedCount(current, records, matches)
  {
    var table := GroupRecords(records);
    var decodes := (item: RawData) => matches(item, Lookup(table, item.timestamp));
    FilterFacts(decodes, current);
    CountFiltered(decodes, current, records, matches);
    n := |Filter(decodes, current)|;
  }

  method Evaluate(raw: seq<RawData>, records: seq<Record>, now: int, matches: Matcher) returns (report: Report)
    ensures report.qualified <==> Conditions(raw, records, now, matches)
    ensures report.qualified <==> report.reasons == []
    ensures Snapshots(raw) == [] ==> report == Report(false, [NoSnapshots], 0, 0, 0, false)
    ensures Snapshots(raw) != [] && ContinuityId(Latest(raw)).None? ==>
              report == Report(false, [ContinuityEvidenceMissing], 0, 0, 0, false)
    ensures Snapshots(raw) != [] && ContinuityId(Latest(raw)).Some? ==>
              ReasonsExact(raw, records, now, matches, report.reasons)
    ensures Snapshots(raw) != [] && ContinuityId(Latest(raw)).Some? ==>
              && report.totalSnapshots == |Current(raw)|
              && report.successfulSlots == EXPECTED_SLOTS - |MissingSlots(raw)|
              && report.completeSnapshots == DecodedCount(Current(raw), records, matches)
              && (report.completeSnapshots == report.totalSnapshots <==> AllDecode(Current(raw), records, matches))
              && (report.latestSnapshotFresh <==> 0 <= now - Latest(raw).timestamp <= 900_000_000)
  {
    var snapshots := Snapshots(raw);
    if snapshots == [] { return Empty(NoSnapshots); }
    var latest := Latest(raw);
    if ContinuityId(latest).None? { return Empty(ContinuityEvidenceMissing); }
    var epoch := Epoch(raw);
    EarliestDecides(raw);
    var current := Current(raw);
    var successful := Successful(raw);
    var complete := CountComplete(current, records, matches);
    var age := now - latest.timestamp;
    var evidence := HasBootEvidence(epoch);
    var reasons := CollectReasons(
      latest.timestamp - epoch[0].timestamp, |successful|, GapFree(current), complete == |current|, age, evidence);
    SlotArithmetic(raw);
    LatestGivesBootEvidence(raw);
    report := Report(reasons == [], reasons, |successful|, complete, |current|, 0 <= age <= FRESHNESS);
  }

  function Successful(raw: seq<RawData>): set<int>
    requires Snapshots(raw) != []
  {
    SlotsOf(Current(raw)) * RequiredSlots(Latest(raw).timestamp)
  }

  // ----- what "qualified" means -----

  lemma SnapshotFacts(raw: seq<RawData>)
    ensures Sorted(NotLater, Snapshots(raw))
    ensures forall x :: x in Snapshots(raw) <==> x in raw && x.source == SOURCE
  {
    FilterFacts(IsOurs(), raw);
    SortPermutes(NotLater, Filter(IsOurs(), raw));
    SortSorted(NotLater, Filter(IsOurs(), raw));
  }

  function OursAt(t: Instant): RawData -> bool {
    (item: RawData) => item.source == SOURCE && item.timestamp == t
  }

  /** Of several snapshots of the latest instant, the last one given counts. */
  lemma LatestIsLastGiven(raw: seq<RawData>) returns (k: nat)
    requires Snapshots(raw) != []
    ensures k < |raw| && raw[k] == Latest(raw) && raw[k].source == "fusionsolar_modbus_tcp"
    ensures forall j :: 0 <= j < |raw| && raw[j].source == "fusionsolar_modbus_tcp" ==>
              raw[j].timestamp < raw[k].timestamp || (raw[j].timestamp == raw[k].timestamp && j <= k)
  {
    var latest := Latest(raw);
    var p := OursAt(latest.timestamp);
    SnapshotFacts(raw);
    assert latest in Snapshots(raw);
    SortIsStable(NotLater, p, Filter(IsOurs(), raw));
    FilterTwice(p, IsOurs(), raw);
    FilterKeepsOrder(NotLater, p, Snapshots(raw));
    k := LastOfFilter(p, raw);
    forall j | 0 <= j < |raw| && raw[j].source == SOURCE ensures raw[j].timestamp <= latest.timestamp {
      assert raw[j] in Snapshots(raw);
      NothingLater(raw, raw[j]);
    }
  }

  lemma NothingLater(raw: seq<RawData>, x: RawData)
    requires x in Snapshots(raw)
    ensures x.timestamp <= Latest(raw).timestamp
  {
    SnapshotFacts(raw);
    var s := Snapshots(raw);
    var i :| 0 <= i < |s| && s[i] == x;
    assert i < |s| - 1 ==> NotLater(s[i], s[|s| - 1]);
  }

  lemma EpochOf(snapshots: seq<RawData>)
    requires snapshots != [] && Sorted(NotLater, snapshots)
    ensures var epoch := Filter(HasId(ContinuityId(Last(snapshots))), snapshots);
            && Sorted(NotLater, epoch) && epoch != [] && Last(epoch) == Last(snapshots)
            && forall x :: x in epoch <==> x in snapshots && ContinuityId(x) == ContinuityId(Last(snapshots))
  {
    var mine := HasId(ContinuityId(Last(snapshots)));
    FilterFacts(mine, snapshots);
    FilterKeepsOrder(NotLater, mine, snapshots);
  }

  lemma EpochFacts(raw: seq<RawData>)
    requires Snapshots(raw) != []
    ensures Sorted(NotLater, Epoch(raw))
    ensures Epoch(raw) != [] && Last(Epoch(raw)) == Latest(raw)
    ensures forall x :: x in Epoch(raw) <==>
              x in raw && x.source == SOURCE && ContinuityId(x) == ContinuityId(Latest(raw))
  {
    SnapshotFacts(raw);
    EpochOf(Snapshots(raw));
  }

  lemma CurrentFacts(raw: seq<RawData>)
    requires Snapshots(raw) != []
    ensures Sorted(NotLater, Current(raw))
    ensures Current(raw) != [] && Last(Current(raw)) == Latest(raw)
    ensures forall x :: x in Current(raw) <==> x in Epoch(raw) && x.timestamp >= Latest(raw).timestamp - WINDOW
  {
    EpochFacts(raw);
    FilterFacts(NotBefore(Latest(raw).timestamp - WINDOW), Epoch(raw));
    FilterKeepsOrder(NotLater, NotBefore(Latest(raw).timestamp - WINDOW), Epoch(raw));
  }

  function MissingSlots(raw: seq<RawData>): set<int>
    requires Snapshots(raw) != []
  {
    RequiredSlots(Latest(raw).timestamp) - SlotsOf(Current(raw))
  }

  lemma SlotArithmetic(raw: seq<RawData>)
    requires Snapshots(raw) != []
    ensures |Successful(raw)| == EXPECTED_SLOTS - |MissingSlots(raw)|
  {
    assert RequiredSlots(Latest(raw).timestamp) == Successful(raw) + MissingSlots(raw);
    assert |Successful(raw) + MissingSlots(raw)| == |Successful(raw)| + |MissingSlots(raw)|;
  }

  lemma LatestGivesBootEvidence(raw: seq<RawData>)
    requires Snapshots(raw) != [] && ContinuityId(Latest(raw)).Some?
    ensures HasBootEvidence(Epoch(raw)) <==> forall x :: x in Epoch(raw) ==> TrustedReason(x)
  {
    EpochFacts(raw);
    assert Latest(raw) in Epoch(raw) && Latest(raw).metadata.Some?;
  }

  ghost predicate AllDecode(items: seq<RawData>, records: seq<Record>, matches: Matcher) {
    forall x :: x in items ==> matches(x, RecordsAt(records, x.timestamp))
  }

  /** What "qualified" stands for: the latest snapshot carries an identifier; its epoch
      reaches back 24 hours; at most 2 of the last 288 slots lack a snapshot of the epoch;
      no two neighbours in the window are over 15 minutes apart; every one in the window
      is an exact decode; the latest is at most 15 minutes old; and every reason recorded
      in the epoch is trusted. */
  ghost predicate Conditions(raw: seq<RawData>, records: seq<Record>, now: int, matches: Matcher) {
    && Snapshots(raw) != [] && ContinuityId(Latest(raw)).Some?
    && (exists x :: x in Epoch(raw) && x.timestamp <= Latest(raw).timestamp - WINDOW)
    && |MissingSlots(raw)| <= 2
    && GapFree(Current(raw))
    && AllDecode(Current(raw), records, matches)
    && Latest(raw).timestamp <= now <= Latest(raw).timestamp + FRESHNESS
    && (forall x :: x in Epoch(raw) ==> TrustedReason(x))
  }

  /** Each reason is listed exactly when the condition it names fails. */
  ghost predicate ReasonsExact(
    raw: seq<RawData>, records: seq<Record>, now: int, matches: Matcher, reasons: seq<Reason>)
    requires Snapshots(raw) != []
  {
    var latest := Latest(raw).timestamp;
    && (InsufficientObservedHours in reasons <==> !exists x :: x in Epoch(raw) && x.timestamp <= latest - WINDOW)
    && (SuccessRateBelow99Percent in reasons <==> |MissingSlots(raw)| > 2)
    && (GapOver15Minutes in reasons <==> !GapFree(Current(raw)))
    && (IncompleteRecords in reasons <==> !AllDecode(Current(raw), records, matches))
    && (LatestSnapshotInFuture in reasons <==> now < latest)
    && (LatestSnapshotDelayed in reasons <==> now > latest + FRESHNESS)
    && (BootEvidenceUnavailable in reasons <==> exists x :: x in Epoch(raw) && !TrustedReason(x))
  }

  lemma EarliestDecides(raw: seq<RawData>)
    requires Snapshots(raw) != []
    ensures Epoch(raw) != []
    ensures Latest(raw).timestamp - Epoch(raw)[0].timestamp < WINDOW
       <==> !exists x :: x in Epoch(raw) && x.timestamp <= Latest(raw).timestamp - WINDOW
  {
    EpochFacts(raw);
    assert Epoch(raw)[0] in Epoch(raw);
    forall x | x in Epoch(raw) ensures Epoch(raw)[0].timestamp <= x.timestamp {
      var i :| 0 <= i < |Epoch(raw)| && Epoch(raw)[i] == x;
      assert i > 0 ==> NotLater(Epoch(raw)[0], Epoch(raw)[i]);
    }
  }

  // ----- the same in figures -----

  /** The item is a snapshot of this epoch: right source, and 32 lower-case hexadecimal
      digits equal to those of the latest snapshot. */
  ghost predicate InEpoch(item: RawData, id: string) {
    && item.source == "fusionsolar_modbus_tcp" && item.metadata.Some?
    && item.metadata.value.continuityId == Some(id)
    && |id| == 32 && forall i :: 0 <= i < 32 ==> '0' <= id[i] <= '9' || 'a' <= id[i] <= 'f'
  }

  lemma HexDigits(c: char)
    ensures IsHexDigit(c) <==> '0' <= c <= '9' || 'a' <= c <= 'f'
  {
    if IsHexDigit(c) {
      var i :| 0 <= i < 16 && "0123456789abcdef"[i] == c;
    } else {
      assert "0123456789abcdef"[..] == "0123456789abcdef";
      assert forall i :: 0 <= i < 16 ==> "0123456789abcdef"[i] in "0123456789abcdef";
      assert "0123456789abcdef"[0] == '0' && "0123456789abcdef"[15] == 'f';
    }
  }

  lemma IdExactly(item: RawData, id: string)
    requires item.source == SOURCE
    ensures ContinuityId(item) == Some(id) <==> InEpoch(item, id)
  {
    forall c ensures IsHexDigit(c) <==> '0' <= c <= '9' || 'a' <= c <= 'f' {
      HexDigits(c);
    }
    assert forall i :: 0 <= i < |id| ==> id[i] in id;
  }

  /** The window: the epoch's snapshots of the last 86400 seconds. */
  lemma WindowInFigures(raw: seq<RawData>, x: RawData)
    requires Snapshots(raw) != [] && ContinuityId(Latest(raw)).Some?
    ensures x in Current(raw) <==>
              && x in raw && InEpoch(x, ContinuityId(Latest(raw)).value)
              && x.timestamp >= Latest(raw).timestamp - 86_400_000_000
    ensures Latest(raw) in raw && Latest(raw).source == "fusionsolar_modbus_tcp"
    ensures x in raw && x.source == "fusionsolar_modbus_tcp" ==> x.timestamp <= Latest(raw).timestamp
  {
    CurrentFacts(raw);
    EpochFacts(raw);
    SnapshotFacts(raw);
    if x.source == SOURCE { IdExactly(x, ContinuityId(Latest(raw)).value); }
    assert Latest(raw) in Snapshots(raw);
    if x in Snapshots(raw) { NothingLater(raw, x); }
  }

  /** A slot of 300 seconds that holds a snapshot of the window. */
  ghost predicate Filled(raw: seq<RawData>, slot: int)
    requires Snapshots(raw) != []
  {
    exists x :: x in Current(raw) && slot * 300_000_000 <= x.timestamp < (slot + 1) * 300_000_000
  }

  lemma SlotExactly(t: Instant, slot: int)
    ensures SlotOf(t) == slot <==> slot * 300_000_000 <= t < (slot + 1) * 300_000_000
  {
  }

  /** The slot of the latest snapshot and the 287 before it are looked at, and those that
      hold no snapshot are missing. */
  lemma MissingInFigures(raw: seq<RawData>, slot: int)
    requires Snapshots(raw) != []
    ensures var latest := Latest(raw).timestamp / 300_000_000;
            slot in MissingSlots(raw) <==> latest - 288 < slot <= latest && !Filled(raw, slot)
  {
    var current := Current(raw);
    SlotExactly(Latest(raw).timestamp, Latest(raw).timestamp / 300_000_000);
    forall x | x in current ensures SlotOf(x.timestamp) in SlotsOf(current) {
    }
    if slot in SlotsOf(current) {
      var x :| x in current && SlotOf(x.timestamp) == slot;
      SlotExactly(x.timestamp, slot);
    }
    if Filled(raw, slot) {
      var x :| x in current && slot * 300_000_000 <= x.timestamp < (slot + 1) * 300_000_000;
      SlotExactly(x.timestamp, slot);
    }
  }

  /** Some neighbours are more than `limit` microseconds apart. */
  ghost predicate HasGapOver(items: seq<RawData>, limit: int) {
    exists i :: 0 <= i < |items| - 1 && items[i + 1].timestamp - items[i].timestamp > limit
  }

  /** The run that took the snapshot had no boot marker, or left no known reason. */
  ghost predicate Untrusted(x: RawData) {
    x.metadata.Some? && (x.metadata.value.continuityReason == Unknown
                         || x.metadata.value.continuityReason == Known(Continuity.BootEvidenceUnavailable))
  }

  /** What is listed about time and slots, in figures: less than 86400 s observed, more than
      2 of 288 slots missing, neighbours over 900 s apart, the latest in the future or over
      900 s old. */
  lemma ReasonsInFigures(raw: seq<RawData>, records: seq<Record>, now: int, matches: Matcher, reasons: seq<Reason>)
    requires Snapshots(raw) != [] && ReasonsExact(raw, records, now, matches, reasons)
    ensures InsufficientObservedHours in reasons <==>
              forall x :: x in Epoch(raw) ==> Latest(raw).timestamp - x.timestamp < 86_400_000_000
    ensures SuccessRateBelow99Percent in reasons <==> |MissingSlots(raw)| > 2
    ensures GapOver15Minutes in reasons <==> HasGapOver(Current(raw), 900_000_000)
    ensures LatestSnapshotInFuture in reasons <==> Latest(raw).timestamp > now
    ensures LatestSnapshotDelayed in reasons <==> now - Latest(raw).timestamp > 900_000_000
    ensures BootEvidenceUnavailable in reasons <==> exists x :: x in Epoch(raw) && Untrusted(x)
  {
    GapInFigures(Current(raw));
    TrustInFigures(Epoch(raw));
  }

  lemma GapInFigures(items: seq<RawData>)
    ensures GapFree(items) <==> !HasGapOver(items, 900_000_000)
  {
  }

  lemma TrustInFigures(items: seq<RawData>)
    ensures (exists x :: x in items && !TrustedReason(x)) <==> exists x :: x in items && Untrusted(x)
  {
    if x :| x in items && !TrustedReason(x) { assert Untrusted(x); }
    if x :| x in items && Untrusted(x) { assert !TrustedReason(x); }
  }

  /** There is boot evidence when some run left metadata and none was without a marker. */
  lemma BootEvidenceExactly(items: seq<RawData>)
    ensures HasBootEvidence(items) <==>
              (exists x :: x in items && x.metadata != None) && !exists x :: x in items && Untrusted(x)
  {
    TrustInFigures(items);
  }

  /** A qualified verdict in figures. */
  lemma QualifiedInFigures(raw: seq<RawData>, records: seq<Record>, now: int, matches: Matcher)
    requires Conditions(raw, records, now, matches)
    ensures !HasGapOver(Current(raw), 900_000_000)
    ensures 0 <= now - Latest(raw).timestamp <= 900_000_000
    ensures exists x :: x in raw && InEpoch(x, ContinuityId(Latest(raw)).value)
                        && x.timestamp <= Latest(raw).timestamp - 86_400_000_000
    ensures |MissingSlots(raw)| <= 2
  {
    EpochFacts(raw);
    var x :| x in Epoch(raw) && x.timestamp <= Latest(raw).timestamp - WINDOW;
    IdExactly(x, ContinuityId(Latest(raw)).value);
  }

  // ----- holes -----

  /** The leading edge: although no check looks at it, the first snapshot of the window
      comes less than 1200 seconds after the window opens. */
  lemma LeadingEdge(raw: seq<RawData>)
    requires Snapshots(raw) != [] && |MissingSlots(raw)| <= 2
    ensures Current(raw) != []
    ensures Current(raw)[0].timestamp - (Latest(raw).timestamp - WINDOW) < 1200 * SECOND
  {
    CurrentFacts(raw);
    var current, latest := Current(raw), Latest(raw).timestamp;
    var slot := FirstFilledSlot(raw);
    var item :| item in current && SlotOf(item.timestamp) == slot;
    var i :| 0 <= i < |current| && current[i] == item;
    assert i > 0 ==> NotLater(current[0], current[i]);
    SlotBounds(item.timestamp);
    SlotBounds(latest);
  }

  lemma FirstFilledSlot(raw: seq<RawData>) returns (slot: int)
    requires Snapshots(raw) != [] && |MissingSlots(raw)| <= 2
    ensures slot <= SlotOf(Latest(raw).timestamp) - 285 && slot in SlotsOf(Current(raw))
  {
    var last := SlotOf(Latest(raw).timestamp);
    var first := Range(last - 287, last - 284);
    if first <= MissingSlots(raw) {
      SubsetCardinality(first, MissingSlots(raw));
      assert false;
    }
    slot :| slot in first && slot !in MissingSlots(raw);
  }

  lemma SlotBounds(t: Instant)
    ensures SlotOf(t) * INTERVAL * SECOND <= t < (SlotOf(t) + 1) * INTERVAL * SECOND
  {
  }

  /** In time-ordered items with no gap over 15 minutes, every instant between the first
      and the last is followed within 15 minutes. */
  lemma {:induction false} NextSnapshot(items: seq<RawData>, t: int) returns (x: RawData)
    requires items != [] && GapFree(items)
    requires items[0].timestamp <= t <= items[|items| - 1].timestamp
    ensures x in items && t <= x.timestamp <= t + MAXIMUM_GAP
    decreases |items|
  {
    if items[0].timestamp == t {
      x := items[0];
    } else {
      assert |items| > 1;
      if items[1].timestamp > t {
        x := items[1];
      } else {
        assert GapFree(items[1..]) by {
          forall i | 0 <= i < |items| - 2 ensures items[1..][i + 1].timestamp - items[1..][i].timestamp <= MAXIMUM_GAP {
            assert items[1..][i + 1] == items[i + 2] && items[1..][i] == items[i + 1];
          }
        }
        x := NextSnapshot(items[1..], t);
      }
    }
  }

  /** A qualified verdict leaves no hole of 20 minutes: from any instant of the last 24
      hours, the next decodable snapshot of the current epoch is less than 1200 seconds
      away (or the latest snapshot is already reached). */
  lemma QualifiedHasNoLongHole(raw: seq<RawData>, records: seq<Record>, now: int, matches: Matcher, t: int)
    returns (x: RawData)
    requires Conditions(raw, records, now, matches)
    requires Latest(raw).timestamp - WINDOW <= t <= Latest(raw).timestamp
    ensures x in raw && x.source == SOURCE && ContinuityId(x) == ContinuityId(Latest(raw))
    ensures matches(x, RecordsAt(records, x.timestamp)) && TrustedReason(x)
    ensures t <= x.timestamp < t + 1200 * SECOND
  {
    EpochFacts(raw);
    CurrentFacts(raw);
    LeadingEdge(raw);
    var current := Current(raw);
    if t <= current[0].timestamp {
      x := current[0];
    } else {
      x := NextSnapshot(current, t);
    }
  }

  /** When the snapshots carry the identifiers that runs of the sentinel returned
      (`callOf` says which run), a qualified verdict proves that between any two of the
      epoch's snapshots the machine did not reboot and the scheduler never paused. */
  lemma QualifiedMeansUninterrupted(
    raw: seq<RawData>, records: seq<Record>, now: int, matches: Matcher,
    limit: int, calls: seq<Continuity.Call>, callOf: RawData -> nat, a: RawData, b: RawData)
    requires Conditions(raw, records, now, matches)
    requires Continuity.FreshTokens(calls)
    requires forall x :: x in raw && x.source == SOURCE ==> StampedBy(limit, calls, callOf(x), x)
    requires a in Epoch(raw) && b in Epoch(raw) && callOf(a) < callOf(b)
    ensures callOf(b) < |calls|
    ensures forall k :: callOf(a) <= k <= callOf(b) ==> calls[k].boot.Some? && calls[k].boot == calls[callOf(a)].boot
    ensures forall k :: callOf(a) < k <= callOf(b) ==> Continuity.Follows(limit, calls, k)
  {
    EpochFacts(raw);
    assert StampedBy(limit, calls, callOf(a), a) && StampedBy(limit, calls, callOf(b), b);
    Continuity.SameIdExactly(limit, calls, callOf(a), callOf(b));
    Continuity.EpochSeesOneBoot(limit, calls, callOf(a), callOf(b));
  }

  /** Snapshot `x` carries what run `k` of the sentinel returned, when it was usable. */
  ghost predicate StampedBy(limit: int, calls: seq<Continuity.Call>, k: nat, x: RawData) {
    k < |calls| && (ContinuityId(x).Some? ==> ContinuityId(x).value == Continuity.OutcomeOf(limit, calls, k).id)
  }
}
