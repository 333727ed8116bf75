/** Importing a downloaded GAS queue: envelopes are checked against the database and
    stored, with receipts, in one transaction.

    A digest is a free constructor over the text digested (SHA-256 is assumed injective).
    A payload is a JSON value up to equality; `parse` reads it from its text. */
module GasQueueImporter {
  import opened Common

  const SCHEMA_VERSION := 2
  const MAX_FILES := 100

  type Payload = nat

  datatype Digest = Sha256(text: string)

  /** JSON parsing of payload texts, and the 16-character prefix of a digest. */
  datatype World = World(parse: string -> Payload, prefix: Digest -> string)

  datatype FileName = FileName(source: string, date: string, prefix: string)

  datatype Envelope = Envelope(source: string, date: string, payloadText: string, payloadDigest: Digest)

  /** A queue file: `name` is none when it does not match the pattern, `envelope` is none
      when its content fails any other check of the reader. */
  datatype File = File(name: Option<FileName>, content: Digest, envelope: Option<Envelope>)

  datatype Candidate = Candidate(
    name: FileName, source: string, date: string, digest: Digest, content: Digest, payload: Payload)
  {
    function Key(): (string, string) { (source, date) }
  }

  datatype RawRow = RawRow(source: string, date: Option<string>, payload: Payload)

  datatype Receipt = Receipt(
    version: int, source: string, date: string, digest: Digest, name: FileName, content: Digest, rawId: nat)

  /** The two tables; a raw row's id is its position.  The receipt table may not exist. */
  datatype Db = Db(raw: seq<RawRow>, receipts: Option<seq<Receipt>>)

  datatype Error = NoFiles | TooManyFiles | InvalidFilename | InvalidEnvelope | MetadataMismatch | HashMismatch
                 | PayloadConflict | ReceiptConflict

  datatype Status = Blocked | DryRun | Completed

  /** One checked file, as the report lists it. */
  datatype FileLine = FileLine(name: FileName, source: string, date: string, digest: Digest)

  datatype Report = Report(
    status: Status, filesChecked: nat, ready: int, duplicates: nat, conflicts: nat, files: seq<FileLine>)

  // ----- reading the queue -----

  function Read(w: World, file: File): Result<Candidate, Error> {
    if file.name.None? then Err(InvalidFilename)
    else if file.envelope.None? then Err(InvalidEnvelope)
    else
      var name, e := file.name.value, file.envelope.value;
      var digest := Sha256(e.payloadText);
      if e.source != name.source || e.date != name.date then Err(MetadataMismatch)
      else if e.payloadDigest != digest || name.prefix != w.prefix(digest) then Err(HashMismatch)
      else Ok(Candidate(name, name.source, name.date, digest, file.content, w.parse(e.payloadText)))
  }

  /** The envelope agrees with the file's name, and its text with both digests. */
  ghost predicate Agrees(w: World, name: FileName, e: Envelope) {
    && (e.source, e.date) == (name.source, name.date)
    && e.payloadDigest.text == e.payloadText && name.prefix == w.prefix(e.payloadDigest)
  }

  /** Which files are read, what a candidate then carries, and what is wrong otherwise. */
  lemma ReadExactly(w: World, file: File)
    ensures Read(w, file) == Err(InvalidFilename) <==> file.name == None
    ensures Read(w, file) == Err(InvalidEnvelope) <==> file.name != None && file.envelope == None
    ensures file.name.Some? && file.envelope.Some? ==>
              var name, e, r := file.name.value, file.envelope.value, Read(w, file);
              && (r.Ok? <==> Agrees(w, name, e))
              && (r == Err(MetadataMismatch) <==> (e.source, e.date) != (name.source, name.date))
              && (r.Ok? ==>
                    && r.value.name == name && r.value.content == file.content
                    && r.value.source == e.source && r.value.date == e.date
                    && r.value.digest.text == e.payloadText && r.value.payload == w.parse(e.payloadText))
    ensures Read(w, file).Err? ==>
              Read(w, file).error in {InvalidFilename, InvalidEnvelope, MetadataMismatch, HashMismatch}
  {
  }

  /** What a candidate carries agrees with its name and its payload. */
  ghost predicate Genuine(w: World, c: Candidate) {
    c.name == FileName(c.source, c.date, w.prefix(c.digest)) && c.payload == w.parse(c.digest.text)
  }

  ghost predicate DistinctKeys(items: seq<Candidate>) {
    forall i, j :: 0 <= i < j < |items| ==> items[i].Key() != items[j].Key()
  }

  /** No two entries of one directory have the same name. */
  ghost predicate DistinctNames(files: seq<File>) {
    forall i, j :: 0 <= i < j < |files| && files[i].name.Some? ==> files[i].name != files[j].name
  }

  /** `items` are the candidates of `files`, file by file. */
  ghost predicate ReadsAs(w: World, files: seq<File>, items: seq<Candidate>) {
    |items| == |files| && forall i :: 0 <= i < |files| ==> Read(w, files[i]) == Ok(items[i])
  }

  /** The queues that importing accepts, and their candidates. */
  ghost predicate Accepted(w: World, files: seq<File>, items: seq<Candidate>) {
    1 <= |files| <= 100 && ReadsAs(w, files, items) && DistinctKeys(items)
  }

  /** File `i` is the first that cannot be read. */
  ghost predicate UnreadableAt(w: World, files: seq<File>, i: nat, e: Error) {
    i < |files| && Read(w, files[i]) == Err(e) && forall j :: 0 <= j < i ==> Read(w, files[j]).Ok?
  }

  method ReadAll(w: World, files: seq<File>) returns (r: Result<seq<Candidate>, Error>)
    ensures r.Ok? ==> ReadsAs(w, files, r.value)
    ensures r.Err? ==> exists i: nat :: UnreadableAt(w, files, i, r.error)
  {
    var items: seq<Candidate> := [];
    for i := 0 to |files|
      invariant ReadsAs(w, files[..i], items)
    {
      var item := Read(w, files[i]);
      if item.Err? {
        assert UnreadableAt(w, files, i, item.error);
        return Err(item.error);
      }
      items := items + [item.value];
    }
    assert files[..|files|] == files;
    r := Ok(items);
  }

  /** One payload per source and day. */
  ghost predicate OnePayloadPerDay(items: seq<Candidate>) {
    forall i, j :: 0 <= i < j < |items| && items[i].Key() == items[j].Key() ==> items[i].digest == items[j].digest
  }

  method CheckIdentities(items: seq<Candidate>) returns (ok: bool)
    ensures ok <==> OnePayloadPerDay(items)
  {
    var identities: map<(string, string), Digest> := map[];
    for i := 0 to |items|
      invariant forall j :: 0 <= j < i ==> items[j].Key() in identities && identities[items[j].Key()] == items[j].digest
      invariant forall k :: k in identities ==> exists j :: 0 <= j < i && items[j].Key() == k
    {
      var key := items[i].Key();
      if key !in identities { identities := identities[key := items[i].digest]; }
      if identities[key] != items[i].digest { return false; }
    }
    ok := true;
  }

  /** Another payload of one source and day is refused; the same payload would need a
      second file of the same name.  So no source and day comes twice. */
  lemma KeysAreDistinct(w: World, files: seq<File>, items: seq<Candidate>)
    requires DistinctNames(files) && ReadsAs(w, files, items)
    ensures OnePayloadPerDay(items) <==> DistinctKeys(items)
    ensures forall c :: c in items ==> Genuine(w, c)
  {
    if OnePayloadPerDay(items) {
      forall i, j | 0 <= i < j < |items| ensures items[i].Key() != items[j].Key() {
        assert Read(w, files[i]) == Ok(items[i]) && Read(w, files[j]) == Ok(items[j]);
        assert files[i].name != files[j].name;
      }
    }
  }

  /** What is wrong with a refused queue. */
  ghost predicate QueueError(w: World, files: seq<File>, e: Error) {
    || (e == NoFiles && files == [])
    || (e == TooManyFiles && |files| > 100)
    || (1 <= |files| <= 100 && exists i: nat :: UnreadableAt(w, files, i, e))
    || (e == PayloadConflict && 1 <= |files| <= 100
        && exists items :: ReadsAs(w, files, items) && !OnePayloadPerDay(items))
  }

  method Candidates(w: World, files: seq<File>) returns (r: Result<seq<Candidate>, Error>)
    requires DistinctNames(files)
    ensures r.Ok? ==> Accepted(w, files, r.value) && forall c :: c in r.value ==> Genuine(w, c)
    ensures r.Err? ==> forall items :: !Accepted(w, files, items)
    ensures r.Err? ==> QueueError(w, files, r.error)
  {
    if files == [] { return Err(NoFiles); }
    if |files| > MAX_FILES { return Err(TooManyFiles); }
    r := ReadAll(w, files);
    if r.Err? { return; }
    KeysAreDistinct(w, files, r.value);
    var ok := CheckIdentities(r.value);
    if !ok {
      forall items | ReadsAs(w, files, items) ensures items == r.value {
        ReadsAsIsUnique(w, files, items, r.value);
      }
      return Err(PayloadConflict);
    }
  }

  lemma ReadsAsIsUnique(w: World, files: seq<File>, a: seq<Candidate>, b: seq<Candidate>)
    requires ReadsAs(w, files, a) && ReadsAs(w, files, b)
    ensures a == b
  {
    forall i | 0 <= i < |files| ensures a[i] == b[i] {
      assert Read(w, files[i]) == Ok(a[i]) && Read(w, files[i]) == Ok(b[i]);
    }
  }

  // ----- what the database already knows about a candidate -----

  function Receipts(db: Db): seq<Receipt> {
    if db.receipts.Some? then db.receipts.value else []
  }

  predicate IsFor(r: Receipt, c: Candidate) {
    r.version == SCHEMA_VERSION && r.source == c.source && r.date == c.date && r.digest == c.digest
  }

  function FindReceipt(rs: seq<Receipt>, c: Candidate): Option<Receipt> {
    if rs == [] then None else if IsFor(rs[0], c) then Some(rs[0]) else FindReceipt(rs[1..], c)
  }

  predicate SameDay(row: RawRow, c: Candidate) {
    row.source == c.source && row.date == Some(c.date)
  }

  /** The first raw row of the candidate's source and day with an equal payload. */
  function FindRaw(rows: seq<RawRow>, c: Candidate): Option<nat> {
    if rows == [] then None
    else if SameDay(rows[0], c) && rows[0].payload == c.payload then Some(0)
    else match FindRaw(rows[1..], c) case None => None case Some(i) => Some(i + 1)
  }

  datatype Standing = HasReceipt | HasRaw(rawId: nat) | Conflict | New

  function StandingOf(db: Db, c: Candidate): Result<Standing, Error> {
    var receipt := FindReceipt(Receipts(db), c);
    if receipt.Some? then
      if receipt.value.content != c.content || receipt.value.name != c.name then Err(ReceiptConflict)
      else Ok(HasReceipt)
    else
      match FindRaw(db.raw, c)
      case Some(id) => Ok(HasRaw(id))
      case None => Ok(if exists row | row in db.raw :: SameDay(row, c) then Conflict else New)
  }

  // ----- the same, read off the tables -----

  /** Row `i` of the receipts is the first for this schema version, source, day and payload
      digest. */
  ghost predicate FirstReceipt(db: Db, c: Candidate, i: nat) {
    && db.receipts.Some? && i < |db.receipts.value|
    && IdentifiesAt(db.receipts.value[i], c)
    && forall k :: 0 <= k < i ==> !IdentifiesAt(db.receipts.value[k], c)
  }

  ghost predicate IdentifiesAt(r: Receipt, c: Candidate) {
    (r.version, r.source, r.date, r.digest) == (2, c.source, c.date, c.digest)
  }

  ghost predicate HasReceiptRow(db: Db, c: Candidate) {
    exists i: nat :: FirstReceipt(db, c, i)
  }

  /** Raw row `i` is of the candidate's source and day. */
  ghost predicate OfDay(db: Db, c: Candidate, i: nat) {
    i < |db.raw| && (db.raw[i].source, db.raw[i].date) == (c.source, Some(c.date))
  }

  ghost predicate HasPayloadRow(db: Db, c: Candidate) {
    exists i: nat :: OfDay(db, c, i) && db.raw[i].payload == c.payload
  }

  ghost predicate HasDayRow(db: Db, c: Candidate) {
    exists i: nat :: OfDay(db, c, i)
  }

  lemma {:induction false} FindReceiptFirst(rs: seq<Receipt>, c: Candidate)
    ensures FindReceipt(rs, c).None? <==> forall k :: 0 <= k < |rs| ==> !IdentifiesAt(rs[k], c)
    ensures forall i :: 0 <= i < |rs| && IdentifiesAt(rs[i], c) && (forall k :: 0 <= k < i ==> !IdentifiesAt(rs[k], c))
                        ==> FindReceipt(rs, c) == Some(rs[i])
    ensures FindReceipt(rs, c).Some? ==>
              exists i :: 0 <= i < |rs| && IdentifiesAt(rs[i], c) && FindReceipt(rs, c) == Some(rs[i])
                          && forall k :: 0 <= k < i ==> !IdentifiesAt(rs[k], c)
  {
    if rs != [] {
      assert rs == [rs[0]] + rs[1..];
      if !IsFor(rs[0], c) { FindReceiptFirst(rs[1..], c); }
    }
  }

  lemma {:induction false} FindRawExactly(rows: seq<RawRow>, c: Candidate)
    ensures FindRaw(rows, c).Some? <==>
              exists i :: 0 <= i < |rows| && SameDay(rows[i], c) && rows[i].payload == c.payload
  {
    if rows != [] {
      assert rows == [rows[0]] + rows[1..];
      FindRawExactly(rows[1..], c);
    }
  }

  lemma ReceiptRowExactly(db: Db, c: Candidate)
    ensures HasReceiptRow(db, c) <==> FindReceipt(Receipts(db), c).Some?
    ensures forall i: nat :: FirstReceipt(db, c, i) ==> FindReceipt(Receipts(db), c) == Some(db.receipts.value[i])
  {
    FindReceiptFirst(Receipts(db), c);
    if FindReceipt(Receipts(db), c).Some? {
      var i :| 0 <= i < |Receipts(db)| && IdentifiesAt(Receipts(db)[i], c)
               && forall k :: 0 <= k < i ==> !IdentifiesAt(Receipts(db)[k], c);
      assert FirstReceipt(db, c, i);
    }
  }

  lemma RawRowsExactly(db: Db, c: Candidate)
    ensures HasPayloadRow(db, c) <==> FindRaw(db.raw, c).Some?
    ensures HasDayRow(db, c) <==> exists row :: row in db.raw && SameDay(row, c)
  {
    FindRawExactly(db.raw, c);
    if i: nat :| OfDay(db, c, i) && db.raw[i].payload == c.payload {
      assert SameDay(db.raw[i], c);
    }
    if i :| 0 <= i < |db.raw| && SameDay(db.raw[i], c) && db.raw[i].payload == c.payload {
      assert OfDay(db, c, i);
    }
    if row :| row in db.raw && SameDay(row, c) {
      var i :| 0 <= i < |db.raw| && db.raw[i] == row;
      assert OfDay(db, c, i);
    }
    if i: nat :| OfDay(db, c, i) {
      assert db.raw[i] in db.raw && SameDay(db.raw[i], c);
    }
  }

  /** The database holds the candidate's day with other payloads only. */
  ghost predicate Contradicted(db: Db, c: Candidate) {
    !HasReceiptRow(db, c) && HasDayRow(db, c) && !HasPayloadRow(db, c)
  }

  /** The candidate's payload was imported from a file of another name or content. */
  ghost predicate Mislabelled(db: Db, c: Candidate) {
    exists i: nat :: FirstReceipt(db, c, i)
                     && (db.receipts.value[i].content != c.content || db.receipts.value[i].name != c.name)
  }

  ghost predicate Held(db: Db, c: Candidate) {
    HasReceiptRow(db, c) || HasPayloadRow(db, c)
  }

  /** How a candidate stands, by what rows there are. */
  lemma StandingExactly(db: Db, c: Candidate)
    ensures StandingOf(db, c).Err? <==> Mislabelled(db, c)
    ensures StandingOf(db, c) == Ok(HasReceipt) <==> HasReceiptRow(db, c) && !Mislabelled(db, c)
    ensures StandingOf(db, c) == Ok(Conflict) <==> Contradicted(db, c)
    ensures StandingOf(db, c) == Ok(New) <==> !HasReceiptRow(db, c) && !HasDayRow(db, c)
    ensures StandingOf(db, c).Ok? && StandingOf(db, c).value.HasRaw? <==> !HasReceiptRow(db, c) && HasPayloadRow(db, c)
  {
    ReceiptRowExactly(db, c);
    RawRowsExactly(db, c);
    if HasReceiptRow(db, c) {
      var i: nat :| FirstReceipt(db, c, i);
    }
  }

  datatype Counts = Counts(duplicates: nat, conflicts: nat)

  /** `_compare`: candidates in order, stopping at the first metadata conflict. */
  function Compare(db: Db, items: seq<Candidate>): Result<Counts, Error> {
    if items == [] then Ok(Counts(0, 0))
    else
      match Compare(db, items[..|items| - 1])
      case Err(e) => Err(e)
      case Ok(n) => match StandingOf(db, items[|items| - 1]) case Err(e) => Err(e) case Ok(s) => Ok(Count(n, s))
  }

  function Count(n: Counts, s: Standing): Counts {
    match s
    case Conflict => n.(conflicts := n.conflicts + 1)
    case New => n
    case _ => n.(duplicates := n.duplicates + 1)
  }

  ghost function HeldCount(db: Db, items: seq<Candidate>): nat {
    if items == [] then 0
    else HeldCount(db, items[..|items| - 1]) + (if Held(db, items[|items| - 1]) then 1 else 0)
  }

  ghost function ContradictedCount(db: Db, items: seq<Candidate>): nat {
    if items == [] then 0
    else ContradictedCount(db, items[..|items| - 1]) + (if Contradicted(db, items[|items| - 1]) then 1 else 0)
  }

  /** The comparison fails exactly when some candidate is mislabelled, and otherwise counts
      those the database holds and those it contradicts. */
  lemma {:induction false} CompareExactly(db: Db, items: seq<Candidate>)
    ensures Compare(db, items)
         == if exists c :: c in items && Mislabelled(db, c) then Err(ReceiptConflict)
            else Ok(Counts(HeldCount(db, items), ContradictedCount(db, items)))
  {
    if items != [] {
      var front, last := items[..|items| - 1], items[|items| - 1];
      CompareExactly(db, front);
      StandingExactly(db, last);
      SplitLast(items);
      assert HasDayRow(db, last) || !HasPayloadRow(db, last);
    }
  }

  lemma SplitLast(items: seq<Candidate>)
    requires items != []
    ensures forall c :: c in items <==> c in items[..|items| - 1] || c == items[|items| - 1]
  {
    assert items == items[..|items| - 1] + [items[|items| - 1]];
  }

  lemma {:induction false} SomeContradicted(db: Db, items: seq<Candidate>)
    ensures ContradictedCount(db, items) > 0 <==> exists c :: c in items && Contradicted(db, c)
  {
    if items != [] {
      SomeContradicted(db, items[..|items| - 1]);
      SplitLast(items);
    }
  }

  // ----- the transaction -----

  function RowOf(c: Candidate): RawRow { RawRow(c.source, Some(c.date), c.payload) }

  function ReceiptOf(c: Candidate, rawId: nat): Receipt {
    Receipt(SCHEMA_VERSION, c.source, c.date, c.digest, c.name, c.content, rawId)
  }

  function Stored(db: Db, c: Candidate, s: Standing): Result<Db, Error> {
    match s
    case HasReceipt => Ok(db)
    case Conflict => Err(PayloadConflict)
    case HasRaw(id) => Ok(Db(db.raw, Some(Receipts(db) + [ReceiptOf(c, id)])))
    case New => Ok(Db(db.raw + [RowOf(c)], Some(Receipts(db) + [ReceiptOf(c, |db.raw|)])))
  }

  function ImportOne(db: Db, c: Candidate): Result<Db, Error> {
    match StandingOf(db, c) case Err(e) => Err(e) case Ok(s) => Stored(db, c, s)
  }

  function ImportAll(db: Db, items: seq<Candidate>): Result<Db, Error> {
    if items == [] then Ok(db)
    else
      match ImportAll(db, items[..|items| - 1])
      case Err(e) => Err(e)
      case Ok(next) => ImportOne(next, items[|items| - 1])
  }

  function WithReceiptTable(db: Db): Db { db.(receipts := Some(Receipts(db))) }

  function FileLines(items: seq<Candidate>): seq<FileLine> {
    Map((c: Candidate) => FileLine(c.name, c.source, c.date, c.digest), items)
  }

  function ReportOf(status: Status, items: seq<Candidate>, n: Counts): Report {
    Report(status, |items|, |items| - n.duplicates - n.conflicts, n.duplicates, n.conflicts, FileLines(items))
  }

  /** The whole run on candidates: `before` is the database at the first comparison,
      `locked` the one found once the write lock is granted. */
  function RunOn(before: Db, locked: Db, items: seq<Candidate>, dryRun: bool): (Result<Report, Error>, Db) {
    match Compare(before, items)
    case Err(e) => (Err(e), before)
    case Ok(n) =>
      if n.conflicts > 0 then (Ok(ReportOf(Blocked, items, n)), before)
      else if dryRun then (Ok(ReportOf(DryRun, items, n)), before)
      else RunLocked(locked, items)
  }

  function RunLocked(locked: Db, items: seq<Candidate>): (Result<Report, Error>, Db) {
    match Compare(locked, items)
    case Err(e) => (Err(e), locked)
    case Ok(m) =>
      if m.conflicts > 0 then (Ok(ReportOf(Blocked, items, m)), locked)
      else
        match ImportAll(WithReceiptTable(locked), items)
        case Err(e) => (Err(e), locked)
        case Ok(after) => (Ok(ReportOf(Completed, items, m)), after)
  }

  class Importer {
    const w: World
    var db: Db

    constructor (w: World, db: Db)
      ensures this.w == w && this.db == db
    {
      this.w, this.db := w, db;
    }

    method CompareAll(items: seq<Candidate>) returns (r: Result<Counts, Error>)
      ensures r == Compare(db, items)
    {
      var n := Counts(0, 0);
      for k := 0 to |items|
        invariant Compare(db, items[..k]) == Ok(n)
      {
        assert items[..k + 1][..k] == items[..k];
        var standing := StandingOf(db, items[k]);
        if standing.Err? {
          CompareStops(db, items, k + 1);
          return Err(standing.error);
        }
        n := Count(n, standing.value);
      }
      assert items[..|items|] == items;
      r := Ok(n);
    }

    /** The import loop; on an error the tables are left as far as it got. */
    method ImportInOrder(items: seq<Candidate>) returns (r: Result<(), Error>)
      modifies this
      ensures r == match ImportAll(old(db), items) case Err(e) => Err(e) case Ok(_) => Ok(())
      ensures r.Ok? ==> Ok(db) == ImportAll(old(db), items)
    {
      for k := 0 to |items|
        invariant ImportAll(old(db), items[..k]) == Ok(db)
      {
        assert items[..k + 1][..k] == items[..k];
        var next := ImportOne(db, items[k]);
        if next.Err? {
          ImportStops(old(db), items, k + 1);
          return Err(next.error);
        }
        db := next.value;
      }
      assert items[..|items|] == items;
      r := Ok(());
    }

    /** `locked` is the database as other writers have left it when `BEGIN IMMEDIATE`
        grants the write lock. */
    method Run(files: seq<File>, dryRun: bool, locked: Db) returns (r: Result<Report, Error>)
      requires DistinctNames(files)
      modifies this
      ensures (forall items :: !Accepted(w, files, items)) ==>
                r.Err? && QueueError(w, files, r.error) && db == old(db)
      ensures forall items :: Accepted(w, files, items) ==> (r, db) == RunOn(old(db), locked, items, dryRun)
    {
      var candidates := Candidates(w, files);
      if candidates.Err? { return Err(candidates.error); }
      var items := candidates.value;
      forall others | Accepted(w, files, others) ensures others == items {
        ReadsAsIsUnique(w, files, others, items);
      }
      var n := CompareAll(items);
      if n.Err? { return Err(n.error); }
      if n.value.conflicts > 0 { return Ok(ReportOf(Blocked, items, n.value)); }
      if dryRun { return Ok(ReportOf(DryRun, items, n.value)); }
      db := WithReceiptTable(locked);
      ReceiptTableChangesNothing(locked, items);
      n := CompareAll(items);
      if n.Err? {
        db := locked;
        return Err(n.error);
      }
      if n.value.conflicts > 0 {
        db := locked;
        return Ok(ReportOf(Blocked, items, n.value));
      }
      var imported := ImportInOrder(items);
      if imported.Err? {
        db := locked;
        return Err(imported.error);
      }
      r := Ok(ReportOf(Completed, items, n.value));
    }
  }

  lemma {:induction false} CompareStops(db: Db, items: seq<Candidate>, k: nat)
    requires k <= |items| && Compare(db, items[..k]).Err?
    ensures Compare(db, items) == Compare(db, items[..k])
    decreases |items|
  {
    if k == |items| {
      assert items[..k] == items;
    } else {
      assert items[..|items| - 1][..k] == items[..k];
      CompareStops(db, items[..|items| - 1], k);
    }
  }

  lemma {:induction false} ImportStops(db: Db, items: seq<Candidate>, k: nat)
    requires k <= |items| && ImportAll(db, items[..k]).Err?
    ensures ImportAll(db, items) == ImportAll(db, items[..k])
    decreases |items|
  {
    if k == |items| {
      assert items[..k] == items;
    } else {
      assert items[..|items| - 1][..k] == items[..k];
      ImportStops(db, items[..|items| - 1], k);
    }
  }

  lemma {:induction false} ReceiptTableChangesNothing(db: Db, items: seq<Candidate>)
    ensures Compare(WithReceiptTable(db), items) == Compare(db, items)
  {
    if items != [] { ReceiptTableChangesNothing(db, items[..|items| - 1]); }
  }

  // ----- one import leaves the others' standing alone -----

  lemma {:induction false} FindReceiptAppend(rs: seq<Receipt>, r: Receipt, c: Candidate)
    ensures FindReceipt(rs + [r], c)
         == if FindReceipt(rs, c).Some? then FindReceipt(rs, c) else if IsFor(r, c) then Some(r) else None
  {
    if rs == [] {
      assert [] + [r] == [r] && [r][1..] == [];
    } else {
      assert (rs + [r])[0] == rs[0] && (rs + [r])[1..] == rs[1..] + [r];
      FindReceiptAppend(rs[1..], r, c);
    }
  }

  lemma {:induction false} FindRawAppend(rows: seq<RawRow>, row: RawRow, c: Candidate)
    ensures FindRaw(rows + [row], c)
         == if FindRaw(rows, c).Some? then FindRaw(rows, c)
            else if SameDay(row, c) && row.payload == c.payload then Some(|rows|) else None
  {
    if rows == [] {
      assert [] + [row] == [row] && [row][1..] == [];
    } else {
      assert (rows + [row])[0] == rows[0] && (rows + [row])[1..] == rows[1..] + [row];
      FindRawAppend(rows[1..], row, c);
    }
  }

  lemma {:induction false} FindRawFinds(rows: seq<RawRow>, c: Candidate)
    requires FindRaw(rows, c).Some?
    ensures var i := FindRaw(rows, c).value;
            i < |rows| && SameDay(rows[i], c) && rows[i].payload == c.payload
  {
    if !(SameDay(rows[0], c) && rows[0].payload == c.payload) { FindRawFinds(rows[1..], c); }
  }

  /** Importing one candidate gives it a receipt and changes nothing for candidates of
      another source or day. */
  lemma ImportOneFrame(db: Db, c: Candidate, other: Candidate)
    requires ImportOne(db, c).Ok?
    ensures var after := ImportOne(db, c).value;
            && StandingOf(after, c) == Ok(HasReceipt)
            && (other.Key() != c.Key() ==> StandingOf(after, other) == StandingOf(db, other))
  {
    var s := StandingOf(db, c).value;
    if s.HasRaw? || s.New? {
      var receipt := ReceiptOf(c, if s.HasRaw? then s.rawId else |db.raw|);
      FindReceiptAppend(Receipts(db), receipt, c);
      FindReceiptAppend(Receipts(db), receipt, other);
      FindRawAppend(db.raw, RowOf(c), other);
      assert other.Key() != c.Key() ==> !IsFor(receipt, other) && !SameDay(RowOf(c), other);
      var rows := db.raw + [RowOf(c)];
      assert rows[..|db.raw|] == db.raw && rows[|db.raw|] == RowOf(c);
      assert forall row :: row in rows <==> row in db.raw || row == RowOf(c);
    }
  }

  // ----- what a completed run has done -----

  /** The rows of the candidates the database knows nothing about, in order. */
  function NewRows(db: Db, items: seq<Candidate>): seq<RawRow> {
    if items == [] then []
    else
      var last := items[|items| - 1];
      NewRows(db, items[..|items| - 1]) + (if StandingOf(db, last) == Ok(New) then [RowOf(last)] else [])
  }

  /** Every receipt points at a raw row of its own source, day and payload, and no two
      receipts are for the same payload of one source and day. */
  ghost predicate Consistent(w: World, db: Db) {
    var rs := Receipts(db);
    && (forall r :: r in rs ==>
          r.rawId < |db.raw| && db.raw[r.rawId] == RawRow(r.source, Some(r.date), w.parse(r.digest.text)))
    && (forall i, j :: 0 <= i < j < |rs| ==>
          (rs[i].version, rs[i].source, rs[i].date, rs[i].digest)
          != (rs[j].version, rs[j].source, rs[j].date, rs[j].digest))
  }

  lemma ImportOneConsistent(w: World, db: Db, c: Candidate)
    requires Genuine(w, c) && Consistent(w, db) && ImportOne(db, c).Ok?
    ensures Consistent(w, ImportOne(db, c).value)
  {
    var s := StandingOf(db, c).value;
    if s.HasRaw? || s.New? {
      if s.HasRaw? { FindRawFinds(db.raw, c); }
      NotFound(Receipts(db), c);
    }
  }

  lemma {:induction false} NotFound(rs: seq<Receipt>, c: Candidate)
    requires FindReceipt(rs, c).None?
    ensures forall i :: 0 <= i < |rs| ==> !IsFor(rs[i], c)
  {
    if rs != [] { NotFound(rs[1..], c); }
  }

  ghost predicate Importable(db: Db, items: seq<Candidate>) {
    DistinctKeys(items) && Compare(db, items).Ok? && Compare(db, items).value.conflicts == 0
  }

  /** If the tables were consistent before and the candidates are genuine, the tables are
      consistent after. */
  ghost predicate KeepsConsistent(w: World, db: Db, items: seq<Candidate>, after: Db) {
    (forall c :: c in items ==> Genuine(w, c)) && Consistent(w, db) ==> Consistent(w, after)
  }

  /** `after` is what the first `k` imports make of `db`. */
  ghost predicate ImportedUpTo(w: World, db: Db, items: seq<Candidate>, k: nat, after: Db)
    requires k <= |items|
  {
    && ImportAll(db, items[..k]) == Ok(after)
    && after.raw == db.raw + NewRows(db, items[..k]) && KeepsConsistent(w, db, items, after)
    && (forall j :: 0 <= j < k ==> StandingOf(after, items[j]) == Ok(HasReceipt))
    && (forall j :: k <= j < |items| ==> StandingOf(after, items[j]) == StandingOf(db, items[j]))
  }

  lemma ImportOneRaw(db: Db, c: Candidate)
    requires ImportOne(db, c).Ok?
    ensures ImportOne(db, c).value.raw == db.raw + (if StandingOf(db, c) == Ok(New) then [RowOf(c)] else [])
  {
    assert db.raw + [] == db.raw;
  }

  lemma ImportOneStanding(db: Db, items: seq<Candidate>, k: nat)
    requires k < |items| && DistinctKeys(items) && ImportOne(db, items[k]).Ok?
    ensures var after := ImportOne(db, items[k]).value;
            && StandingOf(after, items[k]) == Ok(HasReceipt)
            && forall j :: 0 <= j < |items| && j != k ==> StandingOf(after, items[j]) == StandingOf(db, items[j])
  {
    ImportOneFrame(db, items[k], items[k]);
    forall j | 0 <= j < |items| && j != k
      ensures StandingOf(ImportOne(db, items[k]).value, items[j]) == StandingOf(db, items[j])
    {
      assert items[j].Key() != items[k].Key();
      ImportOneFrame(db, items[k], items[j]);
    }
  }

  lemma ImportNext(w: World, db: Db, items: seq<Candidate>, k: nat, mid: Db) returns (after: Db)
    requires k < |items| && Importable(db, items) && ImportedUpTo(w, db, items, k, mid)
    ensures ImportedUpTo(w, db, items, k + 1, after)
  {
    var c := items[k];
    assert items[..k + 1][..k] == items[..k] && items[..k + 1][k] == c;
    NoConflictAt(db, items, k);
    after := ImportOne(mid, c).value;
    ImportOneStanding(mid, items, k);
    if Genuine(w, c) && Consistent(w, mid) { ImportOneConsistent(w, mid, c); }
    ImportOneRaw(mid, c);
  }

  lemma ImportedNone(w: World, db: Db, items: seq<Candidate>)
    ensures ImportedUpTo(w, db, items, 0, db)
  {
    assert items[..0] == [] && db.raw + [] == db.raw;
  }

  /** Once the comparison reports no conflict, the import loop runs to its end: in
      particular its own conflict check never fires.  It adds exactly the new rows. */
  lemma {:induction false} ImportSucceeds(w: World, db: Db, items: seq<Candidate>, k: nat) returns (after: Db)
    requires k <= |items| && Importable(db, items)
    ensures ImportedUpTo(w, db, items, k, after)
  {
    if k == 0 {
      after := db;
      ImportedNone(w, db, items);
    } else {
      after := ImportSucceeds(w, db, items, k - 1);
      after := ImportNext(w, db, items, k - 1, after);
    }
  }

  lemma {:induction false} NoConflictAt(db: Db, items: seq<Candidate>, k: nat)
    requires k < |items| && Compare(db, items).Ok? && Compare(db, items).value.conflicts == 0
    ensures StandingOf(db, items[k]).Ok? && !StandingOf(db, items[k]).value.Conflict?
  {
    if k < |items| - 1 { NoConflictAt(db, items[..|items| - 1], k); }
  }

  lemma {:induction false} ReadyCount(db: Db, items: seq<Candidate>)
    requires Compare(db, items).Ok?
    ensures var n := Compare(db, items).value; |NewRows(db, items)| == |items| - n.duplicates - n.conflicts
  {
    if items != [] { ReadyCount(db, items[..|items| - 1]); }
  }

  /** Every candidate is either unknown to the database or already held by it with the
      same payload and the same receipt. */
  ghost predicate Clear(db: Db, items: seq<Candidate>) {
    forall i :: 0 <= i < |items| ==> StandingOf(db, items[i]).Ok? && !StandingOf(db, items[i]).value.Conflict?
  }

  lemma {:induction false} ClearExactly(db: Db, items: seq<Candidate>)
    ensures Clear(db, items) <==> Compare(db, items).Ok? && Compare(db, items).value.conflicts == 0
  {
    if items != [] {
      ClearExactly(db, items[..|items| - 1]);
      var last := StandingOf(db, items[|items| - 1]);
      assert Clear(db, items) <==> Clear(db, items[..|items| - 1]) && last.Ok? && !last.value.Conflict?;
    }
  }

  /** A run completes exactly when it is not a dry run and nothing stands in the way, in
      the database it first compared with nor in the one it locked.  It then adds exactly
      `ready` raw rows, those of the unknown candidates, keeps consistent tables consistent,
      and every candidate has its receipt.  Any other run leaves the tables as it found them,
      and never because of the conflict check inside the import loop. */
  lemma RunEffect(w: World, before: Db, locked: Db, items: seq<Candidate>, dryRun: bool)
    requires DistinctKeys(items)
    ensures var (r, after) := RunOn(before, locked, items, dryRun);
            && r != Err(PayloadConflict)
            && (r.Ok? && r.value.status == Completed <==> !dryRun && Clear(before, items) && Clear(locked, items))
            && (r.Err? || r.value.status != Completed ==>
                  after == if dryRun || !Clear(before, items) then before else locked)
            && (r.Ok? && r.value.status == Completed ==>
                  && r.value.ready == |NewRows(locked, items)| && after.raw == locked.raw + NewRows(locked, items)
                  && KeepsConsistent(w, locked, items, after)
                  && forall c :: c in items ==> StandingOf(after, c) == Ok(HasReceipt))
  {
    CompareError(before, items);
    CompareError(locked, items);
    ClearExactly(before, items);
    ClearExactly(locked, items);
    if Clear(locked, items) {
      var table := WithReceiptTable(locked);
      ReceiptTableChangesNothing(locked, items);
      var after := ImportSucceeds(w, table, items, |items|);
      assert items[..|items|] == items;
      ReadyCount(table, items);
      SameNewRows(locked, items);
    }
  }

  ghost predicate SomeMislabelled(db: Db, items: seq<Candidate>) {
    exists c :: c in items && Mislabelled(db, c)
  }

  ghost predicate SomeConflict(db: Db, items: seq<Candidate>) {
    exists c :: c in items && Contradicted(db, c)
  }

  /** What a run answers, by the rows of the two states of the database. */
  lemma RunExactly(before: Db, locked: Db, items: seq<Candidate>, dryRun: bool)
    requires DistinctKeys(items)
    ensures var r := RunOn(before, locked, items, dryRun).0;
            && (r == Err(ReceiptConflict) <==> r.Err?)
            && (r.Err? <==> SomeMislabelled(before, items)
                            || (!dryRun && !SomeConflict(before, items) && SomeMislabelled(locked, items)))
            && (r.Ok? && r.value.status == DryRun <==>
                  dryRun && !SomeMislabelled(before, items) && !SomeConflict(before, items))
            && (r.Ok? && r.value.status == Blocked <==>
                  && !SomeMislabelled(before, items)
                  && (SomeConflict(before, items)
                      || (!dryRun && !SomeMislabelled(locked, items) && SomeConflict(locked, items))))
  {
    var w := World(text => 0, digest => "");
    RunEffect(w, before, locked, items, dryRun);
    CompareExactly(before, items);
    CompareExactly(locked, items);
    SomeContradicted(before, items);
    SomeContradicted(locked, items);
    CompareError(before, items);
    CompareError(locked, items);
    ClearExactly(locked, items);
  }

  /** What a run reports: the files it checked, what the comparison that decided counted,
      and the rest as ready. */
  lemma ReportExactly(before: Db, locked: Db, items: seq<Candidate>, dryRun: bool)
    requires DistinctKeys(items) && RunOn(before, locked, items, dryRun).0.Ok?
    ensures var r := RunOn(before, locked, items, dryRun).0.value;
            var db := if dryRun || SomeConflict(before, items) then before else locked;
            && r.duplicates == HeldCount(db, items) && r.conflicts == ContradictedCount(db, items)
            && r.ready + r.duplicates + r.conflicts == r.filesChecked == |items| == |r.files|
            && forall i :: 0 <= i < |items| ==>
                 && r.files[i].name == items[i].name && r.files[i].source == items[i].source
                 && r.files[i].date == items[i].date && r.files[i].digest == items[i].digest
  {
    CompareExactly(before, items);
    CompareExactly(locked, items);
    SomeContradicted(before, items);
    SomeContradicted(locked, items);
  }

  lemma {:induction false} NewRowsAreOfItems(db: Db, items: seq<Candidate>, i: nat) returns (k: nat)
    requires i < |NewRows(db, items)|
    ensures k < |items| && NewRows(db, items)[i] == RowOf(items[k]) && StandingOf(db, items[k]) == Ok(New)
  {
    var front := items[..|items| - 1];
    if i < |NewRows(db, front)| { k := NewRowsAreOfItems(db, front, i); } else { k := |items| - 1; }
  }

  lemma {:induction false} NewRowsDiffer(db: Db, items: seq<Candidate>, i: nat, j: nat)
    requires DistinctKeys(items) && i < j < |NewRows(db, items)|
    ensures var rows := NewRows(db, items); (rows[i].source, rows[i].date) != (rows[j].source, rows[j].date)
  {
    var front := items[..|items| - 1];
    if j < |NewRows(db, front)| {
      NewRowsDiffer(db, front, i, j);
    } else {
      var k := NewRowsAreOfItems(db, front, i);
      assert items[k].Key() != items[|items| - 1].Key();
    }
  }

  /** A completed run never adds a raw row to a source and day that already had one. */
  lemma OneRowPerDayAdded(before: Db, locked: Db, items: seq<Candidate>, i: nat, j: nat)
    requires DistinctKeys(items) && RunOn(before, locked, items, false).0.Ok?
    requires RunOn(before, locked, items, false).0.value.status == Completed
    requires i < j && |locked.raw| <= j < |RunOn(before, locked, items, false).1.raw|
    ensures var raw := RunOn(before, locked, items, false).1.raw;
            (raw[i].source, raw[i].date) != (raw[j].source, raw[j].date)
  {
    RunEffect(World(text => 0, digest => ""), before, locked, items, false);
    var n := |locked.raw|;
    if i < n {
      var k := NewRowsAreOfItems(locked, items, j - n);
      StandingExactly(locked, items[k]);
      assert !OfDay(locked, items[k], i);
    } else {
      NewRowsDiffer(locked, items, i - n, j - n);
    }
  }

  lemma {:induction false} CompareError(db: Db, items: seq<Candidate>)
    ensures Compare(db, items).Err? ==> Compare(db, items).error == ReceiptConflict
  {
    if items != [] { CompareError(db, items[..|items| - 1]); }
  }

  lemma {:induction false} SameNewRows(db: Db, items: seq<Candidate>)
    ensures NewRows(WithReceiptTable(db), items) == NewRows(db, items)
  {
    if items != [] { SameNewRows(db, items[..|items| - 1]); }
  }

  /** Running the same candidates again changes nothing and reports them as duplicates. */
  lemma SecondRunIsIdle(w: World, before: Db, locked: Db, items: seq<Candidate>)
    requires DistinctKeys(items)
    requires RunOn(before, locked, items, false).0.Ok?
    requires RunOn(before, locked, items, false).0.value.status == Completed
    ensures var after := RunOn(before, locked, items, false).1;
            RunOn(after, after, items, false)
            == (Ok(Report(Completed, |items|, 0, |items|, 0, FileLines(items))), after)
  {
    RunEffect(w, before, locked, items, false);
    var after := RunOn(before, locked, items, false).1;
    AllDuplicates(after, items);
    ReceiptsSurvive(WithReceiptTable(locked), items);
    assert WithReceiptTable(after) == after;
  }

  lemma {:induction false} ReceiptsSurvive(db: Db, items: seq<Candidate>)
    requires db.receipts.Some? && ImportAll(db, items).Ok?
    ensures ImportAll(db, items).value.receipts.Some?
  {
    if items != [] { ReceiptsSurvive(db, items[..|items| - 1]); }
  }

  lemma {:induction false} AllDuplicates(db: Db, items: seq<Candidate>)
    requires forall c :: c in items ==> StandingOf(db, c) == Ok(HasReceipt)
    ensures Compare(db, items) == Ok(Counts(|items|, 0)) && ImportAll(db, items) == Ok(db)
  {
    if items != [] { AllDuplicates(db, items[..|items| - 1]); }
  }
}
