/** Building the compact database: the observations that verified archives hold are left
    out, all others are copied.  Times and names are text compared in code-point order. */
module CompactDatabase {
  import opened Common
  import Archive = JsonlArchive

  /** An observation, with the canonical JSON line of its columns. */
  datatype Row = Row(source: string, observedAt: string, line: Archive.Record)

  /** The observation table, in the order of the observation id. */
  type Table = seq<Row>

  datatype Range = Range(source: string, start: string, end: string, count: int)

  datatype Error = NoArchives | UnexpectedSchema | SelectionUnavailable | SelectionInvalid
                 | ArchiveMismatch | RangesOverlap | ReconciliationFailed

  // ----- ranges -----

  predicate InRange(row: Row, r: Range) {
    row.source == r.source && TextLe(r.start, row.observedAt) && TextLess(row.observedAt, r.end)
  }

  /** Tuple comparison of (source, start, end, count). */
  predicate RangeLe(a: Range, b: Range) {
    if a.source != b.source then TextLess(a.source, b.source)
    else if a.start != b.start then TextLess(a.start, b.start)
    else if a.end != b.end then TextLess(a.end, b.end)
    else a.count <= b.count
  }

  predicate NonEmpty(r: Range) { TextLess(r.start, r.end) }

  predicate Overlap(previous: Range, current: Range) {
    previous.source == current.source && TextLess(current.start, previous.end)
  }

  /** No instant of one source belongs to both ranges. */
  ghost predicate Disjoint(a: Range, b: Range) {
    a.source == b.source ==> TextLe(a.end, b.start) || TextLe(b.end, a.start)
  }

  ghost predicate PairwiseDisjoint(ranges: seq<Range>) {
    forall i, j :: 0 <= i < j < |ranges| ==> Disjoint(ranges[i], ranges[j])
  }

  lemma TextLessDecides(a: string, b: string)
    ensures TextLess(a, b) <==> !TextLe(b, a)
  {
    TextLessTotal(a, b);
  }

  lemma RangeOrder()
    ensures TotalPreorder(RangeLe)
  {
    forall a, b ensures RangeLe(a, b) || RangeLe(b, a) {
      TextLessTotal(a.source, b.source);
      TextLessTotal(a.start, b.start);
      TextLessTotal(a.end, b.end);
    }
    forall a, b, c | RangeLe(a, b) && RangeLe(b, c) ensures RangeLe(a, c) {
      RangeLeTransitive(a, b, c);
    }
  }

  lemma RangeLeAntisymmetric(a: Range, b: Range)
    requires RangeLe(a, b) && RangeLe(b, a)
    ensures a == b
  {
    TextLessTotal(a.source, b.source);
    TextLessTotal(a.start, b.start);
    TextLessTotal(a.end, b.end);
  }

  lemma RangeLeTransitive(a: Range, b: Range, c: Range)
    requires RangeLe(a, b) && RangeLe(b, c)
    ensures RangeLe(a, c)
  {
    TextChain(a.source, b.source, c.source);
    TextChain(a.start, b.start, c.start);
    TextChain(a.end, b.end, c.end);
  }

  lemma TextChain(a: string, b: string, c: string)
    ensures TextLess(a, b) && TextLess(b, c) ==> TextLess(a, c) && a != c
  {
    if TextLess(a, b) && TextLess(b, c) {
      TextLessTransitive(a, b, c);
      TextLessTotal(a, c);
    }
  }

  /** In sorted order, ranges of one source that do not overlap their neighbour keep
      their distance from every later one. */
  lemma {:induction false} LaterStartsAfter(ranges: seq<Range>, i: nat, j: nat)
    requires Sorted(RangeLe, ranges) && (forall k :: 0 <= k < |ranges| ==> NonEmpty(ranges[k]))
    requires forall k :: 0 <= k < |ranges| - 1 ==> !Overlap(ranges[k], ranges[k + 1])
    requires i < j < |ranges| && ranges[i].source == ranges[j].source
    ensures TextLe(ranges[i].end, ranges[j].start)
    decreases j - i
  {
    var a, next, b := ranges[i], ranges[i + 1], ranges[j];
    assert RangeLe(a, next);
    if i + 1 < j {
      assert RangeLe(next, b);
      TextLessTotal(a.source, next.source);
      assert next.source == a.source;
      LaterStartsAfter(ranges, i + 1, j);
      assert !Overlap(a, next);
      TextLessDecides(next.start, a.end);
      assert NonEmpty(next);
      if a.end != next.start { TextLessTransitive(a.end, next.start, next.end); }
      if next.end != b.start { TextLessTransitive(a.end, next.end, b.start); }
    } else {
      assert !Overlap(a, b);
      TextLessDecides(b.start, a.end);
    }
  }

  /** The check of neighbours is enough: all ranges are disjoint from each other. */
  lemma NeighboursSuffice(ranges: seq<Range>)
    requires Sorted(RangeLe, ranges) && (forall k :: 0 <= k < |ranges| ==> NonEmpty(ranges[k]))
    ensures (forall k :: 0 <= k < |ranges| - 1 ==> !Overlap(ranges[k], ranges[k + 1])) <==> PairwiseDisjoint(ranges)
  {
    if forall k :: 0 <= k < |ranges| - 1 ==> !Overlap(ranges[k], ranges[k + 1]) {
      forall i, j | 0 <= i < j < |ranges| ensures Disjoint(ranges[i], ranges[j]) {
        if ranges[i].source == ranges[j].source { LaterStartsAfter(ranges, i, j); }
      }
    }
    if PairwiseDisjoint(ranges) {
      forall k | 0 <= k < |ranges| - 1 ensures !Overlap(ranges[k], ranges[k + 1]) {
        DisjointNeighbours(ranges[k], ranges[k + 1]);
      }
    }
  }

  lemma DisjointNeighbours(a: Range, b: Range)
    requires RangeLe(a, b) && NonEmpty(a) && NonEmpty(b) && Disjoint(a, b)
    ensures !Overlap(a, b)
  {
    if a.source == b.source {
      TextLessDecides(b.start, a.end);
      TextLessDecides(b.end, a.start);
      TextLessDecides(a.start, b.start);
      TextLessTotal(b.start, b.start);
      if TextLe(b.end, a.start) && a.start != b.start {
        if b.end != a.start { TextLessTransitive(b.end, a.start, b.start); }
        TextLessTotal(b.start, b.end);
      }
    }
  }

  lemma DisjointRangesShareNoRow(a: Range, b: Range, row: Row)
    requires Disjoint(a, b)
    ensures !(InRange(row, a) && InRange(row, b))
  {
    if InRange(row, a) && InRange(row, b) {
      var t := row.observedAt;
      TextLessTotal(t, t);
      if TextLe(a.end, b.start) {
        MiddleImpossible(a.end, b.start, t);
      } else {
        MiddleImpossible(b.end, a.start, t);
      }
    }
  }

  lemma MiddleImpossible(end: string, start: string, t: string)
    requires TextLe(end, start)
    ensures !(TextLess(t, end) && TextLe(start, t))
  {
    if TextLess(t, end) && TextLe(start, t) {
      if end != start { TextLessTransitive(t, end, start); }
      if start != t { TextLessTransitive(t, start, t); }
      TextLessTotal(t, t);
    }
  }

  // ----- selecting rows -----

  function Select(table: Table, r: Range): Table {
    if table == [] then []
    else Select(table[..|table| - 1], r) + (if InRange(table[|table| - 1], r) then [table[|table| - 1]] else [])
  }

  function Remaining(table: Table, ranges: seq<Range>): Table {
    if table == [] then []
    else
      var row := table[|table| - 1];
      Remaining(table[..|table| - 1], ranges) + (if exists r | r in ranges :: InRange(row, r) then [] else [row])
  }

  /** The rows of each range, range after range. */
  function Archived(table: Table, ranges: seq<Range>): Table {
    Flatten(Map((r: Range) => Select(table, r), ranges))
  }

  function LinesOf(table: Table): seq<Archive.Record> {
    Map((row: Row) => row.line, table)
  }

  /** The row has the range's source, is not earlier than its start and is earlier than its
      end, in the order of the first differing character. */
  ghost predicate FallsIn(row: Row, source: string, start: string, end: string) {
    && row.source == source
    && (row.observedAt == start || exists i: nat :: DiffersAt(start, row.observedAt, i))
    && exists i: nat :: DiffersAt(row.observedAt, end, i)
  }

  lemma InRangeExactly(row: Row, r: Range)
    ensures InRange(row, r) <==> FallsIn(row, r.source, r.start, r.end)
  {
    TextLessExactly(r.start, row.observedAt);
    TextLessExactly(row.observedAt, r.end);
  }

  /** Selecting takes exactly the rows of the table that fall in the range. */
  lemma {:induction false} SelectExactly(table: Table, r: Range, row: Row)
    ensures row in Select(table, r) <==> row in table && FallsIn(row, r.source, r.start, r.end)
  {
    InRangeExactly(row, r);
    if table != [] {
      var front, last := table[..|table| - 1], table[|table| - 1];
      SelectExactly(front, r, row);
      assert table == front + [last];
    }
  }

  /** A range cut in two takes what its halves take, each row in one half only: the start
      belongs to a range and the end does not. */
  lemma RangesSplit(row: Row, source: string, a: string, b: string, c: string, count: int)
    requires TextLess(a, b) && TextLess(b, c)
    ensures InRange(row, Range(source, a, c, count)) <==>
              (InRange(row, Range(source, a, b, count)) <==> !InRange(row, Range(source, b, c, count)))
    ensures InRange(Row(source, a, []), Range(source, a, b, count))
    ensures !InRange(Row(source, b, []), Range(source, a, b, count))
  {
    var t := row.observedAt;
    TextLessTotal(b, b);
    TextLessDecides(t, b);
    TextChain(t, b, c);
    TextChain(a, b, t);
  }

  /** Selecting and copying keep the order of the table: a table in two parts gives the
      rows of the first part and then those of the second. */
  lemma {:induction false} PartsInOrder(a: Table, b: Table, ranges: seq<Range>, r: Range)
    ensures Select(a + b, r) == Select(a, r) + Select(b, r)
    ensures Remaining(a + b, ranges) == Remaining(a, ranges) + Remaining(b, ranges)
  {
    if b == [] {
      assert a + b == a;
    } else {
      var front, last := b[..|b| - 1], b[|b| - 1];
      PartsInOrder(a, front, ranges, r);
      assert (a + b)[..|a + b| - 1] == a + front && (a + b)[|a + b| - 1] == last;
    }
  }

  lemma {:induction false} RemainingSplits(table: Table, ranges: seq<Range>, r: Range)
    requires forall q :: q in ranges ==> Disjoint(q, r)
    ensures multiset(Remaining(table, ranges)) == multiset(Remaining(table, ranges + [r])) + multiset(Select(table, r))
  {
    if table != [] {
      var front, row := table[..|table| - 1], table[|table| - 1];
      RemainingSplits(front, ranges, r);
      assert forall q :: q in ranges + [r] <==> q in ranges || q == r;
      if InRange(row, r) {
        forall q | q in ranges ensures !InRange(row, q) {
          DisjointRangesShareNoRow(q, r, row);
        }
        assert r in ranges + [r];
      } else {
        assert (exists q | q in ranges :: InRange(row, q)) <==> (exists q | q in ranges + [r] :: InRange(row, q));
      }
    }
  }

  lemma {:induction false} NothingExcluded(table: Table)
    ensures Remaining(table, []) == table
  {
    if table != [] {
      NothingExcluded(table[..|table| - 1]);
      assert table == table[..|table| - 1] + [table[|table| - 1]];
    }
  }

  /** Disjoint ranges cut the table into the rows of each range and the remaining ones:
      every row, counted with repetition, is in exactly one part. */
  lemma {:induction false} Partition(table: Table, ranges: seq<Range>)
    requires PairwiseDisjoint(ranges)
    ensures multiset(table) == multiset(Remaining(table, ranges)) + multiset(Archived(table, ranges))
  {
    var select := (r: Range) => Select(table, r);
    if ranges == [] {
      NothingExcluded(table);
      assert Map(select, ranges) == [];
    } else {
      var front, last := ranges[..|ranges| - 1], ranges[|ranges| - 1];
      assert ranges == front + [last];
      Partition(table, front);
      RemainingSplits(table, front, last);
      assert Map(select, ranges) == Map(select, front) + [Select(table, last)];
      FlattenConcat(Map(select, front), [Select(table, last)]);
      assert Flatten([Select(table, last)]) == Select(table, last) + Flatten([]);
    }
  }

  // ----- validating the archives -----

  function SelectionOf(m: Archive.Manifest): Result<Range, Error> {
    if m.schemaName != "switchbot_observations" then Err(UnexpectedSchema)
    else if m.selection.None? then Err(SelectionUnavailable)
    else
      var Selection(start, end) := m.selection.value;
      if !TextLess(start, end) then Err(SelectionInvalid)
      else Ok(Range(m.source, start, end, m.summary.count))
  }

  /** Which selections are usable: of observations, present, and with a start before the
      end; what they say; and which defect is reported first. */
  lemma SelectionExactly(m: Archive.Manifest)
    ensures var r, ours := SelectionOf(m), m.schemaName == "switchbot_observations";
            && (r == Err(UnexpectedSchema) <==> !ours)
            && (r == Err(SelectionUnavailable) <==> ours && m.selection == None)
            && (r == Err(SelectionInvalid) <==>
                  && ours && m.selection.Some?
                  && !exists i: nat :: DiffersAt(m.selection.value.start, m.selection.value.endExclusive, i))
            && (r.Ok? <==>
                  && ours && m.selection.Some?
                  && exists i: nat :: DiffersAt(m.selection.value.start, m.selection.value.endExclusive, i))
            && (r.Ok? ==> (r.value.source, r.value.start, r.value.end, r.value.count)
                          == (m.source, m.selection.value.start, m.selection.value.endExclusive, m.summary.count))
  {
    if m.selection.Some? { TextLessExactly(m.selection.value.start, m.selection.value.endExclusive); }
  }

  /** The archive is sound and holds exactly the table's rows of its selection, in order. */
  ghost predicate Covers(clock: Archive.Clock, table: Table, a: Archive.Archive, r: Range) {
    && SelectionOf(a.manifest) == Ok(r) && Archive.Sound(clock, a)
    && Archive.Objects(a.data) == LinesOf(Select(table, r))
  }

  /** `ranges` are the selections of the archives, position by position. */
  ghost predicate AllCover(clock: Archive.Clock, table: Table, archives: seq<Archive.Archive>, ranges: seq<Range>) {
    |archives| == |ranges| && forall i :: 0 <= i < |archives| ==> Covers(clock, table, archives[i], ranges[i])
  }

  lemma CoveredCount(clock: Archive.Clock, table: Table, a: Archive.Archive, r: Range)
    requires Covers(clock, table, a, r)
    ensures r.count == |Select(table, r)| && NonEmpty(r)
  {
  }

  /** Archive `i` is the first that is refused: for its selection, or because it is not the
      archive of the rows in it. */
  ghost predicate RefusedAt(clock: Archive.Clock, table: Table, archives: seq<Archive.Archive>, i: nat, e: Error) {
    && i < |archives| && (exists ranges :: AllCover(clock, table, archives[..i], ranges))
    && !(exists r :: Covers(clock, table, archives[i], r))
    && match SelectionOf(archives[i].manifest) case Err(error) => e == error case Ok(_) => e == ArchiveMismatch
  }

  method ReadSelections(clock: Archive.Clock, table: Table, archives: seq<Archive.Archive>)
    returns (r: Result<seq<Range>, Error>)
    ensures r.Ok? ==> AllCover(clock, table, archives, r.value)
    ensures r.Err? ==> forall rs :: !AllCover(clock, table, archives, rs)
    ensures r.Err? ==> exists i: nat :: RefusedAt(clock, table, archives, i, r.error)
    ensures r != Err(ReconciliationFailed) && r != Err(RangesOverlap) && r != Err(NoArchives)
  {
    var ranges: seq<Range> := [];
    for i := 0 to |archives|
      invariant AllCover(clock, table, archives[..i], ranges)
    {
      var a := archives[i];
      EachIsCovered(clock, table, archives, i);
      var selection := SelectionOf(a.manifest);
      if selection.Err? {
        assert RefusedAt(clock, table, archives, i, selection.error);
        return Err(selection.error);
      }
      var matched := Archive.MatchRecords(clock, a, LinesOf(Select(table, selection.value)));
      if matched.Err? {
        assert RefusedAt(clock, table, archives, i, ArchiveMismatch);
        return Err(ArchiveMismatch);
      }
      ranges := ranges + [selection.value];
      assert archives[..i + 1] == archives[..i] + [a];
    }
    assert archives[..|archives|] == archives;
    r := Ok(ranges);
  }

  method NeighboursOverlap(ranges: seq<Range>) returns (overlap: bool)
    ensures overlap <==> exists k :: 0 <= k < |ranges| - 1 && Overlap(ranges[k], ranges[k + 1])
  {
    var k := 0;
    while k + 1 < |ranges|
      invariant 0 <= k && forall j :: 0 <= j < k && j < |ranges| - 1 ==> !Overlap(ranges[j], ranges[j + 1])
    {
      if Overlap(ranges[k], ranges[k + 1]) { return true; }
      k := k + 1;
    }
    overlap := false;
  }

  /** Reads each archive, then sorts the ranges and compares neighbours. */
  method ValidateArchives(clock: Archive.Clock, table: Table, archives: seq<Archive.Archive>)
    returns (r: Result<seq<Range>, Error>, ghost unsorted: seq<Range>)
    ensures r.Ok? <==> exists ranges ::
              AllCover(clock, table, archives, ranges) && PairwiseDisjoint(Sort(RangeLe, ranges))
    ensures r.Ok? ==> AllCover(clock, table, archives, unsorted) && r.value == Sort(RangeLe, unsorted)
    ensures r.Ok? ==> PairwiseDisjoint(r.value)
    ensures r == Err(RangesOverlap) <==>
              exists ranges :: AllCover(clock, table, archives, ranges) && !PairwiseDisjoint(Sort(RangeLe, ranges))
    ensures r.Err? && r.error != RangesOverlap ==> exists i: nat :: RefusedAt(clock, table, archives, i, r.error)
    ensures r != Err(ReconciliationFailed) && r != Err(NoArchives)
  {
    r := ReadSelections(clock, table, archives);
    if r.Err? { return r, []; }
    unsorted := r.value;
    CoversAreUnique(clock, table, archives, unsorted);
    var ranges := Sort(RangeLe, r.value);
    SortedRanges(clock, table, archives, unsorted);
    NeighboursSuffice(ranges);
    var overlap := NeighboursOverlap(ranges);
    r := if overlap then Err(RangesOverlap) else Ok(ranges);
  }

  lemma EachIsCovered(clock: Archive.Clock, table: Table, archives: seq<Archive.Archive>, i: nat)
    requires i < |archives|
    ensures (exists rs :: AllCover(clock, table, archives, rs)) ==> exists r :: Covers(clock, table, archives[i], r)
  {
    if rs :| AllCover(clock, table, archives, rs) {
      assert Covers(clock, table, archives[i], rs[i]);
    }
  }

  lemma CoversAreUnique(clock: Archive.Clock, table: Table, archives: seq<Archive.Archive>, ranges: seq<Range>)
    requires AllCover(clock, table, archives, ranges)
    ensures forall rs :: AllCover(clock, table, archives, rs) ==> rs == ranges
  {
    forall rs | AllCover(clock, table, archives, rs) ensures rs == ranges {
      forall i | 0 <= i < |ranges| ensures rs[i] == ranges[i] {
        assert Covers(clock, table, archives[i], rs[i]) && Covers(clock, table, archives[i], ranges[i]);
      }
    }
  }

  lemma SortedRanges(clock: Archive.Clock, table: Table, archives: seq<Archive.Archive>, ranges: seq<Range>)
    requires AllCover(clock, table, archives, ranges)
    ensures var sorted := Sort(RangeLe, ranges);
            && Sorted(RangeLe, sorted) && multiset(sorted) == multiset(ranges)
            && forall k :: 0 <= k < |sorted| ==> NonEmpty(sorted[k]) && sorted[k].count == |Select(table, sorted[k])|
  {
    RangeOrder();
    SortPermutes(RangeLe, ranges);
    SortSorted(RangeLe, ranges);
    var sorted := Sort(RangeLe, ranges);
    forall k | 0 <= k < |sorted| ensures NonEmpty(sorted[k]) && sorted[k].count == |Select(table, sorted[k])| {
      assert sorted[k] in ranges;
      var i :| 0 <= i < |ranges| && ranges[i] == sorted[k];
      assert Covers(clock, table, archives[i], ranges[i]);
      CoveredCount(clock, table, archives[i], ranges[i]);
    }
  }

  // ----- building -----

  function CountSum(ranges: seq<Range>): int {
    if ranges == [] then 0 else ranges[0].count + CountSum(ranges[1..])
  }

  lemma {:induction false} CountsAddUp(table: Table, ranges: seq<Range>)
    requires forall k :: 0 <= k < |ranges| ==> ranges[k].count == |Select(table, ranges[k])|
    ensures CountSum(ranges) == |Archived(table, ranges)|
  {
    var select := (r: Range) => Select(table, r);
    if ranges != [] {
      CountsAddUp(table, ranges[1..]);
      assert Map(select, ranges)[0] == Select(table, ranges[0]);
      assert Map(select, ranges)[1..] == Map(select, ranges[1..]);
    }
  }

  /** `_copy_observations`: collects one exclusion per range, then copies what none of
      them matches. */
  method CopyObservations(table: Table, ranges: seq<Range>) returns (compact: Table)
    ensures compact == Remaining(table, ranges)
  {
    var exclusions: seq<Range> := [];
    for i := 0 to |ranges|
      invariant exclusions == ranges[..i]
    {
      exclusions := exclusions + [ranges[i]];
    }
    assert ranges[..|ranges|] == ranges;
    compact := [];
    for i := 0 to |table|
      invariant compact == Remaining(table[..i], ranges)
    {
      assert table[..i + 1][..i] == table[..i];
      if !exists r | r in exclusions :: InRange(table[i], r) { compact := compact + [table[i]]; }
    }
    assert table[..|table|] == table;
  }

  function ArchivedLines(archives: seq<Archive.Archive>): seq<seq<Archive.Record>> {
    Map((a: Archive.Archive) => Held(a), archives)
  }

  /** The records an archive holds. */
  function Held(a: Archive.Archive): seq<Archive.Record> {
    HeldLines(a.data)
  }

  function HeldLines(data: seq<Option<Archive.Record>>): seq<Archive.Record> {
    if data == [] then []
    else
      var last := data[|data| - 1];
      HeldLines(data[..|data| - 1]) + (if last.Some? then [last.value] else [])
  }

  lemma {:induction false} HeldObjects(data: seq<Option<Archive.Record>>)
    requires Archive.AllObjects(data)
    ensures HeldLines(data) == Archive.Objects(data)
  {
    if data != [] {
      HeldObjects(data[..|data| - 1]);
    }
  }

  /** The compact table and the archives together hold every observation of the source
      exactly as often as the source does. */
  ghost predicate Lossless(table: Table, compact: Table, archives: seq<Archive.Archive>) {
    multiset(LinesOf(table)) == multiset(LinesOf(compact)) + multiset(Flatten(ArchivedLines(archives)))
  }

  lemma LinesOfParts(table: Table, a: Table, b: Table)
    requires multiset(table) == multiset(a) + multiset(b)
    ensures multiset(LinesOf(table)) == multiset(LinesOf(a)) + multiset(LinesOf(b))
  {
    assert multiset(table) == multiset(a + b);
    MapPermutation((row: Row) => row.line, table, a + b);
    assert LinesOf(a + b) == LinesOf(a) + LinesOf(b);
  }

  lemma ArchivedHead(table: Table, ranges: seq<Range>)
    requires ranges != []
    ensures LinesOf(Archived(table, ranges))
         == LinesOf(Select(table, ranges[0])) + LinesOf(Archived(table, ranges[1..]))
  {
    var select := (r: Range) => Select(table, r);
    assert Map(select, ranges)[0] == Select(table, ranges[0]);
    assert Map(select, ranges)[1..] == Map(select, ranges[1..]);
    LinesOfConcat(Select(table, ranges[0]), Archived(table, ranges[1..]));
  }

  lemma LinesOfConcat(a: Table, b: Table)
    ensures LinesOf(a + b) == LinesOf(a) + LinesOf(b)
  {
  }

  lemma {:induction false} ArchivesHoldTheirRows(
    clock: Archive.Clock, table: Table, archives: seq<Archive.Archive>, ranges: seq<Range>)
    requires AllCover(clock, table, archives, ranges)
    ensures Flatten(ArchivedLines(archives)) == LinesOf(Archived(table, ranges))
  {
    if archives == [] {
      assert Map((r: Range) => Select(table, r), ranges) == [];
    } else {
      assert Covers(clock, table, archives[0], ranges[0]);
      HeldObjects(archives[0].data);
      forall i | 0 <= i < |archives| - 1 ensures Covers(clock, table, archives[1..][i], ranges[1..][i]) {
        assert Covers(clock, table, archives[i + 1], ranges[i + 1]);
      }
      ArchivesHoldTheirRows(clock, table, archives[1..], ranges[1..]);
      ArchivedHead(table, ranges);
      assert ArchivedLines(archives)[1..] == ArchivedLines(archives[1..]);
    }
  }

  lemma CompactionIsLossless(clock: Archive.Clock, table: Table, archives: seq<Archive.Archive>, unsorted: seq<Range>)
    requires AllCover(clock, table, archives, unsorted) && PairwiseDisjoint(Sort(RangeLe, unsorted))
    ensures var ranges := Sort(RangeLe, unsorted);
            && |Remaining(table, ranges)| + CountSum(ranges) == |table|
            && Lossless(table, Remaining(table, ranges), archives)
  {
    var ranges := Sort(RangeLe, unsorted);
    var select := (r: Range) => Select(table, r);
    SortedRanges(clock, table, archives, unsorted);
    Partition(table, ranges);
    CountsAddUp(table, ranges);
    assert |multiset(table)| == |multiset(Remaining(table, ranges))| + |multiset(Archived(table, ranges))|;
    MapPermutation(select, ranges, unsorted);
    FlattenPermutation(Map(select, ranges), Map(select, unsorted));
    LinesOfParts(table, Remaining(table, ranges), Archived(table, unsorted));
    ArchivesHoldTheirRows(clock, table, archives, unsorted);
  }

  datatype Report = Report(sourceObservations: nat, compactObservations: nat, archivedObservations: int)

  /** The row falls in the selection that one of the archives declares. */
  ghost predicate TakenBySome(archives: seq<Archive.Archive>, row: Row) {
    exists i :: 0 <= i < |archives| && TakenBy(archives[i].manifest, row)
  }

  ghost predicate TakenBy(m: Archive.Manifest, row: Row) {
    m.selection.Some? && FallsIn(row, m.source, m.selection.value.start, m.selection.value.endExclusive)
  }

  lemma TakenByExactly(clock: Archive.Clock, table: Table, a: Archive.Archive, r: Range, row: Row)
    requires Covers(clock, table, a, r)
    ensures TakenBy(a.manifest, row) <==> InRange(row, r)
  {
    InRangeExactly(row, r);
  }

  lemma SortKeepsElements(ranges: seq<Range>, r: Range)
    ensures r in Sort(RangeLe, ranges) <==> r in ranges
  {
    SortPermutes(RangeLe, ranges);
    assert r in multiset(Sort(RangeLe, ranges)) <==> r in multiset(ranges);
  }

  lemma TakenExactly(
    clock: Archive.Clock, table: Table, archives: seq<Archive.Archive>, unsorted: seq<Range>, row: Row)
    requires AllCover(clock, table, archives, unsorted)
    ensures TakenBySome(archives, row) <==> exists r :: r in Sort(RangeLe, unsorted) && InRange(row, r)
  {
    if TakenBySome(archives, row) {
      var i :| 0 <= i < |archives| && TakenBy(archives[i].manifest, row);
      TakenByExactly(clock, table, archives[i], unsorted[i], row);
      SortKeepsElements(unsorted, unsorted[i]);
    }
    if r :| r in Sort(RangeLe, unsorted) && InRange(row, r) {
      SortKeepsElements(unsorted, r);
      var i :| 0 <= i < |unsorted| && unsorted[i] == r;
      TakenByExactly(clock, table, archives[i], unsorted[i], row);
      assert TakenBy(archives[i].manifest, row);
    }
  }

  /** Once the archives are accepted the build succeeds: the reconciliation of the counts
      cannot fail, and nothing is lost or doubled. */
  method Build(clock: Archive.Clock, table: Table, archives: seq<Archive.Archive>)
    returns (r: Result<Report, Error>, compact: Table)
    ensures r.Ok? <==> archives != [] && exists ranges ::
              AllCover(clock, table, archives, ranges) && PairwiseDisjoint(Sort(RangeLe, ranges))
    ensures r == Err(NoArchives) <==> archives == []
    ensures r == Err(RangesOverlap) <==> archives != [] && exists ranges ::
              AllCover(clock, table, archives, ranges) && !PairwiseDisjoint(Sort(RangeLe, ranges))
    ensures r.Err? && r.error != NoArchives && r.error != RangesOverlap ==>
              exists i: nat :: RefusedAt(clock, table, archives, i, r.error)
    ensures r != Err(ReconciliationFailed)
    ensures r.Ok? ==> Lossless(table, compact, archives)
    ensures r.Ok? ==> r.value.compactObservations == |compact| && r.value.sourceObservations == |table|
                      && r.value.archivedObservations == |Flatten(ArchivedLines(archives))|
    ensures r.Ok? ==> forall row :: row in compact <==> row in table && !TakenBySome(archives, row)
  {
    compact := [];
    if archives == [] { return Err(NoArchives), []; }
    var ranges: Result<seq<Range>, Error>;
    ghost var unsorted: seq<Range>;
    ranges, unsorted := ValidateArchives(clock, table, archives);
    if ranges.Err? { return Err(ranges.error), []; }
    compact := CopyObservations(table, ranges.value);
    CompactionIsLossless(clock, table, archives, unsorted);
    RemainingInTable(table, ranges.value);
    forall row ensures TakenBySome(archives, row) <==> exists range :: range in ranges.value && InRange(row, range) {
      TakenExactly(clock, table, archives, unsorted, row);
    }
    var archived := CountSum(ranges.value);
    if |compact| + archived != |table| { return Err(ReconciliationFailed), []; }
    LosslessCounts(table, compact, archives);
    r := Ok(Report(|table|, |compact|, archived));
  }

  lemma LosslessCounts(table: Table, compact: Table, archives: seq<Archive.Archive>)
    requires Lossless(table, compact, archives)
    ensures |table| == |compact| + |Flatten(ArchivedLines(archives))|
  {
    assert |multiset(LinesOf(table))| == |multiset(LinesOf(compact))| + |multiset(Flatten(ArchivedLines(archives)))|;
  }

  lemma {:induction false} RemainingInTable(table: Table, ranges: seq<Range>)
    ensures forall row :: row in Remaining(table, ranges) <==>
              row in table && !exists r :: r in ranges && InRange(row, r)
  {
    if table != [] {
      RemainingInTable(table[..|table| - 1], ranges);
      assert table == table[..|table| - 1] + [table[|table| - 1]];
    }
  }

  /** Row by row: an observation is copied exactly when no range takes it, and never do
      two ranges take it. */
  lemma RowInExactlyOnePart(table: Table, ranges: seq<Range>, row: Row)
    requires PairwiseDisjoint(ranges) && row in table
    ensures row in Remaining(table, ranges) <==> !exists r :: r in ranges && InRange(row, r)
    ensures forall i, j :: 0 <= i < j < |ranges| ==> !(InRange(row, ranges[i]) && InRange(row, ranges[j]))
  {
    RemainingInTable(table, ranges);
    forall i, j | 0 <= i < j < |ranges| ensures !(InRange(row, ranges[i]) && InRange(row, ranges[j])) {
      DisjointRangesShareNoRow(ranges[i], ranges[j], row);
    }
  }
}
