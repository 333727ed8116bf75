/** Types and sequence facts shared by the models. */
module Common {

  datatype Option<+T> = None | Some(value: T)

  datatype Result<+T, +E> = Ok(value: T) | Err(error: E)

  /** One octet. */
  type byte = x: int | 0 <= x < 256

  /** The concatenation of `parts`, as Python's `b"".join(parts)`. */
  function Flatten<T>(parts: seq<seq<T>>): seq<T> {
    if parts == [] then [] else parts[0] + Flatten(parts[1..])
  }

  lemma {:induction false} FlattenConcat<T>(a: seq<seq<T>>, b: seq<seq<T>>)
    ensures Flatten(a + b) == Flatten(a) + Flatten(b)
  {
    if a == [] {
      assert a + b == b;
    } else {
      assert (a + b)[0] == a[0] && (a + b)[1..] == a[1..] + b;
      FlattenConcat(a[1..], b);
    }
  }

  lemma Regroup<T>(a: seq<T>, b: seq<T>, c: seq<T>)
    ensures a + b + c == a + (b + c)
  {
  }

  ghost predicate Distinct<T>(s: seq<T>) {
    forall i, j :: 0 <= i < j < |s| ==> s[i] != s[j]
  }

  ghost function ElementsOf<T>(s: seq<T>): set<T> {
    set x | x in s
  }

  /** A sequence without repetition has as many elements as its set. */
  lemma {:induction false} DistinctCardinality<T>(s: seq<T>)
    requires Distinct(s)
    ensures |ElementsOf(s)| == |s|
  {
    if s != [] {
      var rest := s[..|s| - 1];
      DistinctCardinality(rest);
      assert s == rest + [s[|s| - 1]];
      assert ElementsOf(s) == ElementsOf(rest) + {s[|s| - 1]};
      assert s[|s| - 1] !in ElementsOf(rest);
    }
  }

  lemma {:induction false} FewerElements<T>(s: seq<T>)
    ensures |ElementsOf(s)| <= |s|
  {
    if s != [] {
      FewerElements(s[1..]);
      assert s == [s[0]] + s[1..];
      assert ElementsOf(s) == {s[0]} + ElementsOf(s[1..]);
    }
  }

  /** With a repetition there are fewer different elements. */
  lemma {:induction false} RepetitionShrinks<T>(s: seq<T>)
    requires !Distinct(s)
    ensures |ElementsOf(s)| < |s|
  {
    var head, rest := s[0], s[1..];
    assert s == [head] + rest;
    assert ElementsOf(s) == {head} + ElementsOf(rest);
    FewerElements(rest);
    if head in rest {
      assert {head} + ElementsOf(rest) == ElementsOf(rest);
    } else {
      assert !Distinct(rest) by {
        var i, j :| 0 <= i < j < |s| && s[i] == s[j];
        assert i > 0 && rest[i - 1] == rest[j - 1];
      }
      RepetitionShrinks(rest);
    }
  }

  /** `set(range(lo, hi))`. */
  function Range(lo: int, hi: int): (r: set<int>)
    ensures forall slot :: slot in r <==> lo <= slot < hi
    ensures |r| == if lo < hi then hi - lo else 0
    decreases hi - lo
  {
    if hi <= lo then {} else Range(lo, hi - 1) + {hi - 1}
  }

  lemma SubsetCardinality<T>(a: set<T>, b: set<T>)
    requires a <= b
    ensures |a| <= |b|
  {
    assert b == a + (b - a);
    assert |a + (b - a)| == |a| + |b - a|;
  }

  function Map<T, U>(f: T -> U, s: seq<T>): (r: seq<U>) {
    seq(|s|, i requires 0 <= i < |s| => f(s[i]))
  }

  /** The first position of `x`, or the length. */
  function Find<T(==)>(s: seq<T>, x: T): (n: nat)
    ensures n <= |s| && (n < |s| ==> s[n] == x)
    ensures forall i :: 0 <= i < n ==> s[i] != x
  {
    if s == [] || s[0] == x then 0 else Find(s[1..], x) + 1
  }

  lemma FindIsFirst<T>(s: seq<T>, x: T, n: nat)
    requires n < |s| && s[n] == x && forall i :: 0 <= i < n ==> s[i] != x
    ensures Find(s, x) == n
  {
  }

  /** More elements in front of a successful result. */
  function Prepend<T, E>(xs: seq<T>, r: Result<seq<T>, E>): Result<seq<T>, E> {
    match r case Ok(rest) => Ok(xs + rest) case Err(e) => Err(e)
  }

  lemma PrependNothing<T, E>(r: Result<seq<T>, E>)
    ensures Prepend([], r) == r
  {
    if r.Ok? { assert [] + r.value == r.value; }
  }

  lemma PrependTwice<T, E>(xs: seq<T>, ys: seq<T>, r: Result<seq<T>, E>)
    ensures Prepend(xs, Prepend(ys, r)) == Prepend(xs + ys, r)
  {
    if r.Ok? { assert xs + (ys + r.value) == xs + ys + r.value; }
  }

  lemma RemoveOne<T>(s: seq<T>, j: nat)
    requires j < |s|
    ensures multiset(s) == multiset(s[..j] + s[j + 1..]) + multiset{s[j]}
  {
    assert s == s[..j] + [s[j]] + s[j + 1..];
  }

  lemma CancelOne<T>(a: multiset<T>, b: multiset<T>, x: T)
    requires a + multiset{x} == b + multiset{x}
    ensures a == b
  {
    assert a == (a + multiset{x}) - multiset{x};
    assert b == (b + multiset{x}) - multiset{x};
  }

  /** The first element of one permutation, found in the other. */
  lemma MatchFirst<T>(a: seq<T>, b: seq<T>) returns (j: nat)
    requires multiset(a) == multiset(b) && a != []
    ensures j < |b| && b[j] == a[0] && multiset(a[1..]) == multiset(b[..j] + b[j + 1..])
  {
    assert a[0] in multiset(b);
    j :| 0 <= j < |b| && b[j] == a[0];
    RemoveOne(a, 0);
    RemoveOne(b, j);
    assert a[..0] + a[1..] == a[1..];
    CancelOne(multiset(a[1..]), multiset(b[..j] + b[j + 1..]), a[0]);
  }

  lemma MapRemoveOne<T, U>(f: T -> U, s: seq<T>, j: nat)
    requires j < |s|
    ensures multiset(Map(f, s)) == multiset(Map(f, s[..j] + s[j + 1..])) + multiset{f(s[j])}
  {
    RemoveOne(Map(f, s), j);
    assert Map(f, s)[..j] + Map(f, s)[j + 1..] == Map(f, s[..j] + s[j + 1..]);
  }

  lemma {:induction false} MapPermutation<T, U>(f: T -> U, a: seq<T>, b: seq<T>)
    requires multiset(a) == multiset(b)
    ensures multiset(Map(f, a)) == multiset(Map(f, b))
  {
    if a == [] {
      assert |multiset(b)| == 0;
    } else {
      var j := MatchFirst(a, b);
      MapPermutation(f, a[1..], b[..j] + b[j + 1..]);
      assert a[..0] + a[1..] == a[1..];
      MapRemoveOne(f, a, 0);
      MapRemoveOne(f, b, j);
    }
  }

  lemma {:induction false} FlattenSnoc<T>(parts: seq<seq<T>>, last: seq<T>)
    ensures Flatten(parts + [last]) == Flatten(parts) + last
  {
    if parts == [] {
      assert parts + [last] == [last] && [last][1..] == [];
      assert Flatten([last]) == last + [];
    } else {
      assert (parts + [last])[0] == parts[0] && (parts + [last])[1..] == parts[1..] + [last];
      FlattenSnoc(parts[1..], last);
      assert parts[0] + (Flatten(parts[1..]) + last) == parts[0] + Flatten(parts[1..]) + last;
    }
  }

  lemma {:induction false} FlattenRemoveOne<T>(parts: seq<seq<T>>, j: nat)
    requires j < |parts|
    ensures multiset(Flatten(parts)) == multiset(Flatten(parts[..j] + parts[j + 1..])) + multiset(parts[j])
  {
    if j == 0 {
      assert parts[..0] + parts[1..] == parts[1..];
    } else {
      var rest := parts[..j] + parts[j + 1..];
      FlattenRemoveOne(parts[1..], j - 1);
      assert rest[0] == parts[0] && rest[1..] == parts[1..][..j - 1] + parts[1..][j..];
    }
  }

  lemma {:induction false} FlattenPermutation<T>(a: seq<seq<T>>, b: seq<seq<T>>)
    requires multiset(a) == multiset(b)
    ensures multiset(Flatten(a)) == multiset(Flatten(b))
  {
    if a == [] {
      assert |multiset(b)| == 0;
    } else {
      var j := MatchFirst(a, b);
      FlattenPermutation(a[1..], b[..j] + b[j + 1..]);
      FlattenRemoveOne(b, j);
    }
  }

  // ----- text in code-point order -----

  predicate TextLess(a: string, b: string) {
    b != [] && (a == [] || a[0] < b[0] || (a[0] == b[0] && TextLess(a[1..], b[1..])))
  }

  predicate TextLe(a: string, b: string) { a == b || TextLess(a, b) }

  /** `a` and `b` agree up to position `i`, where `a` ends or has the smaller character. */
  ghost predicate DiffersAt(a: string, b: string, i: nat) {
    && i <= |a| && i < |b| && (forall k :: 0 <= k < i ==> a[k] == b[k])
    && (i < |a| ==> a[i] < b[i])
  }

  /** The order is that of the first difference. */
  lemma {:induction false} TextLessExactly(a: string, b: string)
    ensures TextLess(a, b) <==> exists i: nat :: DiffersAt(a, b, i)
  {
    if TextLess(a, b) {
      var i := FirstDifference(a, b);
    } else {
      forall i: nat ensures !DiffersAt(a, b, i) {
        NoDifference(a, b, i);
      }
    }
  }

  lemma {:induction false} FirstDifference(a: string, b: string) returns (i: nat)
    requires TextLess(a, b)
    ensures DiffersAt(a, b, i)
  {
    i := 0;
    if a != [] && a[0] == b[0] {
      var j := FirstDifference(a[1..], b[1..]);
      i := j + 1;
      assert forall k :: 0 < k < i ==> a[k] == a[1..][k - 1] && b[k] == b[1..][k - 1];
    }
  }

  lemma {:induction false} NoDifference(a: string, b: string, i: nat)
    requires !TextLess(a, b)
    ensures !DiffersAt(a, b, i)
    decreases i
  {
    if i > 0 && a != [] && b != [] && a[0] == b[0] {
      NoDifference(a[1..], b[1..], i - 1);
      assert DiffersAt(a, b, i) ==> DiffersAt(a[1..], b[1..], i - 1);
    }
  }

  lemma {:induction false} TextLessTransitive(a: string, b: string, c: string)
    requires TextLess(a, b) && TextLess(b, c)
    ensures TextLess(a, c)
  {
    if a != [] && a[0] == b[0] == c[0] { TextLessTransitive(a[1..], b[1..], c[1..]); }
  }

  lemma {:induction false} TextLessTotal(a: string, b: string)
    ensures TextLess(a, b) || TextLess(b, a) || a == b
    ensures !(TextLess(a, b) && TextLess(b, a)) && !TextLess(a, a)
    decreases |a|
  {
    if a != [] {
      TextLessTotal(a[1..], a[1..]);
      if b != [] {
        TextLessTotal(a[1..], b[1..]);
        assert a == [a[0]] + a[1..] && b == [b[0]] + b[1..];
      }
    }
  }

  // ----- stable sorting, as Python's `sorted` -----

  ghost predicate TotalPreorder<T(!new)>(le: (T, T) -> bool) {
    && (forall x, y :: le(x, y) || le(y, x))
    && (forall x, y, z :: le(x, y) && le(y, z) ==> le(x, z))
  }

  ghost predicate Sorted<T>(le: (T, T) -> bool, s: seq<T>) {
    forall i, j :: 0 <= i < j < |s| ==> le(s[i], s[j])
  }

  function Insert<T>(le: (T, T) -> bool, x: T, s: seq<T>): seq<T> {
    if s == [] || le(x, s[0]) then [x] + s else [s[0]] + Insert(le, x, s[1..])
  }

  function Sort<T>(le: (T, T) -> bool, s: seq<T>): seq<T> {
    if s == [] then [] else Insert(le, s[0], Sort(le, s[1..]))
  }

  lemma {:induction false} InsertPermutes<T>(le: (T, T) -> bool, x: T, s: seq<T>)
    ensures multiset(Insert(le, x, s)) == multiset([x] + s)
  {
    if s != [] && !le(x, s[0]) {
      InsertPermutes(le, x, s[1..]);
      assert s == [s[0]] + s[1..];
    }
  }

  lemma {:induction false} SortPermutes<T>(le: (T, T) -> bool, s: seq<T>)
    ensures multiset(Sort(le, s)) == multiset(s)
    ensures |Sort(le, s)| == |s|
    ensures forall x :: x in Sort(le, s) <==> x in s
  {
    if s != [] {
      SortPermutes(le, s[1..]);
      InsertPermutes(le, s[0], Sort(le, s[1..]));
      assert s == [s[0]] + s[1..];
    }
    assert |multiset(Sort(le, s))| == |multiset(s)|;
    forall x ensures x in Sort(le, s) <==> x in s {
      assert x in multiset(Sort(le, s)) <==> x in multiset(s);
    }
  }

  lemma InsertStaysAbove<T(!new)>(le: (T, T) -> bool, low: T, x: T, s: seq<T>)
    requires le(low, x) && forall y :: y in s ==> le(low, y)
    ensures forall y :: y in Insert(le, x, s) ==> le(low, y)
  {
    InsertPermutes(le, x, s);
    forall y | y in Insert(le, x, s) ensures le(low, y) {
      assert y in multiset([x] + s);
    }
  }

  lemma {:induction false} InsertSorted<T(!new)>(le: (T, T) -> bool, x: T, s: seq<T>)
    requires TotalPreorder(le) && Sorted(le, s)
    ensures Sorted(le, Insert(le, x, s))
  {
    if s == [] {
    } else if le(x, s[0]) {
      forall j | 0 <= j < |s| ensures le(x, s[j]) {
        if j > 0 { assert le(s[0], s[j]); }
      }
    } else {
      InsertSorted(le, x, s[1..]);
      InsertStaysAbove(le, s[0], x, s[1..]);
    }
  }

  lemma {:induction false} SortSorted<T(!new)>(le: (T, T) -> bool, s: seq<T>)
    requires TotalPreorder(le)
    ensures Sorted(le, Sort(le, s))
  {
    if s != [] {
      SortSorted(le, s[1..]);
      InsertSorted(le, s[0], Sort(le, s[1..]));
    }
  }

  // ----- selecting -----

  function Filter<T>(p: T -> bool, s: seq<T>): seq<T> {
    if s == [] then [] else (if p(s[0]) then [s[0]] else []) + Filter(p, s[1..])
  }

  lemma {:induction false} FilterFacts<T(!new)>(p: T -> bool, s: seq<T>)
    ensures forall x :: x in Filter(p, s) <==> x in s && p(x)
    ensures |Filter(p, s)| <= |s|
    ensures |Filter(p, s)| == |s| <==> forall x :: x in s ==> p(x)
  {
    if s != [] {
      FilterFacts(p, s[1..]);
      assert s == [s[0]] + s[1..];
      assert forall x :: x in s <==> x == s[0] || x in s[1..];
    }
  }

  lemma {:induction false} FilterKeepsOrder<T(!new)>(le: (T, T) -> bool, p: T -> bool, s: seq<T>)
    requires Sorted(le, s)
    ensures Sorted(le, Filter(p, s))
    ensures s != [] && p(s[|s| - 1]) ==> Filter(p, s) != [] && Filter(p, s)[|Filter(p, s)| - 1] == s[|s| - 1]
  {
    if s != [] {
      FilterKeepsOrder(le, p, s[1..]);
      FilterFacts(p, s[1..]);
      var rest := Filter(p, s[1..]);
      forall j | 0 <= j < |rest| ensures le(s[0], rest[j]) {
        assert rest[j] in s[1..];
      }
    }
  }

  lemma FilterHead<T>(p: T -> bool, x: T, rest: seq<T>)
    ensures Filter(p, [x] + rest) == (if p(x) then [x] else []) + Filter(p, rest)
  {
    assert ([x] + rest)[1..] == rest;
  }

  lemma {:induction false} FilterSnoc<T>(p: T -> bool, s: seq<T>, x: T)
    ensures Filter(p, s + [x]) == Filter(p, s) + (if p(x) then [x] else [])
  {
    if s == [] {
      FilterHead(p, x, []);
      assert s + [x] == [x] + [];
    } else {
      FilterHead(p, s[0], s[1..] + [x]);
      FilterSnoc(p, s[1..], x);
      assert s + [x] == [s[0]] + (s[1..] + [x]);
    }
  }

  lemma {:induction false} FilterTwice<T>(p: T -> bool, q: T -> bool, s: seq<T>)
    requires forall x :: p(x) ==> q(x)
    ensures Filter(p, Filter(q, s)) == Filter(p, s)
  {
    if s != [] {
      FilterTwice(p, q, s[1..]);
      if q(s[0]) {
        FilterHead(p, s[0], Filter(q, s[1..]));
      } else {
        assert [] + Filter(q, s[1..]) == Filter(q, s[1..]) && [] + Filter(p, s[1..]) == Filter(p, s[1..]);
      }
    }
  }

  /** Where the last selected element stands. */
  lemma {:induction false} LastOfFilter<T>(p: T -> bool, s: seq<T>) returns (k: nat)
    requires Filter(p, s) != []
    ensures k < |s| && p(s[k]) && s[k] == Filter(p, s)[|Filter(p, s)| - 1]
    ensures forall j :: k < j < |s| ==> !p(s[j])
  {
    var front, last := s[..|s| - 1], s[|s| - 1];
    assert s == front + [last];
    FilterSnoc(p, front, last);
    if p(last) { k := |s| - 1; } else { k := LastOfFilter(p, front); }
  }

  lemma {:induction false} InsertIsStable<T>(le: (T, T) -> bool, p: T -> bool, x: T, s: seq<T>)
    requires forall a, b :: p(a) && p(b) ==> le(a, b)
    ensures Filter(p, Insert(le, x, s)) == Filter(p, [x] + s)
  {
    if s != [] && !le(x, s[0]) {
      var head, rest := s[0], s[1..];
      InsertIsStable(le, p, x, rest);
      SwapHeads(p, head, x, rest);
      FilterHead(p, head, Insert(le, x, rest));
      FilterHead(p, head, [x] + rest);
      assert s == [head] + rest;
    }
  }

  /** Two elements that are not both selected may change places. */
  lemma SwapHeads<T>(p: T -> bool, a: T, b: T, rest: seq<T>)
    requires !(p(a) && p(b))
    ensures Filter(p, [a] + ([b] + rest)) == Filter(p, [b] + ([a] + rest))
  {
    FilterHead(p, a, [b] + rest);
    FilterHead(p, b, rest);
    FilterHead(p, b, [a] + rest);
    FilterHead(p, a, rest);
  }

  /** Sorting keeps the order of elements that it need not put in order. */
  lemma {:induction false} SortIsStable<T>(le: (T, T) -> bool, p: T -> bool, s: seq<T>)
    requires forall a, b :: p(a) && p(b) ==> le(a, b)
    ensures Filter(p, Sort(le, s)) == Filter(p, s)
  {
    if s != [] {
      SortIsStable(le, p, s[1..]);
      InsertIsStable(le, p, s[0], Sort(le, s[1..]));
      FilterHead(p, s[0], Sort(le, s[1..]));
    }
  }

  // ----- big-endian integers -----

  function U16(n: int): (r: seq<byte>)
    requires 0 <= n < 0x1_0000
    ensures |r| == 2
  {
    [n / 256, n % 256]
  }

  function FromU16(r: seq<byte>): (n: int)
    requires |r| == 2
    ensures 0 <= n < 0x1_0000
  {
    (r[0] as int) * 256 + r[1]
  }

  /** The more significant byte comes first. */
  lemma U16BigEndian(n: int)
    requires 0 <= n < 0x1_0000
    ensures n == (U16(n)[0] as int) * 256 + U16(n)[1]
  {
  }

  lemma U16RoundTrip(n: int)
    requires 0 <= n < 0x1_0000
    ensures FromU16(U16(n)) == n
  {
  }

  lemma U16Reprint(r: seq<byte>)
    requires |r| == 2
    ensures U16(FromU16(r)) == r
  {
  }

  function U32(n: int): (r: seq<byte>)
    requires 0 <= n < 0x1_0000_0000
    ensures |r| == 4
  {
    U16(n / 0x1_0000) + U16(n % 0x1_0000)
  }

  function FromU32(r: seq<byte>): (n: int)
    requires |r| == 4
    ensures 0 <= n < 0x1_0000_0000
  {
    FromU16(r[..2]) * 0x1_0000 + FromU16(r[2..])
  }

  lemma U32BigEndian(n: int)
    requires 0 <= n < 0x1_0000_0000
    ensures var r := U32(n);
            n == (r[0] as int) * 0x100_0000 + (r[1] as int) * 0x1_0000 + (r[2] as int) * 0x100 + r[3]
  {
    U16BigEndian(n / 0x1_0000);
    U16BigEndian(n % 0x1_0000);
  }

  lemma U32RoundTrip(n: int)
    requires 0 <= n < 0x1_0000_0000
    ensures FromU32(U32(n)) == n
  {
    assert U32(n)[..2] == U16(n / 0x1_0000) && U32(n)[2..] == U16(n % 0x1_0000);
  }

  lemma U32Reprint(r: seq<byte>)
    requires |r| == 4
    ensures U32(FromU32(r)) == r
  {
    var hi, lo := FromU16(r[..2]), FromU16(r[2..]);
    assert (hi * 0x1_0000 + lo) / 0x1_0000 == hi && (hi * 0x1_0000 + lo) % 0x1_0000 == lo;
    U16Reprint(r[..2]);
    U16Reprint(r[2..]);
    assert r == r[..2] + r[2..];
  }
}
