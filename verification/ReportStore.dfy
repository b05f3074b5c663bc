/** Report IDs and the pruning of old reports. */
module ReportStore {
  import opened Numbers

  const TWO_23: int := 0x80_0000
  const TWO_32: int := 0x1_0000_0000

  // ----------------------------------------------------------------- report IDs

  /** The broken-down UTC time of a launch; years count from 1900 and the sixty-first
      second of a minute is a leap second. */
  datatype Time = Time(year: nat, yday: nat, hour: nat, min: nat, sec: nat)

  predicate ValidTime(t: Time) {
    t.year < 30000 && t.yday < 366 && t.hour < 24 && t.min < 60 && t.sec <= 60
  }

  predicate Earlier(a: Time, b: Time) {
    || a.year < b.year
    || (a.year == b.year && (a.yday < b.yday
    || (a.yday == b.yday && (a.hour < b.hour
    || (a.hour == b.hour && (a.min < b.min
    || (a.min == b.min && a.sec < b.sec)))))))
  }

  function BaseID(t: Time): int {
    t.sec + t.min * 61 + t.hour * (61 * 60) + t.yday * (61 * 60 * 24) + t.year * (61 * 60 * 24 * 366)
  }

  /** The base ID orders launches exactly as their times. */
  lemma BaseOrdersTimes(a: Time, b: Time)
    requires ValidTime(a) && ValidTime(b)
    ensures BaseID(a) < BaseID(b) <==> Earlier(a, b)
    ensures BaseID(a) == BaseID(b) <==> a == b
  {
    var dayA, dayB := a.yday + 366 * a.year, b.yday + 366 * b.year;
    assert dayA < dayB <==> a.year < b.year || (a.year == b.year && a.yday < b.yday);
    var hourA, hourB := a.hour + 24 * dayA, b.hour + 24 * dayB;
    assert hourA < hourB <==> dayA < dayB || (dayA == dayB && a.hour < b.hour);
    var minA, minB := a.min + 60 * hourA, b.min + 60 * hourB;
    assert minA < minB <==> hourA < hourB || (hourA == hourB && a.min < b.min);
    assert BaseID(a) == a.sec + 61 * minA && BaseID(b) == b.sec + 61 * minB;
    hide BaseID;
  }

  /** The two counters; the lower one is an unsigned 32-bit integer. */
  datatype Counters = Counters(high: int, low: int)

  function Initialized(t: Time): Counters {
    var base := BaseID(t) * TWO_23;
    Counters(base / TWO_32 * TWO_32, base % TWO_32)
  }

  /** g_nextUniqueIDLow++, which wraps around. */
  function Bumped(c: Counters): Counters {
    c.(low := (c.low + 1) % TWO_32)
  }

  function NextID(c: Counters): int {
    c.high + c.low
  }

  function After(c: Counters, k: nat): Counters {
    if k == 0 then c else Bumped(After(c, k - 1))
  }

  /** The ID handed out after k others. */
  function Id(t: Time, k: nat): int {
    NextID(After(Initialized(t), k))
  }

  lemma {:induction false} AfterWraps(c: Counters, k: nat)
    requires 0 <= c.low < TWO_32
    ensures After(c, k) == c.(low := (c.low + k) % TWO_32)
    decreases k
  {
    if k > 0 {
      AfterWraps(c, k - 1);
    }
  }

  lemma ShiftedBase(t: Time)
    requires ValidTime(t)
    ensures var c := Initialized(t);
            && c.low == BaseID(t) % 512 * TWO_23 && 0 <= c.low <= TWO_32 - TWO_23
            && c.high + c.low == BaseID(t) * TWO_23 && 0 <= BaseID(t) < 0x100_0000_0000
  {
    var b := BaseID(t);
    assert 0 <= b < 0x100_0000_0000;
    var q, r := b / 512, b % 512;
    assert b * TWO_23 == q * TWO_32 + r * TWO_23;
    assert b * TWO_23 / TWO_32 == q && b * TWO_23 % TWO_32 == r * TWO_23;
  }

  /** No ID is affected by the 32-bit wrap exactly while the lower counter has not come
      around, which is never before the 2^23rd ID. */
  lemma WrapBound(t: Time, k: nat)
    requires ValidTime(t) && k < TWO_32
    ensures Id(t, k) == BaseID(t) * TWO_23 + k <==> k < TWO_32 - Initialized(t).low
    ensures TWO_32 - Initialized(t).low >= TWO_23
  {
    ShiftedBase(t);
    AfterWraps(Initialized(t), k);
  }

  /** IDs order reports as they came about, by launch and then by position, as long as
      a launch hands out at most 2^23 of them; in particular they increase strictly
      within a launch and lie below those of every later second. */
  lemma IdsOrderReports(a: Time, j: nat, b: Time, k: nat)
    requires ValidTime(a) && ValidTime(b) && j < TWO_23 && k < TWO_23
    ensures Id(a, j) < Id(b, k) <==> Earlier(a, b) || (a == b && j < k)
    ensures 0 <= Id(a, j) < 0x8000_0000_0000_0000
  {
    hide BaseID, Earlier, Initialized;
    BaseOrdersTimes(a, b);
    WrapBound(a, j);
    WrapBound(b, k);
    ShiftedBase(a);
    assert BaseID(a) < BaseID(b) ==> BaseID(a) * TWO_23 + TWO_23 <= BaseID(b) * TWO_23;
    assert BaseID(b) < BaseID(a) ==> BaseID(b) * TWO_23 + TWO_23 <= BaseID(a) * TWO_23;
  }

  /** After a launch at a time whose base is 511 modulo 512, and after no other, the ID
      behind 2^23 others comes out below the first. */
  lemma WrapTimes(t: Time)
    requires ValidTime(t)
    ensures Id(t, TWO_23) < Id(t, 0) <==> BaseID(t) % 512 == 511
  {
    hide BaseID, Initialized, After;
    ShiftedBase(t);
    var c := Initialized(t);
    AfterWraps(c, TWO_23);
    AfterWraps(c, 0);
    WrappedLow(BaseID(t) % 512);
  }

  lemma WrappedLow(r: nat)
    requires r < 512
    ensures (r * TWO_23 + TWO_23) % TWO_32 == if r == 511 then 0 else r * TWO_23 + TWO_23
    ensures (r * TWO_23 + 0) % TWO_32 == r * TWO_23
  {
  }

  /** So the bound is exact: there is such a time. */
  lemma WrapWitness()
    ensures var t := Time(0, 0, 0, 8, 23); ValidTime(t) && Id(t, TWO_23) < Id(t, 0)
  {
    hide Id;
    var t := Time(0, 0, 0, 8, 23);
    assert BaseID(t) == 511;
    WrapTimes(t);
  }

  class Ids {
    var high: int
    var low: int

    ghost function Model(): Counters
      reads this
    {
      Counters(high, low)
    }

    /** initializeIDs. */
    constructor (time: Time)
      requires ValidTime(time)
      ensures Model() == Initialized(time)
    {
      var baseID := time.sec + time.min * 61 + time.hour * (61 * 60) + time.yday * (61 * 60 * 24)
                    + time.year * (61 * 60 * 24 * 366);
      baseID := baseID * TWO_23;
      high := baseID - baseID % TWO_32;
      low := baseID % TWO_32;
      new;
      assert baseID == baseID / TWO_32 * TWO_32 + baseID % TWO_32;
    }

    method GetNextUniqueID() returns (id: int)
      modifies this
      ensures id == NextID(old(Model())) && Model() == Bumped(old(Model()))
    {
      id := high + low;
      low := (low + 1) % TWO_32;
    }
  }

  // -------------------------------------------------------------------- sorting

  function Insert(x: int, s: seq<int>): seq<int> {
    if s == [] || x <= s[0] then [x] + s else [s[0]] + Insert(x, s[1..])
  }

  /** qsort with compareInt64, which is the order of the integers for positive IDs. */
  function Sorted(s: seq<int>): seq<int> {
    if s == [] then [] else Insert(s[0], Sorted(s[1..]))
  }

  ghost predicate Ascending(s: seq<int>) {
    forall i, j :: 0 <= i < j < |s| ==> s[i] <= s[j]
  }

  lemma {:induction false} InsertCounts(x: int, s: seq<int>)
    ensures multiset(Insert(x, s)) == multiset{x} + multiset(s)
    decreases |s|
  {
    if s != [] && x > s[0] {
      InsertCounts(x, s[1..]);
      assert s == [s[0]] + s[1..];
    }
  }

  lemma {:induction false} InsertAscending(x: int, s: seq<int>)
    requires Ascending(s)
    ensures Ascending(Insert(x, s)) && Insert(x, s)[0] == if s == [] || x <= s[0] then x else s[0]
    decreases |s|
  {
    if s != [] && x > s[0] {
      InsertAscending(x, s[1..]);
      var rest := Insert(x, s[1..]);
      assert rest[0] >= s[0];
    }
  }

  lemma {:induction false} SortedSorts(s: seq<int>)
    ensures Ascending(Sorted(s)) && multiset(Sorted(s)) == multiset(s) && |Sorted(s)| == |s|
    decreases |s|
  {
    if s != [] {
      SortedSorts(s[1..]);
      InsertCounts(s[0], Sorted(s[1..]));
      InsertAscending(s[0], Sorted(s[1..]));
      assert s == [s[0]] + s[1..];
      assert |multiset(Sorted(s))| == |multiset(s)|;
    }
  }

  // -------------------------------------------------------------------- pruning

  /** The report IDs among the files of the directory, in directory order. */
  function Reports(files: seq<int>): (ids: seq<int>)
    ensures forall i :: 0 <= i < |ids| ==> ids[i] > 0
    ensures forall x :: x in ids <==> x in files && x > 0
    ensures |ids| <= |files|
  {
    if files == [] then []
    else
      var n := |files| - 1;
      assert files == files[..n] + [files[n]];
      Reports(files[..n]) + if files[n] > 0 then [files[n]] else []
  }

  /** How many of the files are reports newer than x. */
  function Newer(files: seq<int>, x: int): nat {
    if files == [] then 0
    else Newer(files[..|files| - 1], x) + if files[|files| - 1] > 0 && files[|files| - 1] > x then 1 else 0
  }

  /** The newest reports, and everything that is no report. */
  predicate Survives(files: seq<int>, maxCount: nat, x: int) {
    x <= 0 || Newer(files, x) < maxCount
  }

  ghost predicate Distinct(s: seq<int>) {
    forall i, j :: 0 <= i < j < |s| ==> s[i] != s[j]
  }

  /** The files without those of the given IDs, in the same order. */
  function Except(files: seq<int>, gone: set<int>): seq<int> {
    if files == [] then []
    else Except(files[..|files| - 1], gone) + if files[|files| - 1] in gone then [] else [files[|files| - 1]]
  }

  lemma {:induction false} ExceptTwice(files: seq<int>, a: set<int>, b: set<int>)
    ensures Except(Except(files, a), b) == Except(files, a + b)
    decreases |files|
  {
    if files != [] {
      var n := |files| - 1;
      ExceptTwice(files[..n], a, b);
      var kept := Except(files[..n], a);
      if files[n] in a {
        assert Except(files, a) == kept;
      } else {
        assert (kept + [files[n]])[..|kept|] == kept;
      }
    }
  }

  lemma {:induction false} ExceptNone(files: seq<int>)
    ensures Except(files, {}) == files
    decreases |files|
  {
    if files != [] {
      ExceptNone(files[..|files| - 1]);
    }
  }

  lemma {:induction false} ExceptSame(files: seq<int>, all: seq<int>, a: set<int>, b: set<int>)
    requires files <= all && forall i :: 0 <= i < |all| ==> (all[i] in a <==> all[i] in b)
    ensures Except(files, a) == Except(files, b)
    decreases |files|
  {
    if files != [] {
      var n := |files| - 1;
      assert files[n] == all[n];
      ExceptSame(files[..n], all, a, b);
    }
  }

  /** The reports that do not survive. */
  function Outdated(files: seq<int>, maxCount: nat): set<int> {
    set x | x in files && !Survives(files, maxCount, x)
  }

  /** How many elements of s exceed x. */
  function Above(s: seq<int>, x: int): nat {
    if s == [] then 0 else (if s[0] > x then 1 else 0) + Above(s[1..], x)
  }

  lemma {:induction false} AboveAppend(s: seq<int>, y: int, x: int)
    ensures Above(s + [y], x) == Above(s, x) + if y > x then 1 else 0
    decreases |s|
  {
    if s == [] {
      assert s + [y] == [y];
    } else {
      assert (s + [y])[1..] == s[1..] + [y];
      AboveAppend(s[1..], y, x);
    }
  }

  lemma {:induction false} NewerIsAbove(files: seq<int>, x: int)
    requires x > 0
    ensures Newer(files, x) == Above(Reports(files), x)
    decreases |files|
  {
    if files != [] {
      var n := |files| - 1;
      NewerIsAbove(files[..n], x);
      AboveAppend(Reports(files[..n]), files[n], x);
      assert Reports(files[..n]) + [] == Reports(files[..n]);
    }
  }

  lemma {:induction false} AboveInsert(y: int, s: seq<int>, x: int)
    ensures Above(Insert(y, s), x) == Above(s, x) + if y > x then 1 else 0
    decreases |s|
  {
    if s == [] || y <= s[0] {
      assert ([y] + s)[1..] == s;
    } else {
      assert ([s[0]] + Insert(y, s[1..]))[1..] == Insert(y, s[1..]);
      AboveInsert(y, s[1..], x);
    }
  }

  lemma {:induction false} AboveSorted(s: seq<int>, x: int)
    ensures Above(Sorted(s), x) == Above(s, x)
    decreases |s|
  {
    if s != [] {
      AboveSorted(s[1..], x);
      AboveInsert(s[0], Sorted(s[1..]), x);
    }
  }

  /** In an ascending list without repetitions the position tells how many are above. */
  lemma {:induction false} AboveAt(s: seq<int>, i: nat)
    requires Ascending(s) && Distinct(s) && i < |s|
    ensures Above(s, s[i]) == |s| - 1 - i
    decreases |s|
  {
    if i == 0 {
      AllAbove(s[1..], s[0]);
    } else {
      AboveAt(s[1..], i - 1);
    }
  }

  lemma {:induction false} AllAbove(s: seq<int>, x: int)
    requires forall j :: 0 <= j < |s| ==> s[j] > x
    ensures Above(s, x) == |s|
    decreases |s|
  {
    if s != [] {
      AllAbove(s[1..], x);
    }
  }

  lemma {:induction false} ReportsDistinct(files: seq<int>)
    requires Distinct(files)
    ensures Distinct(Reports(files))
    decreases |files|
  {
    if files != [] {
      var n := |files| - 1;
      var init := files[..n];
      ReportsDistinct(init);
      assert files[n] !in init;
      assert files[n] !in Reports(init);
      assert Reports(init) + [] == Reports(init);
    }
  }

  lemma {:induction false} DistinctCounts(s: seq<int>)
    ensures Distinct(s) <==> forall x :: multiset(s)[x] <= 1
    decreases |s|
  {
    if s != [] {
      var n := |s| - 1;
      var init := s[..n];
      assert s == init + [s[n]];
      DistinctCounts(init);
      if Distinct(s) {
        assert s[n] !in init;
      } else if Distinct(init) {
        var i, j :| 0 <= i < j < |s| && s[i] == s[j];
        assert j == n && init[i] == s[n];
        assert multiset(s)[s[n]] >= 2;
      } else {
        var x :| multiset(init)[x] > 1;
        assert multiset(s)[x] > 1;
      }
    }
  }

  lemma SortedDistinct(files: seq<int>)
    requires Distinct(files)
    ensures var sorted := Sorted(Reports(files));
            && Ascending(sorted) && Distinct(sorted) && |sorted| == |Reports(files)|
            && forall x :: x in sorted <==> x in Reports(files)
  {
    var ids := Reports(files);
    SortedSorts(ids);
    ReportsDistinct(files);
    DistinctCounts(ids);
    DistinctCounts(Sorted(ids));
    assert forall x :: x in Sorted(ids) <==> x in multiset(Sorted(ids));
    assert forall x :: x in ids <==> x in multiset(ids);
  }

  /** A report's place among the sorted IDs tells how many reports are newer. */
  lemma PlaceTellsNewer(files: seq<int>, i: nat)
    requires Distinct(files) && i < |Sorted(Reports(files))| && Sorted(Reports(files))[i] > 0
    ensures Newer(files, Sorted(Reports(files))[i]) == |Sorted(Reports(files))| - 1 - i
  {
    SortedDistinct(files);
    var sorted := Sorted(Reports(files));
    hide Sorted, Reports, Above, Newer;
    AboveAt(sorted, i);
    AboveSorted(Reports(files), sorted[i]);
    NewerIsAbove(files, sorted[i]);
  }

  /** The IDs that pruning deletes are those of the reports that do not survive. */
  lemma OldestAreOutdated(files: seq<int>, maxCount: nat, x: int)
    requires Distinct(files) && maxCount < |Reports(files)| && x in files
    ensures |Sorted(Reports(files))| == |Reports(files)|
    ensures x in Sorted(Reports(files))[..|Reports(files)| - maxCount] <==> !Survives(files, maxCount, x)
  {
    SortedDistinct(files);
    hide Sorted, Reports, Newer, Ascending, Distinct;
    var sorted := Sorted(Reports(files));
    var n := |Reports(files)| - maxCount;
    if x > 0 {
      assert x in sorted;
      var i :| 0 <= i < |sorted| && sorted[i] == x;
      PlaceTellsNewer(files, i);
      if i < n {
        assert sorted[..n][i] == x;
      } else {
        NotBefore(sorted, i, n);
      }
    } else {
      assert x !in sorted;
    }
  }

  lemma NotBefore(s: seq<int>, i: nat, n: nat)
    requires Distinct(s) && n <= i < |s|
    ensures s[i] !in s[..n]
  {
  }

  /** How many reports survive. */
  lemma FewEnoughSurvive(files: seq<int>, maxCount: nat)
    requires |Reports(files)| <= maxCount
    ensures forall x :: x in files ==> Survives(files, maxCount, x)
  {
    forall x | x in files && x > 0
      ensures Newer(files, x) < maxCount
    {
      NewerIsAbove(files, x);
      AboveBelowLength(Reports(files), x);
    }
  }

  lemma {:induction false} AboveBelowLength(s: seq<int>, x: int)
    ensures Above(s, x) <= |s| && (x in s ==> Above(s, x) < |s|)
    decreases |s|
  {
    if s != [] {
      AboveBelowLength(s[1..], x);
      assert s == [s[0]] + s[1..];
    }
  }

  lemma {:induction false} NewerAntitone(files: seq<int>, x: int, y: int)
    requires x <= y
    ensures Newer(files, y) <= Newer(files, x)
    decreases |files|
  {
    if files != [] {
      NewerAntitone(files[..|files| - 1], x, y);
    }
  }

  /** Pruning never deletes a report and keeps one that came about before it. */
  lemma NewestSurvive(files: seq<int>, maxCount: nat, a: Time, j: nat, b: Time, k: nat)
    requires ValidTime(a) && ValidTime(b) && j < TWO_23 && k < TWO_23
    requires Survives(files, maxCount, Id(a, j)) && Id(a, j) > 0 && (Earlier(a, b) || (a == b && j < k))
    ensures Survives(files, maxCount, Id(b, k))
  {
    hide Id, Earlier;
    IdsOrderReports(a, j, b, k);
    NewerAntitone(files, Id(a, j), Id(b, k));
  }

  lemma ReportsAppend(files: seq<int>, x: int)
    ensures |Reports(files + [x])| == |Reports(files)| + if x > 0 then 1 else 0
  {
    assert (files + [x])[..|files|] == files;
  }

  lemma ExceptAppend(files: seq<int>, x: int, gone: set<int>)
    requires x !in files
    ensures Except(files + [x], gone) == Except(files, gone - {x}) + if x in gone then [] else [x]
  {
    assert (files + [x])[..|files|] == files;
    assert forall i :: 0 <= i < |files| ==> files[i] in files;
    ExceptSame(files, files, gone, gone - {x});
  }

  lemma {:induction false} ExceptCount(files: seq<int>, gone: set<int>)
    requires Distinct(files) && forall x :: x in gone ==> x in files && x > 0
    ensures |Reports(Except(files, gone))| + |gone| == |Reports(files)|
    decreases |files|
  {
    hide Reports, Except;
    if files == [] {
      assert gone == {};
      ExceptNone(files);
    } else {
      var n := |files| - 1;
      var init, last := files[..n], files[n];
      assert files == init + [last];
      assert last !in init;
      var less := gone - {last};
      ExceptCount(init, less);
      ExceptAppend(init, last, gone);
      ReportsAppend(init, last);
      if last in gone {
        assert gone == less + {last};
        assert Except(init, less) + [] == Except(init, less);
      } else {
        assert less == gone;
        ReportsAppend(Except(init, less), last);
      }
    }
  }

  lemma {:induction false} ElementsCount(s: seq<int>)
    requires Distinct(s)
    ensures |Elements(s)| == |s|
    decreases |s|
  {
    if s != [] {
      var n := |s| - 1;
      assert s == s[..n] + [s[n]];
      ElementsCount(s[..n]);
      assert s[n] !in s[..n];
      assert Elements(s) == Elements(s[..n]) + {s[n]};
    }
  }

  /** Pruning leaves as many reports as the limit says, or all of them. */
  lemma PruningKeepsCount(files: seq<int>, maxCount: nat)
    requires Distinct(files)
    ensures |Reports(Except(files, Outdated(files, maxCount)))| == Least(maxCount, |Reports(files)|)
  {
    hide Survives, Reports, Except;
    var gone := Outdated(files, maxCount);
    if |Reports(files)| <= maxCount {
      FewEnoughSurvive(files, maxCount);
      assert gone == {};
      ExceptNone(files);
    } else {
      SortedDistinct(files);
      var oldest := Sorted(Reports(files))[..|Reports(files)| - maxCount];
      forall x
        ensures x in gone <==> x in Elements(oldest)
      {
        if x in files {
          OldestAreOutdated(files, maxCount, x);
        } else {
          OnlyReports(files, maxCount, x);
        }
      }
      assert gone == Elements(oldest);
      ElementsCount(oldest);
      forall x | x in gone
        ensures x in files && x > 0
      {
        OnlyReports(files, maxCount, x);
      }
      ExceptCount(files, gone);
    }
  }

  lemma OnlyReports(files: seq<int>, maxCount: nat, x: int)
    ensures x in Outdated(files, maxCount) ==> x in files && x > 0
    ensures Distinct(files) && x in Sorted(Reports(files)) ==> x in files && x > 0
  {
    if Distinct(files) {
      SortedDistinct(files);
    }
  }

  /** The directory of reports; a file that is no report stands for the ID 0 or less. */
  class Store {
    var files: seq<int>

    constructor (files: seq<int>)
      ensures this.files == files
    {
      this.files := files;
    }

    method GetReportCount() returns (count: nat)
      ensures count == |Reports(files)|
    {
      count := 0;
      var i := 0;
      while i < |files|
        invariant 0 <= i <= |files| && count == |Reports(files[..i])|
      {
        assert files[..i + 1][..i] == files[..i];
        if files[i] > 0 {
          count := count + 1;
        }
        i := i + 1;
      }
      assert files[..i] == files;
    }

    /** The readdir loop of getReportIDs. */
    method CollectReports(reportIDs: array<int>, count: nat) returns (index: nat)
      requires count <= reportIDs.Length
      modifies reportIDs
      ensures index == Least(count, |Reports(files)|)
      ensures reportIDs[..] == Reports(files)[..index] + old(reportIDs[..])[index..]
    {
      hide Reports;
      ghost var was := reportIDs[..];
      index := 0;
      var i := 0;
      ReportsPrefix(files, 0);
      while i < |files| && index < count
        invariant 0 <= i <= |files| && index <= count
        invariant reportIDs[..index] == Reports(files[..i])
        invariant forall k :: index <= k < reportIDs.Length ==> reportIDs[k] == was[k]
      {
        OneMoreFile(files, i);
        var reportID := files[i];
        if reportID > 0 {
          ghost var held := reportIDs[..index];
          reportIDs[index] := reportID;
          index := index + 1;
          assert reportIDs[..index] == held + [reportID];
        }
        i := i + 1;
      }
      ReportsPrefix(files, i);
      assert i == |files| ==> files[..i] == files;
      assert reportIDs[index..] == was[index..];
      assert reportIDs[..] == reportIDs[..index] + reportIDs[index..];
    }

    /** getReportIDs: the first `count` reports of the directory, sorted together with
        whatever the array holds behind them. */
    method GetReportIDs(reportIDs: array<int>, count: nat) returns (index: nat)
      requires count <= reportIDs.Length
      modifies reportIDs
      ensures index == Least(count, |Reports(files)|)
      ensures reportIDs[..count] == Sorted(Reports(files)[..index] + old(reportIDs[..])[index..count])
    {
      hide Reports, Sorted;
      ghost var was := reportIDs[..];
      index := CollectReports(reportIDs, count);
      assert reportIDs[..count] == Reports(files)[..index] + was[index..count];
      var sorted := Sorted(reportIDs[..count]);
      SortedSorts(reportIDs[..count]);
      forall k | 0 <= k < count {
        reportIDs[k] := sorted[k];
      }
      assert reportIDs[..count] == sorted;
    }

    static lemma OneMoreFile(files: seq<int>, i: nat)
      requires i < |files|
      ensures Reports(files[..i + 1]) == if files[i] > 0 then Reports(files[..i]) + [files[i]] else Reports(files[..i])
    {
      assert files[..i + 1][..i] == files[..i];
      assert Reports(files[..i]) + [] == Reports(files[..i]);
    }

    static lemma {:induction false} ReportsPrefix(files: seq<int>, i: nat)
      requires i <= |files|
      ensures Reports(files[..i]) <= Reports(files)
      ensures i == 0 ==> Reports(files[..i]) == []
      decreases |files|
    {
      if i < |files| {
        ReportsPrefix(files[..|files| - 1], i);
        assert files[..|files| - 1][..i] == files[..i];
      } else {
        assert files[..i] == files;
      }
    }

    method DeleteReport(id: int)
      modifies this
      ensures files == Except(old(files), {id})
    {
      var kept := [];
      var i := 0;
      while i < |files|
        invariant 0 <= i <= |files| && kept == Except(files[..i], {id})
      {
        assert files[..i + 1][..i] == files[..i];
        if files[i] != id {
          kept := kept + [files[i]];
        }
        i := i + 1;
      }
      assert files[..i] == files;
      files := kept;
    }

    /** pruneReports: exactly the newest maxReportCount reports survive; a limit of 0 or
        less keeps them all. */
    method PruneReports(maxReportCount: int)
      requires Distinct(files)
      modifies this
      ensures files == if maxReportCount <= 0 then old(files)
              else Except(old(files), Outdated(old(files), maxReportCount))
    {
      if maxReportCount <= 0 {
        return;
      }
      ghost var was := files;
      var reportCount := GetReportCount();
      if reportCount > maxReportCount {
        DeleteOldest(reportCount, maxReportCount);
        var sorted := Sorted(Reports(was));
        SortedSorts(Reports(was));
        var gone := Elements(sorted[..reportCount - maxReportCount]);
        forall i | 0 <= i < |was|
          ensures was[i] in gone <==> was[i] in Outdated(was, maxReportCount)
        {
          OldestAreOutdated(was, maxReportCount, was[i]);
        }
        ExceptSame(was, was, gone, Outdated(was, maxReportCount));
      } else {
        FewEnoughSurvive(was, maxReportCount);
        assert Outdated(was, maxReportCount) == {};
        ExceptNone(was);
      }
    }

    /** The body of pruneReports: delete the smallest IDs. */
    method DeleteOldest(reportCount: nat, maxReportCount: nat)
      requires reportCount == |Reports(files)| > maxReportCount
      modifies this
      ensures |Sorted(Reports(old(files)))| == reportCount
      ensures files == Except(old(files), Elements(Sorted(Reports(old(files)))[..reportCount - maxReportCount]))
    {
      hide Sorted, Reports, Except;
      ghost var was := files;
      SortedSorts(Reports(was));
      var reportIDs := new int[reportCount];
      ghost var empty := reportIDs[..];
      var index := GetReportIDs(reportIDs, reportCount);
      assert Reports(was)[..index] + empty[index..reportCount] == Reports(was);
      assert reportIDs[..] == reportIDs[..reportCount];
      DeleteAll(reportIDs, index - maxReportCount);
    }

    method DeleteAll(reportIDs: array<int>, n: nat)
      requires n <= reportIDs.Length
      modifies this
      ensures files == Except(old(files), Elements(reportIDs[..n]))
    {
      ghost var was := files;
      ExceptNone(was);
      assert Elements(reportIDs[..0]) == {};
      var i := 0;
      while i < n
        invariant 0 <= i <= n
        invariant files == Except(was, Elements(reportIDs[..i]))
      {
        hide Except;
        assert reportIDs[..i + 1] == reportIDs[..i] + [reportIDs[i]];
        assert Elements(reportIDs[..i + 1]) == Elements(reportIDs[..i]) + {reportIDs[i]};
        ExceptTwice(was, Elements(reportIDs[..i]), {reportIDs[i]});
        DeleteReport(reportIDs[i]);
        i := i + 1;
      }
    }
  }

  function Elements(s: seq<int>): set<int> {
    set x | x in s
  }
}
