/** The file list of the web front end: the case-insensitive search filter,
    the sort comparator with its ascending/descending flip, a stable sort,
    and the human-readable file size. Locale-aware name comparison and date
    parsing are browser code and enter the model as opaque functions. */
module FileList {
  import opened Text
  import opened Arith

  /** One indexed file as the list receives it from the server. */
  datatype FileInfo = FileInfo(fileName: string, filePath: string, fileSize: int, modifiedTime: string)

  // ---------------------------------------------------------------------
  // Search filter.

  /** A file is shown when its lower-cased name or lower-cased path
      contains the lower-cased search term. */
  predicate Matches(f: FileInfo, term: string): (b: bool)
    ensures b <==> (exists k :: OccursAt(Lower(f.fileName), Lower(term), k))
                   || (exists k :: OccursAt(Lower(f.filePath), Lower(term), k))
    ensures term == "" ==> b
  {
    ContainsEmpty(Lower(f.fileName));
    assert Lower("") == "";
    Contains(Lower(f.fileName), Lower(term)) || Contains(Lower(f.filePath), Lower(term))
  }

  /** `files.filter(...)`: the matching files, in their original order. */
  function Filter(files: seq<FileInfo>, term: string): (shown: seq<FileInfo>)
    ensures |shown| <= |files|
    ensures forall i :: 0 <= i < |shown| ==> Matches(shown[i], term)
    ensures forall f :: f in shown <==> f in files && Matches(f, term)
    decreases |files|
  {
    if |files| == 0 then []
    else if Matches(files[0], term) then [files[0]] + Filter(files[1..], term)
    else Filter(files[1..], term)
  }

  /** Filtering keeps the relative order: it distributes over concatenation. */
  lemma {:induction false} FilterAppend(a: seq<FileInfo>, b: seq<FileInfo>, term: string)
    ensures Filter(a + b, term) == Filter(a, term) + Filter(b, term)
    decreases |a|
  {
    if |a| == 0 {
      assert a + b == b;
    } else {
      assert (a + b)[1..] == a[1..] + b;
      FilterAppend(a[1..], b, term);
    }
  }

  /** Each file is kept exactly as often as it occurs, if it matches. */
  lemma {:induction false} FilterMultiplicity(files: seq<FileInfo>, term: string, f: FileInfo)
    ensures multiset(Filter(files, term))[f] == if Matches(f, term) then multiset(files)[f] else 0
    decreases |files|
  {
    if |files| > 0 {
      var x, rest := files[0], files[1..];
      FilterMultiplicity(rest, term, f);
      assert multiset(files) == multiset{x} + multiset(rest) by {
        assert files == [x] + rest;
      }
      if Matches(x, term) {
        assert multiset(Filter(files, term)) == multiset{x} + multiset(Filter(rest, term));
      }
    }
  }

  /** The empty search term keeps every file. */
  lemma {:induction false} FilterEmptyTerm(files: seq<FileInfo>)
    ensures Filter(files, "") == files
    decreases |files|
  {
    if |files| > 0 {
      ContainsEmpty(Lower(files[0].fileName));
      assert Lower("") == "";
      FilterEmptyTerm(files[1..]);
    }
  }

  /** The search ignores the case of the term. */
  lemma {:induction false} FilterIgnoresTermCase(files: seq<FileInfo>, term: string)
    ensures Filter(files, Lower(term)) == Filter(files, term)
    decreases |files|
  {
    LowerIdempotent(term);
    if |files| > 0 {
      FilterIgnoresTermCase(files[1..], term);
    }
  }

  /** Filtering twice with the same term is filtering once. */
  lemma {:induction false} FilterIdempotent(files: seq<FileInfo>, term: string)
    ensures Filter(Filter(files, term), term) == Filter(files, term)
    decreases |files|
  {
    if |files| > 0 {
      FilterIdempotent(files[1..], term);
    }
  }

  // ---------------------------------------------------------------------
  // Sort comparator.

  /** The `sortBy` state: one of the three options of the select box, or
      any other value. */
  datatype SortKey = ByName | BySize | ByDate | OtherKey

  /** The `sortOrder` state: `'asc'`, or anything else. */
  datatype SortOrder = Asc | Desc

  /** The browser functions the comparator calls: `localeCompare` on names
      and the millisecond timestamp of `new Date(...)`. */
  datatype Browser = Browser(localeCompare: (string, string) -> int, timestamp: string -> int)

  /** The `switch (sortBy)` of the comparator, before the order flip. */
  function Comparison(key: SortKey, browser: Browser, a: FileInfo, b: FileInfo): (c: int)
    ensures key == ByName ==> c == browser.localeCompare(a.fileName, b.fileName)
    ensures key == BySize ==> (c > 0 <==> b.fileSize > a.fileSize) && (c < 0 <==> b.fileSize < a.fileSize)
    ensures key == ByDate ==> (c > 0 <==> browser.timestamp(b.modifiedTime) > browser.timestamp(a.modifiedTime))
                              && (c < 0 <==> browser.timestamp(b.modifiedTime) < browser.timestamp(a.modifiedTime))
    ensures key == OtherKey ==> c == 0
  {
    match key
    case ByName => browser.localeCompare(a.fileName, b.fileName)
    case BySize => b.fileSize - a.fileSize
    case ByDate => browser.timestamp(b.modifiedTime) - browser.timestamp(a.modifiedTime)
    case OtherKey => 0
  }

  /** The comparator passed to `sort`. */
  function Compare(key: SortKey, order: SortOrder, browser: Browser, a: FileInfo, b: FileInfo): (c: int)
    ensures key == OtherKey ==> c == 0
    ensures key == BySize ==> (c < 0 <==> (if order == Asc then a.fileSize > b.fileSize else a.fileSize < b.fileSize))
    ensures key == BySize ==> (c == 0 <==> a.fileSize == b.fileSize)
  {
    var comparison := Comparison(key, browser, a, b);
    if order == Asc then comparison else -comparison
  }

  /** The descending comparator is the exact negation of the ascending one. */
  lemma DescNegatesAsc(key: SortKey, browser: Browser, a: FileInfo, b: FileInfo)
    ensures Compare(key, Desc, browser, a, b) == -Compare(key, Asc, browser, a, b)
  {
  }

  /** The size and date comparators are antisymmetric in either order:
      swapping the files negates the result. */
  lemma CompareAntisymmetric(key: SortKey, order: SortOrder, browser: Browser, a: FileInfo, b: FileInfo)
    requires key != ByName
    ensures Compare(key, order, browser, a, b) == -Compare(key, order, browser, b, a)
  {
  }

  /** Except for names, the comparator compares a rank of each file: the
      difference of ranks is the comparator's result. */
  function Rank(key: SortKey, order: SortOrder, browser: Browser, f: FileInfo): int
    requires key != ByName
  {
    var r := match key
      case BySize => -f.fileSize
      case ByDate => -browser.timestamp(f.modifiedTime)
      case _ => 0;
    if order == Asc then r else -r
  }

  lemma CompareIsRankDifference(key: SortKey, order: SortOrder, browser: Browser, a: FileInfo, b: FileInfo)
    requires key != ByName
    ensures Compare(key, order, browser, a, b) == Rank(key, order, browser, a) - Rank(key, order, browser, b)
  {
  }

  // ---------------------------------------------------------------------
  // Stable sort.

  /** Inserts `x` before the first element it does not compare above, so
      that `x` stays ahead of the elements it ties with. */
  function Insert(x: FileInfo, sorted: seq<FileInfo>, cmp: (FileInfo, FileInfo) -> int): (r: seq<FileInfo>)
    ensures multiset(r) == multiset(sorted) + multiset{x}
    ensures |r| == |sorted| + 1
    decreases |sorted|
  {
    if |sorted| == 0 || cmp(x, sorted[0]) <= 0 then [x] + sorted
    else
      assert sorted == [sorted[0]] + sorted[1..];
      [sorted[0]] + Insert(x, sorted[1..], cmp)
  }

  /** `Array.prototype.sort`, which is stable: an insertion sort that
      inserts each file into the sorted rest of the list. */
  function Sort(files: seq<FileInfo>, cmp: (FileInfo, FileInfo) -> int): (r: seq<FileInfo>)
    ensures multiset(r) == multiset(files)
    ensures |r| == |files|
    decreases |files|
  {
    if |files| == 0 then []
    else
      assert files == [files[0]] + files[1..];
      Insert(files[0], Sort(files[1..], cmp), cmp)
  }

  /** The elements are in non-decreasing rank. */
  predicate SortedByRank(s: seq<FileInfo>, rank: FileInfo -> int)
  {
    forall i, j :: 0 <= i < j < |s| ==> rank(s[i]) <= rank(s[j])
  }

  lemma {:induction false} InsertSorted(x: FileInfo, sorted: seq<FileInfo>, cmp: (FileInfo, FileInfo) -> int, rank: FileInfo -> int)
    requires forall a, b :: cmp(a, b) == rank(a) - rank(b)
    requires SortedByRank(sorted, rank)
    ensures SortedByRank(Insert(x, sorted, cmp), rank)
    decreases |sorted|
  {
    if |sorted| > 0 && cmp(x, sorted[0]) > 0 {
      var rest := Insert(x, sorted[1..], cmp);
      InsertSorted(x, sorted[1..], cmp, rank);
      assert forall k :: 0 <= k < |rest| ==> rank(sorted[0]) <= rank(rest[k]) by {
        forall k | 0 <= k < |rest|
          ensures rank(sorted[0]) <= rank(rest[k])
        {
          assert rest[k] in multiset(rest);
          assert rest[k] in multiset(sorted[1..]) + multiset{x};
          if rest[k] != x {
            assert rest[k] in sorted[1..];
          }
        }
      }
    }
  }

  /** A comparator that compares ranks sorts by rank. */
  lemma {:induction false} SortSortedByRank(files: seq<FileInfo>, cmp: (FileInfo, FileInfo) -> int, rank: FileInfo -> int)
    requires forall a, b :: cmp(a, b) == rank(a) - rank(b)
    ensures SortedByRank(Sort(files, cmp), rank)
    decreases |files|
  {
    if |files| > 0 {
      SortSortedByRank(files[1..], cmp, rank);
      InsertSorted(files[0], Sort(files[1..], cmp), cmp, rank);
    }
  }

  /** A comparator that ties everything leaves the order unchanged. */
  lemma {:induction false} SortAllTiesIsIdentity(files: seq<FileInfo>, cmp: (FileInfo, FileInfo) -> int)
    requires forall a, b :: cmp(a, b) == 0
    ensures Sort(files, cmp) == files
    decreases |files|
  {
    if |files| > 0 {
      SortAllTiesIsIdentity(files[1..], cmp);
      assert files == [files[0]] + files[1..];
    }
  }

  // ---------------------------------------------------------------------
  // The displayed list.

  /** `sortedFiles`: the filtered files, sorted on a copy. */
  function SortedFiles(files: seq<FileInfo>, term: string, key: SortKey, order: SortOrder, browser: Browser): (shown: seq<FileInfo>)
    ensures multiset(shown) == multiset(Filter(files, term))
    ensures |shown| <= |files|
  {
    Sort(Filter(files, term), (a, b) => Compare(key, order, browser, a, b))
  }

  /** The "Showing n of m files" line never shows more files than exist,
      and shows all of them while the search box is empty. */
  lemma ShownCount(files: seq<FileInfo>, term: string, key: SortKey, order: SortOrder, browser: Browser)
    ensures |SortedFiles(files, term, key, order, browser)| <= |files|
    ensures term == "" ==> |SortedFiles(files, term, key, order, browser)| == |files|
  {
    if term == "" {
      FilterEmptyTerm(files);
    }
  }

  /** Sorting by size in the `asc` order lists larger files first; the
      `desc` order lists smaller files first. */
  lemma SizeOrder(files: seq<FileInfo>, term: string, order: SortOrder, browser: Browser)
    ensures var shown := SortedFiles(files, term, BySize, order, browser);
            forall i, j :: 0 <= i < j < |shown| ==>
              if order == Asc then shown[i].fileSize >= shown[j].fileSize
              else shown[i].fileSize <= shown[j].fileSize
  {
    var cmp := (a, b) => Compare(BySize, order, browser, a, b);
    var rank := f => Rank(BySize, order, browser, f);
    forall a, b ensures cmp(a, b) == rank(a) - rank(b) {
      CompareIsRankDifference(BySize, order, browser, a, b);
    }
    SortSortedByRank(Filter(files, term), cmp, rank);
  }

  /** Sorting by date lists newer files first in the `asc` order and older
      files first in the `desc` order. */
  lemma DateOrder(files: seq<FileInfo>, term: string, order: SortOrder, browser: Browser)
    ensures var shown := SortedFiles(files, term, ByDate, order, browser);
            forall i, j :: 0 <= i < j < |shown| ==>
              if order == Asc then browser.timestamp(shown[i].modifiedTime) >= browser.timestamp(shown[j].modifiedTime)
              else browser.timestamp(shown[i].modifiedTime) <= browser.timestamp(shown[j].modifiedTime)
  {
    var cmp := (a, b) => Compare(ByDate, order, browser, a, b);
    var rank := f => Rank(ByDate, order, browser, f);
    forall a, b ensures cmp(a, b) == rank(a) - rank(b) {
      CompareIsRankDifference(ByDate, order, browser, a, b);
    }
    SortSortedByRank(Filter(files, term), cmp, rank);
  }

  /** An unrecognised sort key leaves the filtered order as it is. */
  lemma OtherKeyKeepsOrder(files: seq<FileInfo>, term: string, order: SortOrder, browser: Browser)
    ensures SortedFiles(files, term, OtherKey, order, browser) == Filter(files, term)
  {
    SortAllTiesIsIdentity(Filter(files, term), (a, b) => Compare(OtherKey, order, browser, a, b));
  }

  // ---------------------------------------------------------------------
  // File size.

  const KiB := 1024
  const MiB := 1024 * 1024

  /** `(bytes / unit).toFixed(1)` as a count of tenths: the integer `t`
      for which `t / 10` is nearest to `bytes / unit`, the larger one on a
      tie. The quotient is a binary fraction, so it is exact. */
  function Tenths(bytes: nat, unit: nat): (t: nat)
    requires unit == KiB || unit == MiB
    ensures 2 * (t * unit) <= 20 * bytes + unit < 2 * (t * unit) + 2 * unit
  {
    (10 * bytes + unit / 2) / unit
  }

  /** No integer is nearer than `Tenths`, and on a tie `Tenths` is the larger. */
  lemma TenthsNearest(bytes: nat, unit: nat, n: int)
    requires unit == KiB || unit == MiB
    ensures var t := Tenths(bytes, unit);
            var d := 10 * bytes - t * unit;
            var e := 10 * bytes - n * unit;
            && (d < 0 ==> -d <= (if e < 0 then -e else e))
            && (d >= 0 ==> d <= (if e < 0 then -e else e))
            && ((if d < 0 then -d else d) == (if e < 0 then -e else e) ==> n <= t)
  {
    var t := Tenths(bytes, unit);
    if unit == KiB {
      NearestMultiple(10 * bytes, 1024, t, n);
    } else {
      NearestMultiple(10 * bytes, 1048576, t, n);
    }
  }

  lemma NearestMultiple(x: int, u: int, t: int, n: int)
    requires u == 1024 || u == 1048576
    requires 2 * (t * u) <= 2 * x + u < 2 * (t * u) + 2 * u
    ensures var d := x - t * u;
            var e := x - n * u;
            && (d < 0 ==> -d <= (if e < 0 then -e else e))
            && (d >= 0 ==> d <= (if e < 0 then -e else e))
            && ((if d < 0 then -d else d) == (if e < 0 then -e else e) ==> n <= t)
  {
    if n > t {
      MulMonotone(t + 1, n, u);
    } else if n < t {
      MulMonotone(n, t - 1, u);
    }
  }

  /** One decimal place: the tenths `t` written as "q.r". */
  function Fixed1(t: nat): (s: string)
    ensures |s| >= 3 && s[|s| - 2] == '.'
  {
    NatToDecimal(t / 10) + "." + [DigitChar(t % 10)]
  }

  /** Reads "q.r" back as a count of tenths. */
  function ParseFixed1(s: string): int
    requires |s| >= 2
  {
    ParseDigits(s[..|s| - 2]) * 10 + DigitValue(s[|s| - 1])
  }

  /** Writing tenths with one decimal place loses nothing. */
  lemma Fixed1RoundTrip(t: nat)
    ensures ParseFixed1(Fixed1(t)) == t
  {
    var s := Fixed1(t);
    assert s[..|s| - 2] == NatToDecimal(t / 10);
    NatToDecimalRoundTrip(t / 10);
  }

  /** The unit the size is shown in. */
  datatype SizeUnit = B | KB | MB

  function UnitName(u: SizeUnit): string
  {
    match u
    case B => " B"
    case KB => " KB"
    case MB => " MB"
  }

  /** The unit `formatFileSize` picks: bytes below 1024, kilobytes below
      1024 * 1024, megabytes above. */
  function UnitOf(bytes: int): (u: SizeUnit)
    ensures u == B <==> bytes < KiB
    ensures u == KB <==> KiB <= bytes < MiB
    ensures u == MB <==> MiB <= bytes
  {
    if bytes < KiB then B else if bytes < MiB then KB else MB
  }

  /** `formatFileSize`: the exact byte count, or the size in kilobytes or
      megabytes to one decimal place, followed by the unit. */
  function FormatFileSize(bytes: int): (s: string)
    ensures UnitOf(bytes) == B ==> s == IntToDecimal(bytes) + " B"
    ensures UnitOf(bytes) == KB ==> s == Fixed1(Tenths(bytes, KiB)) + " KB"
    ensures UnitOf(bytes) == MB ==> s == Fixed1(Tenths(bytes, MiB)) + " MB"
  {
    match UnitOf(bytes)
    case B => IntToDecimal(bytes) + UnitName(B)
    case KB => Fixed1(Tenths(bytes, KiB)) + UnitName(KB)
    case MB => Fixed1(Tenths(bytes, MiB)) + UnitName(MB)
  }

  /** A larger file never gets a smaller unit. */
  lemma UnitMonotone(a: int, b: int)
    requires a <= b
    ensures UnitOf(a) == B || UnitOf(b) != B
    ensures UnitOf(a) != MB || UnitOf(b) == MB
  {
  }

  /** Below a kilobyte the exact byte count can be read back. */
  lemma BytesReadBack(bytes: int)
    requires bytes < KiB
    ensures var s := FormatFileSize(bytes);
            && |s| >= 3
            && s[|s| - 2..] == " B"
            && ParseInt(s[..|s| - 2]) == bytes
  {
    var s := FormatFileSize(bytes);
    assert s[..|s| - 2] == IntToDecimal(bytes);
    IntToDecimalRoundTrip(bytes);
  }

  /** Kilobytes are shown between 1.0 and 1024.0: the largest size below a
      megabyte rounds up to "1024.0 KB" rather than switching unit. */
  lemma KilobyteRange(bytes: int)
    requires KiB <= bytes < MiB
    ensures 10 <= Tenths(bytes, KiB) <= 10240
    ensures bytes == MiB - 1 ==> Tenths(bytes, KiB) == 10240
    ensures bytes == MiB - 1 ==> FormatFileSize(bytes) == "1024.0 KB"
  {
    if bytes == MiB - 1 {
      assert Tenths(bytes, KiB) == 10240;
      assert NatToDecimal(1024) == "1024";
    }
  }
}
