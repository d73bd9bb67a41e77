/** Inclusive byte ranges of a partial download: coalescing, and selection from an
    ECMWF index. */
module ByteRanges {
  import opened Basics

  const U64_MAX: int := 0xFFFF_FFFF_FFFF_FFFF

  type u64 = x: int | 0 <= x <= 0xFFFF_FFFF_FFFF_FFFF

  datatype ByteRange = ByteRange(start: u64, end: u64)

  predicate Has(r: ByteRange, b: int) { r.start <= b <= r.end }

  /** Byte b lies in one of the ranges. */
  ghost predicate Covers(ranges: seq<ByteRange>, b: int) {
    exists i :: 0 <= i < |ranges| && Has(ranges[i], b)
  }

  ghost predicate SortedByStart(ranges: seq<ByteRange>) {
    forall i, j :: 0 <= i < j < |ranges| ==> ranges[i].start <= ranges[j].start
  }

  /** Neighbours leave at least one byte between them, unless the earlier one ends
      at the largest offset. */
  ghost predicate Separated(ranges: seq<ByteRange>) {
    forall i, j :: 0 <= i && j == i + 1 < |ranges| ==> ranges[i].end == U64_MAX || ranges[i].end + 1 < ranges[j].start
  }

  ghost predicate NoneEmpty(ranges: seq<ByteRange>) {
    forall i :: 0 <= i < |ranges| ==> ranges[i].start <= ranges[i].end
  }

  lemma CoversAppend(ranges: seq<ByteRange>, r: ByteRange, b: int)
    ensures Covers(ranges + [r], b) <==> Covers(ranges, b) || Has(r, b)
  {
    var longer := ranges + [r];
    assert longer[|ranges|] == r;
    if i :| 0 <= i < |ranges| && Has(ranges[i], b) { assert Has(longer[i], b); }
  }

  lemma CoversSame(a: seq<ByteRange>, c: seq<ByteRange>, b: int)
    requires multiset(a) == multiset(c)
    ensures Covers(a, b) <==> Covers(c, b)
  {
    if Covers(a, b) {
      var i :| 0 <= i < |a| && Has(a[i], b);
      assert a[i] in multiset(c);
    }
    if Covers(c, b) {
      var i :| 0 <= i < |c| && Has(c[i], b);
      assert c[i] in multiset(a);
    }
  }

  lemma InsertKeeps(s: seq<ByteRange>, k: nat, r: ByteRange)
    requires SortedByStart(s) && k <= |s|
    requires forall j :: 0 <= j < k ==> s[j].start <= r.start
    requires forall j :: k <= j < |s| ==> r.start < s[j].start
    ensures SortedByStart(s[..k] + [r] + s[k..])
    ensures multiset(s[..k] + [r] + s[k..]) == multiset(s) + multiset{r}
  {
    assert s == s[..k] + s[k..];
  }

  method InsertByStart(s: seq<ByteRange>, r: ByteRange) returns (t: seq<ByteRange>)
    requires SortedByStart(s)
    ensures SortedByStart(t) && multiset(t) == multiset(s) + multiset{r}
  {
    var k := |s|;
    while k > 0 && s[k - 1].start > r.start
      invariant 0 <= k <= |s|
      invariant forall j :: k <= j < |s| ==> r.start < s[j].start
    {
      k := k - 1;
    }
    InsertKeeps(s, k, r);
    return s[..k] + [r] + s[k..];
  }

  /** Some sort by start; ties may come in any order. */
  method Sort(ranges: seq<ByteRange>) returns (sorted: seq<ByteRange>)
    ensures SortedByStart(sorted) && multiset(sorted) == multiset(ranges)
  {
    sorted := [];
    for i := 0 to |ranges|
      invariant SortedByStart(sorted) && multiset(sorted) == multiset(ranges[..i])
    {
      assert ranges[..i + 1] == ranges[..i] + [ranges[i]];
      sorted := InsertByStart(sorted, ranges[i]);
    }
    assert ranges[..|ranges|] == ranges;
  }

  /** Growing the last range to take in an overlapping or adjacent one. */
  lemma GrowCovers(last: ByteRange, r: ByteRange, b: int)
    requires last.start <= r.start <= last.end + 1
    ensures Has(ByteRange(last.start, if last.end < r.end then r.end else last.end), b) <==> Has(last, b) || Has(r, b)
  {
  }

  /** One of the first n ranges ends at the last byte there is. */
  ghost predicate ReachesMax(ranges: seq<ByteRange>, n: nat)
    requires n <= |ranges|
  {
    exists i :: 0 <= i < n && ranges[i].end == U64_MAX
  }

  lemma ReachesMaxAppend(ranges: seq<ByteRange>, r: ByteRange)
    ensures ReachesMax(ranges + [r], |ranges| + 1) <==> ReachesMax(ranges, |ranges|) || r.end == U64_MAX
  {
    var all := ranges + [r];
    assert all[|ranges|] == r && forall i :: 0 <= i < |ranges| ==> all[i] == ranges[i];
  }

  /** Take one more range in: grow the last merged one, or start another. */
  function TakeIn(merged: seq<ByteRange>, r: ByteRange): seq<ByteRange> {
    if merged == [] then [r]
    else
      var last := merged[|merged| - 1];
      if last.end != U64_MAX && r.start <= last.end + 1
      then merged[|merged| - 1 := ByteRange(last.start, if last.end < r.end then r.end else last.end)]
      else merged + [r]
  }

  ghost function MergeAll(sorted: seq<ByteRange>): seq<ByteRange> {
    if sorted == [] then [] else TakeIn(MergeAll(sorted[..|sorted| - 1]), sorted[|sorted| - 1])
  }

  /** merged describes the sorted ranges taken in so far. */
  ghost predicate Merged(merged: seq<ByteRange>, taken: seq<ByteRange>) {
    && (forall b :: Covers(merged, b) <==> Covers(taken, b))
    && SortedByStart(merged) && Separated(merged)
    && (NoneEmpty(taken) ==> NoneEmpty(merged))
    && (merged == [] <==> taken == [])
    && (taken != [] ==> merged[|merged| - 1].start <= taken[|taken| - 1].start)
    && (ReachesMax(merged, |merged|) <==> ReachesMax(taken, |taken|))
  }

  lemma PushKeeps(merged: seq<ByteRange>, taken: seq<ByteRange>, r: ByteRange)
    requires Merged(merged, taken) && SortedByStart(taken + [r])
    requires merged == [] || merged[|merged| - 1].end == U64_MAX || merged[|merged| - 1].end + 1 < r.start
    ensures Merged(merged + [r], taken + [r])
  {
    forall b ensures Covers(merged + [r], b) <==> Covers(taken + [r], b) {
      CoversAppend(merged, r, b);
      CoversAppend(taken, r, b);
    }
    ReachesMaxAppend(merged, r);
    ReachesMaxAppend(taken, r);
    if taken != [] { assert (taken + [r])[|taken| - 1].start <= (taken + [r])[|taken|].start; }
    if NoneEmpty(taken + [r]) {
      assert (taken + [r])[|taken|] == r;
      forall i | 0 <= i < |taken| ensures taken[i].start <= taken[i].end { assert (taken + [r])[i] == taken[i]; }
    }
  }

  lemma GrowKeeps(merged: seq<ByteRange>, taken: seq<ByteRange>, r: ByteRange)
    requires Merged(merged, taken) && taken != [] && SortedByStart(taken + [r])
    requires r.start <= merged[|merged| - 1].end + 1 && merged[|merged| - 1].end != U64_MAX
    ensures var last := merged[|merged| - 1];
            var grown := ByteRange(last.start, if last.end < r.end then r.end else last.end);
            Merged(merged[|merged| - 1 := grown], taken + [r])
  {
    var n := |merged| - 1;
    var last := merged[n];
    var grown := ByteRange(last.start, if last.end < r.end then r.end else last.end);
    var front, out := merged[..n], merged[n := grown];
    assert merged == front + [last] && out == front + [grown];
    assert (taken + [r])[|taken| - 1].start <= (taken + [r])[|taken|].start;
    forall b ensures Covers(out, b) <==> Covers(taken + [r], b) {
      CoversAppend(front, last, b);
      CoversAppend(front, grown, b);
      CoversAppend(taken, r, b);
      GrowCovers(last, r, b);
    }
    ReachesMaxAppend(front, last);
    ReachesMaxAppend(front, grown);
    ReachesMaxAppend(taken, r);
    if NoneEmpty(taken + [r]) {
      forall i | 0 <= i < |taken| ensures taken[i].start <= taken[i].end { assert (taken + [r])[i] == taken[i]; }
    }
  }

  lemma MergedNothing()
    ensures Merged([], [])
  {
  }

  lemma SameMax(a: seq<ByteRange>, c: seq<ByteRange>)
    requires multiset(a) == multiset(c)
    ensures ReachesMax(a, |a|) <==> ReachesMax(c, |c|)
  {
    MaxCarries(a, c);
    MaxCarries(c, a);
  }

  lemma MaxCarries(a: seq<ByteRange>, c: seq<ByteRange>)
    requires multiset(a) == multiset(c)
    ensures ReachesMax(a, |a|) ==> ReachesMax(c, |c|)
  {
    if ReachesMax(a, |a|) {
      var i :| 0 <= i < |a| && a[i].end == U64_MAX;
      assert a[i] in multiset(c);
      var j :| 0 <= j < |c| && c[j] == a[i];
    }
  }

  method MergeSorted(sorted: seq<ByteRange>) returns (merged: seq<ByteRange>)
    requires SortedByStart(sorted)
    ensures Merged(merged, sorted) && merged == MergeAll(sorted)
  {
    hide Covers, Separated, NoneEmpty, ReachesMax;
    merged := [];
    MergedNothing();
    for i := 0 to |sorted|
      invariant Merged(merged, sorted[..i]) && merged == MergeAll(sorted[..i])
    {
      var r := sorted[i];
      assert sorted[..i + 1] == sorted[..i] + [r] && sorted[..i + 1][..i] == sorted[..i];
      if merged == [] {
        PushKeeps(merged, sorted[..i], r);
        merged := merged + [r];
      } else {
        var last := merged[|merged| - 1];
        if last.end != U64_MAX && r.start <= last.end + 1 {
          GrowKeeps(merged, sorted[..i], r);
          merged := merged[|merged| - 1 := ByteRange(last.start, if last.end < r.end then r.end else last.end)];
        } else {
          PushKeeps(merged, sorted[..i], r);
          merged := merged + [r];
        }
      }
    }
    assert sorted[..|sorted|] == sorted;
  }

  /** Coalesce: the same bytes, sorted by start, with a gap between neighbours. */
  method Coalesce(ranges: seq<ByteRange>) returns (merged: seq<ByteRange>)
    ensures forall b :: Covers(merged, b) <==> Covers(ranges, b)
    ensures SortedByStart(merged) && Separated(merged)
    ensures NoneEmpty(ranges) ==> NoneEmpty(merged)
    ensures merged == [] <==> ranges == []
    ensures ReachesMax(merged, |merged|) <==> ReachesMax(ranges, |ranges|)
  {
    if |ranges| <= 1 {
      return ranges;
    }
    var sorted := Sort(ranges);
    assert |multiset(sorted)| == |sorted| && |multiset(ranges)| == |ranges|;
    merged := MergeSorted(sorted);
    forall b ensures Covers(merged, b) <==> Covers(ranges, b) { CoversSame(sorted, ranges, b); }
    SameMax(sorted, ranges);
    if NoneEmpty(ranges) {
      forall i | 0 <= i < |sorted| ensures sorted[i].start <= sorted[i].end { assert sorted[i] in multiset(ranges); }
    }
  }

  lemma {:induction false} EndsAscend(ranges: seq<ByteRange>, i: nat, k: nat)
    requires Separated(ranges) && NoneEmpty(ranges) && i <= k < |ranges| && !ReachesMax(ranges, k + 1)
    ensures ranges[i].end <= ranges[k].end
    decreases k - i
  {
    if i < k {
      EndsAscend(ranges, i, k - 1);
      var j := k - 1;
      assert ranges[j].end != U64_MAX && ranges[j].end + 1 < ranges[k].start <= ranges[k].end;
    }
  }

  /** Between neighbours the byte right after the earlier range is requested by none, so
      no two requests could have been one: exactly while no range so far ends at the
      last byte, since a range that does is never merged with what follows. */
  lemma GapIsUncovered(ranges: seq<ByteRange>, k: nat)
    requires SortedByStart(ranges) && Separated(ranges) && NoneEmpty(ranges)
    requires k + 1 < |ranges| && ranges[k].end != U64_MAX
    ensures !Covers(ranges, ranges[k].end + 1) <==> !ReachesMax(ranges, k)
  {
    var gap, next := ranges[k].end + 1, k + 1;
    assert ranges[k].end + 1 < ranges[next].start;
    if ReachesMax(ranges, k) {
      var i :| 0 <= i < k && ranges[i].end == U64_MAX;
      assert ranges[i].start <= ranges[k].start && Has(ranges[i], gap);
    } else {
      forall i | 0 <= i < |ranges| ensures !Has(ranges[i], gap) {
        if i <= k { EndsAscend(ranges, i, k); } else if i > next { assert ranges[next].start <= ranges[i].start; }
      }
    }
  }

  /** Such an input: the first range reaches the last byte, so the ranges within it stay
      separate requests and the byte between them is requested all the same. */
  lemma MaxRangeHidesGap()
    ensures var ranges := [ByteRange(0, U64_MAX), ByteRange(5, 6), ByteRange(8, 9)];
            MergeAll(ranges) == ranges && Covers(ranges, 7)
  {
    var ranges := [ByteRange(0, U64_MAX), ByteRange(5, 6), ByteRange(8, 9)];
    assert ranges[..2][..1] == [ranges[0]] && ranges[..1][..0] == [];
    assert MergeAll([ranges[0]]) == TakeIn([], ranges[0]);
    assert MergeAll(ranges[..2]) == TakeIn(MergeAll(ranges[..2][..1]), ranges[1]) == ranges[..2];
    assert Has(ranges[0], 7);
  }

  // ---- the ECMWF index ----

  datatype IndexEntry = IndexEntry(param: string, levtype: string, levelist: Option<string>, offset: u64, length: u64)

  /** One line of the index after JSON decoding. */
  datatype Line = Blank | Malformed | Decoded(entry: IndexEntry)

  /** A pattern after splitting at its first '='; NoSplit when it has none. */
  datatype Pattern = NoSplit | KeyValue(key: string, expected: string)

  const KEYS: set<string> := {"param", "levtype", "levelist"}

  predicate Understood(p: Pattern) {
    p.KeyValue? && (p.key == "param" || p.key == "levtype" || p.key == "levelist")
  }

  predicate Matches(p: Pattern, e: IndexEntry) {
    p.KeyValue? &&
    if p.key == "param" then e.param == p.expected
    else if p.key == "levtype" then e.levtype == p.expected
    else p.key == "levelist" && e.levelist == Some(p.expected)
  }

  predicate Selected(patterns: seq<Pattern>, e: IndexEntry) {
    exists i :: 0 <= i < |patterns| && Matches(patterns[i], e)
  }

  predicate Overflows(e: IndexEntry) { e.length > 0 && e.offset + (e.length - 1) > U64_MAX }

  predicate Bad(patterns: seq<Pattern>, line: Line) {
    line.Malformed? || (line.Decoded? && Selected(patterns, line.entry) && Overflows(line.entry))
  }

  /** This line asks for byte b. */
  ghost predicate AsksFor(patterns: seq<Pattern>, line: Line, b: int) {
    && line.Decoded? && Selected(patterns, line.entry)
    && line.entry.offset <= b < line.entry.offset + line.entry.length
  }

  ghost predicate Wanted(patterns: seq<Pattern>, lines: seq<Line>, b: int) {
    exists i :: 0 <= i < |lines| && AsksFor(patterns, lines[i], b)
  }

  datatype Subset = WholeFile | Subset(ranges: seq<ByteRange>) | Invalid(line: nat)

  lemma WantedAppend(patterns: seq<Pattern>, lines: seq<Line>, i: nat, b: int)
    requires i < |lines|
    ensures Wanted(patterns, lines[..i + 1], b) <==> Wanted(patterns, lines[..i], b) || AsksFor(patterns, lines[i], b)
  {
    assert forall k :: 0 <= k < i ==> lines[..i + 1][k] == lines[..i][k];
    assert lines[..i + 1][i] == lines[i];
  }

  /** An entry is selected exactly by a pattern that names one of its own values. */
  lemma SelectedExactly(patterns: seq<Pattern>, e: IndexEntry)
    ensures Selected(patterns, e) <==>
      || KeyValue("param", e.param) in patterns
      || KeyValue("levtype", e.levtype) in patterns
      || (e.levelist.Some? && KeyValue("levelist", e.levelist.value) in patterns)
  {
    assert "param" != "levtype" by { assert "param"[0] != "levtype"[0]; }
    assert "param" != "levelist" by { assert "param"[0] != "levelist"[0]; }
    assert "levtype" != "levelist" by { assert "levtype"[3] != "levelist"[3]; }
    if i :| 0 <= i < |patterns| && Matches(patterns[i], e) {
      var p := patterns[i];
      assert p == KeyValue("param", e.param) || p == KeyValue("levtype", e.levtype)
          || (e.levelist.Some? && p == KeyValue("levelist", e.levelist.value));
    }
    forall p | p in patterns && Matches(p, e) ensures Selected(patterns, e) {
      var i :| 0 <= i < |patterns| && patterns[i] == p;
      assert Matches(patterns[i], e);
    }
    assert Matches(KeyValue("param", e.param), e) && Matches(KeyValue("levtype", e.levtype), e);
    assert e.levelist.Some? ==> Matches(KeyValue("levelist", e.levelist.value), e);
  }

  /** A line is bad exactly if it cannot be decoded or asks for a byte that no 64-bit
      offset reaches. */
  lemma BadExactly(patterns: seq<Pattern>, line: Line)
    ensures Bad(patterns, line) <==> line.Malformed? || exists b :: b > U64_MAX && AsksFor(patterns, line, b)
  {
    hide Selected;
    if Bad(patterns, line) && line.Decoded? {
      var b := line.entry.offset + (line.entry.length - 1);
      assert b > U64_MAX && AsksFor(patterns, line, b);
    }
  }

  /** Select ranges: a byte is requested exactly when a matching entry covers it. An
      unknown pattern means the whole file; the first bad line is reported. */
  method IndexSubsetRanges(lines: seq<Line>, patterns: seq<Pattern>) returns (r: Subset)
    ensures (exists p :: p in patterns && !(p.KeyValue? && p.key in KEYS)) ==> r == WholeFile
    ensures (forall p :: p in patterns ==> p.KeyValue? && p.key in KEYS) ==>
      match r
      case Invalid(n) => n < |lines| && Bad(patterns, lines[n]) && forall k :: 0 <= k < n ==> !Bad(patterns, lines[k])
      case WholeFile => (forall k :: 0 <= k < |lines| ==> !Bad(patterns, lines[k])) && forall b :: !Wanted(patterns, lines, b)
      case Subset(ranges) =>
        && (forall k :: 0 <= k < |lines| ==> !Bad(patterns, lines[k]))
        && (forall b :: Covers(ranges, b) <==> Wanted(patterns, lines, b))
        && ranges != [] && NoneEmpty(ranges) && SortedByStart(ranges) && Separated(ranges)
  {
    for i := 0 to |patterns|
      invariant forall k :: 0 <= k < i ==> Understood(patterns[k])
    {
      if !Understood(patterns[i]) {
        assert patterns[i] in patterns;
        return WholeFile;
      }
    }
    var ranges: seq<ByteRange> := [];
    for i := 0 to |lines|
      invariant forall k :: 0 <= k < i ==> !Bad(patterns, lines[k])
      invariant NoneEmpty(ranges)
      invariant forall b :: Covers(ranges, b) <==> Wanted(patterns, lines[..i], b)
    {
      forall b ensures Wanted(patterns, lines[..i + 1], b) <==> Wanted(patterns, lines[..i], b) || AsksFor(patterns, lines[i], b) {
        WantedAppend(patterns, lines, i, b);
      }
      match lines[i]
      case Blank =>
      case Malformed => return Invalid(i);
      case Decoded(entry) =>
        if Selected(patterns, entry) && entry.length != 0 {
          if Overflows(entry) {
            return Invalid(i);
          }
          var added := ByteRange(entry.offset, entry.offset + (entry.length - 1));
          ghost var before := ranges;
          ranges := ranges + [added];
          forall b ensures Covers(ranges, b) <==> Covers(before, b) || AsksFor(patterns, lines[i], b) {
            CoversAppend(before, added, b);
          }
        }
    }
    assert lines[..|lines|] == lines;
    if ranges == [] {
      return WholeFile;
    }
    var merged := Coalesce(ranges);
    return Subset(merged);
  }
}
