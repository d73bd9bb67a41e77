/** Contour thresholds and the half-open value bins between them. */
module ContourLevels {
  import opened Basics

  datatype ExtendMode = NoExtend | Below | Above | Both {
    predicate IncludesBelow() { Below? || Both? }
    predicate IncludesAbove() { Above? || Both? }
  }

  datatype LevelBound = NegInfinity | Finite(bound: real) | PosInfinity

  datatype LevelBin = LevelBin(index: nat, lower: LevelBound, upper: LevelBound, upperInclusive: bool) {
    predicate Contains(value: real) {
      var lowerOk := match lower
        case NegInfinity => true
        case Finite(bound) => value >= bound
        case PosInfinity => false;
      var upperOk := match upper
        case NegInfinity => false
        case Finite(bound) => if upperInclusive then value <= bound else value < bound
        case PosInfinity => true;
      lowerOk && upperOk
    }
  }

  datatype ContourError =
    | NeedAtLeastTwoThresholds
    | LevelsNotStrictlyAscending(index: nat, previous: real, current: real)

  datatype BinsResult = Ok(bins: LevelBins) | Err(error: ContourError)

  datatype LevelBins = LevelBins(thresholds: seq<real>, extend: ExtendMode, bins: seq<LevelBin>)

  ghost predicate StrictlyAscending(ts: seq<real>) {
    forall i, j :: 0 <= i < j < |ts| ==> ts[i] < ts[j]
  }

  lemma {:induction false} AdjacentAscending(ts: seq<real>)
    requires forall i :: 0 <= i < |ts| - 1 ==> ts[i] < ts[i + 1]
    ensures StrictlyAscending(ts)
  {
    if |ts| > 0 {
      var prefix := ts[..|ts| - 1];
      AdjacentAscending(prefix);
      forall i, j | 0 <= i < j < |ts| ensures ts[i] < ts[j] {
        if j == |ts| - 1 && i < j - 1 {
          assert prefix[i] < prefix[j - 1] && ts[j - 1] < ts[j - 1 + 1];
        } else if j < |ts| - 1 {
          assert prefix[i] < prefix[j];
        }
      }
    }
  }

  ghost function BinCount(ts: seq<real>, extend: ExtendMode): int {
    |ts| - 1 + (if extend.IncludesBelow() then 1 else 0) + (if extend.IncludesAbove() then 1 else 0)
  }

  /** The i-th bin: an optional open one below, one per threshold pair, an optional
      open one above. */
  ghost function BinAt(ts: seq<real>, extend: ExtendMode, i: nat): LevelBin
    requires |ts| >= 2 && i < BinCount(ts, extend)
  {
    var offset := if extend.IncludesBelow() then 1 else 0;
    if i < offset then LevelBin(0, NegInfinity, Finite(ts[0]), false)
    else if i - offset < |ts| - 1 then
      var k := i - offset;
      LevelBin(i, Finite(ts[k]), Finite(ts[k + 1]), k + 1 == |ts| - 1 && !extend.IncludesAbove())
    else LevelBin(i, Finite(ts[|ts| - 1]), PosInfinity, true)
  }

  ghost predicate ValidBins(b: LevelBins) {
    && |b.thresholds| >= 2 && StrictlyAscending(b.thresholds)
    && |b.bins| == BinCount(b.thresholds, b.extend)
    && forall i :: 0 <= i < |b.bins| ==> b.bins[i] == BinAt(b.thresholds, b.extend, i)
  }

  method WithExtend(ts: seq<real>, extend: ExtendMode) returns (r: BinsResult)
    ensures r.Ok? <==> |ts| >= 2 && StrictlyAscending(ts)
    ensures r.Ok? ==> ValidBins(r.bins) && r.bins.thresholds == ts && r.bins.extend == extend
    ensures |ts| < 2 ==> r == Err(NeedAtLeastTwoThresholds)
    ensures r.Err? && |ts| >= 2 ==>
      && r.error.LevelsNotStrictlyAscending? && r.error.index < |ts| - 1
      && r.error.previous == ts[r.error.index] && r.error.current == ts[r.error.index + 1]
      && r.error.current <= r.error.previous && StrictlyAscending(ts[..r.error.index + 1])
  {
    if |ts| < 2 {
      return Err(NeedAtLeastTwoThresholds);
    }
    for index := 0 to |ts| - 1
      invariant forall i :: 0 <= i < index ==> ts[i] < ts[i + 1]
    {
      if ts[index + 1] <= ts[index] {
        assert !(ts[index] < ts[index + 1]);
        AdjacentAscending(ts[..index + 1]);
        return Err(LevelsNotStrictlyAscending(index, ts[index], ts[index + 1]));
      }
    }
    AdjacentAscending(ts);
    var bins: seq<LevelBin> := [];
    if extend.IncludesBelow() {
      bins := bins + [LevelBin(0, NegInfinity, Finite(ts[0]), false)];
    }
    ghost var offset := |bins|;
    for pair := 0 to |ts| - 1
      invariant |bins| == offset + pair
      invariant forall i :: 0 <= i < |bins| ==> bins[i] == BinAt(ts, extend, i)
    {
      var isLastFinite := pair + 1 == |ts| - 1 && !extend.IncludesAbove();
      bins := bins + [LevelBin(|bins|, Finite(ts[pair]), Finite(ts[pair + 1]), isLastFinite)];
    }
    if extend.IncludesAbove() {
      bins := bins + [LevelBin(|bins|, Finite(ts[|ts| - 1]), PosInfinity, true)];
    }
    return Ok(LevelBins(ts, extend, bins));
  }

  /** How many leading thresholds are at most value. */
  function PartitionPoint(ts: seq<real>, value: real): (n: nat)
    ensures n <= |ts|
    ensures n < |ts| ==> ts[n] > value
    ensures forall i :: 0 <= i < n ==> ts[i] <= value
  {
    if ts == [] || ts[0] > value then 0 else 1 + PartitionPoint(ts[1..], value)
  }

  function BinIndex(b: LevelBins, value: real): Option<nat> {
    var ts := b.thresholds;
    if ts == [] then None
    else
      var last := ts[|ts| - 1];
      var offset := if b.extend.IncludesBelow() then 1 else 0;
      if value < ts[0] then
        if b.extend.IncludesBelow() then Some(0) else None
      else if value > last then
        if b.extend.IncludesAbove() then Some(if |b.bins| > 0 then |b.bins| - 1 else 0) else None
      else if value == last then
        if b.extend.IncludesAbove() then Some(if |b.bins| > 0 then |b.bins| - 1 else 0)
        else Some(offset + if |ts| >= 2 then |ts| - 2 else 0)
      else
        var p := PartitionPoint(ts, value);
        Some(offset + if p > 0 then p - 1 else 0)
  }

  /** No value lies in two bins. */
  lemma ContainsUnique(b: LevelBins, value: real, i: nat, j: nat)
    requires ValidBins(b) && i < j < |b.bins|
    ensures !(b.bins[i].Contains(value) && b.bins[j].Contains(value))
  {
    var ts, offset := b.thresholds, if b.extend.IncludesBelow() then 1 else 0;
    assert b.bins[i] == BinAt(ts, b.extend, i) && b.bins[j] == BinAt(ts, b.extend, j);
    var upper, lower := if i < offset then 0 else i - offset + 1, if j - offset < |ts| then j - offset else |ts| - 1;
    assert ts[upper] <= ts[lower];
  }

  /** The index search and the membership test agree, for every value and bin. */
  lemma BinIndexExact(b: LevelBins, value: real, i: nat)
    requires ValidBins(b)
    ensures BinIndex(b, value) == Some(i) <==> i < |b.bins| && b.bins[i].Contains(value)
  {
    var found := BinIndex(b, value);
    if found.Some? {
      var k := found.value;
      assert k < |b.bins|;
      assert b.bins[k] == BinAt(b.thresholds, b.extend, k);
      assert b.bins[k].Contains(value);
      if i < k { ContainsUnique(b, value, i, k); }
      if k < i < |b.bins| { ContainsUnique(b, value, k, i); }
    } else if i < |b.bins| {
      assert b.bins[i] == BinAt(b.thresholds, b.extend, i);
    }
  }

  /** Some bin takes a value exactly if it lies between the outer thresholds, ends
      included, or beyond one at which the mode is open. */
  lemma CoveredExactly(b: LevelBins, value: real)
    requires ValidBins(b)
    ensures (exists i: nat :: i < |b.bins| && b.bins[i].Contains(value)) <==>
      && (value >= b.thresholds[0] || b.extend == Below || b.extend == Both)
      && (value <= b.thresholds[|b.thresholds| - 1] || b.extend == Above || b.extend == Both)
  {
    hide LevelBin.Contains, ValidBins;
    BinIndexSome(b, value);
    var found := BinIndex(b, value);
    hide BinIndex;
    if found.Some? { BinIndexExact(b, value, found.value); }
    if i: nat :| i < |b.bins| && b.bins[i].Contains(value) { BinIndexExact(b, value, i); }
  }

  lemma BinIndexSome(b: LevelBins, value: real)
    requires ValidBins(b)
    ensures BinIndex(b, value).Some? <==>
      && (value >= b.thresholds[0] || b.extend == Below || b.extend == Both)
      && (value <= b.thresholds[|b.thresholds| - 1] || b.extend == Above || b.extend == Both)
  {
    var last := |b.thresholds| - 1;
    assert b.thresholds[0] < b.thresholds[last];
  }
}
