/** The missing-value operations of a Series: fillna with a scalar, dropna,
    first/last valid label, count, the cumulative sum and product, and the
    positional shift that introduces NA at the vacated end. */
module Missing {
  import opened Values
  import opened Labels
  import opened Frames

  /** `fillna(value)` on a copy: an integer Series comes back unchanged,
      otherwise exactly the missing slots take `value`. */
  function FillNAFrame(f: Frame, value: Val): (r: Frame)
    requires f.Valid()
    ensures r.Valid()
    ensures r.labels == f.labels && r.name == f.name && r.kind == f.kind
    ensures |r.values| == |f.values|
    ensures !CanHoldNA(f.kind) ==> r == f
    ensures forall i :: 0 <= i < |f.values| ==> r.values[i] == if f.values[i].NA? then value else f.values[i]
  {
    if !CanHoldNA(f.kind) then f
    else
      Frame(PutMask(f.values, NullMask(f.values), Constant(|f.values|, value)), f.labels, f.name, f.kind)
  }

  /** `notnull(arr)` as positions: exactly the non-missing positions, in
      increasing order. */
  function ValidPositions(s: seq<Val>): (p: seq<int>)
    ensures Increasing(p)
    ensures forall k :: 0 <= k < |p| ==> 0 <= p[k] < |s| && !s[p[k]].NA?
    ensures forall i :: 0 <= i < |s| && !s[i].NA? ==> i in p
    ensures |p| == CountValid(s)
  {
    var m := NotNullMask(s);
    MaskPositionsIncreasing(m);
    CountValidPositions(s);
    assert forall i :: 0 <= i < |s| && !s[i].NA? ==> i in MaskPositions(m) by {
      forall i | 0 <= i < |s| && !s[i].NA? ensures i in MaskPositions(m) {
        MaskPositionsComplete(m, i);
      }
    }
    MaskPositions(m)
  }

  /** `dropna()` / `remove_na` (`arr[notnull(arr)]`): the non-missing slots,
      in order, each with its label, and nothing else. */
  function DropNA(f: Frame): (r: Frame)
    requires f.Valid()
    ensures r.Valid() && NoNA(r.values) && r.name == f.name && r.kind == f.kind
    ensures |r.values| == CountValid(f.values)
    ensures r == Select(f, ValidPositions(f.values))
    ensures forall i :: 0 <= i < |f.values| && !f.values[i].NA? ==>
      exists k :: 0 <= k < |r.values| && r.values[k] == f.values[i] && r.labels[k] == f.labels[i]
  {
    var p := ValidPositions(f.values);
    var r := Select(f, p);
    assert NoNA(r.values);
    DropNAKeepsValid(f, p, r);
    r
  }

  /** Every non-missing slot survives the selection, with its label. */
  lemma DropNAKeepsValid(f: Frame, p: seq<int>, r: Frame)
    requires f.Valid() && p == ValidPositions(f.values) && r == Select(f, p)
    ensures forall i :: 0 <= i < |f.values| && !f.values[i].NA? ==>
      exists k :: 0 <= k < |r.values| && r.values[k] == f.values[i] && r.labels[k] == f.labels[i]
  {
    forall i | 0 <= i < |f.values| && !f.values[i].NA?
      ensures exists k :: 0 <= k < |r.values| && r.values[k] == f.values[i] && r.labels[k] == f.labels[i]
    {
      var k := IndexOf(p, i);
      assert r.values[k] == f.values[i] && r.labels[k] == f.labels[i];
    }
  }

  function IndexOf(p: seq<int>, x: int): (k: nat)
    requires x in p
    ensures k < |p| && p[k] == x
  {
    if p[0] == x then 0 else 1 + IndexOf(p[1..], x)
  }

  /** `mask.argmin()` on a boolean mask: the first false slot, or 0 when all are true. */
  function ArgMin(m: seq<bool>): (i: nat)
    requires |m| > 0
    ensures i < |m|
    ensures !m[i] ==> forall k :: 0 <= k < i ==> m[k]
    ensures m[i] ==> i == 0 && forall k :: 0 <= k < |m| ==> m[k]
  {
    if !m[0] || |m| == 1 then 0
    else
      var j := ArgMin(m[1..]);
      if m[1 + j] then 0 else 1 + j
  }

  /** `first_valid_index()`: the label of the first non-missing slot, or None. */
  function FirstValidIndex(f: Frame): (r: Option<Label>)
    requires f.Valid()
    ensures r.None? <==> forall i :: 0 <= i < |f.values| ==> f.values[i].NA?
    ensures r.Some? ==>
      exists i :: 0 <= i < |f.values| && !f.values[i].NA? && r.value == f.labels[i] &&
        (forall k :: 0 <= k < i ==> f.values[k].NA?)
  {
    if |f.values| == 0 then None
    else
      var mask := NullMask(f.values);
      var i := ArgMin(mask);
      if mask[i] then None else Some(f.labels[i])
  }

  function Reverse<T>(s: seq<T>): (r: seq<T>)
    ensures |r| == |s| && forall i :: 0 <= i < |s| ==> r[i] == s[|s| - 1 - i]
  {
    seq(|s|, i requires 0 <= i < |s| => s[|s| - 1 - i])
  }

  /** `last_valid_index()`: the label of the last non-missing slot, or None. */
  function LastValidIndex(f: Frame): (r: Option<Label>)
    requires f.Valid()
    ensures r.None? <==> forall i :: 0 <= i < |f.values| ==> f.values[i].NA?
    ensures r.Some? ==>
      exists i :: 0 <= i < |f.values| && !f.values[i].NA? && r.value == f.labels[i] &&
        (forall k :: i < k < |f.values| ==> f.values[k].NA?)
  {
    if |f.values| == 0 then None
    else
      var mask := NullMask(Reverse(f.values));
      var i := ArgMin(mask);
      ReversedArgMin(f.values);
      if mask[i] then None
      else
        var p := |f.values| - i - 1;
        assert !f.values[p].NA? && forall k :: p < k < |f.values| ==> f.values[k].NA?;
        Some(f.labels[p])
  }

  /** `argmin` of the reversed null mask, read back from the end. */
  lemma ReversedArgMin(s: seq<Val>)
    requires |s| > 0
    ensures var i := ArgMin(NullMask(Reverse(s)));
      && (NullMask(Reverse(s))[i] ==> forall k :: 0 <= k < |s| ==> s[k].NA?)
      && (!NullMask(Reverse(s))[i] ==> !s[|s| - 1 - i].NA? && forall k :: |s| - 1 - i < k < |s| ==> s[k].NA?)
  {
    var n := |s|;
    var mask := NullMask(Reverse(s));
    var i := ArgMin(mask);
    if mask[i] {
      forall k | 0 <= k < n ensures s[k].NA? { assert mask[n - 1 - k]; }
    } else {
      forall k | n - 1 - i < k < n ensures s[k].NA? { assert mask[n - 1 - k]; }
    }
  }

  datatype CumOp = CumSum | CumProd

  function Unit(op: CumOp): int {
    match op
    case CumSum => 0
    case CumProd => 1
  }

  function Step(op: CumOp, x: int, y: int): int {
    match op
    case CumSum => x + y
    case CumProd => x * y
  }

  /** The sum (or product) of the non-missing slots of `s`, from the left. */
  function Total(op: CumOp, s: seq<Val>): int {
    if s == [] then Unit(op)
    else if s[|s| - 1].NA? then Total(op, s[..|s| - 1])
    else Step(op, Total(op, s[..|s| - 1]), s[|s| - 1].n)
  }

  /** numpy `cumsum`/`cumprod` on a floating buffer: a running result in which
      NA, once met, absorbs everything after it. */
  function Running(op: CumOp, s: seq<Val>): (r: seq<Val>)
    ensures |r| == |s|
  {
    if s == [] then []
    else
      var r := Running(op, s[..|s| - 1]);
      var prev := if r == [] then V(Unit(op)) else r[|r| - 1];
      r + [if prev.NA? || s[|s| - 1].NA? then NA else V(Step(op, prev.n, s[|s| - 1].n))]
  }

  lemma {:induction false} RunningAt(op: CumOp, s: seq<Val>, i: int)
    requires 0 <= i < |s|
    ensures Running(op, s)[i] == if NoNA(s[..i + 1]) then V(Total(op, s[..i + 1])) else NA
    decreases |s|
  {
    var n := |s|;
    var s' := s[..n - 1];
    if i < n - 1 {
      RunningAt(op, s', i);
      assert s'[..i + 1] == s[..i + 1];
    } else {
      assert s[..i + 1] == s;
      var prev := if n == 1 then V(Unit(op)) else Running(op, s')[n - 2];
      assert prev == if NoNA(s') then V(Total(op, s')) else NA by {
        if n > 1 {
          RunningAt(op, s', n - 2);
          assert s'[..n - 1] == s';
        }
      }
      assert Running(op, s)[n - 1] ==
        if prev.NA? || s[n - 1].NA? then NA else V(Step(op, prev.n, s[n - 1].n));
      NoNAInit(s);
    }
  }

  /** A sequence has no missing slot iff its prefix has none and its last slot is present. */
  lemma NoNAInit(s: seq<Val>)
    requires |s| > 0
    ensures NoNA(s) <==> NoNA(s[..|s| - 1]) && !s[|s| - 1].NA?
  {
    var n := |s|;
    if NoNA(s[..n - 1]) && !s[n - 1].NA? {
      forall k | 0 <= k < n ensures !s[k].NA? {
        if k < n - 1 { assert s[k] == s[..n - 1][k]; }
      }
    }
  }

  lemma {:induction false} TotalOfFilled(op: CumOp, s: seq<Val>)
    ensures var g := PutMask(s, NullMask(s), Constant(|s|, V(Unit(op))));
      NoNA(g) && Total(op, g) == Total(op, s)
    decreases |s|
  {
    var g := PutMask(s, NullMask(s), Constant(|s|, V(Unit(op))));
    if s != [] {
      var s' := s[..|s| - 1];
      TotalOfFilled(op, s');
      assert g[..|g| - 1] == PutMask(s', NullMask(s'), Constant(|s'|, V(Unit(op))));
    }
  }

  lemma RunningNoNA(op: CumOp, s: seq<Val>)
    requires NoNA(s)
    ensures NoNA(Running(op, s))
  {
    forall i | 0 <= i < |s| ensures !Running(op, s)[i].NA? {
      RunningAt(op, s, i);
    }
  }

  /** `cumsum(skipna)` / `cumprod(skipna)`. On a floating Series with skipna
      the missing slots stay missing and the others hold the running total
      of the non-missing values so far; otherwise (skipna false) a missing
      value makes every later slot missing. The result carries no name. */
  function CumulativeFrame(f: Frame, op: CumOp, skipna: bool): (r: Frame)
    requires f.Valid()
    ensures r.Valid() && r.labels == f.labels && r.name == None && r.kind == f.kind
    ensures skipna && CanHoldNA(f.kind) ==> forall i :: 0 <= i < |f.values| ==>
      r.values[i] == if f.values[i].NA? then NA else V(Total(op, f.values[..i + 1]))
    ensures !skipna || !CanHoldNA(f.kind) ==> forall i :: 0 <= i < |f.values| ==>
      r.values[i] == if NoNA(f.values[..i + 1]) then V(Total(op, f.values[..i + 1])) else NA
  {
    var s := f.values;
    var doMask := skipna && f.kind != IntKind;
    if doMask then
      var filled := PutMask(s, NullMask(s), Constant(|s|, V(Unit(op))));
      var run := Running(op, filled);
      var vals := PutMask(run, NullMask(s), Constant(|s|, NA));
      assert forall i :: 0 <= i < |s| && !s[i].NA? ==> vals[i] == V(Total(op, s[..i + 1])) by {
        forall i | 0 <= i < |s| && !s[i].NA? ensures vals[i] == V(Total(op, s[..i + 1])) {
          FilledRunningAt(op, s, i);
        }
      }
      Frame(vals, f.labels, None, f.kind)
    else
      var vals := Running(op, s);
      assert forall i :: 0 <= i < |s| ==>
        vals[i] == if NoNA(s[..i + 1]) then V(Total(op, s[..i + 1])) else NA by {
        forall i | 0 <= i < |s| { RunningAt(op, s, i); }
      }
      if f.kind == IntKind then RunningNoNA(op, s); Frame(vals, f.labels, None, f.kind)
      else Frame(vals, f.labels, None, f.kind)
  }

  /** The running result over the NA-filled buffer is the total of the non-missing prefix. */
  lemma FilledRunningAt(op: CumOp, s: seq<Val>, i: int)
    requires 0 <= i < |s|
    ensures Running(op, PutMask(s, NullMask(s), Constant(|s|, V(Unit(op)))))[i] == V(Total(op, s[..i + 1]))
  {
    var filled := PutMask(s, NullMask(s), Constant(|s|, V(Unit(op))));
    var g := PutMask(s[..i + 1], NullMask(s[..i + 1]), Constant(i + 1, V(Unit(op))));
    assert filled[..i + 1] == g by {
      forall k | 0 <= k <= i ensures filled[..i + 1][k] == g[k] {
        assert s[..i + 1][k] == s[k];
      }
    }
    TotalOfFilled(op, s[..i + 1]);
    RunningAt(op, filled, i);
  }

  /** The buffer `shift(periods)` builds with no offset: for periods > 0 the
      first `periods` slots are NA and the rest are the leading values; for
      periods < 0 the mirror image. */
  function Shifted(s: seq<Val>, periods: int): (r: seq<Val>)
    ensures |r| == |s|
    ensures forall i :: 0 <= i < |s| ==> r[i] == if 0 <= i - periods < |s| then s[i - periods] else NA
  {
    var n := |s|;
    if periods == 0 then s
    else if periods > 0 then
      if periods >= n then Constant(n, NA) else Constant(periods, NA) + s[..n - periods]
    else
      if -periods >= n then Constant(n, NA) else s[-periods..] + Constant(-periods, NA)
  }

  /** `shift(periods)` with no frequency: same labels and name; an integer
      buffer is upcast to floating to make room for NA; periods == 0 copies. */
  function ShiftFrame(f: Frame, periods: int): (r: Frame)
    requires f.Valid()
    ensures r.Valid() && r.labels == f.labels && r.name == f.name
    ensures periods == 0 ==> r == f
    ensures r.values == Shifted(f.values, periods)
  {
    if periods == 0 then f
    else Frame(Shifted(f.values, periods), f.labels, f.name, FloatKind)
  }

  /** Two shifts in the same direction add up. */
  lemma ShiftTwice(s: seq<Val>, p: int, q: int)
    requires (p >= 0 && q >= 0) || (p <= 0 && q <= 0)
    ensures Shifted(Shifted(s, p), q) == Shifted(s, p + q)
  {
  }

  /** Shifting back restores every value that was not pushed off the end. */
  lemma ShiftBack(s: seq<Val>, p: int, i: int)
    requires 0 <= i < |s| && 0 <= i + p < |s|
    ensures Shifted(Shifted(s, p), -p)[i] == s[i]
  {
  }
}
