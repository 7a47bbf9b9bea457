/** The Series object: a mutable value buffer, the labels and the name. The
    methods that write the buffer in place (`update`, `where`, `fillna`,
    `replace`, `set_value`, `__setitem__`, `sort`) and those that build a
    buffer slot by slot or slice by slice (`_binop`, `combine`, `order`,
    `shift`) are proved against the value-level definitions of the other
    modules. */
module SeriesClass {
  import opened Values
  import opened Labels
  import opened Frames
  import opened Missing
  import opened Alignment
  import opened Access
  import opened Sorting
  import opened Combining
  import opened Replacing
  import opened Renaming

  /** One side of `_binop`'s exclusive-or fill: a missing slot takes the fill
      value only when the slot on the other side is present. */
  function FillSide(x: Val, y: Val, fill: Option<Val>): (r: Val)
    ensures r.NA? ==> x.NA?
    ensures !x.NA? ==> r == x
  {
    if fill.Some? && x.NA? && !y.NA? then fill.value else x
  }

  /** `FillSide` slot by slot. */
  function FilledSide(xs: seq<Val>, ys: seq<Val>, fill: Option<Val>): (r: seq<Val>)
    requires |xs| == |ys|
    ensures |r| == |xs| && forall k :: 0 <= k < |xs| ==> r[k] == FillSide(xs[k], ys[k], fill)
  {
    seq(|xs|, k requires 0 <= k < |xs| => FillSide(xs[k], ys[k], fill))
  }

  /** The fill step of `_binop`: copies of both buffers, then where exactly
      one side is missing, that side takes the fill value. */
  method FillMissing(xs: seq<Val>, ys: seq<Val>, fill: Option<Val>) returns (thisVals: array<Val>, otherVals: array<Val>)
    requires |xs| == |ys|
    ensures fresh(thisVals) && fresh(otherVals)
    ensures thisVals[..] == FilledSide(xs, ys, fill) && otherVals[..] == FilledSide(ys, xs, fill)
  {
    var n := |xs|;
    thisVals := new Val[n](i requires 0 <= i < n => xs[i]);
    otherVals := new Val[n](i requires 0 <= i < n => ys[i]);
    if fill.Some? {
      var i := 0;
      while i < n
        invariant 0 <= i <= n
        invariant forall k :: 0 <= k < i ==>
          thisVals[k] == FillSide(xs[k], ys[k], fill) && otherVals[k] == FillSide(ys[k], xs[k], fill)
        invariant forall k :: i <= k < n ==> thisVals[k] == xs[k] && otherVals[k] == ys[k]
      {
        var thisMask, otherMask := thisVals[i].NA?, otherVals[i].NA?;
        var mask := thisMask != otherMask;
        if thisMask && mask {
          thisVals[i] := fill.value;
        }
        if otherMask && mask {
          otherVals[i] := fill.value;
        }
        i := i + 1;
      }
    }
  }

  /** The loop of `combine` against a Series: `func` applied label by label
      over the union into a buffer of the caller's kind, stopping at the
      first missing result an integer buffer cannot hold. */
  method CombineBuffer(a: Frame, b: Frame, u: seq<Label>, func: (Val, Val) -> Val, fill: Val) returns (r: Result<array<Val>>)
    requires a.Valid() && b.Valid()
    ensures r.Err? <==> a.kind == IntKind && exists i :: 0 <= i < |u| && CombineAt(a, b, func, fill, u[i]).NA?
    ensures r.Err? ==> r.error == UnrepresentableMissing
    ensures r.Ok? ==> fresh(r.value) && r.value.Length == |u|
    ensures r.Ok? ==> forall k :: 0 <= k < |u| ==> r.value[k] == CombineAt(a, b, func, fill, u[k])
  {
    var newValues := new Val[|u|];
    var i := 0;
    while i < |u|
      invariant 0 <= i <= |u|
      invariant forall k :: 0 <= k < i ==> newValues[k] == CombineAt(a, b, func, fill, u[k])
      invariant a.kind == IntKind ==> forall k :: 0 <= k < i ==> !CombineAt(a, b, func, fill, u[k]).NA?
    {
      var lv := Get(a, u[i], fill);
      var rv := Get(b, u[i], fill);
      var v := func(lv, rv);
      if a.kind == IntKind && v.NA? {
        return Err(UnrepresentableMissing);
      }
      newValues[i] := v;
      i := i + 1;
    }
    r := Ok(newValues);
  }

  /** `buf[:] = src`: every slot of the buffer overwritten, in order. */
  method AssignAll(buf: array<Val>, src: seq<Val>)
    requires buf.Length == |src|
    modifies buf
    ensures buf[..] == src
  {
    var i := 0;
    while i < buf.Length
      invariant 0 <= i <= buf.Length
      invariant forall k :: 0 <= k < i ==> buf[k] == src[k]
    {
      buf[i] := src[i];
      i := i + 1;
    }
  }

  /** The `sortedIdx` buffer of `order`: the slice `sortedIdx[gs:gs+n_good]`
      receives `g` and the slice `sortedIdx[bs:bs+n_bad]` receives `b`. */
  method FillSortedIdx(g: seq<int>, b: seq<int>, naLast: bool) returns (sortedIdx: array<int>)
    ensures fresh(sortedIdx) && sortedIdx[..] == Place(g, b, naLast)
  {
    var gs, bs := GoodStart(naLast, |b|), BadStart(naLast, |g|);
    sortedIdx := new int[|g| + |b|];
    var k := 0;
    while k < |g|
      invariant 0 <= k <= |g|
      invariant forall q :: gs <= q < gs + k ==> sortedIdx[q] == g[q - gs]
    {
      sortedIdx[gs + k] := g[k];
      k := k + 1;
    }
    k := 0;
    while k < |b|
      invariant 0 <= k <= |b|
      invariant forall q :: gs <= q < gs + |g| ==> sortedIdx[q] == g[q - gs]
      invariant forall q :: bs <= q < bs + k ==> sortedIdx[q] == b[q - bs]
    {
      sortedIdx[bs + k] := b[k];
      k := k + 1;
    }
  }

  /** Filling each side and then applying the operator is the fill rule of `_binop`. */
  lemma FillSidesApply(op: (int, int) -> int, x: Val, y: Val, fill: Option<Val>)
    ensures ApplyOp(op, FillSide(x, y, fill), FillSide(y, x, fill)) == FillApply(op, x, y, fill)
  {
  }

  class Series {
    const values: array<Val>
    var labels: seq<Label>
    var name: Option<string>
    const kind: Kind

    /** `len(values) == len(index)`, and an integer buffer holds no NA. */
    predicate Valid()
      reads this, values
    {
      values.Length == |labels| && (kind == IntKind ==> NoNA(values[..]))
    }

    /** The Series as a value. */
    function Snapshot(): (f: Frame)
      reads this, values
      ensures Valid() ==> f.Valid()
    {
      Frame(values[..], labels, name, kind)
    }

    /** `Series(values, index, name)` over a fresh copy of the buffer. */
    constructor (f: Frame)
      requires f.Valid()
      ensures Valid() && Snapshot() == f && fresh(values)
    {
      values := new Val[|f.values|](i requires 0 <= i < |f.values| => f.values[i]);
      labels := f.labels;
      name := f.name;
      kind := f.kind;
    }

    /** `copy()`: a new Series over a new buffer with the same contents. */
    method Copy() returns (s: Series)
      requires Valid()
      ensures fresh(s) && fresh(s.values) && s.Valid() && s.Snapshot() == Snapshot()
    {
      s := new Series(Snapshot());
    }

    /** `np.putmask(values, mask, src)` on the buffer itself. */
    method PutMaskInPlace(mask: seq<bool>, src: seq<Val>)
      requires values.Length == |mask| == |src|
      modifies values
      ensures values[..] == PutMask(old(values[..]), mask, src)
    {
      var i := 0;
      while i < values.Length
        invariant 0 <= i <= values.Length
        invariant forall k :: 0 <= k < i ==> values[k] == if mask[k] then src[k] else old(values[k])
        invariant forall k :: i <= k < values.Length ==> values[k] == old(values[k])
      {
        if mask[i] {
          values[i] := src[i];
        }
        i := i + 1;
      }
    }

    /** `_binop(other, func, fill_value)`: copies of both aligned buffers get
        the fill value in the slots missing on exactly one side, then the
        operator is applied; an operand that is not a Series raises. */
    method Binop(other: Operand, j: Join, op: (int, int) -> int, fill: Option<Val>) returns (r: Result<Series>)
      requires Valid()
      requires other.SeriesArg? ==> other.f.Valid() && JoinFits(j, labels, other.f.labels)
      ensures other.ScalarArg? ==> r == Err(NotASeries)
      ensures other.SeriesArg? ==>
        r.Ok? && fresh(r.value) && r.value.Valid() && r.value.Snapshot() == BinopFrame(Snapshot(), other.f, j, op, fill)
    {
      if other.ScalarArg? {
        return Err(NotASeries);
      }
      var me := Snapshot();
      var pair := Operands(me, other.f, j);
      var l, rr := pair.0, pair.1;
      var n := |l.values|;
      var thisVals, otherVals := FillMissing(l.values, rr.values, fill);
      var result := ZipOp(op, thisVals[..], otherVals[..]);
      var f := Frame(result, l.labels, MatchName(name, other.f.name), JoinKinds(l.kind, rr.kind));
      assert f == BinopFrame(me, other.f, j, op, fill) by {
        forall k | 0 <= k < n ensures result[k] == FillApply(op, l.values[k], rr.values[k], fill) {
          FillSidesApply(op, l.values[k], rr.values[k], fill);
        }
      }
      var s := new Series(f);
      r := Ok(s);
    }

    /** `combine(other, func, fill_value)`: against a Series, a buffer of the
        caller's kind filled label by label over the union, stopping with an
        error at the first NA an integer buffer cannot take; against a
        scalar, `func` applied to the whole buffer. */
    method Combine(other: CombineArg, func: (Val, Val) -> Val, fill: Val) returns (r: Result<Series>)
      requires Valid() && (other.CombineSeries? ==> other.b.Valid())
      ensures r.Ok? <==> CombineFrame(Snapshot(), other, func, fill).Ok?
      ensures r.Err? ==> r.error == UnrepresentableMissing
      ensures r.Ok? ==> fresh(r.value) && r.value.Valid() && r.value.Snapshot() == CombineFrame(Snapshot(), other, func, fill).value
    {
      var me := Snapshot();
      match other
      case CombineScalar(v) =>
        var s := new Series(CombineFrame(me, other, func, fill).value);
        r := Ok(s);
      case CombineSeries(b, u) =>
        var filled := CombineBuffer(me, b, u, func, fill);
        if filled.Err? {
          return Err(filled.error);
        }
        var f := Frame(filled.value[..], u, MatchName(name, b.name), kind);
        assert f == CombineFrame(me, other, func, fill).value;
        var s := new Series(f);
        r := Ok(s);
    }

    /** `update(other)`: the other Series reindexed like this one, and its
        non-missing values written over this buffer in place. */
    method Update(o: Frame, idx: seq<int>)
      requires Valid() && o.Valid() && Gathers(idx, labels, o.labels)
      modifies values
      ensures Valid() && Snapshot() == UpdateFrame(old(Snapshot()), o, idx)
    {
      var aligned := Reindex(o, Some(labels), idx, NA).value;
      PutMaskInPlace(NotNullMask(aligned.values), aligned.values);
    }

    /** `_set_values(ps, value)`: `values[ps] = convert_scalar(values, value)`,
        one write per listed position, in order; nothing is written when the
        value is refused. */
    method SetValues(ps: seq<int>, value: Assigned) returns (err: Option<Error>)
      requires Valid() && forall k :: 0 <= k < |ps| ==> 0 <= ps[k] < values.Length
      modifies values
      ensures Valid()
      ensures var w := WriteAt(old(values[..]), kind, ps, value);
        && (w.Err? ==> err == Some(w.error) && values[..] == old(values[..]))
        && (w.Ok? ==> err.None? && values[..] == w.value)
    {
      err := CheckAssigned(kind, |ps|, value);
      if err.Some? {
        return;
      }
      var src := Sources(value, |ps|);
      ghost var s0 := values[..];
      var k := 0;
      while k < |ps|
        invariant 0 <= k <= |ps|
        invariant Scatter(values[..], ps[k..], src[k..]) == Scatter(s0, ps, src)
      {
        ghost var before := values[..];
        values[ps[k]] := src[k];
        assert values[..] == before[ps[k] := src[k]];
        assert ps[k..][1..] == ps[k + 1..] && src[k..][1..] == src[k + 1..];
        k := k + 1;
      }
      assert ps[k..] == [] && src[k..] == [];
      assert values[..] == Scatter(s0, ps, src);
      if kind == IntKind {
        ScatterNoNA(s0, ps, src);
      }
    }

    /** `__setitem__(key, value)`: the positions the key names, then `_set_values`. */
    method SetItem(key: SetKey, value: Assigned) returns (err: Option<Error>)
      requires Valid() && SetKeyFits(Snapshot(), key)
      modifies values
      ensures Valid()
      ensures var t := SetItemTargets(old(Snapshot()), key);
        && (t.Err? ==> err == Some(t.error) && values[..] == old(values[..]))
        && (t.Ok? ==> var w := WriteAt(old(values[..]), kind, t.value, value);
              && (w.Err? ==> err == Some(w.error) && values[..] == old(values[..]))
              && (w.Ok? ==> err.None? && values[..] == w.value))
    {
      var t := SetItemTargets(Snapshot(), key);
      if t.Err? {
        return Some(t.error);
      }
      err := SetValues(t.value, value);
    }

    /** `set_value(label, value)`: a present label is written in place, at
        every position holding it, and the same Series returned; an absent label gives a new Series one slot
        longer and leaves this one untouched. */
    method SetValue(x: Label, v: Val) returns (r: Result<Series>)
      requires Valid()
      modifies values
      ensures Valid()
      ensures var w := SetValueFrame(old(Snapshot()), x, v);
        && (w.Err? ==> r == Err(w.error) && values[..] == old(values[..]))
        && (w.Ok? && x in labels ==> r == Ok(this) && Snapshot() == w.value)
        && (w.Ok? && x !in labels ==>
              r.Ok? && fresh(r.value) && r.value.Valid() && r.value.Snapshot() == w.value &&
              values[..] == old(values[..]))
    {
      if x in labels {
        var err := SetValues(LabelPositions(labels, x), One(v));
        if err.Some? {
          return Err(err.value);
        }
        return Ok(this);
      }
      var vals := values[..] + [v];
      var s := new Series(Frame(vals, labels + [x], name, Upcast(kind, vals)));
      r := Ok(s);
    }

    /** `where(cond, other, inplace=True)`: the checks, then either
        `_set_with(~cond, other)` for a scalar or `np.putmask` for a
        sequence; nothing is written when a check fails. */
    method WhereInPlace(cond: Cond, other: Other) returns (err: Option<Error>)
      requires Valid() && CondFits(Snapshot(), cond) && OtherFits(Snapshot(), other)
      modifies values
      ensures Valid()
      ensures var w := WhereFrame(old(Snapshot()), cond, other);
        && (w.Err? ==> err == Some(w.error) && values[..] == old(values[..]))
        && (w.Ok? ==> err.None? && Snapshot() == w.value)
    {
      var me := Snapshot();
      if cond.CondList? {
        return Some(NotArrayLike);
      }
      var rc := ReindexedCond(me, cond);
      var n := values.Length;
      if rc.Some? && |rc.value| != n {
        return Some(ShapeMismatch);
      }
      if other.OtherScalar? {
        if rc.None? {
          return Some(BadOperandType);
        }
        err := SetValues(MaskPositions(Invert(rc.value)), One(other.v));
      } else {
        var o := OtherValues(me, other);
        if |o| != n {
          return Some(ShapeMismatch);
        }
        if rc.None? {
          return Some(BadOperandType);
        }
        var keep := rc.value;
        if kind == IntKind && !NoNA(PutMask(values[..], Invert(keep), o)) {
          return Some(UnrepresentableMissing);
        }
        PutMaskInPlace(Invert(keep), o);
        err := None;
      }
    }

    /** `where(cond, other)` on a copy. */
    method Where(cond: Cond, other: Other) returns (r: Result<Series>)
      requires Valid() && CondFits(Snapshot(), cond) && OtherFits(Snapshot(), other)
      ensures var w := WhereFrame(Snapshot(), cond, other);
        && (w.Err? ==> r == Err(w.error))
        && (w.Ok? ==> r.Ok? && fresh(r.value) && r.value.Valid() && r.value.Snapshot() == w.value)
    {
      var s := Copy();
      var err := s.WhereInPlace(cond, other);
      if err.Some? {
        r := Err(err.value);
      } else {
        r := Ok(s);
      }
    }

    /** `mask(cond)`: `where(~cond, nan)`. */
    method Mask(cond: Cond) returns (r: Result<Series>)
      requires Valid() && CondFits(Snapshot(), cond)
      ensures var w := MaskFrame(Snapshot(), cond);
        && (w.Err? ==> r == Err(w.error))
        && (w.Ok? ==> r.Ok? && fresh(r.value) && r.value.Valid() && r.value.Snapshot() == w.value)
    {
      match InvertCond(cond)
      case Err(e) =>
        r := Err(e);
      case Ok(c) =>
        r := Where(c, OtherScalar(NA));
    }

    /** `fillna(value, inplace=True)`: nothing happens to an integer Series;
        otherwise the missing slots take `value` through `np.putmask`. */
    method FillNAInPlace(value: Val)
      requires Valid()
      modifies values
      ensures Valid() && Snapshot() == FillNAFrame(old(Snapshot()), value)
    {
      if !CanHoldNA(kind) {
        return;
      }
      PutMaskInPlace(NullMask(values[..]), Constant(values.Length, value));
    }

    /** `fillna(value)`: the same on a copy; this Series is not touched. */
    method FillNA(value: Val) returns (r: Series)
      requires Valid()
      ensures fresh(r) && r.Valid() && r.Snapshot() == FillNAFrame(Snapshot(), value)
    {
      r := Copy();
      r.FillNAInPlace(value);
    }

    /** `_rep_one(self, srcs, v)`. */
    method RepOneInPlace(srcs: seq<Val>, v: Val)
      modifies values
      ensures values[..] == RepOne(old(values[..]), srcs, v)
    {
      PutMaskInPlace(MatchMask(values[..], srcs), Constant(values.Length, v));
    }

    /** `_rep_dict(self, pairs)`: when some destination is also a source, all
        masks are taken before the first write; otherwise `_rep_one` runs
        item by item. */
    method RepDictInPlace(pairs: seq<Pair>)
      requires DistinctKeys(pairs)
      modifies values
      ensures values[..] == RepDict(old(values[..]), pairs)
    {
      ghost var s0 := values[..];
      if Clobbers(pairs) {
        var masks: seq<seq<bool>> := [];
        var k := 0;
        while k < |pairs|
          invariant 0 <= k <= |pairs| && values[..] == s0
          invariant masks == Masks(s0, pairs[..k])
        {
          masks := masks + [MatchMask(values[..], [pairs[k].0])];
          k := k + 1;
        }
        assert pairs[..k] == pairs;
        k := 0;
        while k < |pairs|
          invariant 0 <= k <= |pairs| && values.Length == |s0|
          invariant ApplyMasks(values[..], masks[k..], pairs[k..]) == TwoPhase(s0, pairs)
        {
          assert masks[k..][1..] == masks[k + 1..] && pairs[k..][1..] == pairs[k + 1..];
          PutMaskInPlace(masks[k], Constant(values.Length, pairs[k].1));
          k := k + 1;
        }
        assert masks[k..] == [] && pairs[k..] == [];
      } else {
        var k := 0;
        while k < |pairs|
          invariant 0 <= k <= |pairs| && values.Length == |s0|
          invariant Sequential(values[..], pairs[k..]) == Sequential(s0, pairs)
        {
          assert pairs[k..][1..] == pairs[k + 1..];
          RepOneInPlace([pairs[k].0], pairs[k].1);
          k := k + 1;
        }
        assert pairs[k..] == [];
      }
    }

    /** `replace(to_replace, value, inplace=True)`. */
    method ReplaceInPlace(arg: ReplaceArg) returns (err: Option<Error>)
      requires Valid() && ArgFits(arg)
      modifies values
      ensures Valid()
      ensures var w := ReplaceFrame(old(Snapshot()), arg);
        && (w.Err? ==> err == Some(w.error) && values[..] == old(values[..]))
        && (w.Ok? ==> err.None? && Snapshot() == w.value)
    {
      var planned := ReplaceValues(values[..], arg);
      if planned.Err? {
        return Some(planned.error);
      }
      if kind == IntKind && !NoNA(planned.value) {
        return Some(UnrepresentableMissing);
      }
      match arg {
        case RepListArg(srcs, v) =>
          RepOneInPlace(srcs, v);
        case RepDictArg(pairs) =>
          RepDictInPlace(pairs);
        case RepListsArg(srcs, vs) =>
          RepDictInPlace(ZipDict(srcs, vs));
      }
      err := None;
    }

    /** `replace(to_replace, value)` on a copy. */
    method Replace(arg: ReplaceArg) returns (r: Result<Series>)
      requires Valid() && ArgFits(arg)
      ensures var w := ReplaceFrame(Snapshot(), arg);
        && (w.Err? ==> r == Err(w.error))
        && (w.Ok? ==> r.Ok? && fresh(r.value) && r.value.Valid() && r.value.Snapshot() == w.value)
    {
      var s := Copy();
      var err := s.ReplaceInPlace(arg);
      if err.Some? {
        r := Err(err.value);
      } else {
        r := Ok(s);
      }
    }

    /** `order(na_last, ascending)`: `sortedIdx` filled in two slices (the
        sorted non-missing positions and the missing positions, in the order
        `na_last` asks for), then `Series(arr[sortedIdx], index[sortedIdx])`. */
    method Order(naLast: bool, ascending: bool) returns (r: Series)
      requires Valid()
      ensures fresh(r) && fresh(r.values) && r.Valid() && r.Snapshot() == OrderFrame(Snapshot(), naLast, ascending)
    {
      var arr := values[..];
      CountSplit(arr);
      var sortedIdx := FillSortedIdx(GoodOrder(arr, ascending), NAPositions(arr), naLast);
      assert sortedIdx[..] == SortPermutation(arr, naLast, ascending);
      r := new Series(Select(Snapshot(), sortedIdx[..]));
    }

    /** `sort()`: `self[:] = order(na_last=True)` and `self.index` replaced by
        the sorted labels. */
    method Sort()
      requires Valid()
      modifies this, values
      ensures Valid() && Snapshot() == OrderFrame(old(Snapshot()), true, true)
    {
      ghost var target := OrderFrame(Snapshot(), true, true);
      var sorted := Order(true, true);
      var newValues := sorted.values[..];
      var newLabels := sorted.labels;
      assert target == Frame(newValues, newLabels, name, kind);
      AssignAll(values, newValues);
      labels := newLabels;
      assert Snapshot() == Frame(newValues, newLabels, name, kind);
    }

    /** `shift(periods)` with no offset: a new floating buffer written in two
        slices, the shifted values and the NA block; periods == 0 copies. */
    method Shift(periods: int) returns (r: Series)
      requires Valid()
      ensures fresh(r) && r.Valid() && r.Snapshot() == ShiftFrame(Snapshot(), periods)
    {
      if periods == 0 {
        r := Copy();
        return;
      }
      var n := values.Length;
      var newValues := new Val[n];
      if periods > 0 {
        // new_values[periods:] = values[:-periods]; new_values[:periods] = nan
        var i := periods;
        while i < n
          invariant periods <= i && (periods <= n ==> i <= n)
          invariant forall k :: periods <= k < i && k < n ==> newValues[k] == values[k - periods]
        {
          newValues[i] := values[i - periods];
          i := i + 1;
        }
        i := 0;
        while i < periods && i < n
          invariant 0 <= i <= n
          invariant forall k :: periods <= k < n ==> newValues[k] == values[k - periods]
          invariant forall k :: 0 <= k < i ==> newValues[k] == NA
        {
          newValues[i] := NA;
          i := i + 1;
        }
        assert forall k :: 0 <= k < n && k < periods ==> newValues[k] == NA;
      } else {
        // new_values[:periods] = values[-periods:]; new_values[periods:] = nan
        var cut := if n + periods < 0 then 0 else n + periods;
        var i := 0;
        while i < cut
          invariant 0 <= i <= cut
          invariant forall k :: 0 <= k < i ==> newValues[k] == values[k - periods]
        {
          newValues[i] := values[i - periods];
          i := i + 1;
        }
        i := cut;
        while i < n
          invariant cut <= i <= n
          invariant forall k :: 0 <= k < cut ==> newValues[k] == values[k - periods]
          invariant forall k :: cut <= k < i ==> newValues[k] == NA
        {
          newValues[i] := NA;
          i := i + 1;
        }
      }
      assert newValues[..] == Shifted(values[..], periods);
      r := new Series(Frame(newValues[..], labels, name, FloatKind));
    }

    /** `rename(mapper, inplace=True)`: the labels replaced by their images. */
    method RenameInPlace(mapper: Mapper)
      requires Valid()
      modifies this
      ensures Valid() && Snapshot() == RenameFrame(old(Snapshot()), mapper)
    {
      labels := MapLabels(labels, RenameFunction(mapper));
    }

    /** `rename(mapper)` on a copy. */
    method Rename(mapper: Mapper) returns (r: Series)
      requires Valid()
      ensures fresh(r) && r.Valid() && r.Snapshot() == RenameFrame(Snapshot(), mapper)
    {
      r := Copy();
      r.RenameInPlace(mapper);
    }
  }
}
