/** Combining a Series with another: `combine` (a per-label loop with a
    user function), `combine_first` (the caller's values, the other's where
    the caller is missing), `update` (the other's non-missing values written
    over the caller's) and `where` / `mask` (the caller's values where a
    condition holds, a replacement elsewhere). */
module Combining {
  import opened Values
  import opened Labels
  import opened Frames
  import opened Missing
  import opened Alignment
  import opened Access
  import opened Sorting

  /** Reindexing with an NA fill puts at each new label the value the Series
      holds there, NA when it lacks the label; with unique labels this holds
      whatever the length of the source, the empty one included. */
  lemma ReindexNAAtLabel(f: Frame, t: seq<Label>, idx: seq<int>, k: int)
    requires f.Valid() && Gathers(idx, t, f.labels) && Unique(f.labels) && 0 <= k < |t|
    ensures Reindex(f, Some(t), idx, NA).value.values[k] == Get(f, t[k], NA)
  {
    if |f.labels| > 0 {
      ReindexAtLabel(f, t, idx, NA, k);
    }
  }

  /** `combine_first(other)`: both Series reindexed onto the union of their
      labels (`u`, with each side's lookup `ia`, `ib` given as input), then
      `np.where(isnull(this), other, this)`; the name survives only when
      both share it. */
  function CombineFirstFrame(a: Frame, b: Frame, u: seq<Label>, ia: seq<int>, ib: seq<int>): (r: Frame)
    requires a.Valid() && b.Valid() && Gathers(ia, u, a.labels) && Gathers(ib, u, b.labels)
    ensures r.Valid() && r.labels == u && r.name == MatchName(a.name, b.name)
  {
    var mine := Reindex(a, Some(u), ia, NA).value;
    var other := Reindex(b, Some(u), ib, NA).value;
    var vals := seq(|u|, k requires 0 <= k < |u| =>
      if mine.values[k].NA? then other.values[k] else mine.values[k]);
    Frame(vals, u, MatchName(a.name, b.name), JoinKinds(mine.kind, other.kind))
  }

  /** With unique labels, `combine_first` holds at every label the caller's
      value when it has a non-missing one there, and otherwise the other's
      value (NA when neither has one). */
  lemma CombineFirstAtLabel(a: Frame, b: Frame, u: seq<Label>, ia: seq<int>, ib: seq<int>, k: int)
    requires a.Valid() && b.Valid() && Gathers(ia, u, a.labels) && Gathers(ib, u, b.labels)
    requires Unique(a.labels) && Unique(b.labels) && 0 <= k < |u|
    ensures var va := Get(a, u[k], NA);
      CombineFirstFrame(a, b, u, ia, ib).values[k] == if va.NA? then Get(b, u[k], NA) else va
  {
    ReindexNAAtLabel(a, u, ia, k);
    ReindexNAAtLabel(b, u, ib, k);
  }

  /** On the union of the labels, every non-missing value of the caller
      survives at its label, and every label of the other Series where the
      caller holds nothing gets the other's value. */
  lemma CombineFirstKeepsCaller(a: Frame, b: Frame, u: seq<Label>, ia: seq<int>, ib: seq<int>, p: int)
    requires a.Valid() && b.Valid() && Gathers(ia, u, a.labels) && Gathers(ib, u, b.labels)
    requires Unique(a.labels) && Unique(b.labels) && Unique(u) && IsUnion(u, a.labels, b.labels)
    requires 0 <= p < |a.labels| && !a.values[p].NA?
    ensures a.labels[p] in u
    ensures Get(CombineFirstFrame(a, b, u, ia, ib), a.labels[p], NA) == a.values[p]
  {
    var x := a.labels[p];
    var k := Locate(u, x);
    assert x in u;
    GetUnique(a, p, NA);
    CombineFirstAtLabel(a, b, u, ia, ib, k);
    GetUnique(CombineFirstFrame(a, b, u, ia, ib), k, NA);
  }

  /** The other operand of `combine`: a Series, with the union of both label
      sets (`self.index + other.index`), or a scalar. */
  datatype CombineArg = CombineSeries(b: Frame, u: seq<Label>) | CombineScalar(v: Val)

  /** The value `combine` writes for the label `x`: `func` applied to what
      each Series answers for `x`, the fill value where one lacks it. */
  function CombineAt(a: Frame, b: Frame, func: (Val, Val) -> Val, fill: Val, x: Label): Val
    requires a.Valid() && b.Valid()
  {
    func(Get(a, x, fill), Get(b, x, fill))
  }

  /** `combine(other, func, fill_value)`. Against a Series it fills a buffer
      of the caller's kind label by label over the union, which raises when
      an integer buffer is handed NA; against a scalar it applies `func`
      slot by slot and keeps the labels and the name. */
  function CombineFrame(a: Frame, other: CombineArg, func: (Val, Val) -> Val, fill: Val): (r: Result<Frame>)
    requires a.Valid() && (other.CombineSeries? ==> other.b.Valid())
    ensures other.CombineScalar? ==>
      && r.Ok? && r.value.Valid() && r.value.labels == a.labels && r.value.name == a.name
      && (forall i :: 0 <= i < |a.values| ==> r.value.values[i] == func(a.values[i], other.v))
    ensures other.CombineSeries? ==>
      (r.Err? <==>
        a.kind == IntKind && exists i :: 0 <= i < |other.u| && CombineAt(a, other.b, func, fill, other.u[i]).NA?)
    ensures r.Err? ==> r.error == UnrepresentableMissing
    ensures other.CombineSeries? && r.Ok? ==>
      && r.value.Valid() && r.value.labels == other.u && r.value.kind == a.kind
      && r.value.name == MatchName(a.name, other.b.name)
      && (forall i :: 0 <= i < |other.u| ==> r.value.values[i] == CombineAt(a, other.b, func, fill, other.u[i]))
  {
    match other
    case CombineScalar(v) =>
      var vals := seq(|a.values|, i requires 0 <= i < |a.values| => func(a.values[i], v));
      Ok(Frame(vals, a.labels, a.name, Upcast(a.kind, vals)))
    case CombineSeries(b, u) =>
      var vals := seq(|u|, i requires 0 <= i < |u| => CombineAt(a, b, func, fill, u[i]));
      assert forall i :: 0 <= i < |u| ==> vals[i] == CombineAt(a, b, func, fill, u[i]);
      if a.kind == IntKind && !NoNA(vals) then Err(UnrepresentableMissing)
      else Ok(Frame(vals, u, MatchName(a.name, b.name), a.kind))
  }

  /** `combine` with an arithmetic operator and NA as fill value, over the
      labels of the outer join, is the arithmetic wrapper: on floating
      buffers both give the same Series. */
  lemma CombineIsArith(a: Frame, b: Frame, j: Join, op: (int, int) -> int)
    requires a.Valid() && b.Valid() && JoinFits(j, a.labels, b.labels)
    requires Unique(a.labels) && Unique(b.labels) && a.labels != b.labels && a.kind == FloatKind
    ensures var r := CombineFrame(a, CombineSeries(b, j.labels), (x, y) => ApplyOp(op, x, y), NA);
      r.Ok? && r.value.values == Arith(a, SeriesArg(b), j, op).values &&
      r.value.labels == Arith(a, SeriesArg(b), j, op).labels &&
      r.value.name == Arith(a, SeriesArg(b), j, op).name
  {
    var r := CombineFrame(a, CombineSeries(b, j.labels), (x, y) => ApplyOp(op, x, y), NA).value;
    var s := Arith(a, SeriesArg(b), j, op);
    forall k | 0 <= k < |j.labels| ensures r.values[k] == s.values[k] {
      ArithAtLabel(a, b, j, op, k);
    }
  }

  /** `update(other)`: the other Series reindexed like the caller (`idx` is
      the lookup of the caller's labels in the other's), and its non-missing
      values put over the caller's (`np.putmask(values, notnull(other), other)`). */
  function UpdateFrame(f: Frame, o: Frame, idx: seq<int>): (r: Frame)
    requires f.Valid() && o.Valid() && Gathers(idx, f.labels, o.labels)
    ensures r.Valid() && r.labels == f.labels && r.name == f.name && r.kind == f.kind
    ensures |r.values| == |f.values|
  {
    var aligned := Reindex(o, Some(f.labels), idx, NA).value;
    Frame(PutMask(f.values, NotNullMask(aligned.values), aligned.values), f.labels, f.name, f.kind)
  }

  /** With unique labels on the other Series, `update` writes at a position
      exactly when the other holds a non-missing value at its label, and
      then that value; every other position keeps its value. */
  lemma UpdateAtLabel(f: Frame, o: Frame, idx: seq<int>, i: int)
    requires f.Valid() && o.Valid() && Gathers(idx, f.labels, o.labels) && Unique(o.labels)
    requires 0 <= i < |f.values|
    ensures var v := Get(o, f.labels[i], NA);
      UpdateFrame(f, o, idx).values[i] == if v.NA? then f.values[i] else v
  {
    ReindexNAAtLabel(o, f.labels, idx, i);
  }

  /** Updating twice with the same Series changes nothing more. */
  lemma UpdateIdempotent(f: Frame, o: Frame, idx: seq<int>)
    requires f.Valid() && o.Valid() && Gathers(idx, f.labels, o.labels)
    ensures UpdateFrame(UpdateFrame(f, o, idx), o, idx) == UpdateFrame(f, o, idx)
  {
    var g := UpdateFrame(f, o, idx);
    var h := UpdateFrame(g, o, idx);
    var aligned := Reindex(o, Some(f.labels), idx, NA).value;
    assert h.values == g.values by {
      forall i | 0 <= i < |f.values| ensures h.values[i] == g.values[i] {
        if aligned.values[i].NA? {
          assert g.values[i] == f.values[i];
        }
      }
    }
  }

  /** A Series updated with itself is unchanged. */
  lemma UpdateWithItself(f: Frame, idx: seq<int>)
    requires f.Valid() && Gathers(idx, f.labels, f.labels)
    ensures UpdateFrame(f, f, idx) == f
  {
    var g := UpdateFrame(f, f, idx);
    assert g.values == f.values;
  }

  function Invert(bits: seq<bool>): (r: seq<bool>)
    ensures |r| == |bits| && forall i :: 0 <= i < |bits| ==> r[i] == !bits[i]
  {
    seq(|bits|, i requires 0 <= i < |bits| => !bits[i])
  }

  /** The condition of `where`: a boolean array, a boolean Series with the
      lookup of the caller's labels in its own, or a plain list (which has
      no shape). */
  datatype Cond = CondArray(bits: seq<bool>) | CondSeries(m: BoolSeries, idx: seq<int>) | CondList(bits: seq<bool>)

  predicate CondFits(f: Frame, cond: Cond) {
    cond.CondSeries? ==> cond.m.Valid() && Gathers(cond.idx, f.labels, cond.m.labels)
  }

  /** A condition Series reindexed onto the caller's labels with `True` for
      labels it lacks; None when the condition Series is empty and the labels
      differ, where reindexing yields an all-NaN buffer that `~` refuses. */
  function ReindexedCond(f: Frame, cond: Cond): (r: Option<seq<bool>>)
    requires f.Valid() && CondFits(f, cond) && !cond.CondList?
    ensures cond.CondArray? ==> r == Some(cond.bits)
    ensures cond.CondSeries? ==> (r.None? <==> cond.m.labels != f.labels && |cond.m.labels| == 0)
    ensures cond.CondSeries? && r.Some? ==> |r.value| == |f.labels|
  {
    match cond
    case CondArray(bits) => Some(bits)
    case CondSeries(m, idx) =>
      if m.labels == f.labels then Some(m.bits)
      else if |m.labels| == 0 then None
      else Some(Take(m.bits, idx, true))
  }

  /** With unique labels on a condition Series, the condition at each of the
      caller's labels is the Series' bit there, or true when it lacks the label. */
  lemma ReindexedCondAtLabel(f: Frame, m: BoolSeries, idx: seq<int>, k: int)
    requires f.Valid() && CondFits(f, CondSeries(m, idx)) && Unique(m.labels)
    requires ReindexedCond(f, CondSeries(m, idx)).Some? && 0 <= k < |f.labels|
    ensures ReindexedCond(f, CondSeries(m, idx)).value[k] ==
      if f.labels[k] in m.labels then m.bits[Locate(m.labels, f.labels[k])] else true
  {
    if m.labels == f.labels {
      LocateUnique(m.labels, k);
    } else {
      GathersUnique(idx, f.labels, m.labels);
      GathersPositions(idx, f.labels, m.labels);
      var p := idx[k];
      assert p == Locate(m.labels, f.labels[k]);
      assert ReindexedCond(f, CondSeries(m, idx)).value == Take(m.bits, idx, true);
    }
  }

  /** The replacement of `where`: a scalar, a sequence, or a Series with the
      lookup of the caller's labels in its own. */
  datatype Other = OtherScalar(v: Val) | OtherArray(vs: seq<Val>) | OtherSeries(o: Frame, idx: seq<int>)

  predicate OtherFits(f: Frame, other: Other) {
    other.OtherSeries? ==> other.o.Valid() && Gathers(other.idx, f.labels, other.o.labels)
  }

  /** The replacement buffer of a sequence replacement: the array itself, or
      the Series reindexed onto the caller's labels with NA fill. */
  function OtherValues(f: Frame, other: Other): (r: seq<Val>)
    requires f.Valid() && OtherFits(f, other) && !other.OtherScalar?
    ensures other.OtherArray? ==> r == other.vs
    ensures other.OtherSeries? ==> |r| == |f.values|
  {
    match other
    case OtherArray(vs) => vs
    case OtherSeries(o, idx) => Reindex(o, Some(f.labels), idx, NA).value.values
  }

  /** Whether `where` goes through without raising: the condition has a
      shape and the caller's length, `~` applies to it, a sequence
      replacement has the caller's length, and no NA would be stored in an
      integer buffer. */
  predicate WhereSucceeds(f: Frame, cond: Cond, other: Other)
    requires f.Valid() && CondFits(f, cond) && OtherFits(f, other)
  {
    && !cond.CondList?
    && ReindexedCond(f, cond).Some?
    && |ReindexedCond(f, cond).value| == |f.values|
    && (other.OtherScalar? ==> (f.kind == IntKind ==> !other.v.NA?))
    && (!other.OtherScalar? ==>
          var c, o := ReindexedCond(f, cond).value, OtherValues(f, other);
          && |o| == |f.values|
          && (f.kind == IntKind ==> forall i :: 0 <= i < |f.values| && !c[i] ==> !o[i].NA?))
  }

  /** `_set_with(~keep, v)` with a boolean key: `v` written wherever `keep`
      fails, refused up front when NA meets an integer buffer. */
  function SetWhere(s: seq<Val>, kind: Kind, keep: seq<bool>, v: Val): (r: Result<seq<Val>>)
    requires |keep| == |s| && (kind == IntKind ==> NoNA(s))
    ensures r.Ok? <==> (kind == IntKind ==> !v.NA?)
    ensures r.Err? ==> r.error == UnrepresentableMissing
    ensures r.Ok? ==> |r.value| == |s| && (kind == IntKind ==> NoNA(r.value))
    ensures r.Ok? ==> forall i :: 0 <= i < |s| ==> r.value[i] == if keep[i] then s[i] else v
  {
    var written := WriteAt(s, kind, MaskPositions(Invert(keep)), One(v));
    WriteAtMask(s, kind, Invert(keep), v);
    written
  }

  /** `np.putmask(ser, ~keep, o)`, reporting NA stored in an integer buffer. */
  function PutWhere(s: seq<Val>, kind: Kind, keep: seq<bool>, o: seq<Val>): (r: Result<seq<Val>>)
    requires |keep| == |s| && |o| == |s| && (kind == IntKind ==> NoNA(s))
    ensures r.Ok? <==> (kind == IntKind ==> forall i :: 0 <= i < |s| && !keep[i] ==> !o[i].NA?)
    ensures r.Err? ==> r.error == UnrepresentableMissing
    ensures r.Ok? ==> |r.value| == |s| && (kind == IntKind ==> NoNA(r.value))
    ensures r.Ok? ==> forall i :: 0 <= i < |s| ==> r.value[i] == if keep[i] then s[i] else o[i]
  {
    var w := PutMask(s, Invert(keep), o);
    if kind == IntKind && !NoNA(w) then Err(UnrepresentableMissing) else Ok(w)
  }

  /** The replacement `where` offers at position `i`. */
  function OtherAt(f: Frame, other: Other, i: int): Val
    requires f.Valid() && OtherFits(f, other) && 0 <= i
    requires !other.OtherScalar? ==> i < |OtherValues(f, other)|
  {
    if other.OtherScalar? then other.v else OtherValues(f, other)[i]
  }

  /** `where(cond, other)` on a copy. The checks run in the source's order:
      no shape, then the length of the condition; a scalar replacement is
      written through `_set_with(~cond, other)`, a sequence one, after its
      length check, through `np.putmask(ser, ~cond, other)`. */
  function WhereFrame(f: Frame, cond: Cond, other: Other): (r: Result<Frame>)
    requires f.Valid() && CondFits(f, cond) && OtherFits(f, other)
    ensures r.Ok? <==> WhereSucceeds(f, cond, other)
    ensures cond.CondList? ==> r == Err(NotArrayLike)
    ensures cond.CondArray? && |cond.bits| != |f.values| ==> r == Err(ShapeMismatch)
    ensures other.OtherArray? && cond.CondArray? && |cond.bits| == |f.values| && |other.vs| != |f.values| ==>
      r == Err(ShapeMismatch)
    ensures r.Ok? ==>
      && r.value.Valid() && r.value.labels == f.labels && r.value.name == f.name && r.value.kind == f.kind
      && (forall i :: 0 <= i < |f.values| ==>
            r.value.values[i] == if ReindexedCond(f, cond).value[i] then f.values[i] else OtherAt(f, other, i))
  {
    if cond.CondList? then Err(NotArrayLike)
    else
      var rc := ReindexedCond(f, cond);
      var n := |f.values|;
      if rc.Some? && |rc.value| != n then Err(ShapeMismatch)
      else if other.OtherScalar? then
        if rc.None? then Err(BadOperandType)
        else
          match SetWhere(f.values, f.kind, rc.value, other.v)
          case Err(e) => Err(e)
          case Ok(w) => Ok(Frame(w, f.labels, f.name, f.kind))
      else
        var o := OtherValues(f, other);
        if |o| != n then Err(ShapeMismatch)
        else if rc.None? then Err(BadOperandType)
        else
          match PutWhere(f.values, f.kind, rc.value, o)
          case Err(e) => Err(e)
          case Ok(w) => Ok(Frame(w, f.labels, f.name, f.kind))
  }

  /** A condition that holds everywhere leaves the Series as it is. */
  lemma WhereAllTrue(f: Frame, bits: seq<bool>, other: Other)
    requires f.Valid() && OtherFits(f, other) && |bits| == |f.values|
    requires forall i :: 0 <= i < |bits| ==> bits[i]
    requires WhereFrame(f, CondArray(bits), other).Ok?
    ensures WhereFrame(f, CondArray(bits), other).value == f
  {
    var r := WhereFrame(f, CondArray(bits), other).value;
    assert r.values == f.values;
  }

  /** `~cond` as `mask` computes it before calling `where`; `~` on a list raises. */
  function InvertCond(cond: Cond): (r: Result<Cond>)
    ensures cond.CondList? <==> r.Err?
    ensures r.Err? ==> r.error == BadOperandType
    ensures cond.CondArray? ==> r == Ok(CondArray(Invert(cond.bits)))
    ensures cond.CondSeries? ==> r == Ok(CondSeries(cond.m.(bits := Invert(cond.m.bits)), cond.idx))
  {
    match cond
    case CondList(_) => Err(BadOperandType)
    case CondArray(bits) => Ok(CondArray(Invert(bits)))
    case CondSeries(m, idx) => Ok(CondSeries(m.(bits := Invert(m.bits)), idx))
  }

  /** `mask(cond)`: `where(~cond, nan)`. */
  function MaskFrame(f: Frame, cond: Cond): (r: Result<Frame>)
    requires f.Valid() && CondFits(f, cond)
    ensures cond.CondList? ==> r == Err(BadOperandType)
    ensures r.Ok? ==> r.value.Valid() && r.value.labels == f.labels && r.value.name == f.name
  {
    match InvertCond(cond)
    case Err(e) => Err(e)
    case Ok(c) => WhereFrame(f, c, OtherScalar(NA))
  }

  /** On a floating Series, `mask` with a boolean array of the right length
      puts NA exactly where the array holds and keeps every other value. */
  lemma MaskAt(f: Frame, bits: seq<bool>)
    requires f.Valid() && f.kind == FloatKind && |bits| == |f.values|
    ensures MaskFrame(f, CondArray(bits)).Ok?
    ensures forall i :: 0 <= i < |f.values| ==>
      MaskFrame(f, CondArray(bits)).value.values[i] == if bits[i] then NA else f.values[i]
  {
  }

  /** On an integer Series `mask` always raises: NA cannot be assigned to it. */
  lemma MaskRefusesInteger(f: Frame, cond: Cond)
    requires f.Valid() && CondFits(f, cond) && f.kind == IntKind
    ensures MaskFrame(f, cond).Err?
  {
  }

  /** With a condition Series, `mask` keeps the value at every label the
      condition lacks: the inverted Series is reindexed with `True`. */
  lemma MaskKeepsAbsentLabels(f: Frame, m: BoolSeries, idx: seq<int>, k: int)
    requires f.Valid() && CondFits(f, CondSeries(m, idx)) && Unique(m.labels)
    requires MaskFrame(f, CondSeries(m, idx)).Ok? && 0 <= k < |f.values|
    ensures MaskFrame(f, CondSeries(m, idx)).value.values[k] ==
      if f.labels[k] in m.labels && m.bits[Locate(m.labels, f.labels[k])] then NA else f.values[k]
  {
    var m' := m.(bits := Invert(m.bits));
    ReindexedCondAtLabel(f, m', idx, k);
  }
}
