/** The binary alignment engine and the operator families built on it:
    `_reindex_indexer`, `align`, `reindex`, the arithmetic wrapper, the
    flexible `_binop` with its exclusive-or fill rule, and the comparison and
    boolean operators, which pair values by position without aligning. */
module Alignment {
  import opened Values
  import opened Labels
  import opened Frames
  import opened Missing

  /** `_reindex_indexer(new_index, indexer, copy)`: with no indexer the Series
      comes back as it is; otherwise its values are gathered through the
      indexer onto the new labels, NA where the indexer holds -1. */
  function ReindexIndexer(f: Frame, newLabels: seq<Label>, indexer: Option<seq<int>>): (r: Frame)
    requires f.Valid()
    requires indexer.Some? ==> Positions(indexer.value, |f.values|) && |indexer.value| == |newLabels|
    ensures r.Valid() && r.name == f.name
    ensures indexer.None? ==> r == f
    ensures indexer.Some? ==> r.labels == newLabels
  {
    match indexer
    case None => f
    case Some(idx) =>
      var vals := Take(f.values, idx, NA);
      Frame(vals, newLabels, f.name, Upcast(f.kind, vals))
  }

  /** One side of a join, reindexed: at each joined label, the value the
      Series holds at that label, or NA when it lacks the label. */
  lemma {:induction false} SideAtLabel(f: Frame, joined: seq<Label>, side: Option<seq<int>>, k: int)
    requires f.Valid() && Unique(f.labels) && JoinSide(side, joined, f.labels)
    requires 0 <= k < |joined|
    ensures side.Some? ==> Positions(side.value, |f.values|)
    ensures ReindexIndexer(f, joined, side).values[k] == Get(f, joined[k], NA)
  {
    match side {
      case None =>
        GetUnique(f, k, NA);
      case Some(idx) =>
        GathersUnique(idx, joined, f.labels);
    }
  }

  /** `align(other, join, fill_value=fill)`: both Series reindexed onto the
      joined labels through the join's indexers, then, when a fill value is
      given, their missing slots filled with it. */
  function Align(a: Frame, b: Frame, j: Join, fill: Option<Val>): (r: (Frame, Frame))
    requires a.Valid() && b.Valid() && JoinFits(j, a.labels, b.labels)
    ensures r.0.Valid() && r.1.Valid()
    ensures r.0.labels == j.labels && r.1.labels == j.labels
    ensures r.0.name == a.name && r.1.name == b.name
  {
    var left := ReindexIndexer(a, j.labels, j.left);
    var right := ReindexIndexer(b, j.labels, j.right);
    match fill
    case None => (left, right)
    case Some(v) => (FillNAFrame(left, v), FillNAFrame(right, v))
  }

  /** With unique labels on both sides, the aligned pair holds at every joined
      label the value each side has there; a side that lacks the label (or
      holds NA there) contributes NA, or the fill value when one is given. */
  lemma AlignAtLabel(a: Frame, b: Frame, j: Join, fill: Option<Val>, k: int)
    requires a.Valid() && b.Valid() && JoinFits(j, a.labels, b.labels)
    requires Unique(a.labels) && Unique(b.labels) && 0 <= k < |j.labels|
    ensures var va := Get(a, j.labels[k], NA);
      Align(a, b, j, fill).0.values[k] == if va.NA? && fill.Some? then fill.value else va
    ensures var vb := Get(b, j.labels[k], NA);
      Align(a, b, j, fill).1.values[k] == if vb.NA? && fill.Some? then fill.value else vb
  {
    SideAtLabel(a, j.labels, j.left, k);
    SideAtLabel(b, j.labels, j.right, k);
  }

  /** `reindex(index, fill_value=fill)` with the index's own lookup `idx`
      (`index.reindex` / `get_indexer`) given as input: None raises; an equal
      index short-circuits to a copy; an empty Series gives all NA (the fill
      value is not used there); otherwise values are gathered, with `fill`
      for labels the Series lacks. */
  function Reindex(f: Frame, target: Option<seq<Label>>, idx: seq<int>, fill: Val): (r: Result<Frame>)
    requires f.Valid()
    requires target.Some? ==> Gathers(idx, target.value, f.labels)
    ensures r.Ok? <==> target.Some?
    ensures r.Err? ==> r.error == InvalidIndex
    ensures r.Ok? ==> r.value.Valid() && r.value.labels == target.value && r.value.name == f.name
    ensures r.Ok? && f.labels == target.value ==> r.value == f
    ensures r.Ok? && |f.labels| == 0 ==> forall k :: 0 <= k < |target.value| ==> r.value.values[k].NA?
  {
    match target
    case None => Err(InvalidIndex)
    case Some(t) =>
      if f.labels == t then Ok(f)
      else if |f.labels| == 0 then Ok(Frame(Constant(|t|, NA), t, f.name, FloatKind))
      else
        var vals := Take(f.values, idx, fill);
        Ok(Frame(vals, t, f.name, Upcast(f.kind, vals)))
  }

  /** With unique source labels, reindexing puts at each new label the value
      the Series holds there, and `fill` where it lacks the label. */
  lemma ReindexAtLabel(f: Frame, t: seq<Label>, idx: seq<int>, fill: Val, k: int)
    requires f.Valid() && Gathers(idx, t, f.labels) && Unique(f.labels) && 0 <= k < |t|
    requires |f.labels| > 0
    ensures Reindex(f, Some(t), idx, fill).value.values[k] == Get(f, t[k], fill)
  {
    if f.labels == t {
      GetUnique(f, k, fill);
    } else {
      GathersUnique(idx, t, f.labels);
    }
  }

  datatype Operand = SeriesArg(f: Frame) | ScalarArg(v: Val)

  function ScalarKind(v: Val): Kind {
    if v.NA? then FloatKind else IntKind
  }

  function ZipOp(op: (int, int) -> int, xs: seq<Val>, ys: seq<Val>): (r: seq<Val>)
    requires |xs| == |ys|
    ensures |r| == |xs| && forall i :: 0 <= i < |xs| ==> r[i] == ApplyOp(op, xs[i], ys[i])
  {
    seq(|xs|, i requires 0 <= i < |xs| => ApplyOp(op, xs[i], ys[i]))
  }

  /** The operands of an elementwise operation between two Series: both as
      they are when their labels are equal (the fast path), otherwise both
      reindexed by the outer join. */
  function Operands(a: Frame, b: Frame, j: Join): (r: (Frame, Frame))
    requires a.Valid() && b.Valid() && JoinFits(j, a.labels, b.labels)
    ensures r.0.Valid() && r.1.Valid() && r.0.labels == r.1.labels
    ensures r.0.labels == if a.labels == b.labels then a.labels else j.labels
  {
    if a.labels == b.labels then (a, b) else Align(a, b, j, None)
  }

  lemma OperandsAtLabel(a: Frame, b: Frame, j: Join, k: int)
    requires a.Valid() && b.Valid() && JoinFits(j, a.labels, b.labels)
    requires Unique(a.labels) && Unique(b.labels)
    requires 0 <= k < |Operands(a, b, j).0.labels|
    ensures var (l, r) := Operands(a, b, j);
      l.values[k] == Get(a, l.labels[k], NA) && r.values[k] == Get(b, l.labels[k], NA)
  {
    if a.labels == b.labels {
      GetUnique(a, k, NA);
      GetUnique(b, k, NA);
    } else {
      AlignAtLabel(a, b, j, None, k);
    }
  }

  /** The arithmetic wrapper (`s + t`, `s - t`, `s * t`, ...) with a numpy
      operator on floating buffers: against a Series, the operands are paired
      through `Operands` and the name kept only when both share it; against
      a scalar, the scalar is broadcast and the labels and name kept. */
  function Arith(a: Frame, other: Operand, j: Join, op: (int, int) -> int): (r: Frame)
    requires a.Valid()
    requires other.SeriesArg? ==> other.f.Valid() && JoinFits(j, a.labels, other.f.labels)
    ensures r.Valid()
    ensures other.ScalarArg? ==> r.labels == a.labels && r.name == a.name
    ensures other.ScalarArg? ==>
      forall i :: 0 <= i < |a.values| ==> r.values[i] == ApplyOp(op, a.values[i], other.v)
    ensures other.SeriesArg? ==> r.name == MatchName(a.name, other.f.name)
    ensures other.SeriesArg? ==>
      r.labels == if a.labels == other.f.labels then a.labels else j.labels
  {
    match other
    case ScalarArg(s) =>
      Frame(ZipOp(op, a.values, Constant(|a.values|, s)), a.labels, a.name, JoinKinds(a.kind, ScalarKind(s)))
    case SeriesArg(b) =>
      var (l, r) := Operands(a, b, j);
      Frame(ZipOp(op, l.values, r.values), l.labels, MatchName(a.name, b.name), JoinKinds(l.kind, r.kind))
  }

  /** With unique labels, the result at every label is the operator applied
      to the values both Series hold there, and NA where either lacks it. */
  lemma ArithAtLabel(a: Frame, b: Frame, j: Join, op: (int, int) -> int, k: int)
    requires a.Valid() && b.Valid() && JoinFits(j, a.labels, b.labels)
    requires Unique(a.labels) && Unique(b.labels)
    requires 0 <= k < |Arith(a, SeriesArg(b), j, op).labels|
    ensures var r := Arith(a, SeriesArg(b), j, op);
      r.values[k] == ApplyOp(op, Get(a, r.labels[k], NA), Get(b, r.labels[k], NA))
  {
    OperandsAtLabel(a, b, j, k);
  }

  /** One slot of `_binop` with `fill_value`: where exactly one side is
      missing that side takes the fill value; where both are missing the
      result stays missing. */
  function FillApply(op: (int, int) -> int, x: Val, y: Val, fill: Option<Val>): (r: Val)
    ensures x.NA? && y.NA? ==> r.NA?
    ensures !x.NA? && !y.NA? ==> r == V(op(x.n, y.n))
    ensures fill.Some? && x.NA? && !y.NA? ==> r == ApplyOp(op, fill.value, y)
    ensures fill.Some? && !x.NA? && y.NA? ==> r == ApplyOp(op, x, fill.value)
    ensures fill.None? ==> r == ApplyOp(op, x, y)
  {
    var oneMissing := fill.Some? && x.NA? != y.NA?;
    var x' := if oneMissing && x.NA? then fill.value else x;
    var y' := if oneMissing && y.NA? then fill.value else y;
    ApplyOp(op, x', y')
  }

  /** The Series `_binop(other, func, fill_value=fill)` returns for a Series operand. */
  function BinopFrame(a: Frame, b: Frame, j: Join, op: (int, int) -> int, fill: Option<Val>): (r: Frame)
    requires a.Valid() && b.Valid() && JoinFits(j, a.labels, b.labels)
    ensures r.Valid() && r.name == MatchName(a.name, b.name)
    ensures r.labels == if a.labels == b.labels then a.labels else j.labels
  {
    var (l, rr) := Operands(a, b, j);
    var vals := seq(|l.values|, i requires 0 <= i < |l.values| => FillApply(op, l.values[i], rr.values[i], fill));
    Frame(vals, l.labels, MatchName(a.name, b.name), JoinKinds(l.kind, rr.kind))
  }

  /** With unique labels, `_binop` applies the exclusive-or fill rule to the
      values both Series hold at each label of the outer join. */
  lemma BinopAtLabel(a: Frame, b: Frame, j: Join, op: (int, int) -> int, fill: Option<Val>, k: int)
    requires a.Valid() && b.Valid() && JoinFits(j, a.labels, b.labels)
    requires Unique(a.labels) && Unique(b.labels)
    requires 0 <= k < |BinopFrame(a, b, j, op, fill).labels|
    ensures var r := BinopFrame(a, b, j, op, fill);
      r.values[k] == FillApply(op, Get(a, r.labels[k], NA), Get(b, r.labels[k], NA), fill)
  {
    OperandsAtLabel(a, b, j, k);
  }

  /** Without a fill value, `_binop` is the arithmetic wrapper. */
  lemma BinopWithoutFill(a: Frame, b: Frame, j: Join, op: (int, int) -> int)
    requires a.Valid() && b.Valid() && JoinFits(j, a.labels, b.labels)
    ensures BinopFrame(a, b, j, op, None) == Arith(a, SeriesArg(b), j, op)
  {
  }

  datatype CmpOperand = CmpSeries(f: Frame) | CmpArray(vs: seq<Val>) | CmpScalar(v: Val)

  /** numpy's shape rule for an elementwise operand of `n` slots: the same
      length, or a single slot, which is broadcast. */
  predicate Broadcastable(n: nat, m: nat) {
    m == n || m == 1
  }

  predicate CmpFits(a: Frame, other: CmpOperand) {
    match other
    case CmpSeries(b) => Broadcastable(|a.values|, |b.values|)
    case CmpArray(vs) => Broadcastable(|a.values|, |vs|)
    case CmpScalar(_) => true
  }

  /** Slot `i` of a sequence broadcast to `n` slots. */
  function Spread<T>(vs: seq<T>, n: nat, i: int): T
    requires Broadcastable(n, |vs|) && 0 <= i < n
  {
    if |vs| == n then vs[i] else vs[0]
  }

  function CmpAt(a: Frame, other: CmpOperand, i: int): Val
    requires CmpFits(a, other) && 0 <= i < |a.values|
  {
    match other
    case CmpSeries(b) => Spread(b.values, |a.values|, i)
    case CmpArray(vs) => Spread(vs, |a.values|, i)
    case CmpScalar(v) => v
  }

  /** The comparison wrapper (`<`, `<=`, `>`, `>=`, `==`, `!=`): values are
      paired BY POSITION, never aligned, a one-slot operand being broadcast,
      and the result carries the caller's labels. An operand of another
      length raises; a scalar goes through `lib.convert_scalar` first, which
      refuses NA against an integer buffer. */
  function Compare(a: Frame, other: CmpOperand, op: CmpOp): (r: Result<BoolSeries>)
    requires a.Valid()
    ensures r.Ok? <==> CmpFits(a, other) && !(other.CmpScalar? && other.v.NA? && a.kind == IntKind)
    ensures r.Err? && !CmpFits(a, other) ==> r.error == ShapeMismatch
    ensures r.Err? && CmpFits(a, other) ==> r.error == UnrepresentableMissing
    ensures r.Ok? ==> r.value.Valid() && r.value.labels == a.labels
    ensures r.Ok? ==> r.value.name == if other.CmpSeries? then MatchName(a.name, other.f.name) else a.name
    ensures r.Ok? ==> forall i :: 0 <= i < |a.values| ==>
      r.value.bits[i] == CompareVals(op, a.values[i], CmpAt(a, other, i))
  {
    if !CmpFits(a, other) then Err(ShapeMismatch)
    else if other.CmpScalar? && other.v.NA? && a.kind == IntKind then Err(UnrepresentableMissing)
    else
      var bits := seq(|a.values|, i requires 0 <= i < |a.values| => CompareVals(op, a.values[i], CmpAt(a, other, i)));
      var name := if other.CmpSeries? then MatchName(a.name, other.f.name) else a.name;
      Ok(BoolSeries(bits, a.labels, name))
  }

  /** Comparing with a one-slot array is comparing with its value as a scalar. */
  lemma CompareBroadcast(a: Frame, v: Val, op: CmpOp)
    requires a.Valid()
    ensures Compare(a, CmpArray([v]), op).Ok?
    ensures Compare(a, CmpScalar(v), op).Ok? ==>
      Compare(a, CmpArray([v]), op) == Compare(a, CmpScalar(v), op)
  {
    var n := |a.values|;
    if Compare(a, CmpScalar(v), op).Ok? {
      var x := Compare(a, CmpArray([v]), op).value.bits;
      var y := Compare(a, CmpScalar(v), op).value.bits;
      forall i | 0 <= i < n ensures x[i] == y[i] {
        assert CmpAt(a, CmpArray([v]), i) == v;
      }
      assert x == y;
    }
  }

  datatype BoolOperand = BoolSeriesArg(m: BoolSeries) | BoolScalarArg(b: bool)

  /** The boolean wrapper (`&`, `|`, `^`) on boolean Series: positional, like
      the comparisons, a one-slot Series being broadcast, with the name kept
      only when both share it. */
  function Logical(a: BoolSeries, other: BoolOperand, op: BoolOp): (r: Result<BoolSeries>)
    requires a.Valid()
    ensures r.Ok? <==> (other.BoolSeriesArg? ==> Broadcastable(|a.bits|, |other.m.bits|))
    ensures r.Err? ==> r.error == ShapeMismatch
    ensures r.Ok? ==> r.value.Valid() && r.value.labels == a.labels
    ensures r.Ok? ==> r.value.name == if other.BoolSeriesArg? then MatchName(a.name, other.m.name) else a.name
    ensures r.Ok? ==> forall i :: 0 <= i < |a.bits| ==>
      r.value.bits[i] == ApplyBool(op, a.bits[i], if other.BoolSeriesArg? then Spread(other.m.bits, |a.bits|, i) else other.b)
  {
    match other
    case BoolScalarArg(y) =>
      Ok(BoolSeries(seq(|a.bits|, i requires 0 <= i < |a.bits| => ApplyBool(op, a.bits[i], y)), a.labels, a.name))
    case BoolSeriesArg(m) =>
      if !Broadcastable(|a.bits|, |m.bits|) then Err(ShapeMismatch)
      else
        Ok(BoolSeries(seq(|a.bits|, i requires 0 <= i < |a.bits| => ApplyBool(op, a.bits[i], Spread(m.bits, |a.bits|, i))),
                      a.labels, MatchName(a.name, m.name)))
  }
}
