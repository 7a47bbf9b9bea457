/** A Series as a value: the value buffer, the labels, the optional name and
    the element kind, with the invariant every Series keeps. The primitive
    buffer operations of numpy that the Series methods are written with
    (putmask, boolean selection, fancy assignment) are defined here once. */
module Frames {
  import opened Values
  import opened Labels

  datatype Frame = Frame(values: seq<Val>, labels: seq<Label>, name: Option<string>, kind: Kind) {
    /** `len(values) == len(index)`, and an integer buffer holds no NA. */
    predicate Valid() {
      |values| == |labels| && (kind == IntKind ==> NoNA(values))
    }
  }

  /** A Series of booleans (the result of a comparison, or a where condition). */
  datatype BoolSeries = BoolSeries(bits: seq<bool>, labels: seq<Label>, name: Option<string>) {
    predicate Valid() { |bits| == |labels| }
  }

  /** `_maybe_match_name`: the result keeps a name only when both sides carry it. */
  function MatchName(a: Option<string>, b: Option<string>): (r: Option<string>)
    ensures r.Some? <==> a.Some? && a == b
    ensures r.Some? ==> r == a && r == b
  {
    if a == b then a else None
  }

  /** `get(label, default)`: the value at the first position holding the
      label, or the default when the label is absent. */
  function Get(f: Frame, x: Label, default: Val): (r: Val)
    requires f.Valid()
    ensures x !in f.labels ==> r == default
    ensures x in f.labels ==>
      exists p :: 0 <= p < |f.labels| && f.labels[p] == x && r == f.values[p] &&
        forall q :: 0 <= q < p ==> f.labels[q] != x
  {
    var p := Locate(f.labels, x);
    if p == -1 then default else f.values[p]
  }

  lemma GetUnique(f: Frame, p: int, default: Val)
    requires f.Valid() && Unique(f.labels) && 0 <= p < |f.labels|
    ensures Get(f, f.labels[p], default) == f.values[p]
  {
    var q := Locate(f.labels, f.labels[p]);
    assert q <= p;
  }

  /** A buffer of `n` copies of `v` (numpy broadcasting of a scalar). */
  function Constant(n: nat, v: Val): (r: seq<Val>)
    ensures |r| == n && forall i :: 0 <= i < n ==> r[i] == v
  {
    seq(n, i => v)
  }

  /** `np.putmask(s, mask, src)`: slot i takes `src[i]` where `mask[i]` holds. */
  function PutMask(s: seq<Val>, mask: seq<bool>, src: seq<Val>): (r: seq<Val>)
    requires |mask| == |s| && |src| == |s|
    ensures |r| == |s|
    ensures forall i :: 0 <= i < |s| ==> r[i] == if mask[i] then src[i] else s[i]
  {
    if s == [] then []
    else [if mask[0] then src[0] else s[0]] + PutMask(s[1..], mask[1..], src[1..])
  }

  predicate Increasing(p: seq<int>) {
    forall j, k :: 0 <= j < k < |p| ==> p[j] < p[k]
  }

  /** In an increasing list no entry is repeated later on, so a scatter
      through it writes every listed slot once. */
  lemma IncreasingWritesOnce(p: seq<int>)
    requires Increasing(p)
    ensures forall k :: 0 <= k < |p| ==> p[k] !in p[k + 1..]
  {
    forall k | 0 <= k < |p| ensures p[k] !in p[k + 1..] {
      var later := p[k + 1..];
      assert forall m :: 0 <= m < |later| ==> later[m] == p[k + 1 + m] > p[k];
    }
  }

  /** `np.arange(n)[mask]`: the positions where the mask holds, in order. */
  function MaskPositions(m: seq<bool>): (p: seq<int>)
    ensures |p| <= |m|
    ensures forall k :: 0 <= k < |p| ==> 0 <= p[k] < |m| && m[p[k]]
  {
    if m == [] then []
    else
      var q := MaskPositions(m[..|m| - 1]);
      if m[|m| - 1] then q + [|m| - 1] else q
  }

  /** The selected positions are in increasing order. */
  lemma {:induction false} MaskPositionsIncreasing(m: seq<bool>)
    ensures Increasing(MaskPositions(m))
    decreases |m|
  {
    if m != [] {
      MaskPositionsIncreasing(m[..|m| - 1]);
    }
  }

  /** Every position where the mask holds is selected. */
  lemma {:induction false} MaskPositionsComplete(m: seq<bool>, i: int)
    requires 0 <= i < |m| && m[i]
    ensures i in MaskPositions(m)
    decreases |m|
  {
    if i < |m| - 1 {
      MaskPositionsComplete(m[..|m| - 1], i);
    }
  }

  /** `count()` is the number of positions `notnull` selects. */
  lemma {:induction false} CountValidPositions(s: seq<Val>)
    ensures CountValid(s) == |MaskPositions(NotNullMask(s))|
    decreases |s|
  {
    if s != [] {
      CountValidPositions(s[..|s| - 1]);
      assert NotNullMask(s)[..|s| - 1] == NotNullMask(s[..|s| - 1]);
    }
  }

  /** `Series(values[p], index=index[p], name=name)` for in-range positions `p`. */
  function Select(f: Frame, p: seq<int>): (r: Frame)
    requires f.Valid()
    requires forall k :: 0 <= k < |p| ==> 0 <= p[k] < |f.values|
    ensures r.Valid() && r.name == f.name && r.kind == f.kind
    ensures |r.values| == |p|
    ensures forall k :: 0 <= k < |p| ==> r.values[k] == f.values[p[k]] && r.labels[k] == f.labels[p[k]]
  {
    Frame(seq(|p|, k requires 0 <= k < |p| => f.values[p[k]]),
          seq(|p|, k requires 0 <= k < |p| => f.labels[p[k]]), f.name, f.kind)
  }

  /** numpy's reading of a position: negative positions count from the end. */
  function Wrap(i: int, n: nat): int {
    if i < 0 then i + n else i
  }

  predicate InBounds(ps: seq<int>, n: nat) {
    forall k :: 0 <= k < |ps| ==> -(n as int) <= ps[k] < n
  }

  function WrapAll(ps: seq<int>, n: nat): (r: seq<int>)
    requires InBounds(ps, n)
    ensures |r| == |ps|
    ensures forall k :: 0 <= k < |ps| ==> 0 <= r[k] < n && r[k] == Wrap(ps[k], n)
  {
    seq(|ps|, k requires 0 <= k < |ps| => Wrap(ps[k], n))
  }

  /** numpy fancy assignment `s[ps] = src`: the writes happen in order, so a
      position listed twice keeps the last value written to it. */
  function Scatter(s: seq<Val>, ps: seq<int>, src: seq<Val>): (r: seq<Val>)
    requires |ps| == |src|
    requires forall k :: 0 <= k < |ps| ==> 0 <= ps[k] < |s|
    ensures |r| == |s|
    ensures forall q :: 0 <= q < |s| && q !in ps ==> r[q] == s[q]
    ensures forall k :: 0 <= k < |ps| && ps[k] !in ps[k + 1..] ==> r[ps[k]] == src[k]
    decreases |ps|
  {
    if ps == [] then s
    else
      var r := Scatter(s[ps[0] := src[0]], ps[1..], src[1..]);
      assert forall k :: 1 <= k < |ps| ==> ps[k + 1..] == ps[1..][k..];
      r
  }

  /** Writing non-missing values into a buffer without NA leaves no NA. */
  lemma {:induction false} ScatterNoNA(s: seq<Val>, ps: seq<int>, src: seq<Val>)
    requires |ps| == |src| && forall k :: 0 <= k < |ps| ==> 0 <= ps[k] < |s|
    requires NoNA(s) && NoNA(src)
    ensures NoNA(Scatter(s, ps, src))
    decreases |ps|
  {
    if ps != [] {
      ScatterNoNA(s[ps[0] := src[0]], ps[1..], src[1..]);
    }
  }
}
