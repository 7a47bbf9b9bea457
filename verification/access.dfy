/** Label and position access: `take`, `get_value`, the key-kind decision of
    `_get_with` / `_set_with`, `_check_bool_indexer`, and the positions the
    setters `__setitem__`, `_set_labels`, `_set_values` and `set_value` write.
    What is written is defined here as values; the writes themselves are the
    methods of `SeriesClass.Series`. */
module Access {
  import opened Values
  import opened Labels
  import opened Frames
  import opened Alignment

  /** `take(indices)`: values and labels at the given positions, negative
      positions counting from the end; a position outside [-n, n) raises. */
  function TakePositions(f: Frame, indices: seq<int>): (r: Result<Frame>)
    requires f.Valid()
    ensures r.Ok? <==> InBounds(indices, |f.values|)
    ensures r.Err? ==> r.error == IndexOutOfRange
    ensures r.Ok? ==> r.value.Valid() && r.value.name == f.name && r.value.kind == f.kind
    ensures r.Ok? ==> |r.value.values| == |indices|
    ensures r.Ok? ==> forall k :: 0 <= k < |indices| ==>
      var p := Wrap(indices[k], |f.values|);
      0 <= p < |f.values| && r.value.values[k] == f.values[p] && r.value.labels[k] == f.labels[p]
  {
    if InBounds(indices, |f.values|) then Ok(Select(f, WrapAll(indices, |f.values|)))
    else Err(IndexOutOfRange)
  }

  /** `get_value(label)`: the value at the label's first position; an absent
      label raises. */
  function GetValue(f: Frame, x: Label): (r: Result<Val>)
    requires f.Valid()
    ensures r.Ok? <==> x in f.labels
    ensures r.Err? ==> r.error == KeyNotFound
    ensures r.Ok? ==> r.value == f.values[Locate(f.labels, x)]
  {
    var p := Locate(f.labels, x);
    if p == -1 then Err(KeyNotFound) else Ok(f.values[p])
  }

  /** `get(label, default)` is `get_value` with its KeyError turned into the default. */
  lemma GetIsGetValue(f: Frame, x: Label, default: Val)
    requires f.Valid()
    ensures Get(f, x, default) == if GetValue(f, x).Ok? then GetValue(f, x).value else default
  {
  }

  /** One element of a list-like key. */
  datatype KeyItem = KInt(i: int) | KBool(b: bool) | KStr(s: string)

  /** The answers of `lib.infer_dtype(key)` the dispatch distinguishes. */
  datatype KeyType = IntegerKey | BooleanKey | OtherKey

  function InferKeyType(key: seq<KeyItem>): (t: KeyType)
    ensures t == IntegerKey <==> |key| > 0 && forall x :: x in key ==> x.KInt?
    ensures t == BooleanKey <==> |key| > 0 && forall x :: x in key ==> x.KBool?
    ensures |key| == 0 ==> t == OtherKey
  {
    assert |key| > 0 ==> key[0] in key;
    if |key| > 0 && forall k :: 0 <= k < |key| ==> key[k].KInt? then IntegerKey
    else if |key| > 0 && forall k :: 0 <= k < |key| ==> key[k].KBool? then BooleanKey
    else OtherKey
  }

  /** A key element read as a label; True and False hash as 1 and 0. */
  function KeyLabel(x: KeyItem): Label {
    match x
    case KInt(i) => IntLabel(i)
    case KBool(b) => IntLabel(if b then 1 else 0)
    case KStr(s) => StrLabel(s)
  }

  function KeyLabels(key: seq<KeyItem>): (r: seq<Label>)
    ensures |r| == |key| && forall k :: 0 <= k < |key| ==> r[k] == KeyLabel(key[k])
  {
    seq(|key|, k requires 0 <= k < |key| => KeyLabel(key[k]))
  }

  function KeyInts(key: seq<KeyItem>): (r: seq<int>)
    requires forall k :: 0 <= k < |key| ==> key[k].KInt?
    ensures |r| == |key| && forall k :: 0 <= k < |key| ==> r[k] == key[k].i
  {
    seq(|key|, k requires 0 <= k < |key| => key[k].i)
  }

  function KeyBools(key: seq<KeyItem>): (r: seq<bool>)
    requires forall k :: 0 <= k < |key| ==> key[k].KBool?
    ensures |r| == |key| && forall k :: 0 <= k < |key| ==> r[k] == key[k].b
  {
    seq(|key|, k requires 0 <= k < |key| => key[k].b)
  }

  /** The dispatch rule shared by `_get_with` and `_set_with`: a key is read
      as labels when it is all integers and the index is integer-typed, or
      when it is neither all integers nor all booleans. */
  predicate ByLabel(f: Frame, key: seq<KeyItem>)
    ensures IsIntegerIndex(f.labels) ==> (ByLabel(f, key) <==> InferKeyType(key) != BooleanKey)
    ensures !IsIntegerIndex(f.labels) ==> (ByLabel(f, key) <==> InferKeyType(key) == OtherKey)
    ensures |key| == 0 ==> ByLabel(f, key)
  {
    InferKeyType(key) == OtherKey || (InferKeyType(key) == IntegerKey && IsIntegerIndex(f.labels))
  }

  /** `_get_with(key)` for a list-like key, with the index's lookup of the key
      labels (`idx`) given as input: by labels it reindexes, an all-integer
      key on a non-integer index takes positions, an all-boolean key selects
      the positions where it holds. */
  function GetWith(f: Frame, key: seq<KeyItem>, idx: seq<int>): (r: Result<Frame>)
    requires f.Valid() && Gathers(idx, KeyLabels(key), f.labels)
    ensures r.Ok? ==> r.value.Valid() && r.value.name == f.name
    ensures ByLabel(f, key) ==> r.Ok? && r.value.labels == KeyLabels(key)
    ensures InferKeyType(key) == IntegerKey && !IsIntegerIndex(f.labels) ==>
      r == TakePositions(f, KeyInts(key))
    ensures InferKeyType(key) == BooleanKey ==> (r.Ok? <==> |key| == |f.values|)
    ensures InferKeyType(key) == BooleanKey && r.Ok? ==>
      r.value == Select(f, MaskPositions(KeyBools(key)))
  {
    match InferKeyType(key)
    case IntegerKey =>
      if IsIntegerIndex(f.labels) then Reindex(f, Some(KeyLabels(key)), idx, NA)
      else TakePositions(f, KeyInts(key))
    case BooleanKey =>
      if |key| != |f.values| then Err(ShapeMismatch)
      else Ok(Select(f, MaskPositions(KeyBools(key))))
    case OtherKey => Reindex(f, Some(KeyLabels(key)), idx, NA)
  }

  /** With unique labels, a key read as labels yields at each key label the
      value the Series holds there, NA for labels it lacks. */
  lemma GetWithAtLabel(f: Frame, key: seq<KeyItem>, idx: seq<int>, k: int)
    requires f.Valid() && Gathers(idx, KeyLabels(key), f.labels) && Unique(f.labels)
    requires ByLabel(f, key) && 0 <= k < |key|
    ensures GetWith(f, key, idx).value.values[k] == Get(f, KeyLabel(key[k]), NA)
  {
    if |f.labels| > 0 {
      ReindexAtLabel(f, KeyLabels(key), idx, NA, k);
    }
  }

  /** A boolean indexer: an object array that may hold NA, or a boolean
      Series with the lookup of this Series' labels in its own. */
  datatype BoolKey = MaskArray(bits: seq<Option<bool>>) | MaskSeries(m: BoolSeries, idx: seq<int>)

  predicate BoolKeyFits(f: Frame, key: BoolKey) {
    key.MaskSeries? ==> key.m.Valid() && Gathers(key.idx, f.labels, key.m.labels)
  }

  /** `_check_bool_indexer(key)`: a boolean Series on another index is first
      reindexed to this one; a mask that holds NA (an NA in the array, or a
      label the Series key lacks) raises. */
  function CheckBoolIndexer(f: Frame, key: BoolKey): (r: Result<seq<bool>>)
    requires f.Valid() && BoolKeyFits(f, key)
    ensures r.Err? ==> r.error == NAInMask
    ensures key.MaskArray? ==> (r.Ok? <==> forall k :: 0 <= k < |key.bits| ==> key.bits[k].Some?)
    ensures key.MaskArray? && r.Ok? ==>
      |r.value| == |key.bits| && forall k :: 0 <= k < |key.bits| ==> key.bits[k] == Some(r.value[k])
    ensures key.MaskSeries? ==>
      (r.Ok? <==> key.m.labels == f.labels || forall k :: 0 <= k < |f.labels| ==> f.labels[k] in key.m.labels)
    ensures key.MaskSeries? && r.Ok? ==> |r.value| == |f.labels|
  {
    match key
    case MaskArray(bits) =>
      if forall k :: 0 <= k < |bits| ==> bits[k].Some? then
        Ok(seq(|bits|, k requires 0 <= k < |bits| => bits[k].value))
      else Err(NAInMask)
    case MaskSeries(m, idx) =>
      if m.labels == f.labels then Ok(m.bits)
      else if forall k :: 0 <= k < |idx| ==> idx[k] != -1 then Ok(Take(m.bits, idx, false))
      else Err(NAInMask)
  }

  /** With unique labels on the key Series, each accepted mask bit is the
      key's bit at the same label. */
  lemma CheckBoolIndexerAtLabel(f: Frame, m: BoolSeries, idx: seq<int>, k: int)
    requires f.Valid() && BoolKeyFits(f, MaskSeries(m, idx)) && Unique(m.labels)
    requires CheckBoolIndexer(f, MaskSeries(m, idx)).Ok? && 0 <= k < |f.labels|
    ensures f.labels[k] in m.labels
    ensures CheckBoolIndexer(f, MaskSeries(m, idx)).value[k] == m.bits[Locate(m.labels, f.labels[k])]
  {
    if m.labels == f.labels {
      var p := Locate(m.labels, f.labels[k]);
      assert p <= k;
    } else {
      GathersUnique(idx, f.labels, m.labels);
    }
  }

  /** The positions `_set_with(key, value)` writes for a list-like key: by
      labels through `_set_labels`, which raises before any write when a key
      label is absent; by positions for an all-integer key on a non-integer
      index; at the positions where an all-boolean key holds. */
  function SetWithTargets(f: Frame, key: seq<KeyItem>, idx: seq<int>): (r: Result<seq<int>>)
    requires f.Valid() && Gathers(idx, KeyLabels(key), f.labels)
    ensures r.Ok? ==> forall k :: 0 <= k < |r.value| ==> 0 <= r.value[k] < |f.values|
    ensures ByLabel(f, key) ==> (r.Ok? <==> forall k :: 0 <= k < |key| ==> KeyLabel(key[k]) in f.labels)
    ensures ByLabel(f, key) && r.Ok? ==>
      |r.value| == |key| && forall k :: 0 <= k < |key| ==> f.labels[r.value[k]] == KeyLabel(key[k])
    ensures ByLabel(f, key) && r.Err? ==> r.error == KeyNotFound
    ensures InferKeyType(key) == IntegerKey && !IsIntegerIndex(f.labels) ==>
      (r.Ok? <==> InBounds(KeyInts(key), |f.values|)) &&
      (r.Ok? ==> r.value == WrapAll(KeyInts(key), |f.values|))
    ensures InferKeyType(key) == BooleanKey ==>
      (r.Ok? <==> |key| == |f.values|) && (r.Ok? ==> r.value == MaskPositions(KeyBools(key)))
  {
    var n := |f.values|;
    if ByLabel(f, key) then
      if forall k :: 0 <= k < |idx| ==> idx[k] != -1 then Ok(idx) else Err(KeyNotFound)
    else if InferKeyType(key) == IntegerKey then
      if InBounds(KeyInts(key), n) then Ok(WrapAll(KeyInts(key), n)) else Err(IndexOutOfRange)
    else
      if |key| == n then Ok(MaskPositions(KeyBools(key))) else Err(ShapeMismatch)
  }

  /** Whether each label is `x`. */
  function LabelMask(ls: seq<Label>, x: Label): (m: seq<bool>)
    ensures |m| == |ls| && forall i :: 0 <= i < |ls| ==> m[i] == (ls[i] == x)
  {
    seq(|ls|, i requires 0 <= i < |ls| => ls[i] == x)
  }

  /** `index.get_loc(x)` read as positions: exactly the positions holding
      `x`, in increasing order; none when `x` is not a label. */
  function LabelPositions(ls: seq<Label>, x: Label): (p: seq<int>)
    ensures Increasing(p)
    ensures forall k :: 0 <= k < |p| ==> 0 <= p[k] < |ls| && ls[p[k]] == x
    ensures forall i :: 0 <= i < |ls| && ls[i] == x ==> i in p
    ensures |p| > 0 <==> x in ls
  {
    var m := LabelMask(ls, x);
    MaskPositionsIncreasing(m);
    assert forall i :: 0 <= i < |ls| && ls[i] == x ==> i in MaskPositions(m) by {
      forall i | 0 <= i < |ls| && ls[i] == x ensures i in MaskPositions(m) {
        MaskPositionsComplete(m, i);
      }
    }
    assert x in ls <==> |MaskPositions(m)| > 0 by {
      if x in ls {
        var i :| 0 <= i < |ls| && ls[i] == x;
        MaskPositionsComplete(m, i);
      }
      if |MaskPositions(m)| > 0 {
        assert ls[MaskPositions(m)[0]] == x;
      }
    }
    MaskPositions(m)
  }

  /** A key of `__setitem__`: one label, a list-like key, or a boolean indexer. */
  datatype SetKey = LabelKey(x: Label) | ListKey(items: seq<KeyItem>, idx: seq<int>) | MaskKey(mask: BoolKey)

  predicate SetKeyFits(f: Frame, key: SetKey) {
    match key
    case LabelKey(_) => true
    case ListKey(items, idx) => Gathers(idx, KeyLabels(items), f.labels)
    case MaskKey(mask) => BoolKeyFits(f, mask)
  }

  /** The positions `__setitem__(key, value)` writes: a present label at
      every position holding it (the engine's `get_loc`); an absent integer on a non-integer index as a position;
      any other absent label raises; a list-like key through `_set_with`; a
      boolean indexer through `_check_bool_indexer` and then as a mask. */
  function SetItemTargets(f: Frame, key: SetKey): (r: Result<seq<int>>)
    requires f.Valid() && SetKeyFits(f, key)
    ensures r.Ok? ==> forall k :: 0 <= k < |r.value| ==> 0 <= r.value[k] < |f.values|
    ensures key.LabelKey? && key.x in f.labels ==> r == Ok(LabelPositions(f.labels, key.x))
    ensures key.LabelKey? && key.x !in f.labels ==>
      (r.Ok? <==> key.x.IntLabel? && !IsIntegerIndex(f.labels) && -|f.values| <= key.x.i < |f.values|)
    ensures key.LabelKey? && key.x !in f.labels && r.Ok? ==> r.value == [Wrap(key.x.i, |f.values|)]
    ensures key.LabelKey? && key.x !in f.labels && !(key.x.IntLabel? && !IsIntegerIndex(f.labels)) ==>
      r == Err(KeyNotFound)
    ensures key.ListKey? ==> r == SetWithTargets(f, key.items, key.idx)
    ensures key.MaskKey? && r.Ok? ==>
      exists bits :: CheckBoolIndexer(f, key.mask) == Ok(bits) && |bits| == |f.values| && r.value == MaskPositions(bits)
  {
    var n := |f.values|;
    match key
    case LabelKey(x) =>
      if x in f.labels then Ok(LabelPositions(f.labels, x))
      else if x.IntLabel? && !IsIntegerIndex(f.labels) then
        if -n <= x.i < n then Ok([Wrap(x.i, n)]) else Err(IndexOutOfRange)
      else Err(KeyNotFound)
    case ListKey(items, idx) => SetWithTargets(f, items, idx)
    case MaskKey(mask) =>
      match CheckBoolIndexer(f, mask)
      case Err(e) => Err(e)
      case Ok(bits) => if |bits| == n then Ok(MaskPositions(bits)) else Err(ShapeMismatch)
  }

  /** The right-hand side of an assignment: one scalar, or a sequence. */
  datatype Assigned = One(v: Val) | Many(vs: seq<Val>)

  /** numpy's shape rule for `values[key] = value` at `count` positions: a
      scalar, a sequence of the same length, or a one-element sequence,
      which is broadcast. */
  predicate Fits(value: Assigned, count: nat) {
    value.Many? ==> |value.vs| == count || |value.vs| == 1
  }

  /** The value written at the k-th of `count` positions. */
  function Broadcast(value: Assigned, count: nat, k: nat): Val
    requires Fits(value, count) && k < count
  {
    if value.One? then value.v else if |value.vs| == count then value.vs[k] else value.vs[0]
  }

  /** Whether `value` may be written at `count` positions of a buffer of
      `kind`: a sequence numpy cannot broadcast raises, and a scalar NA for an
      integer buffer raises (`lib.convert_scalar`: "Cannot assign nan to
      integer series"). A sequence holding NA is refused for an integer
      buffer as well, so that such a buffer never holds NA. */
  function CheckAssigned(kind: Kind, count: nat, value: Assigned): (r: Option<Error>)
    ensures r.None? <==>
      && Fits(value, count)
      && (kind == IntKind ==> (value.One? ==> !value.v.NA?) && (value.Many? ==> NoNA(value.vs)))
    ensures r.Some? && !Fits(value, count) ==> r == Some(ShapeMismatch)
    ensures r.Some? && Fits(value, count) ==> r == Some(UnrepresentableMissing)
  {
    match value
    case One(v) => if kind == IntKind && v.NA? then Some(UnrepresentableMissing) else None
    case Many(vs) =>
      if !Fits(value, count) then Some(ShapeMismatch)
      else if kind == IntKind && !NoNA(vs) then Some(UnrepresentableMissing)
      else None
  }

  /** The values written, one per position. */
  function Sources(value: Assigned, count: nat): (r: seq<Val>)
    requires Fits(value, count)
    ensures |r| == count
    ensures forall k :: 0 <= k < count ==> r[k] == Broadcast(value, count, k)
  {
    match value
    case One(v) => Constant(count, v)
    case Many(vs) => if |vs| == count then vs else Constant(count, vs[0])
  }

  /** `values[ps] = convert_scalar(values, value)`: the buffer after the
      write, or the error that stops it before anything is written. */
  function WriteAt(s: seq<Val>, kind: Kind, ps: seq<int>, value: Assigned): (r: Result<seq<Val>>)
    requires forall k :: 0 <= k < |ps| ==> 0 <= ps[k] < |s|
    requires kind == IntKind ==> NoNA(s)
    ensures r.Err? <==> CheckAssigned(kind, |ps|, value).Some?
    ensures r.Err? ==> r.error == CheckAssigned(kind, |ps|, value).value
    ensures r.Ok? ==> |r.value| == |s| && (kind == IntKind ==> NoNA(r.value))
    ensures r.Ok? ==> forall q :: 0 <= q < |s| && q !in ps ==> r.value[q] == s[q]
    ensures r.Ok? ==> forall k :: 0 <= k < |ps| && ps[k] !in ps[k + 1..] ==>
      r.value[ps[k]] == Broadcast(value, |ps|, k)
  {
    match CheckAssigned(kind, |ps|, value)
    case Some(e) => Err(e)
    case None =>
      var src := Sources(value, |ps|);
      var w := Scatter(s, ps, src);
      assert kind == IntKind ==> NoNA(w) by {
        if kind == IntKind { ScatterNoNA(s, ps, src); }
      }
      Ok(w)
  }

  /** A scalar written at the positions a mask selects is `np.putmask` with that scalar. */
  lemma WriteAtMask(s: seq<Val>, kind: Kind, m: seq<bool>, v: Val)
    requires |m| == |s| && (kind == IntKind ==> NoNA(s))
    ensures WriteAt(s, kind, MaskPositions(m), One(v)).Ok? ==>
      WriteAt(s, kind, MaskPositions(m), One(v)).value == PutMask(s, m, Constant(|s|, v))
  {
    var ps := MaskPositions(m);
    var r := WriteAt(s, kind, ps, One(v));
    if r.Ok? {
      MaskPositionsIncreasing(m);
      IncreasingWritesOnce(ps);
      forall q | 0 <= q < |s| ensures r.value[q] == PutMask(s, m, Constant(|s|, v))[q] {
        if m[q] {
          MaskPositionsComplete(m, q);
          var k :| 0 <= k < |ps| && ps[k] == q;
          assert r.value[ps[k]] == v;
        }
      }
    }
  }

  /** A scalar written at the positions of a present label replaces exactly
      the slots holding that label, unless it is NA and the buffer integer. */
  lemma WriteLabel(s: seq<Val>, kind: Kind, ls: seq<Label>, x: Label, v: Val)
    requires |ls| == |s| && (kind == IntKind ==> NoNA(s)) && x in ls
    ensures var r := WriteAt(s, kind, LabelPositions(ls, x), One(v));
      && (r.Err? <==> kind == IntKind && v.NA?)
      && (r.Err? ==> r.error == UnrepresentableMissing)
      && (r.Ok? ==> |r.value| == |s| && (kind == IntKind ==> NoNA(r.value)))
      && (r.Ok? ==> forall q :: 0 <= q < |s| ==> r.value[q] == if ls[q] == x then v else s[q])
  {
    var m := LabelMask(ls, x);
    assert LabelPositions(ls, x) == MaskPositions(m);
    WriteAtMask(s, kind, m, v);
  }

  /** `set_value(label, value)` as a value: a present label is written, in
      place, at every position holding it (the engine's `set_value`); an
      absent one is appended, with the value, to a new Series (promoted to
      floating when the value is NA). */
  function SetValueFrame(f: Frame, x: Label, v: Val): (r: Result<Frame>)
    requires f.Valid()
    ensures r.Err? <==> x in f.labels && f.kind == IntKind && v.NA?
    ensures r.Err? ==> r.error == UnrepresentableMissing
    ensures r.Ok? ==> r.value.Valid() && r.value.name == f.name
    ensures r.Ok? && x in f.labels ==>
      r.value.labels == f.labels && r.value.kind == f.kind && |r.value.values| == |f.values|
    ensures r.Ok? && x in f.labels ==> forall q :: 0 <= q < |f.values| ==>
      r.value.values[q] == if f.labels[q] == x then v else f.values[q]
    ensures r.Ok? && x !in f.labels ==>
      r.value.labels == f.labels + [x] && r.value.values == f.values + [v]
  {
    if x in f.labels then
      WriteLabel(f.values, f.kind, f.labels, x, v);
      match WriteAt(f.values, f.kind, LabelPositions(f.labels, x), One(v))
      case Err(e) => Err(e)
      case Ok(w) => Ok(f.(values := w))
    else
      var vals := f.values + [v];
      Ok(Frame(vals, f.labels + [x], f.name, Upcast(f.kind, vals)))
  }

  lemma LocateIsFirst(ls: seq<Label>, x: Label, p: int)
    requires 0 <= p < |ls| && ls[p] == x && forall k :: 0 <= k < p ==> ls[k] != x
    ensures Locate(ls, x) == p
  {
  }

  /** After `set_value(x, v)` the Series answers `v` for `x`. */
  lemma SetValueThenGet(f: Frame, x: Label, v: Val, default: Val)
    requires f.Valid() && SetValueFrame(f, x, v).Ok?
    ensures Get(SetValueFrame(f, x, v).value, x, default) == v
  {
    var g := SetValueFrame(f, x, v).value;
    var p := Locate(f.labels, x);
    if p == -1 {
      LocateIsFirst(g.labels, x, |f.labels|);
    } else {
      LocateIsFirst(g.labels, x, p);
    }
  }

  /** `set_value(x, v)` leaves the answer for every other label as it was. */
  lemma SetValueKeepsOthers(f: Frame, x: Label, v: Val, y: Label, default: Val)
    requires f.Valid() && SetValueFrame(f, x, v).Ok? && y != x
    ensures Get(SetValueFrame(f, x, v).value, y, default) == Get(f, y, default)
  {
    var g := SetValueFrame(f, x, v).value;
    var q := Locate(f.labels, y);
    if q != -1 {
      LocateIsFirst(g.labels, y, q);
    } else {
      assert y !in g.labels;
    }
  }
}
