/** `replace(to_replace, value)` with explicit replacement values. A list of
    sources all take one value; a dict (or two lists zipped into one) maps
    each source to its own destination. When some destination is itself a
    source, every mask is computed from the original buffer before any
    write, so that no replaced value is replaced again. */
module Replacing {
  import opened Values
  import opened Frames

  /** `com.mask_missing(values, srcs)`: the slots equal to one of `srcs`,
      NA matching NA. */
  function MatchMask(s: seq<Val>, srcs: seq<Val>): (m: seq<bool>)
    ensures |m| == |s| && forall i :: 0 <= i < |s| ==> m[i] == (s[i] in srcs)
  {
    seq(|s|, i requires 0 <= i < |s| => s[i] in srcs)
  }

  /** `_rep_one(s, srcs, v)`: every slot holding one of `srcs` takes `v`. */
  function RepOne(s: seq<Val>, srcs: seq<Val>, v: Val): (r: seq<Val>)
    ensures |r| == |s| && forall i :: 0 <= i < |s| ==> r[i] == if s[i] in srcs then v else s[i]
  {
    PutMask(s, MatchMask(s, srcs), Constant(|s|, v))
  }

  /** A replacement dict as its items: source, destination. */
  type Pair = (Val, Val)

  predicate DistinctKeys(pairs: seq<Pair>) {
    forall j, k :: 0 <= j < k < |pairs| ==> pairs[j].0 != pairs[k].0
  }

  /** The destination the dict gives `v`, if `v` is one of its sources. */
  function Lookup(pairs: seq<Pair>, v: Val): (r: Option<Val>)
    ensures r.None? <==> forall k :: 0 <= k < |pairs| ==> pairs[k].0 != v
    ensures r.Some? ==> exists k :: 0 <= k < |pairs| && pairs[k].0 == v && pairs[k].1 == r.value
  {
    if pairs == [] then None
    else if pairs[0].0 == v then Some(pairs[0].1)
    else
      var r := Lookup(pairs[1..], v);
      assert forall k :: 1 <= k < |pairs| ==> pairs[k] == pairs[1..][k - 1];
      r
  }

  /** What a dict replacement means: each slot whose value is a source takes
      that source's destination, at once, reading only the original value. */
  function Replaced(s: seq<Val>, pairs: seq<Pair>): (r: seq<Val>)
    ensures |r| == |s|
    ensures forall i :: 0 <= i < |s| ==> r[i] == if Lookup(pairs, s[i]).Some? then Lookup(pairs, s[i]).value else s[i]
  {
    seq(|s|, i requires 0 <= i < |s| => if Lookup(pairs, s[i]).Some? then Lookup(pairs, s[i]).value else s[i])
  }

  /** `any(d in all_src for d in dd.keys())`: some destination is also a source. */
  predicate Clobbers(pairs: seq<Pair>) {
    exists j, k :: 0 <= j < |pairs| && 0 <= k < |pairs| && pairs[j].1 == pairs[k].0
  }

  /** The branch taken when nothing can clobber: `_rep_one` once per item, in
      order, each reading the buffer the previous one left. */
  function Sequential(s: seq<Val>, pairs: seq<Pair>): (r: seq<Val>)
    ensures |r| == |s|
    decreases |pairs|
  {
    if pairs == [] then s
    else Sequential(RepOne(s, [pairs[0].0], pairs[0].1), pairs[1..])
  }

  /** The masks of the clobber-safe branch, all taken from the original buffer. */
  function Masks(s: seq<Val>, pairs: seq<Pair>): (ms: seq<seq<bool>>)
    ensures |ms| == |pairs|
    ensures forall k :: 0 <= k < |pairs| ==> ms[k] == MatchMask(s, [pairs[k].0])
  {
    seq(|pairs|, k requires 0 <= k < |pairs| => MatchMask(s, [pairs[k].0]))
  }

  /** `np.putmask(values, m, d)` for each mask and destination in turn. */
  function ApplyMasks(t: seq<Val>, ms: seq<seq<bool>>, pairs: seq<Pair>): (r: seq<Val>)
    requires |ms| == |pairs| && forall k :: 0 <= k < |ms| ==> |ms[k]| == |t|
    ensures |r| == |t|
    decreases |pairs|
  {
    if pairs == [] then t
    else ApplyMasks(PutMask(t, ms[0], Constant(|t|, pairs[0].1)), ms[1..], pairs[1..])
  }

  /** The clobber-safe branch: masks first, writes after. */
  function TwoPhase(s: seq<Val>, pairs: seq<Pair>): (r: seq<Val>)
    ensures |r| == |s|
  {
    ApplyMasks(s, Masks(s, pairs), pairs)
  }

  /** Applying the masks of `s` to any buffer `t` writes each source's
      destination where `s` held that source, and leaves the rest of `t`. */
  lemma {:induction false} ApplyMasksAt(s: seq<Val>, t: seq<Val>, pairs: seq<Pair>, i: int)
    requires |t| == |s| && DistinctKeys(pairs) && 0 <= i < |s|
    ensures ApplyMasks(t, Masks(s, pairs), pairs)[i] ==
      if Lookup(pairs, s[i]).Some? then Lookup(pairs, s[i]).value else t[i]
    decreases |pairs|
  {
    if pairs != [] {
      var t' := PutMask(t, Masks(s, pairs)[0], Constant(|t|, pairs[0].1));
      assert Masks(s, pairs)[1..] == Masks(s, pairs[1..]);
      ApplyMasksAt(s, t', pairs[1..], i);
      if pairs[0].0 == s[i] {
        assert Lookup(pairs[1..], s[i]).None? by {
          forall k | 0 <= k < |pairs[1..]| ensures pairs[1..][k].0 != s[i] {
            assert pairs[1..][k] == pairs[k + 1];
          }
        }
      }
    }
  }

  /** With distinct sources, the clobber-safe branch is the one-pass replacement. */
  lemma TwoPhaseIsReplaced(s: seq<Val>, pairs: seq<Pair>)
    requires DistinctKeys(pairs)
    ensures TwoPhase(s, pairs) == Replaced(s, pairs)
  {
    forall i | 0 <= i < |s| ensures TwoPhase(s, pairs)[i] == Replaced(s, pairs)[i] {
      ApplyMasksAt(s, s, pairs, i);
    }
  }

  /** Without clobbering, replacing item by item reads at every slot either
      the original value or a destination, which no later item matches. */
  lemma {:induction false} SequentialAt(t: seq<Val>, pairs: seq<Pair>, i: int)
    requires DistinctKeys(pairs) && !Clobbers(pairs) && 0 <= i < |t|
    ensures Sequential(t, pairs)[i] == if Lookup(pairs, t[i]).Some? then Lookup(pairs, t[i]).value else t[i]
    decreases |pairs|
  {
    if pairs != [] {
      var rest := pairs[1..];
      var t' := RepOne(t, [pairs[0].0], pairs[0].1);
      assert forall k :: 0 <= k < |rest| ==> rest[k] == pairs[k + 1];
      forall j, k | 0 <= j < |rest| && 0 <= k < |rest| ensures rest[j].1 != rest[k].0 {
        assert pairs[j + 1].1 != pairs[k + 1].0;
      }
      SequentialAt(t', rest, i);
      if pairs[0].0 == t[i] {
        assert Lookup(rest, pairs[0].1).None? by {
          forall k | 0 <= k < |rest| ensures rest[k].0 != pairs[0].1 {
            assert pairs[k + 1].0 != pairs[0].1;
          }
        }
        assert Lookup(rest, t[i]).None? by {
          forall k | 0 <= k < |rest| ensures rest[k].0 != t[i] {
            assert pairs[k + 1].0 != pairs[0].0;
          }
        }
      }
    }
  }

  /** With distinct sources and no destination among them, replacing item by
      item is the one-pass replacement. */
  lemma SequentialIsReplaced(s: seq<Val>, pairs: seq<Pair>)
    requires DistinctKeys(pairs) && !Clobbers(pairs)
    ensures Sequential(s, pairs) == Replaced(s, pairs)
  {
    forall i | 0 <= i < |s| ensures Sequential(s, pairs)[i] == Replaced(s, pairs)[i] {
      SequentialAt(s, pairs, i);
    }
  }

  /** Why the clobber-safe branch exists: item by item, `{1: 2, 2: 3}` would
      turn a 1 into 3, where the replacement turns it into 2. */
  lemma SequentialWouldClobber()
    ensures Sequential([V(1)], [(V(1), V(2)), (V(2), V(3))]) == [V(3)]
    ensures Replaced([V(1)], [(V(1), V(2)), (V(2), V(3))]) == [V(2)]
  {
    var pairs := [(V(1), V(2)), (V(2), V(3))];
    assert RepOne([V(1)], [V(1)], V(2)) == [V(2)];
    assert RepOne([V(2)], [V(2)], V(3)) == [V(3)];
    assert Sequential([V(3)], pairs[1..][1..]) == [V(3)];
    assert Lookup(pairs, V(1)) == Some(V(2));
  }

  /** `_rep_dict(rs, to_rep)`: the clobber-safe branch when some destination
      is a source, item by item otherwise; either way the one-pass
      replacement. */
  function RepDict(s: seq<Val>, pairs: seq<Pair>): (r: seq<Val>)
    requires DistinctKeys(pairs)
    ensures r == Replaced(s, pairs)
  {
    if Clobbers(pairs) then
      TwoPhaseIsReplaced(s, pairs);
      TwoPhase(s, pairs)
    else
      SequentialIsReplaced(s, pairs);
      Sequential(s, pairs)
  }

  /** `d[k] = v` on a dict held as its items. */
  function DictSet(pairs: seq<Pair>, k: Val, v: Val): (r: seq<Pair>)
    requires DistinctKeys(pairs)
    ensures DistinctKeys(r)
    ensures Lookup(r, k) == Some(v)
    ensures forall y :: y != k ==> Lookup(r, y) == Lookup(pairs, y)
  {
    if Lookup(pairs, k).None? then
      AppendKeepsOthers(pairs, k, v);
      DistinctLookup(pairs + [(k, v)], |pairs|);
      pairs + [(k, v)]
    else
      var j :| 0 <= j < |pairs| && pairs[j].0 == k && pairs[j].1 == Lookup(pairs, k).value;
      OverwriteKeepsOthers(pairs, j, v);
      DistinctLookup(pairs[j := (k, v)], j);
      pairs[j := (k, v)]
  }

  /** A new item appended to a dict leaves every other source's value alone. */
  lemma AppendKeepsOthers(pairs: seq<Pair>, k: Val, v: Val)
    requires DistinctKeys(pairs) && Lookup(pairs, k).None?
    ensures DistinctKeys(pairs + [(k, v)])
    ensures forall y :: y != k ==> Lookup(pairs + [(k, v)], y) == Lookup(pairs, y)
  {
    var r := pairs + [(k, v)];
    forall y | y != k ensures Lookup(r, y) == Lookup(pairs, y) {
      if Lookup(pairs, y).Some? {
        var j :| 0 <= j < |pairs| && pairs[j].0 == y && pairs[j].1 == Lookup(pairs, y).value;
        assert r[j] == pairs[j];
        DistinctLookup(r, j);
      }
    }
  }

  /** Overwriting the value of an existing item leaves every other source's value alone. */
  lemma OverwriteKeepsOthers(pairs: seq<Pair>, j: int, v: Val)
    requires DistinctKeys(pairs) && 0 <= j < |pairs|
    ensures DistinctKeys(pairs[j := (pairs[j].0, v)])
    ensures forall y :: y != pairs[j].0 ==> Lookup(pairs[j := (pairs[j].0, v)], y) == Lookup(pairs, y)
  {
    var r := pairs[j := (pairs[j].0, v)];
    forall y | y != pairs[j].0 ensures Lookup(r, y) == Lookup(pairs, y) {
      if Lookup(pairs, y).Some? {
        var q :| 0 <= q < |pairs| && pairs[q].0 == y && pairs[q].1 == Lookup(pairs, y).value;
        DistinctLookup(r, q);
      }
    }
  }

  /** In a dict with distinct sources, looking up an item's source finds that item. */
  lemma DistinctLookup(pairs: seq<Pair>, j: int)
    requires DistinctKeys(pairs) && 0 <= j < |pairs|
    ensures Lookup(pairs, pairs[j].0) == Some(pairs[j].1)
  {
    var r := Lookup(pairs, pairs[j].0);
    var k :| 0 <= k < |pairs| && pairs[k].0 == pairs[j].0 && pairs[k].1 == r.value;
    assert k == j;
  }

  /** `dict(zip(srcs, vs))`: a source listed twice keeps the value paired
      with its last occurrence. */
  function ZipDict(srcs: seq<Val>, vs: seq<Val>): (r: seq<Pair>)
    requires |srcs| == |vs|
    ensures DistinctKeys(r)
    ensures forall x :: Lookup(r, x).None? <==> x !in srcs
    ensures forall k :: 0 <= k < |srcs| && srcs[k] !in srcs[k + 1..] ==> Lookup(r, srcs[k]) == Some(vs[k])
    decreases |srcs|
  {
    if srcs == [] then []
    else
      var n := |srcs|;
      var init, last := srcs[..n - 1], srcs[n - 1];
      var rest := ZipDict(init, vs[..n - 1]);
      ZipDictStep(srcs, vs, rest);
      DictSet(rest, last, vs[n - 1])
  }

  /** Setting the last pair on the dict of the earlier pairs gives the dict of all of them. */
  lemma ZipDictStep(srcs: seq<Val>, vs: seq<Val>, rest: seq<Pair>)
    requires |srcs| == |vs| && |srcs| > 0
    requires DistinctKeys(rest)
    requires forall x :: Lookup(rest, x).None? <==> x !in srcs[..|srcs| - 1]
    requires forall k :: 0 <= k < |srcs| - 1 && srcs[k] !in srcs[..|srcs| - 1][k + 1..] ==>
      Lookup(rest, srcs[k]) == Some(vs[k])
    ensures var r := DictSet(rest, srcs[|srcs| - 1], vs[|srcs| - 1]);
      && (forall x :: Lookup(r, x).None? <==> x !in srcs)
      && (forall k :: 0 <= k < |srcs| && srcs[k] !in srcs[k + 1..] ==> Lookup(r, srcs[k]) == Some(vs[k]))
  {
    var n := |srcs|;
    var r := DictSet(rest, srcs[n - 1], vs[n - 1]);
    assert srcs == srcs[..n - 1] + [srcs[n - 1]];
    forall k | 0 <= k < n - 1 && srcs[k] !in srcs[k + 1..] ensures Lookup(r, srcs[k]) == Some(vs[k]) {
      LaterSplit(srcs, k);
    }
  }

  /** A source with no later occurrence is not the last source and has no
      later occurrence before it either. */
  lemma LaterSplit(srcs: seq<Val>, k: int)
    requires 0 <= k < |srcs| - 1 && srcs[k] !in srcs[k + 1..]
    ensures srcs[k] != srcs[|srcs| - 1] && srcs[k] !in srcs[..|srcs| - 1][k + 1..]
  {
    assert srcs[k + 1..] == srcs[..|srcs| - 1][k + 1..] + [srcs[|srcs| - 1]];
  }

  /** The forms of `replace` with explicit values: a dict; a list (or a
      scalar, taken as a one-element list) with one value; two lists. */
  datatype ReplaceArg = RepDictArg(pairs: seq<Pair>) | RepListArg(srcs: seq<Val>, value: Val) | RepListsArg(srcs: seq<Val>, values: seq<Val>)

  predicate ArgFits(arg: ReplaceArg) {
    arg.RepDictArg? ==> DistinctKeys(arg.pairs)
  }

  /** The replaced buffer, or the error raised for two lists of different lengths. */
  function ReplaceValues(s: seq<Val>, arg: ReplaceArg): (r: Result<seq<Val>>)
    requires ArgFits(arg)
    ensures r.Err? <==> arg.RepListsArg? && |arg.values| != |arg.srcs|
    ensures r.Err? ==> r.error == ShapeMismatch
    ensures r.Ok? ==> |r.value| == |s|
  {
    match arg
    case RepDictArg(pairs) => Ok(RepDict(s, pairs))
    case RepListArg(srcs, v) => Ok(RepOne(s, srcs, v))
    case RepListsArg(srcs, vs) =>
      if |vs| != |srcs| then Err(ShapeMismatch) else Ok(RepDict(s, ZipDict(srcs, vs)))
  }

  /** `replace(to_replace, value)` on a copy; storing NA in an integer buffer
      is reported instead of performed. */
  function ReplaceFrame(f: Frame, arg: ReplaceArg): (r: Result<Frame>)
    requires f.Valid() && ArgFits(arg)
    ensures r.Err? ==> r.error in {ShapeMismatch, UnrepresentableMissing}
    ensures r.Ok? ==> r.value.Valid() && r.value.labels == f.labels && r.value.name == f.name && r.value.kind == f.kind
    ensures r.Ok? && arg.RepDictArg? ==> r.value.values == Replaced(f.values, arg.pairs)
    ensures r.Ok? && arg.RepListArg? ==> forall i :: 0 <= i < |f.values| ==>
      r.value.values[i] == if f.values[i] in arg.srcs then arg.value else f.values[i]
    ensures r.Ok? && arg.RepListsArg? ==> |arg.values| == |arg.srcs|
    ensures r.Ok? && arg.RepListsArg? ==> forall i :: 0 <= i < |f.values| ==>
      (f.values[i] !in arg.srcs ==> r.value.values[i] == f.values[i]) &&
      (forall k :: 0 <= k < |arg.srcs| && arg.srcs[k] == f.values[i] && f.values[i] !in arg.srcs[k + 1..] ==>
         r.value.values[i] == arg.values[k])
  {
    match ReplaceValues(f.values, arg)
    case Err(e) => Err(e)
    case Ok(w) =>
      if f.kind == IntKind && !NoNA(w) then Err(UnrepresentableMissing)
      else Ok(f.(values := w))
  }
}
