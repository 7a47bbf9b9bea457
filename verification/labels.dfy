/** The label index as the Series sees it: labels, the lookup the index engine
    provides, and the shape of the join and reindex results it hands back.
    The index itself (join, get_indexer, union) is computed elsewhere; its
    results enter the model as inputs that satisfy the predicates below. */
module Labels {
  import opened Values

  datatype Label = IntLabel(i: int) | StrLabel(s: string)

  /** `index.inferred_type == 'integer'`: every label is an integer. An empty
      label sequence counts as integer-typed, as the default index of an
      empty Series does. */
  predicate IsIntegerIndex(ls: seq<Label>)
    ensures IsIntegerIndex(ls) <==> forall x :: x in ls ==> x.IntLabel?
    ensures |ls| == 0 ==> IsIntegerIndex(ls)
  {
    forall k :: 0 <= k < |ls| ==> ls[k].IntLabel?
  }

  predicate Unique(ls: seq<Label>) {
    forall i, j :: 0 <= i < j < |ls| ==> ls[i] != ls[j]
  }

  /** The index engine's position lookup: the first position holding `x`,
      or -1 (the engine's KeyError) when `x` is not a label. */
  function Locate(ls: seq<Label>, x: Label): (p: int)
    ensures -1 <= p < |ls|
    ensures p == -1 <==> x !in ls
    ensures p >= 0 ==> ls[p] == x && forall k :: 0 <= k < p ==> ls[k] != x
  {
    if ls == [] then -1
    else if ls[0] == x then 0
    else
      var q := Locate(ls[1..], x);
      if q == -1 then -1 else q + 1
  }

  /** Every entry of an indexer is -1 ("absent") or a position of a buffer of length n. */
  predicate Positions(idx: seq<int>, n: nat) {
    forall k :: 0 <= k < |idx| ==> -1 <= idx[k] < n
  }

  /** What the index promises of an indexer from `src` to `target`
      (`get_indexer`, and each side of a join): one entry per target label,
      -1 exactly when the label is absent from `src`, otherwise a position
      of `src` holding that label. */
  predicate Gathers(idx: seq<int>, target: seq<Label>, src: seq<Label>) {
    && |idx| == |target|
    && forall k :: 0 <= k < |idx| ==>
         if idx[k] == -1 then target[k] !in src
         else 0 <= idx[k] < |src| && src[idx[k]] == target[k]
  }

  /** With unique labels, the lookup of the label at `p` finds `p`. */
  lemma LocateUnique(ls: seq<Label>, p: int)
    requires Unique(ls) && 0 <= p < |ls|
    ensures Locate(ls, ls[p]) == p
  {
    var q := Locate(ls, ls[p]);
    assert q >= 0 && ls[q] == ls[p];
  }

  lemma GathersPositions(idx: seq<int>, target: seq<Label>, src: seq<Label>)
    requires Gathers(idx, target, src)
    ensures Positions(idx, |src|)
  {
  }

  /** With unique source labels the indexer is determined: it is the lookup. */
  lemma {:induction false} GathersUnique(idx: seq<int>, target: seq<Label>, src: seq<Label>)
    requires Unique(src) && Gathers(idx, target, src)
    ensures forall k :: 0 <= k < |idx| ==> idx[k] == Locate(src, target[k])
  {
    forall k | 0 <= k < |idx| ensures idx[k] == Locate(src, target[k]) {
      var p := Locate(src, target[k]);
      if idx[k] != -1 {
        assert src[idx[k]] == target[k];
        assert p >= 0;
      }
    }
  }

  /** `index.join(other, how, return_indexers=True)`: the joined labels and,
      per side, an indexer or None when that side needs no reindexing. */
  datatype Join = Join(labels: seq<Label>, left: Option<seq<int>>, right: Option<seq<int>>)

  predicate JoinSide(side: Option<seq<int>>, joined: seq<Label>, src: seq<Label>) {
    match side
    case None => joined == src
    case Some(idx) => Gathers(idx, joined, src)
  }

  /** The join of `a` and `b` returned `j`. */
  predicate JoinFits(j: Join, a: seq<Label>, b: seq<Label>) {
    JoinSide(j.left, j.labels, a) && JoinSide(j.right, j.labels, b)
  }

  /** An outer join additionally keeps every label of both sides. */
  ghost predicate OuterJoinFits(j: Join, a: seq<Label>, b: seq<Label>) {
    && JoinFits(j, a, b)
    && (forall x :: x in a ==> x in j.labels)
    && (forall x :: x in b ==> x in j.labels)
  }

  /** `self.index + other.index`: a label sequence holding exactly the labels of both. */
  ghost predicate IsUnion(u: seq<Label>, a: seq<Label>, b: seq<Label>) {
    forall x :: x in u <==> x in a || x in b
  }

  /** `com.take_1d(src, idx, fill_value=fill)`: gather through an indexer,
      writing `fill` wherever the indexer holds -1. */
  function Take<T>(src: seq<T>, idx: seq<int>, fill: T): (r: seq<T>)
    requires Positions(idx, |src|)
    ensures |r| == |idx|
    ensures forall k :: 0 <= k < |idx| ==> r[k] == if idx[k] == -1 then fill else src[idx[k]]
  {
    if idx == [] then []
    else [if idx[0] == -1 then fill else src[idx[0]]] + Take(src, idx[1..], fill)
  }
}
