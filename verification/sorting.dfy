/** Sorting by value: the stable argsort `order` relies on (numpy's mergesort),
    the permutation `order` builds from it with NA at one end, the Series
    `order` returns, and `argsort`, which leaves NA where it was. */
module Sorting {
  import opened Values
  import opened Labels
  import opened Frames
  import opened Missing

  predicate Distinct(p: seq<int>) {
    forall j, k :: 0 <= j < k < |p| ==> p[j] != p[k]
  }

  predicate InRange(p: seq<int>, n: nat) {
    forall k :: 0 <= k < |p| ==> 0 <= p[k] < n
  }

  /** `p` lists every position of a buffer of length `n` exactly once. */
  predicate IsPermutation(p: seq<int>, n: nat) {
    |p| == n && InRange(p, n) && Distinct(p)
  }

  /** The keys met along `p` never decrease. */
  predicate SortedBy(p: seq<int>, keys: seq<int>)
    requires InRange(p, |keys|)
  {
    forall j, k :: 0 <= j < k < |p| ==> keys[p[j]] <= keys[p[k]]
  }

  /** Positions with equal keys keep their original order along `p`. */
  predicate StableBy(p: seq<int>, keys: seq<int>)
    requires InRange(p, |keys|)
  {
    forall j, k :: 0 <= j < k < |p| && keys[p[j]] == keys[p[k]] ==> p[j] < p[k]
  }

  /** The first slot of `p`, from `t` on, whose key is above that of `i`
      (or `|p|`): where insertion puts `i`. */
  function InsertPoint(p: seq<int>, keys: seq<int>, i: int, t: nat): (r: nat)
    requires 0 <= i < |keys| && InRange(p, |keys|) && t <= |p|
    ensures t <= r <= |p|
    ensures forall k :: t <= k < r ==> keys[p[k]] <= keys[i]
    ensures r < |p| ==> keys[p[r]] > keys[i]
    decreases |p| - t
  {
    if t == |p| || keys[p[t]] > keys[i] then t else InsertPoint(p, keys, i, t + 1)
  }

  /** Position `i` inserted into the sorted `p` after every position whose
      key does not exceed its own. */
  function Insert(p: seq<int>, keys: seq<int>, i: int): (r: seq<int>)
    requires 0 <= i < |keys| && InRange(p, |keys|)
    ensures |r| == |p| + 1
    ensures var t := InsertPoint(p, keys, i, 0);
      r[t] == i && (forall k {:trigger r[k]} :: 0 <= k < t ==> r[k] == p[k]) &&
      (forall k {:trigger r[k]} :: t < k <= |p| ==> r[k] == p[k - 1])
  {
    var t := InsertPoint(p, keys, i, 0);
    seq(|p| + 1, k requires 0 <= k <= |p| => if k < t then p[k] else if k == t then i else p[k - 1])
  }

  lemma InsertDistinct(p: seq<int>, keys: seq<int>, i: int)
    requires 0 <= i < |keys| && InRange(p, i) && Distinct(p)
    ensures Distinct(Insert(p, keys, i))
  {
    var t := InsertPoint(p, keys, i, 0);
    var r := Insert(p, keys, i);
    forall j, k | 0 <= j < k < |r| ensures r[j] != r[k] {
      if j == t { assert r[k] == p[k - 1]; }
      else if k == t { assert r[j] == p[j]; }
    }
  }

  lemma InsertSorted(p: seq<int>, keys: seq<int>, i: int)
    requires 0 <= i < |keys| && InRange(p, |keys|) && SortedBy(p, keys)
    ensures InRange(Insert(p, keys, i), |keys|) && SortedBy(Insert(p, keys, i), keys)
  {
    var t := InsertPoint(p, keys, i, 0);
    var r := Insert(p, keys, i);
    assert forall k :: 0 <= k < |r| ==> r[k] == i || r[k] == p[if k < t then k else k - 1];
    forall j, k | 0 <= j < k < |r| ensures keys[r[j]] <= keys[r[k]] {
      if j == t { assert keys[p[t]] <= keys[p[k - 1]]; }
    }
  }

  lemma InsertStable(p: seq<int>, keys: seq<int>, i: int)
    requires 0 <= i < |keys| && InRange(p, |keys|) && SortedBy(p, keys)
    requires StableBy(p, keys) && InRange(p, i)
    ensures InRange(Insert(p, keys, i), |keys|)
    ensures SortedBy(Insert(p, keys, i), keys) && StableBy(Insert(p, keys, i), keys)
  {
    var t := InsertPoint(p, keys, i, 0);
    var r := Insert(p, keys, i);
    InsertSorted(p, keys, i);
    forall k | t <= k < |p| ensures keys[p[k]] > keys[i] {
      assert keys[p[t]] <= keys[p[k]];
    }
  }

  /** The stable argsort of the first `m` keys, by insertion. */
  function ArgsortUpTo(keys: seq<int>, m: nat): (r: seq<int>)
    requires m <= |keys|
    ensures |r| == m && InRange(r, m)
  {
    if m == 0 then []
    else
      var p := ArgsortUpTo(keys, m - 1);
      var r := Insert(p, keys, m - 1);
      assert forall k :: 0 <= k < |r| ==> r[k] == m - 1 || r[k] == p[if k < InsertPoint(p, keys, m - 1, 0) then k else k - 1];
      r
  }

  lemma {:induction false} ArgsortUpToDistinct(keys: seq<int>, m: nat)
    requires m <= |keys|
    ensures Distinct(ArgsortUpTo(keys, m))
  {
    if m > 0 {
      ArgsortUpToDistinct(keys, m - 1);
      InsertDistinct(ArgsortUpTo(keys, m - 1), keys, m - 1);
    }
  }

  lemma {:induction false} ArgsortUpToSorted(keys: seq<int>, m: nat)
    requires m <= |keys|
    ensures InRange(ArgsortUpTo(keys, m), |keys|) && SortedBy(ArgsortUpTo(keys, m), keys)
  {
    if m > 0 {
      ArgsortUpToSorted(keys, m - 1);
      InsertSorted(ArgsortUpTo(keys, m - 1), keys, m - 1);
    }
  }

  lemma {:induction false} ArgsortUpToStable(keys: seq<int>, m: nat)
    requires m <= |keys|
    ensures InRange(ArgsortUpTo(keys, m), |keys|)
    ensures SortedBy(ArgsortUpTo(keys, m), keys) && StableBy(ArgsortUpTo(keys, m), keys)
  {
    if m > 0 {
      var p := ArgsortUpTo(keys, m - 1);
      ArgsortUpToStable(keys, m - 1);
      assert InRange(p, m - 1);
      InsertStable(p, keys, m - 1);
      assert ArgsortUpTo(keys, m) == Insert(p, keys, m - 1);
    }
  }

  /** numpy `argsort(kind='mergesort')`: the positions of `keys` in the
      order that sorts them, equal keys in their original order. */
  function Argsort(keys: seq<int>): (r: seq<int>)
    ensures |r| == |keys| && InRange(r, |keys|)
  {
    ArgsortUpTo(keys, |keys|)
  }

  /** The argsort lists every position once. */
  lemma ArgsortIsPermutation(keys: seq<int>)
    ensures IsPermutation(Argsort(keys), |keys|)
  {
    ArgsortUpToDistinct(keys, |keys|);
  }

  /** The argsort reads the keys in non-decreasing order. */
  lemma ArgsortSorted(keys: seq<int>, j: int, k: int)
    requires 0 <= j < k < |keys|
    ensures keys[Argsort(keys)[j]] <= keys[Argsort(keys)[k]]
  {
    ArgsortUpToSorted(keys, |keys|);
  }

  /** The argsort is stable: equal keys keep their original order. */
  lemma ArgsortStable(keys: seq<int>, j: int, k: int)
    requires 0 <= j < k < |keys| && keys[Argsort(keys)[j]] == keys[Argsort(keys)[k]]
    ensures Argsort(keys)[j] < Argsort(keys)[k]
  {
    ArgsortUpToStable(keys, |keys|);
  }

  /** The positions of `vals` whose slot is missing (`na`) or not, in order. */
  function PositionsWhere(vals: seq<Val>, na: bool): (g: seq<int>)
    ensures |g| <= |vals|
    ensures forall k :: 0 <= k < |g| ==> 0 <= g[k] < |vals| && vals[g[k]].NA? == na
  {
    if vals == [] then []
    else
      var q := PositionsWhere(vals[..|vals| - 1], na);
      if vals[|vals| - 1].NA? == na then q + [|vals| - 1] else q
  }

  /** The positions come in increasing order. */
  lemma {:induction false} PositionsWhereIncreasing(vals: seq<Val>, na: bool)
    ensures Increasing(PositionsWhere(vals, na))
    decreases |vals|
  {
    if vals != [] {
      PositionsWhereIncreasing(vals[..|vals| - 1], na);
    }
  }

  /** Every slot of the asked kind is listed. */
  lemma {:induction false} PositionsWhereComplete(vals: seq<Val>, na: bool, i: int)
    requires 0 <= i < |vals| && vals[i].NA? == na
    ensures i in PositionsWhere(vals, na)
    decreases |vals|
  {
    if i < |vals| - 1 {
      PositionsWhereComplete(vals[..|vals| - 1], na, i);
    }
  }

  /** The non-missing positions of `vals`, in order (`idx[good]`). */
  function GoodPositions(vals: seq<Val>): (g: seq<int>)
    ensures |g| <= |vals|
    ensures forall k :: 0 <= k < |g| ==> 0 <= g[k] < |vals| && !vals[g[k]].NA?
  {
    PositionsWhere(vals, false)
  }

  /** The missing positions of `vals`, in order (`idx[bad]`). */
  function NAPositions(vals: seq<Val>): (b: seq<int>)
    ensures |b| <= |vals|
    ensures forall k :: 0 <= k < |b| ==> 0 <= b[k] < |vals| && vals[b[k]].NA?
  {
    PositionsWhere(vals, true)
  }

  /** The two lists split the buffer: `good.sum()` and `bad.sum()` add up
      to its length, and `good.sum()` is `count()`. */
  lemma {:induction false} CountSplit(vals: seq<Val>)
    ensures |GoodPositions(vals)| + |NAPositions(vals)| == |vals|
    ensures |GoodPositions(vals)| == CountValid(vals)
    decreases |vals|
  {
    if vals != [] {
      CountSplit(vals[..|vals| - 1]);
    }
  }

  /** Without NA the non-missing positions are 0, 1, ..., n-1. */
  lemma {:induction false} AllGoodPositions(vals: seq<Val>)
    requires NoNA(vals)
    ensures |GoodPositions(vals)| == |vals| && forall k :: 0 <= k < |vals| ==> GoodPositions(vals)[k] == k
    decreases |vals|
  {
    if vals != [] {
      AllGoodPositions(vals[..|vals| - 1]);
    }
  }

  /** The integers held by the slots of `vals` listed in `ps`, all non-missing. */
  function KeysAt(vals: seq<Val>, ps: seq<int>): (r: seq<int>)
    requires forall k :: 0 <= k < |ps| ==> 0 <= ps[k] < |vals| && !vals[ps[k]].NA?
    ensures |r| == |ps| && forall k :: 0 <= k < |ps| ==> V(r[k]) == vals[ps[k]]
  {
    seq(|ps|, k requires 0 <= k < |ps| => vals[ps[k]].n)
  }

  /** Slot `k` of a list of length `n`, counted from the front or from the back. */
  function Slot(k: int, n: int, forward: bool): int {
    if forward then k else n - 1 - k
  }

  /** `good[a]`, or `good[a[::-1]]` when not `forward`: the entries of `good`
      read in the order `a` lists, or in its reverse. */
  function Compose(good: seq<int>, a: seq<int>, forward: bool): (r: seq<int>)
    requires InRange(a, |good|)
    ensures |r| == |a|
    ensures forall k {:trigger r[k]} :: 0 <= k < |a| ==>
      0 <= Slot(k, |a|, forward) < |a| && r[k] == good[a[Slot(k, |a|, forward)]]
  {
    seq(|a|, k requires 0 <= k < |a| => good[a[Slot(k, |a|, forward)]])
  }

  /** Reading an increasing list through a permutation repeats nothing. */
  lemma ComposeDistinct(good: seq<int>, a: seq<int>, forward: bool)
    requires InRange(a, |good|) && Increasing(good) && Distinct(a)
    ensures Distinct(Compose(good, a, forward))
  {
    var r := Compose(good, a, forward);
    var n := |a|;
    forall j, k | 0 <= j < k < n ensures r[j] != r[k] {
      var j', k' := Slot(j, n, forward), Slot(k, n, forward);
      if a[j'] < a[k'] { assert good[a[j']] < good[a[k']]; }
      else { assert good[a[k']] < good[a[j']]; }
    }
  }

  /** The stable ascending argsort of the non-missing values, as positions
      into `GoodPositions` (`_try_mergesort(arr[good])`). */
  function GoodArgsort(vals: seq<Val>): (a: seq<int>)
    ensures |a| == |GoodPositions(vals)| && InRange(a, |a|)
    ensures IsPermutation(a, |GoodPositions(vals)|)
    ensures SortedBy(a, KeysAt(vals, GoodPositions(vals)))
  {
    var keys := KeysAt(vals, GoodPositions(vals));
    ArgsortIsPermutation(keys);
    assert SortedBy(Argsort(keys), keys) by {
      forall j, k | 0 <= j < k < |keys| ensures keys[Argsort(keys)[j]] <= keys[Argsort(keys)[k]] {
        ArgsortSorted(keys, j, k);
      }
    }
    Argsort(keys)
  }

  /** `idx[good][argsorted]`, the argsort reversed first for a descending sort. */
  function GoodOrder(vals: seq<Val>, ascending: bool): (r: seq<int>)
    ensures |r| == |GoodPositions(vals)|
    ensures forall k :: 0 <= k < |r| ==> 0 <= r[k] < |vals| && !vals[r[k]].NA?
  {
    Compose(GoodPositions(vals), GoodArgsort(vals), ascending)
  }

  lemma GoodOrderDistinct(vals: seq<Val>, ascending: bool)
    ensures Distinct(GoodOrder(vals, ascending))
  {
    ArgsortIsPermutation(KeysAt(vals, GoodPositions(vals)));
    PositionsWhereIncreasing(vals, false);
    ComposeDistinct(GoodPositions(vals), GoodArgsort(vals), ascending);
  }

  /** Slot `j` of the non-missing block holds the key the argsort lists at
      `j`, or at the mirrored slot for a descending sort. */
  lemma GoodOrderAt(vals: seq<Val>, ascending: bool, j: int)
    requires 0 <= j < |GoodOrder(vals, ascending)|
    ensures var a := GoodArgsort(vals);
      var i := Slot(j, |a|, ascending);
      0 <= i < |a| && 0 <= a[i] < |a| && vals[GoodOrder(vals, ascending)[j]] == V(KeysAt(vals, GoodPositions(vals))[a[i]])
  {
    var a := GoodArgsort(vals);
    assert GoodOrder(vals, ascending)[j] == GoodPositions(vals)[a[Slot(j, |a|, ascending)]];
  }

  lemma GoodOrderSorted(vals: seq<Val>, ascending: bool, j: int, k: int)
    requires 0 <= j < k < |GoodOrder(vals, ascending)|
    ensures var g := GoodOrder(vals, ascending);
      if ascending then vals[g[j]].n <= vals[g[k]].n else vals[g[j]].n >= vals[g[k]].n
  {
    var keys := KeysAt(vals, GoodPositions(vals));
    var a := GoodArgsort(vals);
    var n := |a|;
    GoodOrderAt(vals, ascending, j);
    GoodOrderAt(vals, ascending, k);
    var j', k' := Slot(j, n, ascending), Slot(k, n, ascending);
    if ascending {
      ArgsortSorted(keys, j', k');
    } else {
      ArgsortSorted(keys, k', j');
    }
  }

  lemma GoodOrderStable(vals: seq<Val>, j: int, k: int)
    requires 0 <= j < k < |GoodOrder(vals, true)|
    requires vals[GoodOrder(vals, true)[j]] == vals[GoodOrder(vals, true)[k]]
    ensures GoodOrder(vals, true)[j] < GoodOrder(vals, true)[k]
  {
    var good := GoodPositions(vals);
    var keys := KeysAt(vals, good);
    var a := GoodArgsort(vals);
    GoodOrderAt(vals, true, j);
    GoodOrderAt(vals, true, k);
    assert GoodOrder(vals, true)[j] == good[a[j]] && GoodOrder(vals, true)[k] == good[a[k]];
    ArgsortStable(keys, j, k);
    PositionsWhereIncreasing(vals, false);
  }

  /** A descending sort is the ascending argsort read backwards, so equal
      values come out in reverse original order. */
  lemma DescendingIsReversed(vals: seq<Val>)
    ensures GoodOrder(vals, false) == Reverse(GoodOrder(vals, true))
  {
  }

  predicate AllPresent(vals: seq<Val>, g: seq<int>) {
    forall k :: 0 <= k < |g| ==> 0 <= g[k] < |vals| && !vals[g[k]].NA?
  }

  predicate AllMissing(vals: seq<Val>, b: seq<int>) {
    forall k :: 0 <= k < |b| ==> 0 <= b[k] < |vals| && vals[b[k]].NA?
  }

  /** Where the block `g` starts when `b` (of length `nb`) goes last or first. */
  function GoodStart(naLast: bool, nb: int): int {
    if naLast then 0 else nb
  }

  /** Where the block `b` starts when it goes after `g` (of length `ng`) or first. */
  function BadStart(naLast: bool, ng: int): int {
    if naLast then ng else 0
  }

  predicate InGoodBlock(k: int, naLast: bool, ng: int, nb: int) {
    0 <= k - GoodStart(naLast, nb) < ng
  }

  /** The two slices `order` writes into `sortedIdx`: `g` then `b` when
      `naLast`, otherwise `b` then `g`. */
  function Place(g: seq<int>, b: seq<int>, naLast: bool): (r: seq<int>)
    ensures |r| == |g| + |b|
    ensures forall k :: 0 <= k < |r| ==>
      r[k] == if InGoodBlock(k, naLast, |g|, |b|) then g[k - GoodStart(naLast, |b|)] else b[k - BadStart(naLast, |g|)]
  {
    seq(|g| + |b|, k requires 0 <= k < |g| + |b| =>
      if InGoodBlock(k, naLast, |g|, |b|) then g[k - GoodStart(naLast, |b|)] else b[k - BadStart(naLast, |g|)])
  }

  /** A slot of the placement reads a missing value exactly when it lies
      outside the block `g`. */
  lemma PlaceAt(vals: seq<Val>, g: seq<int>, b: seq<int>, naLast: bool, k: int)
    requires AllPresent(vals, g) && AllMissing(vals, b) && 0 <= k < |g| + |b|
    ensures var r := Place(g, b, naLast);
      0 <= r[k] < |vals| && (vals[r[k]].NA? <==> !InGoodBlock(k, naLast, |g|, |b|))
  {
  }

  lemma PlaceDistinct(vals: seq<Val>, g: seq<int>, b: seq<int>, naLast: bool)
    requires AllPresent(vals, g) && AllMissing(vals, b) && Distinct(g) && Distinct(b)
    ensures Distinct(Place(g, b, naLast))
  {
    var r := Place(g, b, naLast);
    forall j, k | 0 <= j < k < |r| ensures r[j] != r[k] {
      PlaceAt(vals, g, b, naLast, j);
      PlaceAt(vals, g, b, naLast, k);
    }
  }

  /** The values met along `g`, all present, never decrease (or never
      increase, when not `ascending`). */
  predicate SortedValues(vals: seq<Val>, g: seq<int>, ascending: bool)
    requires AllPresent(vals, g)
  {
    forall j, k :: 0 <= j < k < |g| ==>
      if ascending then vals[g[j]].n <= vals[g[k]].n else vals[g[j]].n >= vals[g[k]].n
  }

  lemma GoodOrderSortedValues(vals: seq<Val>, ascending: bool)
    ensures SortedValues(vals, GoodOrder(vals, ascending), ascending)
  {
    forall j, k | 0 <= j < k < |GoodOrder(vals, ascending)| {
      GoodOrderSorted(vals, ascending, j, k);
    }
  }

  /** Placing a sorted block before or after another keeps it sorted. */
  lemma PlaceSorted(vals: seq<Val>, g: seq<int>, b: seq<int>, naLast: bool, ascending: bool, j: int, k: int)
    requires AllPresent(vals, g) && SortedValues(vals, g, ascending)
    requires j < k && InGoodBlock(j, naLast, |g|, |b|) && InGoodBlock(k, naLast, |g|, |b|)
    ensures var r := Place(g, b, naLast);
      0 <= j < k < |r| && 0 <= r[j] < |vals| && 0 <= r[k] < |vals| && !vals[r[j]].NA? && !vals[r[k]].NA? &&
      if ascending then vals[r[j]].n <= vals[r[k]].n else vals[r[j]].n >= vals[r[k]].n
  {
    var off := GoodStart(naLast, |b|);
    var r := Place(g, b, naLast);
    assert r[j] == g[j - off] && r[k] == g[k - off];
  }

  /** Along `g`, slots holding equal values appear in increasing position order. */
  predicate StableValues(vals: seq<Val>, g: seq<int>)
    requires AllPresent(vals, g)
  {
    forall j, k :: 0 <= j < k < |g| && vals[g[j]] == vals[g[k]] ==> g[j] < g[k]
  }

  lemma GoodOrderStableValues(vals: seq<Val>)
    ensures StableValues(vals, GoodOrder(vals, true))
  {
    forall j, k | 0 <= j < k < |GoodOrder(vals, true)| && vals[GoodOrder(vals, true)[j]] == vals[GoodOrder(vals, true)[k]] {
      GoodOrderStable(vals, j, k);
    }
  }

  /** Placing a stable block before or after another keeps it stable. */
  lemma PlaceStable(vals: seq<Val>, g: seq<int>, b: seq<int>, naLast: bool, j: int, k: int)
    requires AllPresent(vals, g) && StableValues(vals, g)
    requires j < k && InGoodBlock(j, naLast, |g|, |b|) && InGoodBlock(k, naLast, |g|, |b|)
    ensures var r := Place(g, b, naLast);
      0 <= j < k < |r| && 0 <= r[j] < |vals| && 0 <= r[k] < |vals| &&
      (vals[r[j]] == vals[r[k]] ==> r[j] < r[k])
  {
    var off := GoodStart(naLast, |b|);
    var r := Place(g, b, naLast);
    assert r[j] == g[j - off] && r[k] == g[k - off];
  }

  /** Placing an increasing block before or after another keeps it increasing. */
  lemma PlaceKeepsOrder(g: seq<int>, b: seq<int>, naLast: bool, j: int, k: int)
    requires Increasing(b)
    requires 0 <= j < k < |g| + |b| && !InGoodBlock(j, naLast, |g|, |b|) && !InGoodBlock(k, naLast, |g|, |b|)
    ensures Place(g, b, naLast)[j] < Place(g, b, naLast)[k]
  {
    var off := BadStart(naLast, |g|);
    var r := Place(g, b, naLast);
    assert r[j] == b[j - off] && r[k] == b[k - off];
  }

  /** The `sortedIdx` buffer `order(na_last, ascending)` fills: the sorted
      non-missing positions, and the missing positions in their original
      order after them (`na_last`) or before them. */
  function SortPermutation(vals: seq<Val>, naLast: bool, ascending: bool): (r: seq<int>)
    ensures |r| == |vals| && InRange(r, |vals|)
  {
    CountSplit(vals);
    var g, b := GoodOrder(vals, ascending), NAPositions(vals);
    assert InRange(Place(g, b, naLast), |vals|) by {
      forall k | 0 <= k < |vals| ensures 0 <= Place(g, b, naLast)[k] < |vals| {
        PlaceAt(vals, g, b, naLast, k);
      }
    }
    Place(g, b, naLast)
  }

  /** `order` visits every position exactly once. */
  lemma OrderIsPermutation(vals: seq<Val>, naLast: bool, ascending: bool)
    ensures IsPermutation(SortPermutation(vals, naLast, ascending), |vals|)
  {
    GoodOrderDistinct(vals, ascending);
    PositionsWhereIncreasing(vals, true);
    PlaceDistinct(vals, GoodOrder(vals, ascending), NAPositions(vals), naLast);
  }

  /** The non-missing values come first (`na_last`) or last, and the
      missing ones fill the other end. */
  lemma OrderPlacesNA(vals: seq<Val>, naLast: bool, ascending: bool, k: int)
    requires 0 <= k < |vals|
    ensures var c := CountValid(vals);
      vals[SortPermutation(vals, naLast, ascending)[k]].NA? <==>
        if naLast then k >= c else k < |vals| - c
  {
    CountSplit(vals);
    PlaceAt(vals, GoodOrder(vals, ascending), NAPositions(vals), naLast, k);
  }

  /** The non-missing block is sorted: ascending, or descending when asked. */
  lemma OrderSorted(vals: seq<Val>, naLast: bool, ascending: bool, j: int, k: int)
    requires 0 <= j < k < |vals|
    requires !vals[SortPermutation(vals, naLast, ascending)[j]].NA?
    requires !vals[SortPermutation(vals, naLast, ascending)[k]].NA?
    ensures var sp := SortPermutation(vals, naLast, ascending);
      if ascending then vals[sp[j]].n <= vals[sp[k]].n else vals[sp[j]].n >= vals[sp[k]].n
  {
    var g, b := GoodOrder(vals, ascending), NAPositions(vals);
    CountSplit(vals);
    PlaceAt(vals, g, b, naLast, j);
    PlaceAt(vals, g, b, naLast, k);
    GoodOrderSortedValues(vals, ascending);
    PlaceSorted(vals, g, b, naLast, ascending, j, k);
  }

  /** Ascending, equal values keep their original order (the sort is stable). */
  lemma OrderStableAscending(vals: seq<Val>, naLast: bool, j: int, k: int)
    requires 0 <= j < k < |vals|
    requires !vals[SortPermutation(vals, naLast, true)[j]].NA?
    requires vals[SortPermutation(vals, naLast, true)[j]] == vals[SortPermutation(vals, naLast, true)[k]]
    ensures SortPermutation(vals, naLast, true)[j] < SortPermutation(vals, naLast, true)[k]
  {
    var g, b := GoodOrder(vals, true), NAPositions(vals);
    CountSplit(vals);
    PlaceAt(vals, g, b, naLast, j);
    PlaceAt(vals, g, b, naLast, k);
    GoodOrderStableValues(vals);
    PlaceStable(vals, g, b, naLast, j, k);
  }

  /** The missing values keep their original order. */
  lemma OrderKeepsNAOrder(vals: seq<Val>, naLast: bool, ascending: bool, j: int, k: int)
    requires 0 <= j < k < |vals|
    requires vals[SortPermutation(vals, naLast, ascending)[j]].NA?
    requires vals[SortPermutation(vals, naLast, ascending)[k]].NA?
    ensures SortPermutation(vals, naLast, ascending)[j] < SortPermutation(vals, naLast, ascending)[k]
  {
    var g, b := GoodOrder(vals, ascending), NAPositions(vals);
    CountSplit(vals);
    PlaceAt(vals, g, b, naLast, j);
    PlaceAt(vals, g, b, naLast, k);
    PositionsWhereIncreasing(vals, true);
    PlaceKeepsOrder(g, b, naLast, j, k);
  }

  /** `order(na_last, ascending)`: the Series with its slots permuted by
      `SortPermutation`, every label travelling with its value. */
  function OrderFrame(f: Frame, naLast: bool, ascending: bool): (r: Frame)
    requires f.Valid()
    ensures r.Valid() && r.name == f.name && r.kind == f.kind && |r.values| == |f.values|
    ensures forall k :: 0 <= k < |f.values| ==>
      var p := SortPermutation(f.values, naLast, ascending)[k];
      0 <= p < |f.values| && r.values[k] == f.values[p] && r.labels[k] == f.labels[p]
  {
    Select(f, SortPermutation(f.values, naLast, ascending))
  }

  /** Scattering values into exactly the non-missing slots keeps the NA pattern. */
  lemma ScatterKeepsNA(vals: seq<Val>, good: seq<int>, src: seq<Val>)
    requires good == GoodPositions(vals) && |src| == |good| && NoNA(src)
    requires forall k :: 0 <= k < |good| ==> good[k] !in good[k + 1..]
    ensures forall q :: 0 <= q < |vals| ==> (Scatter(vals, good, src)[q].NA? <==> vals[q].NA?)
  {
    var w := Scatter(vals, good, src);
    assert forall m :: 0 <= m < |good| ==> w[good[m]] == src[m];
    forall q | 0 <= q < |vals| && !vals[q].NA? ensures !w[q].NA? {
      PositionsWhereComplete(vals, false, q);
    }
  }

  /** `argsort()`: each missing slot stays missing and the non-missing slots
      receive, in order, the argsort of the non-missing values; without NA the
      result is an integer Series. */
  function ArgsortFrame(f: Frame): (r: Frame)
    requires f.Valid()
    ensures r.Valid() && r.labels == f.labels && r.name == f.name
    ensures NoNA(f.values) ==> r.kind == IntKind
    ensures forall q :: 0 <= q < |f.values| ==> (r.values[q].NA? <==> f.values[q].NA?)
    ensures var good := GoodPositions(f.values);
      var a := GoodArgsort(f.values);
      forall k :: 0 <= k < |good| ==> r.values[good[k]] == V(a[k])
  {
    var good := GoodPositions(f.values);
    var src := Positions(GoodArgsort(f.values));
    if NoNA(f.values) then
      ArgsortWithoutNA(f.values);
      Frame(src, f.labels, f.name, IntKind)
    else
      ArgsortWithNA(f.values);
      Frame(Scatter(f.values, good, src), f.labels, f.name, f.kind)
  }

  /** Positions as a buffer of integer values. */
  function Positions(a: seq<int>): (src: seq<Val>)
    ensures |src| == |a| && NoNA(src)
    ensures forall k :: 0 <= k < |a| ==> src[k] == V(a[k])
  {
    seq(|a|, k requires 0 <= k < |a| => V(a[k]))
  }

  /** Without NA, every slot is a good position and receives its argsort entry. */
  lemma ArgsortWithoutNA(vals: seq<Val>)
    requires NoNA(vals)
    ensures var good := GoodPositions(vals);
      var src := Positions(GoodArgsort(vals));
      && |src| == |vals|
      && (forall k :: 0 <= k < |good| ==> src[good[k]] == src[k])
  {
    AllGoodPositions(vals);
  }

  /** With NA, scattering the argsort entries over the good positions keeps
      the missing slots missing and fills each good position with its entry. */
  lemma ArgsortWithNA(vals: seq<Val>)
    ensures var good := GoodPositions(vals);
      var src := Positions(GoodArgsort(vals));
      var w := Scatter(vals, good, src);
      && |w| == |vals|
      && (forall q :: 0 <= q < |vals| ==> (w[q].NA? <==> vals[q].NA?))
      && (forall k :: 0 <= k < |good| ==> w[good[k]] == src[k])
  {
    var good := GoodPositions(vals);
    PositionsWhereIncreasing(vals, false);
    IncreasingWritesOnce(good);
    ScatterKeepsNA(vals, good, Positions(GoodArgsort(vals)));
  }

  /** Without NA, taking the positions `argsort` returns gives the Series
      `order()` returns. */
  lemma TakeArgsortIsOrder(f: Frame)
    requires f.Valid() && NoNA(f.values)
    ensures Select(f, GoodArgsort(f.values)) == OrderFrame(f, true, true)
  {
    var a := GoodArgsort(f.values);
    assert GoodOrder(f.values, true) == a by {
      AllGoodPositions(f.values);
    }
    assert NAPositions(f.values) == [] by {
      CountSplit(f.values);
      AllGoodPositions(f.values);
    }
    assert Place(a, [], true) == a;
  }
}
