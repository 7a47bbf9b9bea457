/** `rename(mapper)`: every label passed through the mapper, which is a dict
    (labels it lacks stay as they are) or a function; the values, their
    order and the name are untouched. */
module Renaming {
  import opened Values
  import opened Labels
  import opened Frames

  datatype Mapper = DictMapper(m: map<Label, Label>) | FuncMapper(f: Label -> Label)

  /** `_get_rename_function(mapper)`: a dict becomes the lookup that leaves
      unknown labels alone; a function is used as it is. */
  function RenameFunction(mapper: Mapper): (g: Label -> Label)
    ensures mapper.DictMapper? ==> forall x :: g(x) == if x in mapper.m then mapper.m[x] else x
    ensures mapper.DictMapper? ==> forall x :: x !in mapper.m ==> g(x) == x
    ensures mapper.FuncMapper? ==> forall x :: g(x) == mapper.f(x)
  {
    match mapper
    case DictMapper(m) => x => if x in m then m[x] else x
    case FuncMapper(f) => f
  }

  /** `[mapper_f(x) for x in self.index]`. */
  function MapLabels(ls: seq<Label>, g: Label -> Label): (r: seq<Label>)
    ensures |r| == |ls| && forall i :: 0 <= i < |ls| ==> r[i] == g(ls[i])
  {
    seq(|ls|, i requires 0 <= i < |ls| => g(ls[i]))
  }

  /** `rename(mapper)` on a copy. */
  function RenameFrame(f: Frame, mapper: Mapper): (r: Frame)
    requires f.Valid()
    ensures r.Valid() && r.values == f.values && r.name == f.name && r.kind == f.kind
    ensures |r.labels| == |f.labels|
    ensures forall i :: 0 <= i < |f.labels| ==> r.labels[i] == RenameFunction(mapper)(f.labels[i])
  {
    f.(labels := MapLabels(f.labels, RenameFunction(mapper)))
  }

  /** A dict that mentions none of the labels leaves the Series as it is. */
  lemma RenameUnknownKeys(f: Frame, m: map<Label, Label>)
    requires f.Valid() && forall i :: 0 <= i < |f.labels| ==> f.labels[i] !in m
    ensures RenameFrame(f, DictMapper(m)) == f
  {
    assert RenameFrame(f, DictMapper(m)).labels == f.labels;
  }

  /** A mapper that is one-to-one on the labels keeps them unique. */
  predicate InjectiveOn(g: Label -> Label, ls: seq<Label>) {
    forall i, j :: 0 <= i < |ls| && 0 <= j < |ls| && ls[i] != ls[j] ==> g(ls[i]) != g(ls[j])
  }

  lemma RenameKeepsUnique(f: Frame, mapper: Mapper)
    requires f.Valid() && Unique(f.labels) && InjectiveOn(RenameFunction(mapper), f.labels)
    ensures Unique(RenameFrame(f, mapper).labels)
  {
    var r := RenameFrame(f, mapper);
    forall i, j | 0 <= i < j < |r.labels| ensures r.labels[i] != r.labels[j] {
      assert f.labels[i] != f.labels[j];
    }
  }

  /** Every value travels with its label: with unique labels and a one-to-one
      mapper, the renamed Series answers for the new label what the original
      answered for the old one. */
  lemma RenameThenGet(f: Frame, mapper: Mapper, p: int, default: Val)
    requires f.Valid() && Unique(f.labels) && InjectiveOn(RenameFunction(mapper), f.labels)
    requires 0 <= p < |f.labels|
    ensures Get(RenameFrame(f, mapper), RenameFunction(mapper)(f.labels[p]), default) == Get(f, f.labels[p], default)
  {
    RenameKeepsUnique(f, mapper);
    GetUnique(f, p, default);
    GetUnique(RenameFrame(f, mapper), p, default);
  }
}
