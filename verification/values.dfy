/** The value domain of a Series buffer, its missing-value policy and the
    error taxonomy shared by every operation of the model. */
module Values {

  datatype Option<T> = None | Some(value: T)

  /** The exceptions the Series operations raise, one constructor per kind. */
  datatype Error =
    | KeyNotFound             // a label that must be present is absent
    | IndexOutOfRange         // a position outside [-n, n)
    | InvalidIndex            // None passed where labels are required
    | UnrepresentableMissing  // NA would be stored in an integer buffer
    | ShapeMismatch           // lengths of operands or replacements differ
    | NotASeries              // _binop given an operand that is not a Series
    | NAInMask                // a boolean indexer that holds NA
    | NotArrayLike            // a where condition without a shape
    | BadOperandType          // `~` applied to a list, or to a non-boolean buffer

  datatype Result<T> = Ok(value: T) | Err(error: Error)

  /** One slot of a value buffer: missing, or an integer-valued number. */
  datatype Val = NA | V(n: int)

  /** The element kind of a buffer; only the integer kind has no NA sentinel. */
  datatype Kind = IntKind | FloatKind

  predicate IsNull(v: Val) { v.NA? }

  predicate NoNA(s: seq<Val>) {
    forall i :: 0 <= i < |s| ==> !s[i].NA?
  }

  /** `_can_hold_na`: every kind but the integer kind has a missing sentinel. */
  predicate CanHoldNA(k: Kind) { k != IntKind }

  /** The kind numpy gives a buffer of kind `k` once it holds `s`: an integer
      buffer is promoted to floating as soon as a slot is missing. */
  function Upcast(k: Kind, s: seq<Val>): (r: Kind)
    ensures r == IntKind ==> NoNA(s)
    ensures NoNA(s) ==> r == k
  {
    match k
    case IntKind => if NoNA(s) then IntKind else FloatKind
    case FloatKind => FloatKind
  }

  /** The kind of an elementwise result of two aligned buffers. */
  function JoinKinds(a: Kind, b: Kind): (r: Kind)
    ensures CanHoldNA(a) || CanHoldNA(b) ==> CanHoldNA(r)
    ensures a == b ==> r == a
  {
    if a.IntKind? && b.IntKind? then IntKind else FloatKind
  }

  /** `isnull(values)` as a boolean mask. */
  function NullMask(s: seq<Val>): (m: seq<bool>)
    ensures |m| == |s|
    ensures forall i :: 0 <= i < |s| ==> m[i] == s[i].NA?
  {
    seq(|s|, i requires 0 <= i < |s| => s[i].NA?)
  }

  /** `notnull(values)` as a boolean mask. */
  function NotNullMask(s: seq<Val>): (m: seq<bool>)
    ensures |m| == |s|
    ensures forall i :: 0 <= i < |s| ==> m[i] == !s[i].NA?
  {
    seq(|s|, i requires 0 <= i < |s| => !s[i].NA?)
  }

  /** `count()` without a level: the number of non-missing slots. */
  function CountValid(s: seq<Val>): (c: nat)
    ensures c <= |s|
    ensures c == |s| <==> NoNA(s)
    ensures c == 0 <==> forall i :: 0 <= i < |s| ==> s[i].NA?
  {
    if s == [] then 0
    else CountValid(s[..|s| - 1]) + (if s[|s| - 1].NA? then 0 else 1)
  }

  /** A numpy arithmetic operator on floating buffers: NA propagates. */
  function ApplyOp(op: (int, int) -> int, x: Val, y: Val): (r: Val)
    ensures r.NA? <==> x.NA? || y.NA?
    ensures !r.NA? ==> r == V(op(x.n, y.n))
  {
    if x.NA? || y.NA? then NA else V(op(x.n, y.n))
  }

  datatype CmpOp = Lt | Le | Gt | Ge | Eq | Ne

  /** A numpy comparison on floating buffers (and `vec_compare` on object
      buffers): a comparison with NA is false, except `!=`, which is true. */
  function CompareVals(op: CmpOp, x: Val, y: Val): (b: bool)
    ensures (x.NA? || y.NA?) ==> (b <==> op == Ne)
  {
    if x.NA? || y.NA? then op == Ne
    else match op
      case Lt => x.n < y.n
      case Le => x.n <= y.n
      case Gt => x.n > y.n
      case Ge => x.n >= y.n
      case Eq => x.n == y.n
      case Ne => x.n != y.n
  }

  datatype BoolOp = And | Or | Xor

  function ApplyBool(op: BoolOp, x: bool, y: bool): bool {
    match op
    case And => x && y
    case Or => x || y
    case Xor => x != y
  }
}
