/** JSON values as `json.load` hands them to the flattener: objects are
    insertion-ordered lists of (key, value) pairs (a Python dict's `.items()`),
    arrays are lists, and everything else is a leaf the flattener never looks into. */
module Json {

  /** Leaf values. Numbers are kept as their source text: the flattener only
      copies them, so their arithmetic is never needed. */
  datatype Scalar = Null | Bool(b: bool) | Number(lexeme: string) | Str(s: string)

  datatype JVal =
    | JObj(fields: seq<(string, JVal)>)
    | JList(items: seq<JVal>)
    | JScalar(atom: Scalar)

  /** The (key, value) pairs of one object, in insertion order. */
  type Fields = seq<(string, JVal)>

  function Sum(s: seq<nat>): nat
  {
    if s == [] then 0 else Sum(s[..|s| - 1]) + s[|s| - 1]
  }

  /** Number of constructors on the object spine of `v`; the termination
      measure for everything that recurses into nested objects. The `JObj`
      case spells out `1 + FieldsSize(fs)` rather than calling `FieldsSize`:
      the call would make the two functions mutually recursive, and their
      decreases clauses would have to compare a `JVal` with a `Fields`
      sequence, which Dafny's termination order does not relate. */
  function Size(v: JVal): (n: nat)
    ensures n >= 1
  {
    match v
    case JObj(fs) => 1 + Sum(seq(|fs|, i requires 0 <= i < |fs| => Size(fs[i].1)))
    case _ => 1
  }

  function FieldsSize(fs: Fields): nat
  {
    Sum(seq(|fs|, i requires 0 <= i < |fs| => Size(fs[i].1)))
  }

  lemma FieldsSizeLast(fs: Fields)
    requires fs != []
    ensures FieldsSize(fs) == FieldsSize(fs[..|fs| - 1]) + Size(fs[|fs| - 1].1)
  {
    var s := seq(|fs|, i requires 0 <= i < |fs| => Size(fs[i].1));
    assert s[..|s| - 1] == seq(|fs| - 1, i requires 0 <= i < |fs| - 1 => Size(fs[..|fs| - 1][i].1));
  }

  /** A nested object is strictly smaller than the object holding it. */
  lemma {:induction false} FieldsSizeAt(fs: Fields, i: nat)
    requires i < |fs|
    ensures Size(fs[i].1) <= FieldsSize(fs)
    decreases |fs|
  {
    FieldsSizeLast(fs);
    if i < |fs| - 1 {
      FieldsSizeAt(fs[..|fs| - 1], i);
    }
  }
}
