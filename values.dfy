/** The values a Go struct can hold, as far as the redactor can tell them apart:
    a field is either a nested struct or a leaf of some other kind, and every
    leaf kind has a zero value (what reflect.Zero yields for it). */
module Values {

  datatype Option<T> = None | Some(value: T)

  /** reflect.Kind of a field that is not a struct. All signed integer widths
      share Int, all unsigned ones (uintptr included) share Uint, and both
      float widths share Float. */
  datatype Kind =
    | Bool | Int | Uint | Float | String
    | Pointer | Slice | Map | Chan | Func | Interface | UnsafePointer

  /** The payload of a leaf. Reference-like kinds hold nil (None) or an
      opaque address of storage outside the record, which the redactor never
      follows. */
  datatype Datum =
    | Flag(b: bool)
    | Number(n: int)
    | Fraction(r: real)
    | Text(s: string)
    | Ref(target: Option<nat>)

  /** The payload `d` is one a field of kind `k` can hold. */
  predicate Fits(k: Kind, d: Datum) {
    match k
    case Bool => d.Flag?
    case Int => d.Number?
    case Uint => d.Number? && d.n >= 0
    case Float => d.Fraction?
    case String => d.Text?
    case _ => d.Ref?
  }

  /** The zero value of a leaf kind: false, 0, 0.0, "" or nil. */
  function Zero(k: Kind): (d: Datum)
    ensures Fits(k, d)
  {
    match k
    case Bool => Flag(false)
    case Int => Number(0)
    case Uint => Number(0)
    case Float => Fraction(0.0)
    case String => Text("")
    case _ => Ref(None)
  }

  /** A value stored in a field: a leaf, or a struct embedded by value. */
  datatype Value =
    | Leaf(kind: Kind, data: Datum)
    | Struct(fields: seq<Field>)

  /** One declared field of a struct, in declaration order. `tag` is the value
      the struct tag holds under the key "clean" (the empty string when the
      key is absent); `exported` says whether reflect lets the field be set. */
  datatype Field = Field(name: string, exported: bool, tag: string, val: Value)

  /** The static type of a value: its kind, and for a struct the declared
      name, visibility, tag and type of every field. */
  datatype Type =
    | LeafType(kind: Kind)
    | StructType(fields: seq<FieldType>)

  datatype FieldType = FieldType(name: string, exported: bool, tag: string, ty: Type)

  function TypeOf(v: Value): (t: Type) {
    match v
    case Leaf(k, _) => LeafType(k)
    case Struct(fs) =>
      StructType(seq(|fs|, i requires 0 <= i < |fs| =>
        FieldType(fs[i].name, fs[i].exported, fs[i].tag, TypeOf(fs[i].val))))
  }

  /** Every leaf holds a payload of its own kind. */
  ghost predicate WellTyped(v: Value) {
    match v
    case Leaf(k, d) => Fits(k, d)
    case Struct(fs) => forall i :: 0 <= i < |fs| ==> WellTyped(fs[i].val)
  }

  /** reflect.Zero of a type: a struct's zero value holds the zero value of
      every field. */
  function ZeroValue(t: Type): (v: Value)
    ensures TypeOf(v) == t
    ensures WellTyped(v)
  {
    match t
    case LeafType(k) => Leaf(k, Zero(k))
    case StructType(fts) =>
      var fs := seq(|fts|, i requires 0 <= i < |fts| =>
        Field(fts[i].name, fts[i].exported, fts[i].tag, ZeroValue(fts[i].ty)));
      assert forall i :: 0 <= i < |fts| ==> TypeOf(fs[i].val) == fts[i].ty;
      assert TypeOf(Struct(fs)).fields == fts;
      Struct(fs)
  }
}
