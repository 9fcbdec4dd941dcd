/** The public entry points: each refuses an argument that is not a pointer,
    runs one cleaning pass over the struct it points to, and then either hands
    the cleaned struct to a JSON encoder or returns the pointer itself. The
    encoder is a parameter: its output is not modelled, only what it is
    given and that its result comes back unchanged. */
module Stripper {
  import opened Values
  import opened Redact
  import opened Cleaner

  newtype byte = x: int | 0 <= x < 256

  datatype Error =
    | MustProvidePointer
    | EncodingFailed(reason: string)

  /** The error text the caller sees. */
  function Message(e: Error): (m: string) {
    match e
    case MustProvidePointer => "must provide a pointer"
    case EncodingFailed(reason) => reason
  }

  datatype Outcome<T> = Ok(value: T) | Err(error: Error)

  /** What a caller passes as `interface{}`: a pointer to a struct, or any
      value that is not a pointer (a struct passed by copy, a number, ...).
      A `NotPointer` leaf of kind Pointer (a nil pointer, or a pointer to a
      non-struct) passes Go's pointer guard and then panics, so the entry
      points require that it is not one. */
  datatype Arg = PointerTo(target: Record) | NotPointer(v: Value)

  /** json.Marshal: the cleaned struct in, bytes or an error out. */
  type Encoder = Value -> Outcome<seq<byte>>

  /** json.MarshalIndent: as Encoder, with a line prefix and an indent. */
  type IndentEncoder = (Value, string, string) -> Outcome<seq<byte>>

  /** The objects a call may change: the pointed-to struct's fields, and
      nothing when the argument is not a pointer. */
  function Footprint(a: Arg): (objs: set<object>) {
    if a.PointerTo? then {a.target.fields} else {}
  }

  /** Cleans the struct and encodes it; a non-pointer is refused before
      anything is touched. */
  method Marshal(a: Arg, encode: Encoder) returns (r: Outcome<seq<byte>>)
    requires a.PointerTo? ==> !a.target.readOnly && Settable(a.target.fields[..])
    requires a.NotPointer? ==> !(a.v.Leaf? && a.v.kind == Pointer)
    modifies Footprint(a)
    ensures a.NotPointer? ==> r == Err(MustProvidePointer)
    ensures a.PointerTo? ==> a.target.fields[..] == CleanFields(old(a.target.fields[..]))
    ensures a.PointerTo? ==> r == encode(Struct(a.target.fields[..]))
  {
    if !a.PointerTo? {
      return Err(MustProvidePointer);
    }
    a.target.Clean();
    r := encode(Struct(a.target.fields[..]));
  }

  /** As Marshal, with the pretty-printing encoder and the caller's prefix
      and indent. */
  method MarshalIndent(a: Arg, prefix: string, indent: string, encode: IndentEncoder)
    returns (r: Outcome<seq<byte>>)
    requires a.PointerTo? ==> !a.target.readOnly && Settable(a.target.fields[..])
    requires a.NotPointer? ==> !(a.v.Leaf? && a.v.kind == Pointer)
    modifies Footprint(a)
    ensures a.NotPointer? ==> r == Err(MustProvidePointer)
    ensures a.PointerTo? ==> a.target.fields[..] == CleanFields(old(a.target.fields[..]))
    ensures a.PointerTo? ==> r == encode(Struct(a.target.fields[..]), prefix, indent)
  {
    if !a.PointerTo? {
      return Err(MustProvidePointer);
    }
    a.target.Clean();
    r := encode(Struct(a.target.fields[..]), prefix, indent);
  }

  /** Cleans the struct in place and returns the very pointer it was given:
      no copy is made. */
  method Clean(a: Arg) returns (r: Outcome<Record>)
    requires a.PointerTo? ==> !a.target.readOnly && Settable(a.target.fields[..])
    requires a.NotPointer? ==> !(a.v.Leaf? && a.v.kind == Pointer)
    modifies Footprint(a)
    ensures a.NotPointer? ==> r == Err(MustProvidePointer)
    ensures a.PointerTo? ==> a.target.fields[..] == CleanFields(old(a.target.fields[..]))
    ensures a.PointerTo? ==> r == Ok(a.target)
  {
    if !a.PointerTo? {
      return Err(MustProvidePointer);
    }
    a.target.Clean();
    r := Ok(a.target);
  }
}
