/** The redactor itself: a struct reached through a pointer, whose fields it
    walks in declared order and overwrites in place. */
module Cleaner {
  import opened Values
  import opened Redact

  /** A Go struct as reflect sees it through a pointer: its fields in declared
      order, fixed in number, stored in place. `readOnly` is reflect's
      read-only flag, set when the struct was reached through an unexported
      field; reflect then refuses to set any of its fields or to return it
      as an interface value. */
  class Record {
    const fields: array<Field>
    const readOnly: bool

    constructor (fs: seq<Field>, readOnly: bool)
      ensures fields[..] == fs && this.readOnly == readOnly
      ensures fresh(fields)
    {
      this.readOnly := readOnly;
      fields := new Field[|fs|](i requires 0 <= i < |fs| => fs[i]);
    }

    /** reflect.Value.Set on field `i`: Go panics unless the field is
        settable, that is exported and not reached through an unexported
        field, and the new value has the field's own type. Only the field's
        value changes. */
    method SetField(i: nat, v: Value)
      requires i < fields.Length && !readOnly && fields[i].exported
      requires TypeOf(v) == TypeOf(fields[i].val)
      modifies fields
      ensures fields[..] == old(fields[..])[i := old(fields[i]).(val := v)]
    {
      fields[i] := fields[i].(val := v);
    }

    /** One cleaning pass over this struct. A tagged nested struct is cleaned
        through a record over its own fields, then stored back in its slot;
        every other write is a SetField. The pass ends by returning the
        struct as an interface value, which reflect refuses for a read-only
        one (Go panics there), hence `!readOnly`. */
    method Clean()
      requires !readOnly && Settable(fields[..])
      modifies fields
      ensures fields[..] == CleanFields(old(fields[..]))
      decreases Struct(fields[..])
    {
      ghost var before := fields[..];
      for i := 0 to fields.Length
        invariant forall k :: 0 <= k < i ==> fields[k] == CleanField(before[k])
        invariant forall k :: i <= k < fields.Length ==> fields[k] == before[k]
      {
        var f := fields[i];
        if f.tag != CleanTag {
          continue;
        }
        if f.val.Struct? {
          var nested := new Record(f.val.fields, !f.exported);
          assert Struct(nested.fields[..]) == before[i].val;
          nested.Clean();
          fields[i] := f.(val := Struct(nested.fields[..]));
          continue;
        }
        SetField(i, ZeroValue(TypeOf(f.val)));
      }
    }
  }
}
