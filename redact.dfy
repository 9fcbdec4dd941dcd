/** What one cleaning pass does to a struct's fields, stated twice: as the
    function CleanFields, which walks the fields as the redactor does, and as
    the relation CleanedFrom, which says field by field what may and must hold
    afterwards. The lemmas tie the two together and prove what the redactor
    promises: tagged leaves become zero, everything else is left alone,
    tagged structs are cleaned rather than blanked, the field list and its
    types survive, and a second pass changes nothing. */
module Redact {
  import opened Values

  /** The only tag value that marks a field for cleaning. */
  const CleanTag := "true"

  /** One field after the pass: an untagged field as it was, a tagged struct
      with its own fields cleaned, a tagged leaf holding its kind's zero. */
  function CleanField(f: Field): (g: Field)
    decreases f, 1
  {
    if f.tag != CleanTag then f
    else match f.val
      case Struct(inner) => f.(val := Struct(CleanFields(inner)))
      case Leaf(k, _) => f.(val := Leaf(k, Zero(k)))
  }

  /** The fields of a struct after the pass, in their declared order: the
      same fields under the same names, visibility and tags, and every field
      not tagged exactly "true" as it was. */
  function CleanFields(fs: seq<Field>): (r: seq<Field>)
    ensures |r| == |fs|
    ensures forall k :: 0 <= k < |fs| ==>
      r[k].name == fs[k].name && r[k].exported == fs[k].exported && r[k].tag == fs[k].tag
    ensures forall k :: 0 <= k < |fs| && fs[k].tag != CleanTag ==> r[k] == fs[k]
    decreases fs, 0
  {
    seq(|fs|, i requires 0 <= i < |fs| => CleanField(fs[i]))
  }

  /** The relation a cleaning pass must establish between the fields `before`
      and the fields `after`, one field at a time. */
  ghost predicate CleanedFrom(before: seq<Field>, after: seq<Field>) {
    && |after| == |before|
    && forall k :: 0 <= k < |before| ==>
         && after[k].name == before[k].name
         && after[k].exported == before[k].exported
         && after[k].tag == before[k].tag
         && (before[k].tag != CleanTag ==> after[k].val == before[k].val)
         && (before[k].tag == CleanTag && before[k].val.Leaf? ==>
               after[k].val == Leaf(before[k].val.kind, Zero(before[k].val.kind)))
         && (before[k].tag == CleanTag && before[k].val.Struct? ==>
               after[k].val.Struct? && CleanedFrom(before[k].val.fields, after[k].val.fields))
  }

  /** Cleaning `fs` never hands reflect a field it refuses (Go panics there):
      every tagged field the walk reaches is exported. A tagged leaf that is
      not exported cannot be set; a tagged struct that is not exported is
      reached read-only, and the recursive call then cannot return it as an
      interface value. */
  ghost predicate Settable(fs: seq<Field>) {
    forall k :: 0 <= k < |fs| && fs[k].tag == CleanTag ==>
      fs[k].exported && (fs[k].val.Struct? ==> Settable(fs[k].val.fields))
  }

  /** The field found by following `path`, a list of field indices, down
      through nested structs; None when the path leaves the record. */
  function FieldAt(fs: seq<Field>, path: seq<nat>): (r: Option<Field>)
    requires path != []
    decreases path
  {
    if path[0] >= |fs| then None
    else if |path| == 1 then Some(fs[path[0]])
    else match fs[path[0]].val
      case Struct(inner) => FieldAt(inner, path[1..])
      case Leaf(_, _) => None
  }

  /** Every field along `path` carries the clean tag. */
  predicate TaggedAlong(fs: seq<Field>, path: seq<nat>)
    requires path != []
    decreases path
  {
    path[0] < |fs| && fs[path[0]].tag == CleanTag &&
    (|path| > 1 ==> fs[path[0]].val.Struct? && TaggedAlong(fs[path[0]].val.fields, path[1..]))
  }

  /** The pass meets the field-by-field rule. */
  lemma {:induction false} CleanFieldsCleaned(fs: seq<Field>)
    ensures CleanedFrom(fs, CleanFields(fs))
  {
    var gs := CleanFields(fs);
    forall k | 0 <= k < |fs| && fs[k].tag == CleanTag && fs[k].val.Struct?
      ensures gs[k].val.Struct? && CleanedFrom(fs[k].val.fields, gs[k].val.fields)
    {
      assert gs[k] == CleanField(fs[k]);
      CleanFieldsCleaned(fs[k].val.fields);
    }
  }

  /** The rule leaves no freedom: whatever meets it is the pass's result. */
  lemma {:induction false} CleanedFromUnique(before: seq<Field>, after: seq<Field>)
    requires CleanedFrom(before, after)
    ensures after == CleanFields(before)
  {
    var gs := CleanFields(before);
    forall k | 0 <= k < |before| ensures after[k] == gs[k] {
      if before[k].tag == CleanTag && before[k].val.Struct? {
        CleanedFromUnique(before[k].val.fields, after[k].val.fields);
      }
    }
  }

  /** CleanFields and CleanedFrom say the same thing. */
  lemma {:induction false} CleanCharacterized(before: seq<Field>, after: seq<Field>)
    ensures CleanedFrom(before, after) <==> after == CleanFields(before)
  {
    if CleanedFrom(before, after) {
      CleanedFromUnique(before, after);
    } else {
      CleanFieldsCleaned(before);
    }
  }

  /** The field list keeps its count, order, names, tags and types. */
  lemma {:induction false} CleanPreservesType(fs: seq<Field>)
    ensures TypeOf(Struct(CleanFields(fs))) == TypeOf(Struct(fs))
  {
    var gs := CleanFields(fs);
    forall k | 0 <= k < |fs|
      ensures TypeOf(Struct(gs)).fields[k] == TypeOf(Struct(fs)).fields[k]
    {
      assert gs[k] == CleanField(fs[k]);
      if fs[k].tag == CleanTag && fs[k].val.Struct? {
        CleanPreservesType(fs[k].val.fields);
      }
    }
  }

  /** Every field still holds a value of its own kind after the pass. */
  lemma {:induction false} CleanPreservesWellTyped(fs: seq<Field>)
    requires WellTyped(Struct(fs))
    ensures WellTyped(Struct(CleanFields(fs)))
  {
    var gs := CleanFields(fs);
    forall k | 0 <= k < |fs| ensures WellTyped(gs[k].val) {
      assert WellTyped(fs[k].val);
      assert gs[k] == CleanField(fs[k]);
      if fs[k].tag == CleanTag && fs[k].val.Struct? {
        CleanPreservesWellTyped(fs[k].val.fields);
      }
    }
  }

  /** A second pass over a cleaned struct changes nothing. */
  lemma {:induction false} CleanIdempotent(fs: seq<Field>)
    ensures CleanFields(CleanFields(fs)) == CleanFields(fs)
  {
    var gs := CleanFields(fs);
    forall k | 0 <= k < |fs| ensures CleanField(gs[k]) == gs[k] {
      if fs[k].tag == CleanTag && fs[k].val.Struct? {
        CleanIdempotent(fs[k].val.fields);
      }
    }
  }

  /** A tagged pointer field is set to nil, even when it points to a struct:
      its kind is Pointer, not Struct, so the walk does not follow it. */
  lemma TaggedPointerSetToNil(fs: seq<Field>, i: nat)
    requires i < |fs| && fs[i].tag == CleanTag && fs[i].val.Leaf? && fs[i].val.kind == Pointer
    ensures CleanFields(fs)[i] == fs[i].(val := Leaf(Pointer, Ref(None)))
  {
  }

  /** A tagged struct is cleaned, not blanked: an untagged field inside it
      that holds a non-zero value keeps it, so the struct does not become its
      type's zero value. */
  lemma TaggedStructNotBlanked(fs: seq<Field>, i: nat, j: nat)
    requires i < |fs| && fs[i].tag == CleanTag && fs[i].val.Struct?
    requires j < |fs[i].val.fields| && fs[i].val.fields[j].tag != CleanTag
    requires fs[i].val.fields[j].val != ZeroValue(TypeOf(fs[i].val.fields[j].val))
    ensures CleanFields(fs)[i].val != ZeroValue(TypeOf(fs[i].val))
  {
  }

  /** A leaf reached through tagged fields only holds its kind's zero after
      the pass, however deep it sits. */
  lemma {:induction false} DeepTaggedLeafZeroed(fs: seq<Field>, path: seq<nat>)
    requires path != [] && TaggedAlong(fs, path)
    requires FieldAt(fs, path).Some? && FieldAt(fs, path).value.val.Leaf?
    ensures FieldAt(CleanFields(fs), path) ==
      var f := FieldAt(fs, path).value;
      Some(f.(val := Leaf(f.val.kind, Zero(f.val.kind))))
    decreases path
  {
    if |path| > 1 {
      DeepTaggedLeafZeroed(fs[path[0]].val.fields, path[1..]);
    }
  }

  /** Below an untagged field nothing changes: any field reached through a
      path whose `j`-th step is untagged is the same after the pass, even a
      tagged one inside an untagged nested struct. */
  lemma {:induction false} DeepUntaggedUnchanged(fs: seq<Field>, path: seq<nat>, j: nat)
    requires path != [] && j < |path|
    requires FieldAt(fs, path).Some? && FieldAt(fs, path[..j + 1]).Some?
    requires FieldAt(fs, path[..j + 1]).value.tag != CleanTag
    ensures FieldAt(CleanFields(fs), path) == FieldAt(fs, path)
    decreases path
  {
    if j == 0 {
      assert FieldAt(fs, path[..1]) == Some(fs[path[0]]);
      if |path| > 1 {
        assert CleanFields(fs)[path[0]] == fs[path[0]];
      }
    } else {
      assert path[..j + 1][1..] == path[1..][..j];
      DeepUntaggedUnchanged(fs[path[0]].val.fields, path[1..], j - 1);
    }
  }
}
