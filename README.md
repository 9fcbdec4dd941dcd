# stripper, modelled in Dafny

stripper redacts sensitive fields of a Go struct before it is serialized.
Every field whose struct tag carries `clean:"true"` is reset to its type's
zero value; a tagged field that is itself a struct is not reset as a whole
but cleaned recursively by the same rule; every other field is left alone.
The walk (`clean`) mutates the caller's struct in place. Three entry points
guard it: `Marshal` and `MarshalIndent` clean and then JSON-encode the struct,
`Clean` cleans and returns the pointer it was given. Each refuses a
non-pointer argument with the error "must provide a pointer".

The model has five modules:

- `Values` (values.dfy): what a field can hold. A `Value` is a leaf of some
  non-struct `Kind` with a payload, or a `Struct` of `Field`s in declared
  order. Each `Field` has a name, an exported flag and the string stored
  under the `clean` tag key. The file also gives the zero payload of each
  kind (`Zero`), the static type of a value (`TypeOf`) and `reflect.Zero` of
  a type (`ZeroValue`).
- `Redact` (redact.dfy): the cleaning pass as a pure function, `CleanFields`.
  Beside it is an independent field-by-field rule, `CleanedFrom`, with the
  lemmas that prove what the pass promises.
- `Cleaner` (record.dfy): the redactor as Go runs it. A `Record` is a struct
  reached through a pointer, with its fields in an array. `Record.Clean`
  loops over the field indices and overwrites fields in place, and it is
  proved to leave exactly `CleanFields` of the old fields.
- `Stripper` (stripper.dfy): the entry points `Marshal`, `MarshalIndent` and
  `Clean`. Each is a pointer guard followed by `Record.Clean`. The JSON
  encoder is a function parameter.
- `UserExamples` (examples.dfy): the repository's `User` example, with the
  `Clean` and `Marshal` outcomes it documents.

## Model

| member | source | states |
|---|---|---|
| `Values.Zero` | stripper.go:61 | the zero value given to a tagged leaf is a payload of that leaf's own kind (false, 0, 0.0, "" or nil) |
| `Values.ZeroValue` | stripper.go:61 | `reflect.Zero` of a type is a well-typed value of exactly that type; a struct's zero holds the zero of every field |
| `Redact.CleanFields` | stripper.go:50-64 | one pass over the fields in declared order: the same number of fields under the same names, visibility and tags; a field not tagged exactly "true" as it was; a tagged struct with its own fields cleaned, a tagged leaf holding its kind's zero (the last two through `CleanFieldsCleaned`) |
| `Redact.CleanFieldsCleaned` | stripper.go:52-62 | the pass meets the field rule: name, visibility and tag are kept; a field not tagged exactly "true" keeps its value; a tagged leaf gets its kind's zero; a tagged struct has its own fields cleaned by the same rule |
| `Redact.CleanedFromUnique` | stripper.go:52-62 | the field rule determines the result: any field list that meets it equals the pass's result |
| `Redact.CleanCharacterized` | stripper.go:52-62 | the pass's result and the field rule agree in both directions |
| `Redact.CleanPreservesType` | stripper.go:52-61 | cleaning keeps the field list: the same count, order, names, tags and types at every depth |
| `Redact.CleanPreservesWellTyped` | stripper.go:61 | after cleaning, every leaf still holds a payload of its own kind |
| `Redact.CleanIdempotent` | stripper.go:53-61 | cleaning an already cleaned struct changes nothing |
| `Redact.TaggedPointerSetToNil` | stripper.go:57-61 | a tagged pointer field is set to nil and is not followed, even when it points to a struct |
| `Redact.TaggedStructNotBlanked` | stripper.go:57-60 | a tagged struct field is cleaned, not replaced by its type's zero: an untagged non-zero field inside it survives |
| `Redact.DeepTaggedLeafZeroed` | stripper.go:53-61 | a leaf reached through tagged fields only holds its kind's zero after the pass, at any depth |
| `Redact.DeepUntaggedUnchanged` | stripper.go:53-56 | any field below an untagged field, or a tag other than "true", is unchanged after the pass, including tagged fields inside an untagged nested struct |
| `Cleaner.Record.SetField` | stripper.go:61 | `reflect.Value.Set` is allowed only on a settable field (exported, not reached through an unexported field) and only with a value of the field's own type; it changes that field's value only |
| `Cleaner.Record.Clean` | stripper.go:50-64 | on a struct that is not read-only and whose tagged fields on the walk are all exported (otherwise Go panics at `Set` or at `Interface()`), the in-place index loop leaves the fields equal to `CleanFields` of their old value; a tagged nested struct is cleaned by a recursive call |
| `Stripper.Marshal` | stripper.go:21-28 | a non-pointer is refused with "must provide a pointer" and nothing is changed; otherwise the struct is cleaned in place and the encoder's result for the cleaned struct is returned unchanged; a nil pointer or a pointer to a non-struct, which panics in Go, is excluded |
| `Stripper.MarshalIndent` | stripper.go:31-38 | as Marshal, with the pretty-printing encoder given the caller's prefix and indent |
| `Stripper.Clean` | stripper.go:41-48 | a non-pointer is refused with "must provide a pointer" and nothing is changed; otherwise the struct is cleaned in place and the same pointer is returned; a nil pointer or a pointer to a non-struct, which panics in Go, is excluded |
| `UserExamples.ExampleClean` | examples_test.go:47-61 | Clean on a User with only Password tagged keeps Username "hawry" and leaves Password "" |
| `UserExamples.ExampleMarshal` | examples_test.go:10-24 | Marshal of that User hands the encoder `{Username: "hawry", Password: ""}` and returns its result |
| `UserExamples.ExampleNonPointer` | stripper.go:22-25 | Marshal of the User passed by value fails with "must provide a pointer" and the password stays in place |

## Left out

- JSON encoding (`json.Marshal`, `json.MarshalIndent`) is not modelled. The encoder is a function parameter. The model states what the encoder is given and that its result, error included, is returned unchanged. It does not state the JSON text.
- The encoder is given the cleaned struct value. Go hands `json.Marshal` and `json.MarshalIndent` the caller's pointer (`v.Interface()`, stripper.go:26-27, 36-37). The two encode alike unless the struct has a `MarshalJSON` method on its pointer receiver, which json calls only through the pointer. Such methods are not modelled.
- Go returns an empty byte slice (from `Marshal` and `MarshalIndent`) or nil (from `Clean`) together with the pointer error. The model's `Err` outcome carries only the error.
- Struct tag parsing (`StructTag.Get`) is not modelled. Each field carries the string stored under the `clean` key, or "" when the key is absent.
- `reflect.Indirect` is not modelled, and `Value.Interface` only through its refusal of a read-only value (`Record.readOnly`). An argument is either a pointer to a struct (`PointerTo` a `Record`) or a non-pointer (`NotPointer`). A nil interface has kind Invalid in Go and falls under `NotPointer`.
- Panics are preconditions, not behaviour. A typed nil pointer, a pointer to a non-struct and a pointer to a pointer all have kind Ptr in Go, so they pass the pointer guard (stripper.go:23, 33, 43) and then panic at `in.NumField()` (stripper.go:52). A `PointerTo` argument cannot be one of them, because a `Record` reference is never null and a `Record` is always a struct. As a `NotPointer` leaf of kind `Pointer` they are excluded by a requirement on `Marshal`, `MarshalIndent` and `Clean`. Go also panics when the walk reaches a tagged field that is not exported. For a leaf, `Set` refuses it (stripper.go:61). For a struct, the recursive call gets a read-only value, and its `Interface()` refuses that value (stripper.go:63). Both cases are excluded by the `Settable` requirement and by `!readOnly` on `Record.Clean` and the entry points.
- Go kinds Array and Complex64/128 are not modelled. A tagged array field is not walked: one `Set(reflect.Zero(...))` (stripper.go:61) replaces the whole array, so even struct elements are blanked, not cleaned. Modelling that needs the element type and the length.
- Integer widths are not modelled, because the redactor never computes with a value: it only writes zeros. Floats are modelled as reals, for the same reason.
- Record.Clean: a tagged nested struct is cleaned through a fresh `Record` over a copy of its fields, and the result is stored back into its slot. In Go the recursive call writes into the parent's memory directly. The two have the same effect, because a nested struct is embedded by value and nothing else can alias it.
- Cycles through pointers are not modelled, because the walk never follows a pointer.
- Concurrency is not modelled. The code has none.
- The `MarshalIndent` example in examples_test.go calls it with one argument, which does not match its three-parameter signature. It is not used as a test vector.
