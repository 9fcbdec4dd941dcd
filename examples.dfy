/** The repository's own examples, as callers of the entry points: a User
    whose Password is tagged `clean:"true"` and whose Username is not. */
module UserExamples {
  import opened Values
  import opened Redact
  import opened Cleaner
  import opened Stripper

  function User(username: string, password: string): (fs: seq<Field>) {
    [ Field("Username", true, "", Leaf(String, Text(username))),
      Field("Password", true, CleanTag, Leaf(String, Text(password))) ]
  }

  /** Clean on &user: the same pointer comes back, the username kept and the
      password emptied. */
  method ExampleClean() returns (username: string, password: string)
    ensures username == "hawry" && password == ""
  {
    var user := new Record(User("hawry", "abadpassword"), false);
    var r := Clean(PointerTo(user));
    assert r == Ok(user);
    assert user.fields[..] == CleanFields(User("hawry", "abadpassword"));
    username := user.fields[0].val.data.s;
    password := user.fields[1].val.data.s;
  }

  /** Marshal on &user: the encoder is handed the cleaned user, and its
      result is what Marshal returns. */
  method ExampleMarshal(encode: Encoder) returns (r: Outcome<seq<byte>>)
    ensures r == encode(Struct(User("hawry", "")))
  {
    var user := new Record(User("hawry", "abadpassword"), false);
    r := Marshal(PointerTo(user), encode);
    assert user.fields[..] == CleanFields(User("hawry", "abadpassword"));
    assert user.fields[..] == User("hawry", "");
  }

  /** Marshal on the user passed by value: refused with "must provide a
      pointer", and the user's password is still there. */
  method ExampleNonPointer(encode: Encoder) returns (r: Outcome<seq<byte>>, password: string)
    ensures r == Err(MustProvidePointer) && Message(r.error) == "must provide a pointer"
    ensures password == "abadpassword"
  {
    var user := new Record(User("hawry", "abadpassword"), false);
    r := Marshal(NotPointer(Struct(user.fields[..])), encode);
    password := user.fields[1].val.data.s;
  }
}
