/** The `Errno` exceptions the core raises or re-raises. */
module SystemErrors {
  import opened Wrappers
  import Sequences

  /** An `Errno` exception with what it was built with: the name of the system call that
      failed, when the interpreter raised it (`rb_sysopen` for `File.open`), and the
      detail (`Errno::EACCES.new`, `Errno::ENOENT.new(detail)`). */
  datatype Errno =
    | ENOENT(func: Option<string>, detail: Option<string>)  // no such file or directory
    | EACCES(func: Option<string>, detail: Option<string>)  // permission denied

  function Description(e: Errno): string {
    match e
    case ENOENT(_, _) => "No such file or directory"
    case EACCES(_, _) => "Permission denied"
  }

  /** `e.message`: the system's description of the error and, when there is a detail,
      ` @ ` and the system call if there is one, then ` - ` and the detail. */
  function Message(e: Errno): string {
    if e.detail.Some? && e.func.Some? then Description(e) + " @ " + e.func.value + " - " + e.detail.value
    else if e.detail.Some? then Description(e) + " - " + e.detail.value
    else Description(e)
  }

  /** The message always starts with the system's description. Without a detail it is
      that description alone; with one it ends in ` - ` and the detail, and the system
      call, when there is one, stands between the two after ` @ `. */
  lemma MessageParts(e: Errno)
    ensures Description(e) <= Message(e)
    ensures e.detail.None? ==> Message(e) == Description(e)
    ensures e.detail.Some? ==>
      var m, d := Message(e), " - " + e.detail.value;
      |d| <= |m| && m[|m| - |d|..] == d
    ensures e.detail.Some? && e.func.Some? ==>
      Message(e)[|Description(e)|..|Description(e)| + 3 + |e.func.value|] == " @ " + e.func.value
  {
    if e.detail.Some? {
      var m, d := Message(e), " - " + e.detail.value;
      var head := if e.func.Some? then Description(e) + " @ " + e.func.value else Description(e);
      assert m == head + " - " + e.detail.value;
      Sequences.Assoc(head, " - ", e.detail.value);
      assert m[|head|..] == d;
      if e.func.Some? {
        Sequences.Assoc(Description(e), " @ ", e.func.value);
        assert head[|Description(e)|..] == " @ " + e.func.value;
        assert m[|Description(e)|..|head|] == head[|Description(e)|..];
      }
    }
  }
}
