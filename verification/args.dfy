/**
 * Command line expansion: an argument `@name` stands for the
 * whitespace-separated words of the file `name`. Reading files is outside
 * the model: `files` maps each name that can be opened to the lines
 * `readlines()` returns for it.
 */
module Args {
  import opened Results
  import opened Strings

  /** An argument naming a file of further arguments. */
  predicate IsFileArg(arg: string) {
    |arg| >= 1 && arg[0] == '@'
  }

  predicate NoFileArgs(args: seq<string>) {
    forall i | 0 <= i < |args| :: !IsFileArg(args[i])
  }

  /**
   * One argument: kept as it is, or replaced by the words of the file it
   * names, the lines joined with spaces and split on whitespace. A file that
   * cannot be opened raises an IOError nothing catches.
   */
  function ExpandArg(arg: string, files: map<string, seq<string>>): (r: Result<seq<string>>)
    ensures !IsFileArg(arg) ==> r == Ok([arg])
    ensures IsFileArg(arg) ==> (r.Ok? <==> arg[1..] in files)
    ensures IsFileArg(arg) && r.Ok? ==> ValidWords(r.value)
    ensures r.Err? ==> r.error == Uncaught("IOError")
  {
    if !IsFileArg(arg) then Ok([arg])
    else if arg[1..] in files then Ok(Words(Join(files[arg[1..]], " ")))
    else Err(Uncaught("IOError"))
  }

  /** `expand_args`: every argument expanded in turn, the results concatenated in order. */
  function ExpandArgs(args: seq<string>, files: map<string, seq<string>>): (r: Result<seq<string>>)
    ensures r.Err? <==> exists i | 0 <= i < |args| :: ExpandArg(args[i], files).Err?
    ensures r.Err? ==> r.error == Uncaught("IOError")
    ensures NoFileArgs(args) ==> r == Ok(args)
    decreases |args|
  {
    if args == [] then Ok([])
    else
      assert forall i | 1 <= i < |args| :: args[i] == args[1..][i - 1];
      match ExpandArg(args[0], files)
      case Err(e) => Err(e)
      case Ok(head) =>
        match ExpandArgs(args[1..], files)
        case Err(e) =>
          assert exists i | 0 <= i < |args| :: ExpandArg(args[i], files).Err? by {
            var j :| 0 <= j < |args[1..]| && ExpandArg(args[1..][j], files).Err?;
            assert args[j + 1] == args[1..][j];
          }
          Err(e)
        case Ok(tail) =>
          assert NoFileArgs(args) ==> head == [args[0]] && tail == args[1..];
          assert NoFileArgs(args) ==> [args[0]] + args[1..] == args;
          Ok(head + tail)
  }

  /** Expanding a concatenation expands each part: it fails if either part fails, and the words come out in order. */
  lemma {:induction false} ExpandArgsConcat(a: seq<string>, b: seq<string>, files: map<string, seq<string>>)
    ensures ExpandArgs(a + b, files).Ok? <==> ExpandArgs(a, files).Ok? && ExpandArgs(b, files).Ok?
    ensures ExpandArgs(a + b, files).Ok? ==>
              ExpandArgs(a + b, files).value == ExpandArgs(a, files).value + ExpandArgs(b, files).value
    decreases |a|
  {
    if a == [] {
      assert a + b == b;
    } else {
      assert (a + b)[0] == a[0];
      assert (a + b)[1..] == a[1..] + b;
      ExpandArgsConcat(a[1..], b, files);
      if ExpandArg(a[0], files).Ok? && ExpandArgs(a[1..], files).Ok? && ExpandArgs(b, files).Ok? {
        var h := ExpandArg(a[0], files).value;
        assert h + (ExpandArgs(a[1..], files).value + ExpandArgs(b, files).value)
            == (h + ExpandArgs(a[1..], files).value) + ExpandArgs(b, files).value;
      }
    }
  }

  /** Words written to a file on one line, separated by spaces, come back as the same arguments. */
  lemma ExpandFileRoundTrip(name: string, ws: seq<string>, files: map<string, seq<string>>)
    requires ValidWords(ws)
    requires name in files && files[name] == [Join(ws, " ")]
    ensures ExpandArgs(["@" + name], files) == Ok(ws)
  {
    var arg := "@" + name;
    assert IsFileArg(arg) && arg[1..] == name;
    WordsJoin(ws);
    assert ExpandArg(arg, files) == Ok(ws);
    assert [arg][1..] == [];
    assert ws + [] == ws;
  }

  /** An argument naming a file that cannot be opened makes the whole expansion fail. */
  lemma ExpandMissingFile(args: seq<string>, i: nat, files: map<string, seq<string>>)
    requires i < |args| && IsFileArg(args[i]) && args[i][1..] !in files
    ensures ExpandArgs(args, files) == Err(Uncaught("IOError"))
  {
    assert ExpandArg(args[i], files).Err?;
  }
}
