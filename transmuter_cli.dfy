/**
 * The command line of the upgraded transmuter: the first argument names the
 * transmutation. The kinds of that crate are not part of this model, so the
 * name table (`all_variants` and `to_string`) is a parameter, and `from_str`
 * is the first kind in the table with the given name.
 */
module TransmuterCli {
  import opened Wrappers
  import opened Text

  /** The names of the kinds, in table order. */
  function Names<K>(kinds: seq<K>, name: K -> string): (ns: seq<string>)
    ensures |ns| == |kinds| && forall i :: 0 <= i < |kinds| ==> ns[i] == name(kinds[i])
  {
    seq(|kinds|, i requires 0 <= i < |kinds| => name(kinds[i]))
  }

  /** `stringify_possible_transmutations`: the names in brackets, separated by ", ". */
  function Stringify<K>(kinds: seq<K>, name: K -> string): (s: string)
    ensures |s| >= 2 && s[0] == '[' && s[|s| - 1] == ']'
    ensures s[1..|s| - 1] == Join(Names(kinds, name), ", ")
  {
    "[" + Join(Names(kinds, name), ", ") + "]"
  }

  /** `from_str` over the table: the first kind named `text`. */
  function Lookup<K>(kinds: seq<K>, name: K -> string, text: string): (r: Option<K>)
    ensures r.Some? <==> exists i :: 0 <= i < |kinds| && name(kinds[i]) == text
    ensures r.Some? ==> r.value in kinds && name(r.value) == text
    ensures r.Some? ==> exists i :: 0 <= i < |kinds| && kinds[i] == r.value && name(kinds[i]) == text &&
                                    (forall j :: 0 <= j < i ==> name(kinds[j]) != text)
  {
    if kinds == [] then None
    else if name(kinds[0]) == text then Some(kinds[0])
    else
      var r := Lookup(kinds[1..], name, text);
      assert forall i :: 1 <= i < |kinds| ==> kinds[i] == kinds[1..][i - 1];
      assert r.Some? ==> exists i :: 0 <= i < |kinds| && kinds[i] == r.value && name(kinds[i]) == text &&
                                    (forall j :: 0 <= j < i ==> name(kinds[j]) != text) by {
        if r.Some? {
          var i :| 0 <= i < |kinds[1..]| && kinds[1..][i] == r.value && name(kinds[1..][i]) == text &&
                   (forall j :: 0 <= j < i ==> name(kinds[1..][j]) != text);
          forall j | 0 <= j < i + 1
            ensures name(kinds[j]) != text
          {
            if j > 0 {
              assert kinds[j] == kinds[1..][j - 1];
            }
          }
          assert kinds[i + 1] == r.value;
        }
      }
      r
  }

  function MissingKindMessage<K>(kinds: seq<K>, name: K -> string): string
  {
    "You have to provide transmutation kind as CLI argument.\nFollowing are supported: " + Stringify(kinds, name)
  }

  function UnsupportedKindMessage<K>(kinds: seq<K>, name: K -> string, arg: string): string
  {
    "The unsupported transmutation provided: " + arg + ".\nFollowing are supported: " + Stringify(kinds, name)
  }

  /**
   * `parse_args`: with no argument after the program name, the error listing
   * the supported kinds; otherwise the kind named by the first argument, or
   * the error naming that argument.
   */
  function ParseArgs<K>(args: seq<string>, kinds: seq<K>, name: K -> string): (r: Result<K, string>)
    ensures |args| < 2 ==> r == Err(MissingKindMessage(kinds, name))
    ensures |args| >= 2 ==> (r.Ok? <==> exists i :: 0 <= i < |kinds| && name(kinds[i]) == args[1])
    ensures r.Ok? ==> r.value in kinds && name(r.value) == args[1]
    ensures |args| >= 2 && r.Err? ==> r.error == UnsupportedKindMessage(kinds, name, args[1])
  {
    if |args| < 2 then Err(MissingKindMessage(kinds, name))
    else
      match Lookup(kinds, name, args[1])
      case Some(k) => Ok(k)
      case None => Err(UnsupportedKindMessage(kinds, name, args[1]))
  }

  /** Only the first argument is consulted: arguments after it change nothing. */
  lemma ParseArgsIgnoresRest<K>(args: seq<string>, more: seq<string>, kinds: seq<K>, name: K -> string)
    requires |args| >= 2
    ensures ParseArgs(args + more, kinds, name) == ParseArgs(args[..2], kinds, name)
  {
    assert (args + more)[1] == args[..2][1];
  }

  /** Both errors end with the bracketed list of every supported name. */
  lemma ErrorsListKinds<K>(args: seq<string>, kinds: seq<K>, name: K -> string)
    requires ParseArgs(args, kinds, name).Err?
    ensures var e := ParseArgs(args, kinds, name).error;
      var list := Stringify(kinds, name);
      |e| >= |list| && e[|e| - |list|..] == list
  {
  }
}
