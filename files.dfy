/**
 * Attached files: the `FileData` record both messaging systems send, the
 * file system as an oracle, and the two `std::path::Path` queries the
 * senders use (`file_name`, `extension`) on Unix paths.
 */
module Files {
  import opened Bytes
  import opened Wrappers
  import opened Text

  datatype FileData = FileData(bytes: seq<Byte>, fileName: string, fileExtension: Option<string>, fileSize: nat)

  /**
   * What the file system answers for one path: opening fails (`Missing`),
   * or the file opens and its metadata length and its contents can each be
   * read (`Some`) or fail (`None`).
   */
  datatype FsEntry = Missing | Present(metadataLen: Option<nat>, content: Option<seq<Byte>>)

  type FileSystem = string -> FsEntry

  /** The components of a Unix path that can name a file: empty pieces and `.` are dropped. */
  function Components(parts: seq<string>): (cs: seq<string>)
    ensures forall k :: 0 <= k < |cs| ==> cs[k] != "" && cs[k] != "."
    ensures forall k :: 0 <= k < |cs| ==> exists j :: 0 <= j < |parts| && cs[k] == parts[j]
  {
    if parts == [] then []
    else
      var rest := Components(parts[1..]);
      assert forall k :: 0 <= k < |rest| ==> exists j :: 0 <= j < |parts| && rest[k] == parts[j] by {
        forall k | 0 <= k < |rest| ensures exists j :: 0 <= j < |parts| && rest[k] == parts[j] {
          var j :| 0 <= j < |parts[1..]| && rest[k] == parts[1..][j];
          assert rest[k] == parts[j + 1];
        }
      }
      (if parts[0] == "" || parts[0] == "." then [] else [parts[0]]) + rest
  }

  lemma {:induction false} ComponentsAppend(a: seq<string>, b: seq<string>)
    ensures Components(a + b) == Components(a) + Components(b)
  {
    if a == [] {
      assert a + b == b;
    } else {
      ComponentsAppend(a[1..], b);
      ComponentsHead(a + b, a[0], a[1..] + b);
      ComponentsHead(a, a[0], a[1..]);
      var x := if a[0] == "" || a[0] == "." then [] else [a[0]];
      Associative(x, Components(a[1..]), Components(b));
    }
  }

  lemma Associative<T>(x: seq<T>, y: seq<T>, z: seq<T>)
    ensures x + (y + z) == (x + y) + z
  {
  }

  /** `Components` keeps or drops the first piece, then goes on with the rest. */
  lemma ComponentsHead(parts: seq<string>, head: string, rest: seq<string>)
    requires parts != [] && parts[0] == head && parts[1..] == rest
    ensures Components(parts) == (if head == "" || head == "." then [] else [head]) + Components(rest)
  {
  }

  /** `Path::file_name`: the last component, unless there is none or it is `..`. */
  function FileName(path: string): (r: Option<string>)
    ensures r.Some? ==> r.value != "" && r.value != "." && r.value != ".." && '/' !in r.value
  {
    var cs := Components(Split(path, '/'));
    if cs == [] || cs[|cs| - 1] == ".." then None
    else
      assert exists j :: 0 <= j < |Split(path, '/')| && cs[|cs| - 1] == Split(path, '/')[j];
      Some(cs[|cs| - 1])
  }

  /** The name `FileData::from_file_path` records: the file name, or `"Unknown"`. */
  function FileNameOrUnknown(path: string): (name: string)
    ensures FileName(path).Some? ==> name == FileName(path).value
    ensures FileName(path).None? ==> name == "Unknown"
    ensures name != "" && '/' !in name
  {
    match FileName(path)
    case Some(name) => name
    case None => "Unknown"
  }

  /** The position of the last `c` in `s`. */
  function LastIndexOf(s: string, c: char): (r: Option<nat>)
    ensures r.Some? ==> r.value < |s| && s[r.value] == c && c !in s[r.value + 1..]
    ensures r.None? ==> c !in s
  {
    if s == [] then None
    else if s[|s| - 1] == c then Some(|s| - 1)
    else
      var r := LastIndexOf(s[..|s| - 1], c);
      assert s == s[..|s| - 1] + [s[|s| - 1]];
      if r.Some? then
        assert s[r.value + 1..] == s[..|s| - 1][r.value + 1..] + [s[|s| - 1]];
        r
      else r
  }

  /** The extension of a file name: after its last `.`, unless that dot starts the name. */
  function NameExtension(name: string): (r: Option<string>)
    ensures r.Some? ==> '.' !in r.value && |r.value| + 1 < |name|
    ensures r.Some? ==> name[|name| - |r.value| - 1] == '.' && name[|name| - |r.value|..] == r.value
  {
    match LastIndexOf(name, '.')
    case None => None
    case Some(i) => if i == 0 then None else Some(name[i + 1..])
  }

  /** `Path::extension`. */
  function Extension(path: string): (r: Option<string>)
    ensures r.Some? ==> FileName(path).Some? && r == NameExtension(FileName(path).value)
  {
    match FileName(path)
    case None => None
    case Some(name) => NameExtension(name)
  }

  /** The file name of `dir/name` is `name`, for a plain name. */
  lemma FileNameOfJoined(dir: string, name: string)
    requires name != "" && name != "." && name != ".." && '/' !in name
    ensures FileName(dir + "/" + name) == Some(name)
  {
    SplitAround(dir, name, '/');
    SplitJoin([name], '/');
    assert Split(name, '/') == [name];
    ComponentsAppend(Split(dir, '/'), [name]);
    assert Components([name]) == [name];
  }
}
