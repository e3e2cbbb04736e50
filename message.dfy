/**
 * The message of the asynchronous messaging system and its construction
 * from a line typed by the user. Loading a file goes through the file-system
 * oracle; the result keeps the whole content read and the size the metadata
 * reported, without comparing the two.
 */
module AsyncMessage {
  import opened Wrappers
  import opened Text
  import opened Files

  datatype Message = File(data: FileData) | Image(data: FileData) | Text(text: string)

  /** Why a message could not be built; the path or the input is kept, the underlying error is reduced to its text. */
  datatype MessageCreationError =
    | InvalidStringProvided(providedStr: string)
    | CannotCreateFileData(filePath: string, reason: string)

  /**
   * `FileData::from_file_path`: open, metadata, read to the end. Each
   * failure is `CannotCreateFileData` for the given path; on success the
   * bytes are everything read and the size is the metadata length.
   */
  function FileDataFromPath(path: string, fs: FileSystem): (r: Result<FileData, MessageCreationError>)
    ensures r.Err? ==> r.error.CannotCreateFileData? && r.error.filePath == path
    ensures r.Ok? <==> fs(path).Present? && fs(path).metadataLen.Some? && fs(path).content.Some?
    ensures r.Ok? ==>
      && r.value.bytes == fs(path).content.value
      && r.value.fileSize == fs(path).metadataLen.value
      && r.value.fileName == FileNameOrUnknown(path)
      && r.value.fileExtension == Extension(path)
  {
    match fs(path)
    case Missing => Err(CannotCreateFileData(path, "Cannot open file at path: " + path))
    case Present(meta, content) =>
      if meta.None? then Err(CannotCreateFileData(path, "Cannot read file metadata at path: " + path))
      else if content.None? then Err(CannotCreateFileData(path, "Cannot read file content at path: " + path))
      else Ok(FileData(content.value, FileNameOrUnknown(path), Extension(path), meta.value))
  }

  /**
   * The loaded size and content need not agree: a file whose metadata
   * length differs from what was read is still loaded.
   */
  lemma FileDataSizeUnchecked(path: string, bytes: seq<Bytes.Byte>, size: nat, fs: FileSystem)
    requires fs(path) == Present(Some(size), Some(bytes)) && size != |bytes|
    ensures FileDataFromPath(path, fs).Ok?
    ensures FileDataFromPath(path, fs).value.fileSize != |FileDataFromPath(path, fs).value.bytes|
  {
  }

  /**
   * `Message::from_str` as written: for an input starting with `".file "`
   * or `".image "` the input is cut after its sixth character; the file at
   * the trimmed remainder is loaded first; then the six-character kind is
   * matched against `".file "` and `".image "`.
   */
  function FromStr(s: string, fs: FileSystem): (r: Result<Message, MessageCreationError>)
    ensures !StartsWith(s, ".file ") && !StartsWith(s, ".image ") ==> r == Ok(Text(s))
    ensures StartsWith(s, ".file ") ==>
      r == (match FileDataFromPath(Trim(s[6..]), fs)
            case Ok(fd) => Ok(File(fd))
            case Err(e) => Err(e))
  {
    if StartsWith(s, ".file ") || StartsWith(s, ".image ") then
      var kind, path := s[..6], s[6..];
      var loaded := FileDataFromPath(Trim(path), fs);
      if loaded.Err? then Err(loaded.error)
      else if kind == ".file " then Ok(File(loaded.value))
      else if kind == ".image " then Ok(Image(loaded.value))
      else Err(InvalidStringProvided(s))
    else Ok(Text(s))
  }

  /** The two command prefixes exclude each other. */
  lemma ImageNotFile(s: string)
    requires StartsWith(s, ".image ")
    ensures !StartsWith(s, ".file ") && s[..6] != ".file "
  {
    assert s[..7][1] == 'i';
    assert s[1] == 'i';
  }

  /** `FromStr` never builds an image message, whatever the input and the files. */
  lemma ImageNeverProduced(s: string, fs: FileSystem)
    ensures !(FromStr(s, fs).Ok? && FromStr(s, fs).value.Image?)
  {
    if StartsWith(s, ".file ") || StartsWith(s, ".image ") {
      var kind := s[..6];
      assert |kind| != |".image "|;
      assert kind != ".image ";
      var loaded := FileDataFromPath(Trim(s[6..]), fs);
      assert loaded.Ok? && kind == ".file " ==> FromStr(s, fs) == Ok(File(loaded.value));
    }
  }

  /**
   * An input starting with `".image "` always fails: with the loader's
   * error when the file cannot be loaded, otherwise as an invalid string.
   */
  lemma ImageCommandFails(s: string, fs: FileSystem)
    requires StartsWith(s, ".image ")
    ensures FileDataFromPath(Trim(s[6..]), fs).Err? ==> FromStr(s, fs) == Err(FileDataFromPath(Trim(s[6..]), fs).error)
    ensures FileDataFromPath(Trim(s[6..]), fs).Ok? ==> FromStr(s, fs) == Err(InvalidStringProvided(s))
  {
    ImageNotFile(s);
    assert |s[..6]| != |".image "|;
  }

  /**
   * `Message::from_str` as evidently intended: the kind is the whole
   * prefix, so the path starts after seven characters for `".image "`.
   */
  function FromStrIntended(s: string, fs: FileSystem): (r: Result<Message, MessageCreationError>)
    ensures !StartsWith(s, ".file ") && !StartsWith(s, ".image ") ==> r == Ok(Text(s))
    ensures r.Err? ==> r.error.CannotCreateFileData?
  {
    if StartsWith(s, ".file ") then
      match FileDataFromPath(Trim(s[6..]), fs)
      case Err(e) => Err(e)
      case Ok(fileData) => Ok(File(fileData))
    else if StartsWith(s, ".image ") then
      match FileDataFromPath(Trim(s[7..]), fs)
      case Err(e) => Err(e)
      case Ok(fileData) => Ok(Image(fileData))
    else Ok(Text(s))
  }

  /** With the intended parse, `".image "` and a loadable path give an image of that file. */
  lemma FromStrIntendedImage(path: string, bytes: seq<Bytes.Byte>, size: nat, fs: FileSystem)
    requires fs(Trim(path)) == Present(Some(size), Some(bytes))
    ensures FromStrIntended(".image " + path, fs)
         == Ok(Image(FileData(bytes, FileNameOrUnknown(Trim(path)), Extension(Trim(path)), size)))
  {
    var s := ".image " + path;
    assert s[..7] == ".image " && s[7..] == path;
    ImageNotFile(s);
  }

  /** The intended parse agrees with the code as written on every input not starting with `".image "`. */
  lemma FromStrIntendedAgrees(s: string, fs: FileSystem)
    requires !StartsWith(s, ".image ")
    ensures FromStrIntended(s, fs) == FromStr(s, fs)
  {
  }
}
