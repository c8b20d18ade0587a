/** The app binary handed to App Distribution for upload (an iOS `.ipa`, or an
    Android `.apk` or `.aab`), as checked when the value is constructed. */
module AppDistribution {
  import opened Results
  import Segments

  /** The three accepted file types. */
  datatype DistributionFileType = IPA | APK | AAB

  /** The enum's string value, which is also the accepted extension. */
  function Tag(t: DistributionFileType): string
  {
    match t
    case IPA => "ipa"
    case APK => "apk"
    case AAB => "aab"
  }

  /** The file type whose tag is exactly `tag`; the comparison is
      case-sensitive, so `"APK"` has none. */
  function ParseFileType(tag: string): (r: Option<DistributionFileType>)
    ensures forall t :: r == Some(t) <==> Tag(t) == tag
  {
    if tag == "ipa" then Some(IPA)
    else if tag == "apk" then Some(APK)
    else if tag == "aab" then Some(AAB)
    else None
  }

  /** Exactly the three lower-case tags are supported. */
  lemma SupportedTags(tag: string)
    ensures ParseFileType(tag).Some? <==> tag == "ipa" || tag == "apk" || tag == "aab"
  {
    if ParseFileType(tag).Some? {
      var t := ParseFileType(tag).value;
      assert Tag(t) == tag;
    } else {
      assert Tag(IPA) != tag && Tag(APK) != tag && Tag(AAB) != tag;
    }
  }

  /** A constructed distribution: the path it was built from and the two
      read-only fields computed once from it. Being a value, it never
      changes after construction. */
  datatype Distribution = Distribution(path: string, fileType: DistributionFileType, fileName: string)

  /** Why construction was refused. */
  datatype DistributionError =
    | MissingPath
    | UnsupportedFormat
    | FileDoesNotExist(path: string)

  /** The message each refusal carries; a missing file's message names its path. */
  function Message(e: DistributionError): (m: string)
    ensures e.FileDoesNotExist? ==> |e.path| + 5 <= |m| && m[..5] == "File " && m[5..5 + |e.path|] == e.path
  {
    match e
    case MissingPath => "must specify a distribution file"
    case UnsupportedFormat => "unsupported distribution file format, should be .ipa or .apk"
    case FileDoesNotExist(path) =>
      "File " + path + " does not exist: verify that file points to a distribution"
  }

  /** Different refusals never share a message. */
  lemma MessagesDistinct(e1: DistributionError, e2: DistributionError)
    requires Message(e1) == Message(e2)
    ensures e1 == e2
  {
    var m := Message(e1);
    if e1.FileDoesNotExist? && e2.FileDoesNotExist? {
      var tail := " does not exist: verify that file points to a distribution";
      assert m == "File " + e1.path + tail == "File " + e2.path + tail;
      assert |e1.path| == |e2.path|;
      assert e1.path == m[5..5 + |e1.path|] == e2.path;
    }
  }

  /** `path.split(".").pop()`: the text after the last `.`, or the whole path. */
  function Extension(path: string): string
  {
    Segments.LastSegment(path, '.')
  }

  /** The last `/`-separated segment of the path. */
  function BaseName(path: string): string
  {
    Segments.LastSegment(path, '/')
  }

  /** What the constructor ensures of the value it builds. */
  ghost predicate Valid(d: Distribution)
  {
    d.path != "" && Tag(d.fileType) == Extension(d.path) && d.fileName == BaseName(d.path)
  }

  /** The constructor: three checks in order (a non-empty path, a supported
      extension, an existing file), with the file system's answer to the
      last one passed in as `fileExists`. */
  function NewDistribution(path: string, fileExists: bool): (r: Result<Distribution, DistributionError>)
    ensures path == "" ==> r == Failure(MissingPath)
    ensures path != "" && ParseFileType(Extension(path)).None? ==> r == Failure(UnsupportedFormat)
    ensures r == Failure(FileDoesNotExist(path)) <==>
      path != "" && ParseFileType(Extension(path)).Some? && !fileExists
    ensures r.Success? <==> path != "" && ParseFileType(Extension(path)).Some? && fileExists
    ensures r.Success? ==> r.value.path == path && Valid(r.value)
  {
    if path == "" then
      Failure(MissingPath)
    else
      match ParseFileType(Extension(path))
      case None => Failure(UnsupportedFormat)
      case Some(fileType) =>
        if !fileExists then Failure(FileDoesNotExist(path))
        else Success(Distribution(path, fileType, BaseName(path)))
  }

  /** The message of each refusal of the constructor, word for word. */
  lemma RefusalMessages(path: string, fileExists: bool)
    ensures var r := NewDistribution(path, fileExists);
      (path == "" ==> Message(r.error) == "must specify a distribution file") &&
      (path != "" && ParseFileType(Extension(path)).None? ==>
        Message(r.error) == "unsupported distribution file format, should be .ipa or .apk") &&
      (path != "" && ParseFileType(Extension(path)).Some? && !fileExists ==>
        Message(r.error) == "File " + path + " does not exist: verify that file points to a distribution")
  {
  }

  /** `platform()`. The source's throwing default branch has no counterpart:
      the file type is one of the three enum values. */
  function Platform(d: Distribution): (r: string)
    ensures r == "ios" <==> d.fileType == IPA
    ensures r == "android" <==> d.fileType == APK || d.fileType == AAB
  {
    match d.fileType
    case IPA => "ios"
    case AAB => "android"
    case APK => "android"
  }

  /** A value is built from a path exactly when it is valid for that path and
      the file exists; so constructing twice from one path gives one value. */
  lemma ConstructedIffValid(path: string, fileExists: bool, d: Distribution)
    ensures NewDistribution(path, fileExists) == Success(d) <==> d.path == path && Valid(d) && fileExists
  {
    if d.path == path && Valid(d) && fileExists {
      assert ParseFileType(Extension(path)) == Some(d.fileType);
    }
  }

  /** The extension is checked before existence: a bad extension is reported
      as such whether the file exists or not. */
  lemma FormatCheckedBeforeExistence(path: string)
    requires path != "" && ParseFileType(Extension(path)).None?
    ensures NewDistribution(path, true) == NewDistribution(path, false) == Failure(UnsupportedFormat)
  {
  }

  /** `distributionFileType()` is the parsed tag of the construction path. */
  lemma FileTypeIsExtension(path: string, fileExists: bool)
    requires NewDistribution(path, fileExists).Success?
    ensures var d := NewDistribution(path, fileExists).value;
      Tag(d.fileType) == Extension(path) &&
      (Extension(path) == "ipa" || Extension(path) == "apk" || Extension(path) == "aab")
  {
    SupportedTags(Extension(path));
  }

  /** A path without any `.` is its own extension, so it is accepted only if it
      is one of the bare tags; in particular `"apk"` is. */
  lemma PathWithoutDot(path: string, fileExists: bool)
    requires '.' !in path
    ensures NewDistribution(path, fileExists).Success? <==>
      fileExists && (path == "ipa" || path == "apk" || path == "aab")
  {
    SupportedTags(path);
  }

  lemma BareTagAccepted()
    ensures NewDistribution("apk", true) == Success(Distribution("apk", APK, "apk"))
  {
    PathWithoutDot("apk", true);
    assert BaseName("apk") == "apk";
  }

  /** The tag comparison is case-sensitive. */
  lemma UpperCaseRejected(fileExists: bool)
    ensures NewDistribution("app.APK", fileExists) == Failure(UnsupportedFormat)
  {
    var path := "app.APK";
    Segments.LastSegmentUnique(path, '.', "APK");
    SupportedTags("APK");
  }

  /** `getFileName()` is the last `/`-separated segment of the construction
      path (the contract of `Segments.LastSegment`), so it ends with the
      file's extension, preceded by a `.` unless the whole path is the bare
      tag. */
  lemma FileNameShape(d: Distribution)
    requires Valid(d)
    ensures Segments.EndsWith(d.fileName, Tag(d.fileType))
    ensures d.path == Tag(d.fileType) || Segments.EndsWith(d.fileName, "." + Tag(d.fileType))
  {
    var p, tag := d.path, Tag(d.fileType);
    TagHasNoSlash(d.fileType);
    assert tag == Segments.LastSegment(p, '.') && d.fileName == Segments.LastSegment(p, '/');
    Segments.NestedSegmentShape(p, '.', '/', tag);
  }

  lemma TagHasNoSlash(t: DistributionFileType)
    ensures '/' !in Tag(t)
  {
    match t
    case IPA => assert Tag(IPA) == "ipa";
    case APK => assert Tag(APK) == "apk";
    case AAB => assert Tag(AAB) == "aab";
  }

  /** `platform()` follows the extension of the construction path. */
  lemma PlatformOfPath(path: string)
    requires NewDistribution(path, true).Success?
    ensures var d := NewDistribution(path, true).value;
      (Platform(d) == "ios" <==> Extension(path) == "ipa") &&
      (Platform(d) == "android" <==> Extension(path) == "apk" || Extension(path) == "aab")
  {
    var d := NewDistribution(path, true).value;
    assert Tag(d.fileType) == Extension(path);
  }
}
