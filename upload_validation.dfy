/** The validation half of save_profile_photo (storage/files.py): the ordered
    checks an upload passes before anything touches the disk. */
module UploadValidation {
  import opened Common
  import opened Paths

  const AllowedExtensions: set<string> := {".jpg", ".jpeg", ".png", ".webp"}
  const AllowedMime: set<string> := {"image/jpeg", "image/png", "image/webp"}
  /** The decoder's format names and the extension each must be stored under. */
  const FormatExtensions: map<string, string> := map["JPEG" := ".jpg", "PNG" := ".png", "WEBP" := ".webp"]

  /** What the upload declares. A missing filename is None; a missing content
      type reads as ""; a missing file object is None, else the whole stream. */
  datatype Upload = Upload(filename: Option<string>, contentType: string, file: Option<seq<byte>>)

  /** The image decoder's verdict: it raised, or it opened and verified an
      image and names its format (None when it names none). */
  datatype Decoded = Undecodable | Image(format: Option<string>)

  /** The checks, in the order they run; a rejection names the first one that
      failed. */
  datatype Check =
    | FileGiven | FilenameGiven | ExtensionAllowed | ContentTypeAllowed | FileObjectGiven
    | NotEmpty | NotTooLarge | Decodes | FormatKnown | FormatMatches

  function Rank(c: Check): nat
  {
    match c
    case FileGiven => 0 case FilenameGiven => 1 case ExtensionAllowed => 2
    case ContentTypeAllowed => 3 case FileObjectGiven => 4 case NotEmpty => 5
    case NotTooLarge => 6 case Decodes => 7 case FormatKnown => 8 case FormatMatches => 9
  }

  /** An accepted upload: the bytes to store and the extension to store them under. */
  datatype Accepted = Accepted(data: seq<byte>, ext: string)

  /** The last segment that names something: empty and "." segments are
      skipped, as pathlib drops them when it parses a name. */
  function LastNamed(segs: seq<string>): (r: string)
    ensures r != "" && r != "." ==> r in segs
    ensures r != "."
    decreases |segs|
  {
    if segs == [] then ""
    else
      var last := segs[|segs| - 1];
      if last == "" || last == "." then LastNamed(segs[..|segs| - 1]) else last
  }

  /** PurePath(filename).name: the last named part, or "" when there is none. */
  function FinalName(filename: string): (r: string)
    ensures '/' !in r && r != "."
  {
    LastNamed(Split(filename))
  }

  /** str.rfind('.'): the index of the last '.', or -1. */
  function LastDot(s: string): (i: int)
    ensures -1 <= i < |s|
    ensures i >= 0 ==> s[i] == '.'
    ensures forall k :: i < k < |s| ==> s[k] != '.'
    decreases |s|
  {
    if s == [] then -1
    else if s[|s| - 1] == '.' then |s| - 1
    else LastDot(s[..|s| - 1])
  }

  /** PurePath.suffix of a final name: from the last '.' on, unless that dot
      opens the name or ends it. */
  function Suffix(name: string): (r: string)
    ensures r == "" || (|r| >= 2 && r[0] == '.' && '.' !in r[1..] && |r| < |name| && r == name[|name| - |r|..])
  {
    var i := LastDot(name);
    if 0 < i < |name| - 1 then
      assert name[i..][1..] == name[i + 1..];
      name[i..]
    else ""
  }

  function LowerChar(c: char): char
  {
    if 'A' <= c <= 'Z' then (c as int + 32) as char else c
  }

  /** str.lower() on ASCII letters; every other character is left alone. */
  function Lower(s: string): (r: string)
    ensures |r| == |s|
  {
    seq(|s|, i requires 0 <= i < |s| => LowerChar(s[i]))
  }

  /** The extension the upload is judged by: the final name's suffix,
      lower-cased, with ".jpeg" written ".jpg". */
  function NormalizeExtension(filename: string): string
  {
    var ext := Lower(Suffix(FinalName(filename)));
    if ext == ".jpeg" then ".jpg" else ext
  }

  /** file.read(n): at most n bytes from the start; a negative n reads everything. */
  function ReadAtMost(stream: seq<byte>, n: int): (r: seq<byte>)
    ensures r <= stream
    ensures n >= 0 ==> |r| == Min(n, |stream|)
    ensures n < 0 ==> r == stream
  {
    if n < 0 || n >= |stream| then stream else stream[..n]
  }

  /** What the bounded read hands to the later checks. */
  function BoundedData(u: Upload, maxBytes: int): seq<byte>
    requires u.file.Some?
  {
    ReadAtMost(u.file.value, maxBytes + 1)
  }

  /** What each check demands on its own, given the values it looks at exist.
      The checks after the file name look at it only through its extension. */
  predicate Holds(c: Check, upload: Option<Upload>, maxBytes: int, decode: seq<byte> -> Decoded)
  {
    match c
    case FileGiven => upload.Some?
    case FilenameGiven => upload.Some? ==> upload.value.filename.Some? && upload.value.filename.value != ""
    case _ =>
      upload.Some? && upload.value.filename.Some? ==>
        HoldsNamed(c, upload.value, NormalizeExtension(upload.value.filename.value), maxBytes, decode)
  }

  /** What each check from the extension on demands of an upload whose
      extension is `ext`. */
  predicate HoldsNamed(c: Check, u: Upload, ext: string, maxBytes: int, decode: seq<byte> -> Decoded)
  {
    match c
    case FileGiven => true
    case FilenameGiven => true
    case ExtensionAllowed => ext in AllowedExtensions
    case ContentTypeAllowed => u.contentType in AllowedMime
    case FileObjectGiven => u.file.Some?
    case NotEmpty => u.file.Some? ==> |BoundedData(u, maxBytes)| > 0
    case NotTooLarge => u.file.Some? ==> |BoundedData(u, maxBytes)| <= maxBytes
    case Decodes => u.file.Some? ==> decode(BoundedData(u, maxBytes)).Image?
    case FormatKnown =>
      u.file.Some? && decode(BoundedData(u, maxBytes)).Image? ==>
        var f := decode(BoundedData(u, maxBytes)).format;
        f.Some? && f.value in FormatExtensions
    case FormatMatches =>
      u.file.Some? && decode(BoundedData(u, maxBytes)).Image? ==>
        var f := decode(BoundedData(u, maxBytes)).format;
        f.Some? && f.value in FormatExtensions ==> FormatExtensions[f.value] == ext
  }

  /** Lines 40-97 of save_profile_photo: runs the checks in order and stops at
      the first that fails. An accepted upload is the whole stream, non-empty
      and within the limit, whose decoded format agrees with its extension. */
  function Validate(upload: Option<Upload>, maxBytes: int, decode: seq<byte> -> Decoded): (r: Result<Accepted, Check>)
    ensures r.Ok? ==> upload.Some? && upload.value.file.Some? && upload.value.filename.Some?
    ensures r.Ok? ==> r.value.data == upload.value.file.value && 1 <= |r.value.data| <= maxBytes
    ensures r.Ok? ==> r.value.ext in {".jpg", ".png", ".webp"}
    ensures r.Ok? ==> r.value.ext == NormalizeExtension(upload.value.filename.value)
    ensures r.Ok? ==> upload.value.contentType in AllowedMime
    ensures r.Ok? ==> decode(r.value.data).Image? && decode(r.value.data).format.Some?
                      && decode(r.value.data).format.value in FormatExtensions
                      && FormatExtensions[decode(r.value.data).format.value] == r.value.ext
  {
    if upload.None? then Err(FileGiven)
    else
      var u := upload.value;
      if u.filename.None? || u.filename.value == "" then Err(FilenameGiven)
      else ValidateNamed(u, NormalizeExtension(u.filename.value), maxBytes, decode)
  }

  /** Lines 52-97: the checks after the file name, for an upload whose
      lower-cased extension is `ext`. */
  function ValidateNamed(u: Upload, ext: string, maxBytes: int, decode: seq<byte> -> Decoded): (r: Result<Accepted, Check>)
    ensures r.Ok? ==> u.file.Some? && r.value == Accepted(u.file.value, ext) && 1 <= |u.file.value| <= maxBytes
    ensures r.Ok? ==> ext in {".jpg", ".png", ".webp"} && u.contentType in AllowedMime
    ensures r.Ok? ==> decode(u.file.value).Image? && decode(u.file.value).format.Some?
                      && decode(u.file.value).format.value in FormatExtensions
                      && FormatExtensions[decode(u.file.value).format.value] == ext
    ensures r.Err? ==> Rank(r.error) >= Rank(ExtensionAllowed)
  {
    if ext !in AllowedExtensions then Err(ExtensionAllowed)
    else if u.contentType !in AllowedMime then Err(ContentTypeAllowed)
    else if u.file.None? then Err(FileObjectGiven)
    else CheckContent(ReadAtMost(u.file.value, maxBytes + 1), ext, maxBytes, decode)
  }

  /** Lines 72-97: the checks on the bytes read, for an upload whose declared
      metadata passed and whose extension is `ext`. */
  function CheckContent(data: seq<byte>, ext: string, maxBytes: int, decode: seq<byte> -> Decoded): (r: Result<Accepted, Check>)
    ensures r.Ok? ==> r.value == Accepted(data, ext) && 1 <= |data| <= maxBytes
    ensures r.Ok? ==> decode(data).Image? && decode(data).format.Some?
                      && decode(data).format.value in FormatExtensions
                      && FormatExtensions[decode(data).format.value] == ext
    ensures r.Err? ==> Rank(r.error) >= Rank(NotEmpty)
  {
    if |data| == 0 then Err(NotEmpty)
    else if |data| > maxBytes then Err(NotTooLarge)
    else match decode(data)
      case Undecodable => Err(Decodes)
      case Image(format) =>
        if format.None? || format.value !in FormatExtensions then Err(FormatKnown)
        else if FormatExtensions[format.value] != ext then Err(FormatMatches)
        else Ok(Accepted(data, ext))
  }

  /** The checks run in order: an upload is accepted exactly when every check
      holds, and a rejection names a check that fails while every earlier one
      holds. */
  lemma ValidateIsFirstFailure(upload: Option<Upload>, maxBytes: int, decode: seq<byte> -> Decoded)
    ensures Validate(upload, maxBytes, decode).Ok? <==> forall c :: Holds(c, upload, maxBytes, decode)
    ensures Validate(upload, maxBytes, decode).Err? ==>
              var failed := Validate(upload, maxBytes, decode).error;
              !Holds(failed, upload, maxBytes, decode) &&
              forall c :: Rank(c) < Rank(failed) ==> Holds(c, upload, maxBytes, decode)
  {
    if upload.Some? && upload.value.filename.Some? && upload.value.filename.value != "" {
      var u := upload.value;
      var ext := NormalizeExtension(u.filename.value);
      assert Validate(upload, maxBytes, decode) == ValidateNamed(u, ext, maxBytes, decode);
      ValidateNamedIsFirstFailure(u, ext, maxBytes, decode);
      assert forall c :: Rank(c) >= Rank(ExtensionAllowed) ==>
               (Holds(c, upload, maxBytes, decode) <==> HoldsNamed(c, u, ext, maxBytes, decode));
      assert Holds(FileGiven, upload, maxBytes, decode) && Holds(FilenameGiven, upload, maxBytes, decode);
      var r := Validate(upload, maxBytes, decode);
      if r.Err? {
        assert !Holds(r.error, upload, maxBytes, decode);
      }
    } else if upload.Some? {
      assert !Holds(FilenameGiven, upload, maxBytes, decode);
    } else {
      assert !Holds(FileGiven, upload, maxBytes, decode);
    }
  }

  /** The same for the checks after the file name, with the extension left
      abstract. */
  lemma ValidateNamedIsFirstFailure(u: Upload, ext: string, maxBytes: int, decode: seq<byte> -> Decoded)
    ensures ValidateNamed(u, ext, maxBytes, decode).Ok? <==> forall c :: HoldsNamed(c, u, ext, maxBytes, decode)
    ensures ValidateNamed(u, ext, maxBytes, decode).Err? ==>
              var failed := ValidateNamed(u, ext, maxBytes, decode).error;
              !HoldsNamed(failed, u, ext, maxBytes, decode) &&
              forall c :: Rank(c) < Rank(failed) ==> HoldsNamed(c, u, ext, maxBytes, decode)
  {
    var r := ValidateNamed(u, ext, maxBytes, decode);
    if r.Ok? {
      forall c ensures HoldsNamed(c, u, ext, maxBytes, decode) {
      }
    } else {
      if ext in AllowedExtensions && u.contentType in AllowedMime && u.file.Some? {
        var data := BoundedData(u, maxBytes);
        assert r == CheckContent(data, ext, maxBytes, decode);
        if |data| > 0 && |data| <= maxBytes && decode(data).Image? {
          var f := decode(data).format;
          if f.Some? && f.value in FormatExtensions {
            assert r == Err(FormatMatches);
          } else {
            assert r == Err(FormatKnown);
          }
        }
      }
      assert !HoldsNamed(r.error, u, ext, maxBytes, decode);
    }
  }

  /** An accepted extension is one of the three the store writes: ".jpeg" never
      survives normalisation. */
  lemma AcceptedExtensions(filename: string)
    requires NormalizeExtension(filename) in AllowedExtensions
    ensures NormalizeExtension(filename) in {".jpg", ".png", ".webp"}
  {
    var ext := NormalizeExtension(filename);
    assert ext != ".jpeg";
  }

  /** The size check with a non-negative limit: empty exactly when the stream
      is empty, too large exactly when it is longer than the limit, and at most
      limit + 1 bytes are ever handed on. */
  lemma SizeLimit(u: Upload, maxBytes: int, decode: seq<byte> -> Decoded)
    requires maxBytes >= 0 && u.file.Some?
    requires forall c :: Rank(c) < Rank(NotEmpty) ==> Holds(c, Some(u), maxBytes, decode)
    ensures |BoundedData(u, maxBytes)| <= maxBytes + 1
    ensures Validate(Some(u), maxBytes, decode) == Err(NotEmpty) <==> |u.file.value| == 0
    ensures Validate(Some(u), maxBytes, decode) == Err(NotTooLarge) <==> |u.file.value| > maxBytes
  {
    assert Holds(FilenameGiven, Some(u), maxBytes, decode);
    var ext := NormalizeExtension(u.filename.value);
    assert Holds(ExtensionAllowed, Some(u), maxBytes, decode);
    assert Holds(ContentTypeAllowed, Some(u), maxBytes, decode);
    assert Validate(Some(u), maxBytes, decode) == CheckContent(BoundedData(u, maxBytes), ext, maxBytes, decode);
  }

  /** A negative limit refuses every upload. */
  lemma NegativeLimitRejectsAll(upload: Option<Upload>, maxBytes: int, decode: seq<byte> -> Decoded)
    requires maxBytes < 0
    ensures Validate(upload, maxBytes, decode).Err?
  {
  }

  /** The decoder never sees an oversized payload: for a stream over the limit
      the verdict is the same whichever decoder is used. */
  lemma OversizeNeverDecoded(u: Upload, maxBytes: int, d1: seq<byte> -> Decoded, d2: seq<byte> -> Decoded)
    requires u.file.Some? && |u.file.value| > maxBytes >= 0
    ensures Validate(Some(u), maxBytes, d1) == Validate(Some(u), maxBytes, d2)
    ensures Validate(Some(u), maxBytes, d1).Err?
  {
  }

  /** The suffix of stem + ext is ext when ext is a dot followed by at least one
      dot-free character and the stem is not empty. */
  lemma SuffixOfExtension(stem: string, ext: string)
    requires |stem| > 0 && |ext| >= 2 && ext[0] == '.' && '.' !in ext[1..]
    ensures Suffix(stem + ext) == ext
  {
    var name := stem + ext;
    var i := LastDot(name);
    assert name[|stem|] == '.';
    assert forall k :: |stem| < k < |name| ==> name[k] == ext[1..][k - |stem| - 1];
    assert i == |stem|;
    assert name[i..] == ext;
  }

  /** A name without a '/' that is neither "" nor "." is its own final name. */
  lemma FinalNameOfPlainName(name: string)
    requires name != "" && name != "." && '/' !in name
    ensures FinalName(name) == name
  {
    SplitJoin([name]);
    assert Split(name) == [name];
  }

  /** Lower leaves no upper-case ASCII letter, lower-cases each one it finds
      and keeps every other character. */
  lemma LowerIsAsciiLower(s: string)
    ensures forall i :: 0 <= i < |s| ==> !('A' <= Lower(s)[i] <= 'Z')
    ensures forall i :: 0 <= i < |s| && !('A' <= s[i] <= 'Z') ==> Lower(s)[i] == s[i]
    ensures forall i :: 0 <= i < |s| && 'A' <= s[i] <= 'Z' ==> Lower(s)[i] as int == s[i] as int + 32
  {
  }

  /** Whatever the file name, the extension it is judged by is "" or a '.'
      followed by at least one character, none of them '.', '/' or an
      upper-case letter. */
  lemma NormalizeExtensionShape(filename: string)
    ensures ExtensionShaped(NormalizeExtension(filename))
    ensures var r := NormalizeExtension(filename);
            forall i :: 0 <= i < |r| ==> !('A' <= r[i] <= 'Z')
  {
    var name := FinalName(filename);
    var suffix := Suffix(name);
    assert '/' !in suffix by {
      assert suffix == name[|name| - |suffix|..];
    }
    LowerKeepsShape(suffix);
    var ext := Lower(suffix);
    var r := NormalizeExtension(filename);
    assert r == if ext == ".jpeg" then ".jpg" else ext;
    if ext == ".jpeg" {
      assert ".jpg"[1..] == "jpg";
    }
  }

  /** "" or '.' and at least one more character, with no further '.' and no '/'. */
  predicate ExtensionShaped(r: string)
  {
    r == "" || (|r| >= 2 && r[0] == '.' && '.' !in r[1..] && '/' !in r)
  }

  lemma LowerKeepsShape(x: string)
    requires ExtensionShaped(x)
    ensures ExtensionShaped(Lower(x))
    ensures forall i :: 0 <= i < |x| ==> !('A' <= Lower(x)[i] <= 'Z')
  {
    var r := Lower(x);
    LowerIsAsciiLower(x);
    assert forall k :: 0 <= k < |r| && (r[k] == '.' || r[k] == '/') ==> x[k] == r[k];
    if r != "" {
      assert r[0] == '.';
      forall k | 0 <= k < |r| - 1
        ensures r[1..][k] != '.'
      {
        assert r[1..][k] == r[k + 1];
        assert x[1..][k] == x[k + 1];
      }
    }
  }

  /** The name the client sends may carry directories: "photos/me.jpg" is
      judged by its final name "me.jpg", as PurePath.name does. */
  lemma FinalNameOfPath(dir: string, name: string)
    requires name != "" && name != "." && '/' !in name
    ensures FinalName(dir + "/" + name) == name
  {
    SplitJoin([name]);
    assert Split(name) == [name];
    SplitAroundSlash(dir, name);
    var segs := Split(dir) + [name];
    assert segs[|segs| - 1] == name;
  }

  /** The extension of a plain file name "stem.ext": the lower-cased ext,
      with ".jpeg" written ".jpg". */
  lemma NormalizeExtensionOf(stem: string, ext: string)
    requires |stem| > 0 && |ext| >= 2 && ext[0] == '.' && '.' !in ext[1..] && '/' !in stem + ext
    ensures NormalizeExtension(stem + ext) == if Lower(ext) == ".jpeg" then ".jpg" else Lower(ext)
  {
    FinalNameOfPlainName(stem + ext);
    SuffixOfExtension(stem, ext);
  }

  /** A file name made of a stem with no '/' followed by `ext`. */
  predicate NamedWith(filename: string, stem: string, ext: string)
  {
    filename == stem + ext && stem != "" && '/' !in stem
  }

  /** "<stem>.jpg" and "<stem>.JPEG" are both judged as ".jpg". */
  lemma JpgExtension(filename: string, stem: string, ext: string)
    requires ext == ".jpg" || ext == ".JPEG"
    requires NamedWith(filename, stem, ext)
    ensures NormalizeExtension(filename) == ".jpg"
  {
    NormalizeExtensionOf(stem, ext);
    LowerOfJpegSpellings();
  }

  lemma LowerOfJpegSpellings()
    ensures Lower(".jpg") == ".jpg" && Lower(".JPEG") == ".jpeg"
  {
    assert Lower(".jpg") == ".jpg";
    assert Lower(".JPEG") == ".jpeg";
  }

  /** A genuine PNG renamed "<stem>.jpg" and declared image/jpeg is refused by
      the format check, the last line of defence. */
  lemma RenamedPngRejected(filename: string, stem: string, data: seq<byte>, maxBytes: int, decode: seq<byte> -> Decoded)
    requires NamedWith(filename, stem, ".jpg")
    requires 1 <= |data| <= maxBytes && decode(data) == Image(Some("PNG"))
    ensures Validate(Some(Upload(Some(filename), "image/jpeg", Some(data))), maxBytes, decode) == Err(FormatMatches)
  {
    JpgExtension(filename, stem, ".jpg");
  }

  /** Bytes the decoder cannot open, named "<stem>.jpg" (as "evil.jpg") and
      declared image/jpeg, are refused as invalid image content. */
  lemma NonImageRejected(filename: string, stem: string, data: seq<byte>, maxBytes: int, decode: seq<byte> -> Decoded)
    requires NamedWith(filename, stem, ".jpg")
    requires 1 <= |data| <= maxBytes && decode(data) == Undecodable
    ensures Validate(Some(Upload(Some(filename), "image/jpeg", Some(data))), maxBytes, decode) == Err(Decodes)
  {
    JpgExtension(filename, stem, ".jpg");
  }

  /** With a 10-byte limit any payload longer than 10 bytes (a real JPEG) is
      refused as too large, whatever the decoder would say. */
  lemma TenByteLimitRejects(filename: string, stem: string, data: seq<byte>, decode: seq<byte> -> Decoded)
    requires NamedWith(filename, stem, ".jpg")
    requires |data| > 10
    ensures Validate(Some(Upload(Some(filename), "image/jpeg", Some(data))), 10, decode) == Err(NotTooLarge)
  {
    JpgExtension(filename, stem, ".jpg");
  }

  /** A JPEG named "<stem>.JPEG" within the limit is accepted whole, as ".jpg". */
  lemma JpegAccepted(filename: string, stem: string, data: seq<byte>, maxBytes: int, decode: seq<byte> -> Decoded)
    requires NamedWith(filename, stem, ".JPEG")
    requires 1 <= |data| <= maxBytes && decode(data) == Image(Some("JPEG"))
    ensures Validate(Some(Upload(Some(filename), "image/jpeg", Some(data))), maxBytes, decode) == Ok(Accepted(data, ".jpg"))
  {
    JpgExtension(filename, stem, ".JPEG");
  }
}
