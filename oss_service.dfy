/** Object-storage upload and image metadata (src/services/ossService.ts).
    The COS client, uuid and sharp are parameters: `put` says whether
    `putObject` succeeded for a key and body, `objectUrl` is the unsigned
    `getObjectUrl` for a key, `decode` is what `sharp(file).metadata()`
    yields (`None` when it throws). `path.extname` is modelled with POSIX
    separators. */
module OssService {
  import opened Js
  import opened ErrorHandler

  type Bytes = seq<bv8>

  /** The fields of sharp's metadata the upload reads. */
  datatype SharpMetadata = SharpMetadata(width: Option<int>, height: Option<int>, format: Option<string>, size: Option<int>)

  type Putter = (string, Bytes) -> bool
  type UrlOf = string -> string
  type Decoder = Bytes -> Option<SharpMetadata>

  /** The four `let` variables of `uploadFile` after the decode step. */
  datatype Metadata = Metadata(width: Option<int>, height: Option<int>, mimeType: Option<string>, size: Option<int>)

  /** The argument of `processImageMetadata`. */
  datatype FileInfo = FileInfo(url: string, meta: Metadata, filename: Option<string>)

  /** What `uploadFile` returns and the database insert consumes. */
  datatype ImageInfo = ImageInfo(
    url: string,
    width: Option<int>,
    height: Option<int>,
    filename: Option<string>,
    mimeType: Option<string>,
    size: Option<int>,
    isImage: bool)

  const NoMetadata := Metadata(None, None, None, None)
  const UploadFailedMessage := "文件上传失败"

  const ImageExtensions: seq<string> := [".jpg", ".jpeg", ".png", ".gif", ".webp", ".bmp"]
  const ImageFormats: seq<string> := ["jpg", "jpeg", "png", "gif", "webp", "bmp"]

  // ----- path.extname -----

  function StripTrailingSlashes(s: string): (r: string)
    ensures |r| <= |s| && r == s[..|r|]
    ensures r == [] || r[|r| - 1] != '/'
  {
    if s != [] && s[|s| - 1] == '/' then StripTrailingSlashes(s[..|s| - 1]) else s
  }

  /** The characters after the last '/'. */
  function LastPart(s: string): (r: string)
    ensures '/' !in r
    decreases |s|
  {
    if s == [] || s[|s| - 1] == '/' then []
    else LastPart(s[..|s| - 1]) + [s[|s| - 1]]
  }

  /** The index of the last '.'. */
  function LastDot(s: string): (r: Option<nat>)
    ensures r.Some? ==> r.value < |s| && s[r.value] == '.' && '.' !in s[r.value + 1..]
    ensures r.None? ==> '.' !in s
    decreases |s|
  {
    if s == [] then None
    else if s[|s| - 1] == '.' then Some(|s| - 1)
    else
      var r := LastDot(s[..|s| - 1]);
      assert s == s[..|s| - 1] + [s[|s| - 1]];
      r
  }

  /** `path.extname(fileName)` (POSIX): from the last '.' of the last path
      segment to its end, or '' when there is no dot, the dot starts the
      segment, or the segment is '..'. */
  function ExtName(fileName: string): (ext: string)
    ensures ext == "" || (ext[0] == '.' && '.' !in ext[1..])
    ensures '/' !in ext
  {
    var part := LastPart(StripTrailingSlashes(fileName));
    match LastDot(part)
    case None => ""
    case Some(k) => if k == 0 || part == ".." then "" else part[k..]
  }

  /** The storage key: `folder/uuid ext` for a truthy folder, else `uuid ext`. */
  function StorageKey(folder: Option<string>, id: string, fileName: string): string {
    (if Truthy(folder) then folder.value + "/" else "") + id + ExtName(fileName)
  }

  lemma {:induction false} LastPartAppend(a: string, b: string)
    requires '/' !in b
    requires a == [] || a[|a| - 1] == '/'
    ensures LastPart(a + b) == b
    decreases |b|
  {
    if b == [] {
      assert a + b == a;
    } else {
      var s := a + b;
      assert s[..|s| - 1] == a + b[..|b| - 1];
      assert b == b[..|b| - 1] + [b[|b| - 1]];
      LastPartAppend(a, b[..|b| - 1]);
    }
  }

  lemma {:induction false} LastDotAppend(a: string, b: string)
    requires '.' !in b
    ensures LastDot(a + b) == LastDot(a)
    decreases |b|
  {
    if b != [] {
      var s := a + b;
      assert s[|s| - 1] == b[|b| - 1];
      assert s[..|s| - 1] == a + b[..|b| - 1];
      assert b == b[..|b| - 1] + [b[|b| - 1]];
      LastDotAppend(a, b[..|b| - 1]);
    } else {
      assert a + b == a;
    }
  }

  /** The last segment of a key is the unique file name. */
  lemma KeyLastPart(prefix: string, name: string)
    requires name != [] && '/' !in name
    requires prefix == [] || prefix[|prefix| - 1] == '/'
    ensures LastPart(StripTrailingSlashes(prefix + name)) == name
  {
    var key := prefix + name;
    assert key[|key| - 1] == name[|name| - 1];
    assert StripTrailingSlashes(key) == key;
    LastPartAppend(prefix, name);
  }

  /** The key keeps the original extension: `extname` of the key is the
      `extname` of the uploaded name, for any id without '.' or '/'. */
  lemma StorageKeyKeepsExtension(folder: Option<string>, id: string, fileName: string)
    requires id != [] && '.' !in id && '/' !in id
    ensures ExtName(StorageKey(folder, id, fileName)) == ExtName(fileName)
  {
    var prefix := if Truthy(folder) then folder.value + "/" else "";
    ExtNameOfPath(prefix, id, ExtName(fileName));
  }

  // ----- metadata -----

  predicate IsImageExtension(ext: string) {
    ToLower(ext) in ImageExtensions
  }

  /** The decode step: sharp is consulted only for a listed extension, and a
      throw leaves every field absent. */
  function MetadataOf(file: Bytes, ext: string, decode: Decoder): (m: Metadata)
    ensures !IsImageExtension(ext) ==> m == NoMetadata
    ensures IsImageExtension(ext) && decode(file).None? ==> m == NoMetadata
    ensures IsImageExtension(ext) && decode(file).Some? ==>
              var d := decode(file).value;
              m == Metadata(d.width, d.height, d.format, d.size)
  {
    if IsImageExtension(ext) then
      match decode(file)
      case None => NoMetadata
      case Some(d) => Metadata(d.width, d.height, d.format, d.size)
    else NoMetadata
  }

  /** `processImageMetadata`: copies the fields and decides `isImage` from
      the decoded format alone. */
  function ProcessImageMetadata(info: FileInfo): (r: ImageInfo)
    ensures r.url == info.url && r.filename == info.filename
    ensures r.width == info.meta.width && r.height == info.meta.height
    ensures r.mimeType == info.meta.mimeType && r.size == info.meta.size
    ensures r.isImage <==> info.meta.mimeType.Some? && ToLower(info.meta.mimeType.value) in ImageFormats
  {
    var m := info.meta;
    var isImage := Truthy(m.mimeType) && ToLower(m.mimeType.value) in ImageFormats;
    ImageInfo(info.url, m.width, m.height, info.filename, m.mimeType, m.size, isImage)
  }

  /** `uploadFile`: put the body under the generated key, take the unsigned
      URL, decode if the extension allows it, and process the metadata. A
      failed put is the only error; a failed decode is not. */
  method UploadFile(file: Bytes, fileName: string, folder: Option<string>, uuid: string,
                    put: Putter, objectUrl: UrlOf, decode: Decoder)
    returns (r: Result<ImageInfo>)
    ensures var key := StorageKey(folder, uuid, fileName);
            && (r.Ok? <==> put(key, file))
            && (r.Err? ==> r.error == PlainError("文件上传失败"))
            && (r.Ok? ==> r.value == ProcessImageMetadata(
                  FileInfo(objectUrl(key), MetadataOf(file, ExtName(fileName), decode), Some(fileName))))
  {
    var ext := ExtName(fileName);
    var uniqueFileName := uuid + ext;
    var key := if Truthy(folder) then folder.value + "/" + uniqueFileName else uniqueFileName;
    assert key == StorageKey(folder, uuid, fileName);
    if !put(key, file) {
      return Err(PlainError(UploadFailedMessage));
    }
    var fileUrl := objectUrl(key);
    var width: Option<int> := None;
    var height: Option<int> := None;
    var mimeType: Option<string> := None;
    var size: Option<int> := None;
    if ToLower(ext) in ImageExtensions {
      var decoded := decode(file);
      if decoded.Some? {
        width := decoded.value.width;
        height := decoded.value.height;
        mimeType := decoded.value.format;
        size := decoded.value.size;
      }
    }
    var fileInfo := FileInfo(fileUrl, Metadata(width, height, mimeType, size), Some(fileName));
    return Ok(ProcessImageMetadata(fileInfo));
  }

  /** An upload is an image exactly when the extension passed the gate,
      sharp decoded the body, and the decoded format is a listed one; the
      extension alone never makes it one. */
  lemma UploadIsImageIff(file: Bytes, fileName: string, url: string, decode: Decoder)
    ensures var info := ProcessImageMetadata(FileInfo(url, MetadataOf(file, ExtName(fileName), decode), Some(fileName)));
            info.isImage <==> (&& IsImageExtension(ExtName(fileName))
                               && decode(file).Some?
                               && decode(file).value.format.Some?
                               && ToLower(decode(file).value.format.value) in ImageFormats)
    ensures var info := ProcessImageMetadata(FileInfo(url, MetadataOf(file, ExtName(fileName), decode), Some(fileName)));
            info.url == url && info.filename == Some(fileName)
  {
  }

  /** The last dot of a segment `base + ext` that does not start with '.'
      is where `ext` starts. */
  lemma {:induction false} SegmentLastDot(base: string, ext: string)
    requires base != [] && base[0] != '.'
    requires ext == "" || (ext[0] == '.' && '.' !in ext[1..])
    requires ext == "" ==> '.' !in base
    ensures var part := base + ext;
            match LastDot(part)
            case None => ext == ""
            case Some(k) => k != 0 && part != ".." && part[k..] == ext
  {
    var part := base + ext;
    if ext == [] {
      assert part == base;
    } else {
      assert part == (base + ['.']) + ext[1..];
      LastDotAppend(base + ['.'], ext[1..]);
      assert LastDot(base + ['.']) == Some(|base|);
      assert part[0] == base[0];
      assert part[|base|..] == ext;
    }
  }

  /** A path `dir + base + ext`, with `dir` empty or ending in '/' and a
      segment that does not start with '.', has extension `ext`: the
      segment's suffix from its last dot ('a/b.tar.gz' gives '.gz'). The
      base may hold dots only when `ext` is not empty. */
  lemma ExtNameOfPath(dir: string, base: string, ext: string)
    requires dir == [] || dir[|dir| - 1] == '/'
    requires base != [] && base[0] != '.' && '/' !in base
    requires ext == "" || (ext[0] == '.' && '.' !in ext[1..])
    requires '/' !in ext
    requires ext == "" ==> '.' !in base
    ensures ExtName(dir + base + ext) == ext
  {
    assert dir + base + ext == dir + (base + ext);
    KeyLastPart(dir, base + ext);
    SegmentLastDot(base, ext);
  }

  /** A plain file name `base + ext` (no directory, no dot in the base)
      has extension `ext`. */
  lemma ExtNameOfPlainName(base: string, ext: string)
    requires base != [] && '.' !in base && '/' !in base
    requires ext == "" || (ext[0] == '.' && '.' !in ext[1..])
    requires '/' !in ext
    ensures ExtName(base + ext) == ext
    ensures IsImageExtension(ExtName(base + ext)) <==> ToLower(ext) in ImageExtensions
  {
    var name := base + ext;
    assert "" + base + ext == name;
    ExtNameOfPath("", base, ext);
    assert ExtName(name) == ext;
  }

  /** A dot-file such as '.png' has no extension, so it never passes the
      gate and never reaches sharp. */
  lemma DotFileHasNoExtension(rest: string)
    requires '.' !in rest && '/' !in rest
    ensures ExtName("." + rest) == ""
    ensures !IsImageExtension(ExtName("." + rest))
  {
    assert "." + rest == "" + ("." + rest);
    KeyLastPart("", "." + rest);
    LastDotAppend(".", rest);
  }

  /** Each of the six extensions is a dot followed by lower-case letters. */
  lemma ImageExtensionShape(e: string)
    requires e in ImageExtensions
    ensures |e| >= 2 && e[0] == '.'
    ensures forall i :: 1 <= i < |e| ==> 'a' <= e[i] <= 'z'
  {
  }

  /** Any letter-case variant of the six extensions on a plain base name is
      that name's extension and passes the gate ('photo.PNG', 'a.JpEg'). */
  lemma CaseVariantPassesGate(base: string, ext: string)
    requires base != [] && '.' !in base && '/' !in base
    requires ToLower(ext) in ImageExtensions
    ensures ExtName(base + ext) == ext
    ensures IsImageExtension(ExtName(base + ext))
  {
    var low := ToLower(ext);
    ImageExtensionShape(low);
    assert ext[0] == '.' by {
      assert low[0] == LowerChar(ext[0]);
    }
    forall i | 1 <= i < |ext| ensures 'a' <= ext[i] <= 'z' || 'A' <= ext[i] <= 'Z' {
      assert low[i] == LowerChar(ext[i]);
    }
    assert '.' !in ext[1..] by {
      forall c | c in ext[1..] ensures c != '.' {
        var i :| 0 <= i < |ext[1..]| && ext[1..][i] == c;
        assert c == ext[i + 1];
      }
    }
    assert '/' !in ext by {
      forall c | c in ext ensures c != '/' {
        var i :| 0 <= i < |ext| && ext[i] == c;
      }
    }
    ExtNameOfPlainName(base, ext);
  }
}
