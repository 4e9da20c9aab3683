/** Image upload naming: the extension allow-list, the stored and thumbnail file names
    and the relative paths under the uploads folder. The random hex name comes in as
    a parameter. */
module Images {
  import opened Domain
  import opened Text
  import opened Validators

  /** allowed_file: a name with no dot or with more than one dot is refused; with
      exactly one dot the lowercased text after it must be an allowed extension. */
  function AllowedFile(filename: string, allowed: set<string>): (r: bool)
    ensures '.' !in filename ==> !r
    ensures CountChar(filename, '.') > 1 ==> !r
    ensures r ==> CountChar(filename, '.') == 1 && Extension(filename) in allowed
    ensures CountChar(filename, '.') == 1 && Extension(filename) in allowed ==> r
  {
    if '.' !in filename then false
    else
      var ext := Extension(filename);
      if CountChar(filename, '.') > 1 then false
      else ext in allowed
  }

  /** The name rules of validate_upload agree with allowed_file: a named upload passes
      exactly when allowed_file accepts the name and the size is within 1..max. */
  lemma UploadAgreesWithAllowedFile(filename: string, size: nat, maxSize: int, allowed: set<string>)
    requires filename != []
    ensures ValidateUpload(filename, size, maxSize, allowed) == Pass <==>
      AllowedFile(filename, allowed) && 0 < size <= maxSize
  {
  }

  predicate IsHexDigit(c: char) {
    IsDigit(c) || ('a' <= c <= 'f')
  }

  predicate IsHex(s: string) {
    forall k :: 0 <= k < |s| ==> IsHexDigit(s[k])
  }

  /** The stored name "{hex}.{ext}". */
  function StoredName(hex: string, ext: string): (name: string)
    ensures |name| == |hex| + 1 + |ext| && name[|hex|] == '.'
  {
    hex + "." + ext
  }

  /** The thumbnail name save_uploaded_image writes beside the stored file: the
      stored name before its last dot, then "_thumb.", then the extension. */
  function ThumbName(stored: string, ext: string): (name: string)
    requires '.' in stored
    ensures name != stored
    ensures |name| > |BeforeLast(stored, '.')|
    ensures name[..|BeforeLast(stored, '.')|] == BeforeLast(stored, '.')
  {
    var stem := BeforeLast(stored, '.');
    assert stored[|stem|] == '.' && (stem + "_thumb." + ext)[|stem|] == '_';
    stem + "_thumb." + ext
  }

  /** "resources/{id}/{name}", relative to the uploads folder. */
  function RelPath(resourceId: nat, name: string): (path: string)
    ensures '/' in path
  {
    assert ("resources/" + NatToString(resourceId) + "/" + name)[|"resources/" + NatToString(resourceId)|] == '/';
    "resources/" + NatToString(resourceId) + "/" + name
  }

  /** save_uploaded_image's two relative paths for an accepted upload. */
  function SavedPaths(resourceId: nat, hex: string, filename: string): (paths: (string, string))
    requires '.' in filename
    ensures paths.0 != paths.1
  {
    var ext := Extension(filename);
    var stored := StoredName(hex, ext);
    assert stored[|hex|] == '.';
    (RelPath(resourceId, stored), RelPath(resourceId, ThumbName(stored, ext)))
  }

  /** The thumbnail remove_resource_image derives from a stored relative path: in the
      same directory, the file name before its last dot, "_thumb.", the text after it;
      nothing when the file name has no dot. */
  function DerivedThumb(relPath: string): (r: Option<string>)
    requires '/' in relPath
    ensures r.Some? <==> '.' in AfterLast(relPath, '/')
    ensures r.Some? ==> r.value != relPath
    ensures r.Some? ==> |r.value| > |BeforeLast(relPath, '/')| + 1
    ensures r.Some? ==> r.value[..|BeforeLast(relPath, '/')| + 1] == BeforeLast(relPath, '/') + "/"
  {
    var name := AfterLast(relPath, '/');
    if '.' in name then
      var dir := BeforeLast(relPath, '/') + "/";
      var file := BeforeLast(name, '.') + "_thumb." + AfterLast(name, '.');
      PrefixOfJoin(dir, file);
      Some(dir + file)
    else None
  }

  lemma ExtensionHasNoSlash(filename: string)
    requires '.' in filename && '/' !in filename
    ensures '/' !in Extension(filename)
  {
    var after := AfterLast(filename, '.');
    var ext := Extension(filename);
    forall k | 0 <= k < |ext| ensures ext[k] != '/' {
      assert ext[k] == Lower(after[k]);
      assert after[k] == filename[|filename| - |after| + k];
    }
  }

  lemma HexHasNoSeparator(hex: string)
    requires IsHex(hex)
    ensures '/' !in hex && '.' !in hex
  {
    forall k | 0 <= k < |hex| ensures hex[k] != '.' && hex[k] != '/' {
      assert IsHexDigit(hex[k]);
    }
  }

  /** Deriving the thumbnail of dir/stem.ext, when neither the stem nor the extension
      holds a slash and the extension holds no dot. */
  lemma DerivedThumbOfJoin(dir: string, stem: string, ext: string) returns (path: string)
    requires '/' !in stem && '/' !in ext && '.' !in ext
    ensures path == dir + "/" + (stem + "." + ext) && '/' in path
    ensures DerivedThumb(path) == Some(dir + "/" + (stem + "_thumb." + ext))
  {
    var name := stem + ['.'] + ext;
    assert '/' !in name;
    path := dir + ['/'] + name;
    SplitLastOfJoin(dir, '/', name);
    SplitLastOfJoin(stem, '.', ext);
    assert DerivedThumb(path) == Some(dir + "/" + (stem + "_thumb." + ext));
  }

  /** The thumbnail path remove_resource_image derives from a stored image path is the
      one save_uploaded_image created for it. */
  lemma ThumbnailRoundTrip(resourceId: nat, hex: string, filename: string)
    requires IsHex(hex) && '.' in filename && '/' !in filename
    ensures var (image, thumb) := SavedPaths(resourceId, hex, filename);
      '/' in image && DerivedThumb(image) == Some(thumb)
  {
    var ext := Extension(filename);
    ExtensionHasNoSlash(filename);
    HexHasNoSeparator(hex);
    var stored := StoredName(hex, ext);
    assert stored == hex + ['.'] + ext;
    SplitLastOfJoin(hex, '.', ext);
    var prefix := "resources/" + NatToString(resourceId);
    assert RelPath(resourceId, stored) == prefix + "/" + (hex + "." + ext);
    assert RelPath(resourceId, ThumbName(stored, ext)) == prefix + "/" + (hex + "_thumb." + ext);
    var path := DerivedThumbOfJoin(prefix, hex, ext);
  }
}
