/**
 * The upload service of the dashboard: validation of an uploaded file (size, MIME type,
 * name), the stored name built from a fresh identifier and the original suffix, the two
 * storage directories `temp` and `processed`, and the magic-number checks on file content.
 * Directories are maps from file name to bytes; the identifier generator is a parameter.
 */
module FileHandler {
  import opened Wrappers
  import opened Text
  import opened Bytes

  const MaxFileSizeMB := 50
  const MaxFileSizeBytes := MaxFileSizeMB * 1024 * 1024

  /** The allowed MIME types, grouped as pdf, excel, csv, images and word. */
  const AllowedFileTypes: seq<seq<string>> := [
    ["application/pdf"],
    ["application/vnd.ms-excel", "application/vnd.openxmlformats-officedocument.spreadsheetml.sheet"],
    ["text/csv"],
    ["image/jpeg", "image/jpg", "image/png", "image/gif"],
    ["application/msword", "application/vnd.openxmlformats-officedocument.wordprocessingml.document"]
  ]

  /** An uploaded file: its client-side name, its declared MIME type and its bytes. */
  datatype UploadedFile = UploadedFile(name: string, mimeType: string, content: seq<byte>)

  /** Why a file is refused, checked in this order. */
  datatype Validation = Valid | TooLarge | TypeNotAllowed | UnsafeName

  datatype Directory = Temp | Processed

  /** The record `save_uploaded_file` returns (hash, path and timestamp left out). */
  datatype SavedFile = SavedFile(filename: string, originalFilename: string, fileType: string,
                                 fileSize: nat, auditId: int, userId: int)

  /** The record `get_file_info` returns (path and times left out). */
  datatype StoredFileInfo = StoredFileInfo(filename: string, directory: Directory, fileSize: nat)

  /** The MIME type occurs in one of the groups. */
  predicate Allowed(fileType: string) {
    exists g :: 0 <= g < |AllowedFileTypes| && fileType in AllowedFileTypes[g]
  }

  /** Word and image types are allowed; a plain-text upload is not. */
  lemma AllowedExamples()
    ensures Allowed("application/msword") && Allowed("image/jpg")
    ensures !Allowed("text/plain")
  {
    assert "application/msword" in AllowedFileTypes[4];
    assert "image/jpg" in AllowedFileTypes[3];
  }

  /**
   * `_is_allowed_file_type`: gathers every group into one list, then tests membership.
   */
  method IsAllowedFileType(fileType: string) returns (allowed: bool)
    ensures allowed <==> Allowed(fileType)
  {
    var allowedTypes: seq<string> := [];
    for g := 0 to |AllowedFileTypes|
      invariant forall t :: t in allowedTypes <==> exists h :: 0 <= h < g && t in AllowedFileTypes[h]
    {
      allowedTypes := allowedTypes + AllowedFileTypes[g];
    }
    return fileType in allowedTypes;
  }

  /** `_is_safe_filename`: no `..`, no `/`, no `\`, no NUL, at most 255 characters. */
  predicate IsSafeFilename(filename: string) {
    && !Contains(filename, "..")
    && '/' !in filename
    && '\\' !in filename
    && '\0' !in filename
    && |filename| <= 255
  }

  /** A name free of `/` is its own final path component. */
  lemma NoSlashIsOwnComponent(filename: string)
    requires '/' !in filename
    ensures AfterLast(filename, '/') == filename
  {
    AfterLastShape(filename, '/');
  }

  /** A name that contains no `..` has no two dots in a row. */
  lemma NoDoubleDot(filename: string, i: nat)
    requires !Contains(filename, "..")
    requires i + 1 < |filename|
    ensures !(filename[i] == '.' && filename[i + 1] == '.')
  {
    if filename[i] == '.' && filename[i + 1] == '.' {
      assert filename[i..i + 2] == [filename[i], filename[i + 1]];
      assert OccursAt("..", filename, i);
      ContainsIff(filename, "..");
    }
  }

  /**
   * A safe name is a single path component with no two dots in a row, so joining it to a
   * directory names a file directly inside that directory.
   */
  lemma SafeNameStaysInDirectory(filename: string)
    requires IsSafeFilename(filename)
    ensures AfterLast(filename, '/') == filename
    ensures forall i :: 0 <= i < |filename| - 1 ==> !(filename[i] == '.' && filename[i + 1] == '.')
  {
    NoSlashIsOwnComponent(filename);
    forall i | 0 <= i < |filename| - 1
      ensures !(filename[i] == '.' && filename[i + 1] == '.')
    {
      NoDoubleDot(filename, i);
    }
  }

  /** pathlib's `suffix` of a final component: from the last dot, unless that dot is first or last. */
  function Suffix(name: string): string {
    var i := RFind(name, '.');
    if 0 < i < |name| - 1 then name[i..] else ""
  }

  /**
   * `_get_file_extension`: `Path(filename).suffix.lower()`. The final component is the text
   * after the last `/`.
   */
  function GetFileExtension(filename: string): string {
    Lower(Suffix(AfterLast(filename, '/')))
  }

  /** Lower-casing neither adds nor removes dots. */
  lemma LowerKeepsDots(s: string)
    ensures '.' in Lower(s) <==> '.' in s
  {
    if '.' in Lower(s) {
      var k :| 0 <= k < |s| && Lower(s)[k] == '.';
      assert LowerChar(s[k]) == '.';
    }
    if '.' in s {
      var k :| 0 <= k < |s| && s[k] == '.';
      assert Lower(s)[k] == '.';
    }
  }

  /** Lower-casing commutes with taking a suffix. */
  lemma LowerOfSuffix(s: string, k: nat)
    requires k <= |s|
    ensures Lower(s[k..]) == Lower(s)[k..]
  {
  }

  /** The suffix is empty, or the final component from a last dot that is neither first nor last. */
  lemma SuffixShape(name: string)
    ensures var sfx := Suffix(name);
      && (sfx == "" || (|sfx| >= 2 && sfx[0] == '.' && '.' !in sfx[1..]))
      && |sfx| <= |name| && sfx == name[|name| - |sfx|..]
    ensures Suffix(name) != "" <==> exists i :: 0 < i < |name| - 1 && name[i] == '.' && '.' !in name[i + 1..]
  {
    var i := RFind(name, '.');
    if 0 < i < |name| - 1 {
      var sfx := name[i..];
      assert '.' !in sfx[1..] by {
        forall k | 1 <= k < |sfx|
          ensures sfx[k] != '.'
        {
          assert sfx[k] == name[i + k];
        }
      }
      assert '.' !in name[i + 1..] by {
        assert name[i + 1..] == sfx[1..];
      }
    } else {
      forall j | 0 < j < |name| - 1 && name[j] == '.'
        ensures '.' in name[j + 1..]
      {
        assert name[j + 1..][i - j - 1] == name[i];
      }
    }
  }

  /** Lower-casing a suffix of the shape `Suffix` returns keeps that shape. */
  lemma LowerKeepsSuffixShape(filename: string, sfx: string)
    requires sfx == "" || (|sfx| >= 2 && sfx[0] == '.' && '.' !in sfx[1..])
    requires |sfx| <= |filename| && sfx == filename[|filename| - |sfx|..]
    ensures var ext := Lower(sfx);
      && (ext == "" || (|ext| >= 2 && ext[0] == '.' && '.' !in ext[1..]))
      && |ext| <= |filename| && ext == Lower(filename)[|filename| - |ext|..]
  {
    LowerOfSuffix(filename, |filename| - |sfx|);
    if sfx != "" {
      LowerOfSuffix(sfx, 1);
      LowerKeepsDots(sfx[1..]);
    }
  }

  lemma SuffixOfSuffix(a: string, b: string, c: string)
    requires |b| <= |a| && b == a[|a| - |b|..]
    requires |c| <= |b| && c == b[|b| - |c|..]
    ensures c == a[|a| - |c|..]
  {
    assert forall k :: 0 <= k < |c| ==> c[k] == b[|b| - |c| + k] == a[|a| - |c| + k];
  }

  /**
   * The extension is empty or a dot followed by at least one dot-free character, and it is
   * the lower-cased end of the name.
   */
  lemma ExtensionShape(filename: string)
    ensures var ext := GetFileExtension(filename);
      && (ext == "" || (|ext| >= 2 && ext[0] == '.' && '.' !in ext[1..]))
      && |ext| <= |filename| && ext == Lower(filename)[|filename| - |ext|..]
  {
    var name := AfterLast(filename, '/');
    var sfx := Suffix(name);
    AfterLastShape(filename, '/');
    assert |name| <= |filename| && name == filename[|filename| - |name|..];
    SuffixShape(name);
    SuffixOfSuffix(filename, name, sfx);
    LowerKeepsSuffixShape(filename, sfx);
    assert GetFileExtension(filename) == Lower(sfx);
  }

  /**
   * The extension is non-empty exactly when the final component has a last dot that is
   * neither its first nor its last character.
   */
  lemma ExtensionPresentIff(filename: string)
    ensures var name := AfterLast(filename, '/');
      GetFileExtension(filename) != "" <==> exists i :: 0 < i < |name| - 1 && name[i] == '.' && '.' !in name[i + 1..]
  {
    SuffixShape(AfterLast(filename, '/'));
  }

  /** Every check passes: size, then type, then name. */
  predicate IsValidUpload(f: UploadedFile) {
    |f.content| <= MaxFileSizeBytes && Allowed(f.mimeType) && IsSafeFilename(f.name)
  }

  /**
   * `_validate_file`: the size check first (a file of exactly the maximum passes), then the
   * MIME allow-list, then the name; the first failing check is reported.
   */
  method ValidateFile(f: UploadedFile) returns (v: Validation)
    ensures v == Valid <==> IsValidUpload(f)
    ensures v == TooLarge <==> |f.content| > MaxFileSizeBytes
    ensures v == TypeNotAllowed <==> |f.content| <= MaxFileSizeBytes && !Allowed(f.mimeType)
    ensures v == UnsafeName <==> |f.content| <= MaxFileSizeBytes && Allowed(f.mimeType) && !IsSafeFilename(f.name)
  {
    if |f.content| > MaxFileSizeBytes {
      return TooLarge;
    }
    var allowed := IsAllowedFileType(f.mimeType);
    if !allowed {
      return TypeNotAllowed;
    }
    if !IsSafeFilename(f.name) {
      return UnsafeName;
    }
    return Valid;
  }

  /** The two upload directories. */
  class FileStore {
    var temp: map<string, seq<byte>>
    var processed: map<string, seq<byte>>

    /** Both directories start empty. */
    constructor()
      ensures temp == map[] && processed == map[]
    {
      temp := map[];
      processed := map[];
    }

    function Files(d: Directory): map<string, seq<byte>>
      reads this
    {
      if d == Temp then temp else processed
    }

    /** What `get_file_content` returns: the temp copy if there is one, else the processed one. */
    function ContentOf(filename: string): (r: Option<seq<byte>>)
      reads this
      ensures r.None? <==> filename !in temp && filename !in processed
    {
      if filename in temp then Some(temp[filename])
      else if filename in processed then Some(processed[filename])
      else None
    }

    /** `get_file_info`: looks in temp, then in processed. */
    function FileInfo(filename: string): (r: Option<StoredFileInfo>)
      reads this
      ensures r.None? <==> ContentOf(filename).None?
      ensures r.Some? ==> r.value.filename == filename && r.value.fileSize == |ContentOf(filename).value|
      ensures r.Some? ==> (r.value.directory == Temp <==> filename in temp)
    {
      if filename in temp then Some(StoredFileInfo(filename, Temp, |temp[filename]|))
      else if filename in processed then Some(StoredFileInfo(filename, Processed, |processed[filename]|))
      else None
    }

    /** `get_file_content`: tries the directories in order temp, processed. */
    method GetFileContent(filename: string) returns (r: Option<seq<byte>>)
      ensures r == ContentOf(filename)
      ensures r.Some? <==> FileInfo(filename).Some?
    {
      var directories := [Temp, Processed];
      assert Files(directories[0]) == temp && Files(directories[1]) == processed;
      for i := 0 to |directories|
        invariant forall j :: 0 <= j < i ==> filename !in Files(directories[j])
      {
        var files := Files(directories[i]);
        if filename in files {
          return Some(files[filename]);
        }
      }
      return None;
    }

    /**
     * `save_uploaded_file`: a file that fails validation is not written; a valid one is
     * written to temp under the identifier followed by its lower-cased suffix.
     */
    method SaveUploadedFile(f: UploadedFile, uuid: string, auditId: int, userId: int) returns (info: Option<SavedFile>)
      modifies this
      ensures info.None? <==> !IsValidUpload(f)
      ensures info.None? ==> temp == old(temp) && processed == old(processed)
      ensures info.Some? ==>
        && info == Some(SavedFile(uuid + GetFileExtension(f.name), f.name, f.mimeType, |f.content|, auditId, userId))
        && temp == old(temp)[info.value.filename := f.content]
        && processed == old(processed)
    {
      var v := ValidateFile(f);
      if v != Valid {
        assert !IsValidUpload(f);
        return None;
      }
      assert IsValidUpload(f);
      var uniqueFilename := uuid + GetFileExtension(f.name);
      temp := temp[uniqueFilename := f.content];
      info := Some(SavedFile(uniqueFilename, f.name, f.mimeType, |f.content|, auditId, userId));
    }

    /**
     * `move_to_processed`: a name in temp is renamed into processed (replacing a processed
     * file of the same name); any other name changes nothing. The content read back is the same.
     */
    method MoveToProcessed(filename: string) returns (moved: bool)
      modifies this
      ensures moved <==> filename in old(temp)
      ensures moved ==> temp == old(temp) - {filename} && processed == old(processed)[filename := old(temp)[filename]]
      ensures !moved ==> temp == old(temp) && processed == old(processed)
      ensures ContentOf(filename) == old(ContentOf(filename))
    {
      if filename !in temp {
        return false;
      }
      processed := processed[filename := temp[filename]];
      temp := temp - {filename};
      return true;
    }

    /**
     * `delete_file`: removes the temp copy if there is one, else the processed one; at most
     * one copy goes, so a processed copy behind a temp one becomes visible.
     */
    method DeleteFile(filename: string) returns (deleted: bool)
      modifies this
      ensures deleted <==> old(ContentOf(filename)).Some?
      ensures filename in old(temp) ==> temp == old(temp) - {filename} && processed == old(processed)
      ensures filename !in old(temp) ==> temp == old(temp) && processed == old(processed) - {filename}
      ensures filename in old(temp) && filename in old(processed) ==> ContentOf(filename) == Some(old(processed)[filename])
    {
      var directories := [Temp, Processed];
      assert Files(directories[0]) == temp && Files(directories[1]) == processed;
      for i := 0 to |directories|
        invariant forall j :: 0 <= j < i ==> filename !in Files(directories[j])
        invariant temp == old(temp) && processed == old(processed)
      {
        if filename in Files(directories[i]) {
          if directories[i] == Temp {
            temp := temp - {filename};
          } else {
            processed := processed - {filename};
          }
          return true;
        }
      }
      return false;
    }
  }

  /** `is_pdf`: the content starts with `%PDF-`. */
  const PdfSignature: seq<byte> := [0x25, 0x50, 0x44, 0x46, 0x2D]
  const JpegSignature: seq<byte> := [0xFF, 0xD8, 0xFF]
  const PngSignature: seq<byte> := [0x89, 0x50, 0x4E, 0x47, 0x0D, 0x0A, 0x1A, 0x0A]
  const Gif87aSignature: seq<byte> := [0x47, 0x49, 0x46, 0x38, 0x37, 0x61]
  const Gif89aSignature: seq<byte> := [0x47, 0x49, 0x46, 0x38, 0x39, 0x61]
  /** A ZIP local file header, `PK\x03\x04`, which Office Open XML files start with. */
  const ZipSignature: seq<byte> := [0x50, 0x4B, 0x03, 0x04]

  const ImageSignatures: seq<seq<byte>> := [JpegSignature, PngSignature, Gif87aSignature, Gif89aSignature]

  predicate IsPdf(content: seq<byte>) {
    StartsWith(content, PdfSignature)
  }

  predicate IsOfficeDocument(content: seq<byte>) {
    StartsWith(content, ZipSignature)
  }

  predicate IsImageContent(content: seq<byte>) {
    exists k :: 0 <= k < |ImageSignatures| && StartsWith(content, ImageSignatures[k])
  }

  /** `is_image`: tries the JPEG, PNG, GIF87a and GIF89a signatures in turn. */
  method IsImage(content: seq<byte>) returns (b: bool)
    ensures b <==> IsImageContent(content)
  {
    for k := 0 to |ImageSignatures|
      invariant forall j :: 0 <= j < k ==> !StartsWith(content, ImageSignatures[j])
    {
      if StartsWith(content, ImageSignatures[k]) {
        return true;
      }
    }
    return false;
  }

  /** The signatures begin with different bytes, so no content is two kinds at once. */
  lemma AtMostOneKind(content: seq<byte>)
    ensures !(IsPdf(content) && IsImageContent(content))
    ensures !(IsPdf(content) && IsOfficeDocument(content))
    ensures !(IsImageContent(content) && IsOfficeDocument(content))
  {
    if IsImageContent(content) {
      var k :| 0 <= k < |ImageSignatures| && StartsWith(content, ImageSignatures[k]);
      assert content[0] == ImageSignatures[k][0];
      assert content[0] in {0xFF, 0x89, 0x47};
    }
    if IsPdf(content) {
      assert content[0] == 0x25;
    }
    if IsOfficeDocument(content) {
      assert content[0] == 0x50;
    }
  }
}
