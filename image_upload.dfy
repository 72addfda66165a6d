/**
 * Image validation, storage keys and the upload / delete lifecycle of puzzle
 * images in the `puzzle-images` bucket.
 *
 * A candidate file is validated (present, one of four image types, at most
 * 5 MiB), stored under `<userId>/<timestamp>-<suffix>.<extension>` without
 * overwriting, and later deleted by recovering that key from the pathname of
 * its public URL. The clock and the random suffix are parameters.
 */
module ImageUpload {
  import opened Wrappers
  import opened Text
  import opened ObjectStore

  const MAX_FILE_SIZE: nat := 5 * 1024 * 1024
  const ALLOWED_IMAGE_TYPES: seq<string> := ["image/jpeg", "image/jpg", "image/png", "image/webp"]

  /** The bucket's name as it appears as a path component of a public URL. */
  const BUCKET_SEGMENT: string := "/puzzle-images/"
  const CACHE_CONTROL: string := "3600"

  const NO_FILE_ERROR: string := "No file provided"
  const TYPE_ERROR: string := "Invalid file type. Please upload a JPEG, PNG, or WebP image."
  const SIZE_ERROR: string :=
    "File size must be less than " + DecimalString(MAX_FILE_SIZE / (1024 * 1024)) + "MB"

  /** A candidate file: its name, declared media type and declared byte length. */
  datatype File = File(name: string, mimeType: string, size: nat)

  /** `{ isValid, error? }`. */
  datatype Validation = Validation(isValid: bool, error: Option<string>)

  /** `ALLOWED_IMAGE_TYPES.includes(mimeType)`: exactly the four literals, compared as written. */
  function IsAllowedType(mimeType: string): (allowed: bool)
    ensures allowed <==>
            mimeType == "image/jpeg" || mimeType == "image/jpg" || mimeType == "image/png" || mimeType == "image/webp"
  {
    mimeType in ALLOWED_IMAGE_TYPES
  }

  /**
   * `validateImageFile`: the three checks in their fixed order; the first
   * that fails decides the message.
   */
  function ValidateImageFile(file: Option<File>): (v: Validation)
    ensures v.isValid <==>
            file.Some? && IsAllowedType(file.value.mimeType) && file.value.size <= MAX_FILE_SIZE
    ensures v.isValid <==> v.error.None?
    ensures file.None? ==> v.error == Some(NO_FILE_ERROR)
    ensures file.Some? && !IsAllowedType(file.value.mimeType) ==> v.error == Some(TYPE_ERROR)
    ensures file.Some? && IsAllowedType(file.value.mimeType) && file.value.size > MAX_FILE_SIZE ==>
            v.error == Some(SIZE_ERROR)
  {
    if file.None? then
      Validation(false, Some(NO_FILE_ERROR))
    else if file.value.mimeType !in ALLOWED_IMAGE_TYPES then
      Validation(false, Some(TYPE_ERROR))
    else if file.value.size > MAX_FILE_SIZE then
      Validation(false, Some(SIZE_ERROR))
    else
      Validation(true, None)
  }

  /** The ceiling is 5242880 bytes and the size message reads "5MB". */
  lemma Limits()
    ensures MAX_FILE_SIZE == 5242880
    ensures SIZE_ERROR == "File size must be less than 5MB"
  {
  }

  /** The size boundary is inclusive and an empty file is fine. */
  lemma SizeBoundary(name: string, mimeType: string)
    requires IsAllowedType(mimeType)
    ensures ValidateImageFile(Some(File(name, mimeType, MAX_FILE_SIZE))).isValid
    ensures ValidateImageFile(Some(File(name, mimeType, 0))).isValid
    ensures ValidateImageFile(Some(File(name, mimeType, MAX_FILE_SIZE + 1))) ==
            Validation(false, Some(SIZE_ERROR))
  {
  }

  /** The type check runs first: a wrong type is reported whatever the size. */
  lemma TypeBeforeSize(file: File)
    requires !IsAllowedType(file.mimeType)
    ensures ValidateImageFile(Some(file)) == Validation(false, Some(TYPE_ERROR))
  {
  }

  /**
   * `name.split('.').pop()`: the longest suffix of the name without a dot.
   * With no dot it is the whole name; a name ending in a dot gives "".
   */
  function FileExtension(name: string): (ext: string)
    ensures '.' !in ext
    ensures |ext| <= |name| && name[|name| - |ext|..] == ext
    ensures |ext| < |name| ==> name[|name| - |ext| - 1] == '.'
    ensures '.' !in name ==> ext == name
  {
    var parts := Split(name, ".");
    var ext := parts[|parts| - 1];
    LastPieceSuffix(name, ".", ext);
    CharFreeFrom(name, '.', |name| - |ext|);
    if |parts| > 1 then OccursAtChar(name, '.', |name| - |ext| - 1); ext else ext
  }

  /** The extension of `stem.ext` is `ext` whenever `ext` has no dot, whatever the stem. */
  lemma {:induction false} ExtensionAfterLastDot(stem: string, ext: string)
    requires '.' !in ext
    ensures FileExtension(stem + "." + ext) == ext
  {
    var name := stem + "." + ext;
    var e := FileExtension(name);
    assert name[|stem|] == '.';
    assert name[|name| - |ext|..] == ext;
  }

  /** A name ending in a dot has the empty extension. */
  lemma TrailingDot(stem: string)
    ensures FileExtension(stem + ".") == ""
  {
    ExtensionAfterLastDot(stem, "");
    assert stem + "." + "" == stem + ".";
  }

  /** The key begins with the user's folder. */
  lemma FolderPrefix(folder: string, middle: string, ext: string)
    ensures |folder| <= |folder + middle + "." + ext|
    ensures (folder + middle + "." + ext)[..|folder|] == folder
  {
    var key := folder + middle + "." + ext;
    assert forall i :: 0 <= i < |folder| ==> key[i] == folder[i];
  }

  /**
   * The storage key `<userId>/<now>-<suffix>.<ext>`: it lies under the
   * user's folder and keeps the original file's extension.
   */
  function StorageKey(userId: string, now: nat, suffix: string, name: string): (key: string)
    ensures |userId| + 1 <= |key| && key[..|userId| + 1] == userId + "/"
    ensures FileExtension(key) == FileExtension(name)
  {
    var ext := FileExtension(name);
    var folder := userId + "/";
    var middle := DecimalString(now) + "-" + suffix;
    ExtensionAfterLastDot(folder + middle, ext);
    FolderPrefix(folder, middle, ext);
    folder + middle + "." + ext
  }

  /**
   * Different timestamps or suffixes give different keys for the same user
   * and file name: the key determines both, since the timestamp is all
   * digits and the first "-" after the folder ends it. (Keys are unique only
   * as far as the clock and the random suffix are.)
   */
  lemma StorageKeyDetermines(userId: string, now1: nat, suffix1: string, now2: nat, suffix2: string, name: string)
    requires StorageKey(userId, now1, suffix1, name) == StorageKey(userId, now2, suffix2, name)
    ensures now1 == now2 && suffix1 == suffix2
  {
    var d1, d2 := DecimalString(now1), DecimalString(now2);
    StripFolderAndExtension(userId + "/", d1 + "-" + suffix1, d2 + "-" + suffix2, FileExtension(name));
    DigitsThenDash(d1, suffix1, d2, suffix2);
    DecimalRoundTrip(now1);
    DecimalRoundTrip(now2);
  }

  /** Keys with the same folder and extension have the same middle part. */
  lemma StripFolderAndExtension(folder: string, m1: string, m2: string, ext: string)
    requires folder + m1 + "." + ext == folder + m2 + "." + ext
    ensures m1 == m2
  {
    var key := folder + m1 + "." + ext;
    assert key[|folder|..|folder| + |m1|] == m1;
    assert (folder + m2 + "." + ext)[|folder|..|folder| + |m2|] == m2;
  }

  /**
   * `pathname.split('/puzzle-images/')[1]`, kept only when it is a non-empty
   * string: the storage key a public URL's pathname refers to.
   */
  function ImagePath(pathname: string): (path: Option<string>)
    ensures path.Some? ==> path.value != "" && Free(path.value, BUCKET_SEGMENT)
    ensures Free(pathname, BUCKET_SEGMENT) ==> path.None?
  {
    var parts := Split(pathname, BUCKET_SEGMENT);
    SplitPiecesFree(pathname, BUCKET_SEGMENT, 0);
    SplitNoMore(pathname, BUCKET_SEGMENT, 0);
    if |parts| >= 2 && parts[1] != "" then Some(parts[1]) else None
  }

  /**
   * Where the extracted key comes from: it starts right after the FIRST
   * occurrence of the bucket segment and runs to the next occurrence or to
   * the end of the pathname.
   */
  lemma ImagePathLocated(pathname: string) returns (i: nat, end: nat)
    requires ImagePath(pathname).Some?
    ensures OccursAt(pathname, BUCKET_SEGMENT, i)
    ensures forall j: nat :: j < i ==> !OccursAt(pathname, BUCKET_SEGMENT, j)
    ensures i + |BUCKET_SEGMENT| <= end <= |pathname|
    ensures ImagePath(pathname).value == pathname[i + |BUCKET_SEGMENT|..end]
    ensures end == |pathname| || OccursAt(pathname, BUCKET_SEGMENT, end)
  {
    i, end := SplitSecond(pathname, BUCKET_SEGMENT);
  }

  /**
   * Conversely, the text between the first occurrence of the segment and
   * the next occurrence (or the end of the pathname) is what extraction
   * yields, when it is non-empty.
   */
  lemma ImagePathBetween(pathname: string, i: nat, end: nat)
    requires OccursAt(pathname, BUCKET_SEGMENT, i)
    requires forall j: nat :: j < i ==> !OccursAt(pathname, BUCKET_SEGMENT, j)
    requires i + |BUCKET_SEGMENT| <= end <= |pathname|
    requires forall j: nat :: i + |BUCKET_SEGMENT| <= j < end ==> !OccursAt(pathname, BUCKET_SEGMENT, j)
    requires end == |pathname| || OccursAt(pathname, BUCKET_SEGMENT, end)
    ensures ImagePath(pathname) ==
            if pathname[i + |BUCKET_SEGMENT|..end] == "" then None else Some(pathname[i + |BUCKET_SEGMENT|..end])
  {
    IndexOfFirst(pathname, BUCKET_SEGMENT, 0, i);
    SplitStep(pathname, BUCKET_SEGMENT, 0);
    SecondOfCons(Split(pathname, BUCKET_SEGMENT), pathname[0..i], SplitFrom(pathname, BUCKET_SEGMENT, i + |BUCKET_SEGMENT|));
    PieceUpTo(pathname, BUCKET_SEGMENT, i + |BUCKET_SEGMENT|, end);
  }

  /**
   * A pathname whose first occurrence of the segment is at `i` and that has
   * none after it yields everything after that occurrence, when non-empty.
   */
  lemma ImagePathSingle(pathname: string, i: nat)
    requires OccursAt(pathname, BUCKET_SEGMENT, i)
    requires forall j: nat :: j < i ==> !OccursAt(pathname, BUCKET_SEGMENT, j)
    requires forall j: nat :: i + |BUCKET_SEGMENT| <= j ==> !OccursAt(pathname, BUCKET_SEGMENT, j)
    ensures var key := pathname[i + |BUCKET_SEGMENT|..];
            ImagePath(pathname) == if key == "" then None else Some(key)
  {
    ImagePathBetween(pathname, i, |pathname|);
    assert pathname[i + |BUCKET_SEGMENT|..|pathname|] == pathname[i + |BUCKET_SEGMENT|..];
  }

  /**
   * Round trip: a pathname made of a prefix, the bucket segment and a key
   * yields the key (or None when the key is empty), provided the appended
   * segment is the first occurrence and the key holds none.
   */
  lemma ImagePathRoundTrip(prefix: string, key: string)
    requires forall j: nat :: j < |prefix| ==> !OccursAt(prefix + BUCKET_SEGMENT, BUCKET_SEGMENT, j)
    requires Free(key, BUCKET_SEGMENT)
    ensures ImagePath(prefix + BUCKET_SEGMENT + key) == if key == "" then None else Some(key)
  {
    var head := prefix + BUCKET_SEGMENT;
    var pathname := head + key;
    assert pathname[..|head|] == head && pathname[|head|..] == key;
    forall j: nat | j < |prefix|
      ensures !OccursAt(pathname, BUCKET_SEGMENT, j)
    {
      OccursInSlice(pathname, BUCKET_SEGMENT, 0, |head|, j);
      assert pathname[0..|head|] == head;
    }
    assert OccursAt(pathname, BUCKET_SEGMENT, |prefix|) by {
      assert pathname[|prefix|..|head|] == BUCKET_SEGMENT;
    }
    forall j: nat | |head| <= j
      ensures !OccursAt(pathname, BUCKET_SEGMENT, j)
    {
      OccursInSlice(pathname, BUCKET_SEGMENT, |head|, |pathname|, j - |head|);
      assert pathname[|head|..|pathname|] == key;
    }
    ImagePathSingle(pathname, |prefix|);
  }

  /**
   * It is not enough that neither the prefix nor the key contains the
   * segment: a prefix ending in "/puzzle-images" makes an earlier
   * occurrence straddle the join.
   */
  lemma ImagePathStraddle()
    ensures Free("/puzzle-images", BUCKET_SEGMENT) && Free("x", BUCKET_SEGMENT)
    ensures ImagePath("/puzzle-images" + BUCKET_SEGMENT + "x") == Some("puzzle-images/x")
  {
    var key := "puzzle-images/x";
    var pathname := BUCKET_SEGMENT + key;
    assert pathname == "/puzzle-images" + BUCKET_SEGMENT + "x";
    assert pathname[..15] == BUCKET_SEGMENT && pathname[15..] == key;
    forall j: nat | 15 <= j
      ensures !OccursAt(pathname, BUCKET_SEGMENT, j)
    {
      if j == 15 {
        assert pathname[15] == key[0] == 'p';
      }
    }
    ImagePathSingle(pathname, 0);
  }

  /** A pathname that does not name the bucket yields no key. */
  lemma ForeignPathname()
    ensures ImagePath("/not-our-bucket/x.png") == None
  {
    var pathname := "/not-our-bucket/x.png";
    assert Free(pathname, BUCKET_SEGMENT) by {
      forall j: nat ensures !OccursAt(pathname, BUCKET_SEGMENT, j) {
        if j + 15 <= |pathname| {
          var k := j + 1;
          assert pathname[j..j + 15][1] == pathname[k];
          assert k == 1 || k == 2 || k == 3 || k == 4 || k == 5 || k == 6 || k == 7;
        }
      }
    }
  }

  /**
   * `uploadPuzzleImage`: validate, build the key, upload without upsert and
   * return the public URL, or None. An invalid file reaches no store call.
   */
  method UploadPuzzleImage(
    bucket: Bucket<File>, file: Option<File>, userId: string, now: nat, suffix: string, fault: bool)
    returns (url: Option<string>)
    modifies bucket
    ensures !ValidateImageFile(file).isValid ==>
            url.None? && bucket.objects == old(bucket.objects) && bucket.requests == old(bucket.requests)
    ensures ValidateImageFile(file).isValid ==>
            var key := StorageKey(userId, now, suffix, file.value.name);
            bucket.requests == old(bucket.requests) + [UploadRequest(key, UploadOptions(CACHE_CONTROL, false))] &&
            (url.Some? <==> !fault && key !in old(bucket.objects)) &&
            (url.Some? ==> url.value == bucket.PublicUrl(key) &&
                           bucket.objects == old(bucket.objects)[key := Stored(file.value, CACHE_CONTROL)]) &&
            (url.None? ==> bucket.objects == old(bucket.objects))
  {
    var validation := ValidateImageFile(file);
    if !validation.isValid {
      return None;
    }
    var fileName := StorageKey(userId, now, suffix, file.value.name);
    var stored := bucket.Upload(fileName, file.value, UploadOptions(CACHE_CONTROL, false), fault);
    if stored.None? {
      return None;
    }
    url := Some(bucket.PublicUrl(stored.value));
  }

  /**
   * `deletePuzzleImage`, from the pathname of the public URL: recover the
   * key and remove it; true exactly when the store reports no error. A
   * pathname without a key reaches no store call.
   */
  method DeletePuzzleImage(bucket: Bucket<File>, pathname: string, fault: bool) returns (ok: bool)
    modifies bucket
    ensures ImagePath(pathname).None? ==>
            !ok && bucket.objects == old(bucket.objects) && bucket.requests == old(bucket.requests)
    ensures ImagePath(pathname).Some? ==>
            var path := ImagePath(pathname).value;
            bucket.requests == old(bucket.requests) + [RemoveRequest([path])] &&
            ok == !fault &&
            bucket.objects == if ok then old(bucket.objects) - {path} else old(bucket.objects)
  {
    var path := ImagePath(pathname);
    if path.None? {
      return false;
    }
    var error := bucket.Remove([path.value], fault);
    assert (set p | p in [path.value]) == {path.value};
    if error {
      return false;
    }
    return true;
  }

  /** A public URL under such a base is the origin followed by the pathname prefix, the segment and the key. */
  lemma UrlPathname(publicBase: string, origin: string, prefix: string, key: string)
    requires publicBase == origin + prefix + BUCKET_SEGMENT
    ensures publicBase + key == origin + (prefix + BUCKET_SEGMENT + key)
    ensures (publicBase + key)[|origin|..] == prefix + BUCKET_SEGMENT + key
  {
    assert publicBase + key == origin + (prefix + BUCKET_SEGMENT + key);
  }

  /**
   * Upload followed by deletion through the returned URL: the bucket's
   * public base is an origin, a pathname prefix and the bucket segment, so
   * the URL's pathname (everything after `origin`) is `prefix`, the segment
   * and the key. Both calls succeed when the store reports no errors, and
   * afterwards the key is gone.
   */
  method UploadThenDelete(
    bucket: Bucket<File>, file: File, userId: string, now: nat, suffix: string, origin: string, prefix: string)
    returns (url: Option<string>, ok: bool)
    requires bucket.publicBase == origin + prefix + BUCKET_SEGMENT
    requires ValidateImageFile(Some(file)).isValid
    requires StorageKey(userId, now, suffix, file.name) !in bucket.objects
    requires Free(StorageKey(userId, now, suffix, file.name), BUCKET_SEGMENT)
    requires forall j: nat :: j < |prefix| ==> !OccursAt(prefix + BUCKET_SEGMENT, BUCKET_SEGMENT, j)
    modifies bucket
    ensures url == Some(bucket.PublicUrl(StorageKey(userId, now, suffix, file.name)))
    ensures url.Some? && url.value == origin + (prefix + BUCKET_SEGMENT + StorageKey(userId, now, suffix, file.name))
    ensures ok
    ensures StorageKey(userId, now, suffix, file.name) !in bucket.objects
  {
    var key := StorageKey(userId, now, suffix, file.name);
    url := UploadPuzzleImage(bucket, Some(file), userId, now, suffix, false);
    UrlPathname(bucket.publicBase, origin, prefix, key);
    var pathname := url.value[|origin|..];
    ImagePathRoundTrip(prefix, key);
    ok := DeletePuzzleImage(bucket, pathname, false);
  }
}
