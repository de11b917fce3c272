/**
 * The request-handling core of the image upload service: configuration,
 * validation of an uploaded file, the stored name, the order of checks in
 * the upload endpoint, the per-user listing and the signing-key lookup of
 * token verification. Storage, the database, image decoding, UUIDs and the
 * JWT library are outside the model and enter as outcome values.
 */
module Backend {
  import opened Wrappers
  import opened PyStrings

  newtype byte = x: int | 0 <= x < 256

  /** Built-in defaults of `MAX_FILE_SIZE` and `ALLOWED_EXTENSIONS`. */
  const DefaultMaxFileSize: nat := 5242880
  const DefaultAllowedExtensions: string := "jpg,jpeg,png,gif"

  datatype Config = Config(maxFileSize: nat, allowedExtensions: seq<string>)

  /**
   * The configuration read from the environment: each setting falls back to
   * its default when unset, and the extension list is split on commas.
   */
  function LoadConfig(maxFileSize: Option<nat>, allowedExtensions: Option<string>): (c: Config)
    ensures maxFileSize.Some? ==> c.maxFileSize == maxFileSize.value
    ensures maxFileSize.None? ==> c.maxFileSize == DefaultMaxFileSize
    ensures Join(c.allowedExtensions, ',') == allowedExtensions.GetOr(DefaultAllowedExtensions)
    ensures forall i | 0 <= i < |c.allowedExtensions| :: ',' !in c.allowedExtensions[i]
    ensures |c.allowedExtensions| >= 1
  {
    JoinSplit(allowedExtensions.GetOr(DefaultAllowedExtensions), ',');
    Config(maxFileSize.GetOr(DefaultMaxFileSize), Split(allowedExtensions.GetOr(DefaultAllowedExtensions), ','))
  }

  /** With nothing set, the limit is 5 MiB and the extensions are jpg, jpeg, png and gif. */
  lemma DefaultConfig()
    ensures LoadConfig(None, None) == Config(5242880, ["jpg", "jpeg", "png", "gif"])
  {
    var parts := ["jpg", "jpeg", "png", "gif"];
    assert Join(parts, ',') == DefaultAllowedExtensions;
    SplitJoin(parts, ',');
  }

  /** The part of an upload the handler inspects before reading it. */
  datatype UploadedFile = UploadedFile(filename: string, contentType: Option<string>)

  /**
   * `filename.split('.')[-1].lower()`: never holds a dot, and is no longer
   * than the name.
   */
  function Extension(filename: string): (ext: string)
    ensures '.' !in ext && |ext| <= |filename|
  {
    LastSegmentIsSuffix(filename, '.');
    LowerKeepsDots(LastSegment(filename, '.'));
    Lower(LastSegment(filename, '.'))
  }

  /**
   * The extension of a name is `e` exactly when `e` holds no dot and the
   * lower-cased name is `e` itself or ends with a dot followed by `e`.
   */
  lemma ExtensionIff(filename: string, e: string)
    ensures Extension(filename) == e <==>
      '.' !in e && (Lower(filename) == e || EndsWith(Lower(filename), "." + e))
  {
    LowerLastSegment(filename);
    LastSegmentIff(Lower(filename), '.', e);
  }

  /** The lower-cased name `n` is `e` or ends with a dot followed by `e`. */
  predicate NamedWithExtension(n: string, e: string)
  {
    n == e || EndsWith(n, "." + e)
  }

  /**
   * `validate_image_file`: an image content type and an allowed extension.
   * Without any splitting: the lower-cased name is, or ends in a dot
   * followed by, a dot-free entry of the allowed list.
   */
  predicate ValidateImageFile(file: UploadedFile, allowed: seq<string>): (valid: bool)
    ensures valid <==>
      && file.contentType.Some?
      && "image/" <= file.contentType.value
      && exists e | e in allowed :: '.' !in e && NamedWithExtension(Lower(file.filename), e)
  {
    ExtensionInList(file.filename, allowed);
    && file.contentType.Some?
    && "image/" <= file.contentType.value
    && Extension(file.filename) in allowed
  }

  lemma ExtensionInList(filename: string, allowed: seq<string>)
    ensures Extension(filename) in allowed <==>
      exists e | e in allowed :: '.' !in e && NamedWithExtension(Lower(filename), e)
  {
    if Extension(filename) in allowed {
      ExtensionIff(filename, Extension(filename));
    }
    if exists e | e in allowed :: '.' !in e && NamedWithExtension(Lower(filename), e) {
      var e :| e in allowed && '.' !in e && NamedWithExtension(Lower(filename), e);
      ExtensionIff(filename, e);
    }
  }

  /**
   * Under the default extension list (see `DefaultConfig`) a file is accepted exactly when its
   * content type starts with `image/` and its lower-cased name is, or ends
   * in a dot followed by, one of jpg, jpeg, png and gif.
   */
  lemma ValidateWithDefaults(file: UploadedFile)
    ensures ValidateImageFile(file, ["jpg", "jpeg", "png", "gif"]) <==>
      && file.contentType.Some?
      && "image/" <= file.contentType.value
      && var n := Lower(file.filename);
         NamedWithExtension(n, "jpg") || NamedWithExtension(n, "jpeg") ||
         NamedWithExtension(n, "png") || NamedWithExtension(n, "gif")
  {
    ExtensionIff(file.filename, "jpg");
    ExtensionIff(file.filename, "jpeg");
    ExtensionIff(file.filename, "png");
    ExtensionIff(file.filename, "gif");
  }

  /**
   * `generate_unique_filename`: the opaque unique id (a UUID4 in the
   * service), a dot and the lower-cased extension of the original name.
   */
  function GenerateUniqueFilename(originalFilename: string, uniqueId: string): (stored: string)
    ensures uniqueId <= stored
    ensures EndsWith(stored, "." + Extension(originalFilename))
    ensures Extension(stored) == Extension(originalFilename)
    ensures |stored| == |uniqueId| + 1 + |Extension(originalFilename)|
  {
    var ext := Extension(originalFilename);
    var stored := uniqueId + "." + ext;
    LastSegmentIsSuffix(originalFilename, '.');
    LowerKeepsDots(LastSegment(originalFilename, '.'));
    LowerAppend(uniqueId, "." + ext);
    LowerAppend(".", ext);
    LowerIdempotent(LastSegment(originalFilename, '.'));
    assert Lower(".") == ".";
    assert Lower(stored)[|stored| - |ext| - 1..] == "." + ext;
    ExtensionIff(stored, ext);
    assert stored[|stored| - |"." + ext|..] == "." + ext;
    stored
  }

  /** The verified token payload; the handlers use only its subject. */
  datatype Claims = Claims(sub: string)

  /** An HTTP error response: status code and `detail`. */
  datatype ApiError = ApiError(status: nat, detail: string)

  const InvalidTypeDetail: string := "Invalid file type. Only JPG, PNG, and GIF images are allowed."
  const InvalidImageDetail: string := "Invalid image file"

  const SizeLimitPrefix: string := "File size exceeds maximum limit of "

  /**
   * The detail of the too-large response: the limit in MiB with one digit
   * after the point, then "MB". The digits spell the limit in tenths of a
   * MiB, rounded as `RoundedTenths` rounds it.
   */
  function SizeLimitDetail(maxFileSize: nat): (detail: string)
    ensures |detail| >= |SizeLimitPrefix| + 5 && detail[..|SizeLimitPrefix|] == SizeLimitPrefix
    ensures detail[|detail| - 4] == '.' && '0' <= detail[|detail| - 3] <= '9'
    ensures detail[|detail| - 2..] == "MB"
    ensures AllDigits(detail[|SizeLimitPrefix|..|detail| - 4])
    ensures |detail| == |SizeLimitPrefix| + 5 || detail[|SizeLimitPrefix|] != '0'
    ensures 10 * DecimalValue(detail[|SizeLimitPrefix|..|detail| - 4]) + (detail[|detail| - 3] as int - '0' as int)
            == RoundedTenths(maxFileSize, 1048576)
  {
    var text := FormatOneDecimal(maxFileSize, 1024 * 1024);
    var detail := SizeLimitPrefix + text + "MB";
    assert detail[|SizeLimitPrefix|..|detail| - 4] == text[..|text| - 2];
    assert detail[|detail| - 3] == text[|text| - 1];
    detail
  }

  /** 262144 bytes is exactly 0.25 MiB, a tie that `.1f` rounds to the even tenth. */
  lemma QuarterMebibyteSizeLimitDetail()
    ensures SizeLimitDetail(262144) == "File size exceeds maximum limit of 0.2MB"
  {
    assert RoundedTenths(262144, 1024 * 1024) == 2;
  }

  lemma DefaultSizeLimitDetail()
    ensures SizeLimitDetail(DefaultMaxFileSize) == "File size exceeds maximum limit of 5.0MB"
  {
    assert RoundedTenths(DefaultMaxFileSize, 1024 * 1024) == 50;
  }

  /** What blob storage and the database commit produced, or why they failed. */
  datatype StoreOutcome =
    | Stored(fileUrl: string, id: int, uploadedAt: int)
    | StoreFailed(reason: string)

  /** A row of the `file_uploads` table; `uploadedAt` is the commit time. */
  datatype FileRecord = FileRecord(
    id: int,
    userId: string,
    originalFilename: string,
    storedFilename: string,
    fileUrl: string,
    fileSize: nat,
    contentType: string,
    uploadedAt: int)

  /**
   * `upload_file`, for an authenticated user: the type check, then the size
   * of the content read against the limit, then the image check, then
   * storage under the generated name. `imageVerifies` is the verdict of the
   * image decoder, `uniqueId` the fresh id, `store` the storage outcome.
   */
  function UploadFile(config: Config, user: Claims, file: UploadedFile, content: seq<byte>,
                      imageVerifies: bool, uniqueId: string, store: StoreOutcome): (r: Result<FileRecord, ApiError>)
    ensures !ValidateImageFile(file, config.allowedExtensions) ==>
      r == Failure(ApiError(400, InvalidTypeDetail))
    ensures ValidateImageFile(file, config.allowedExtensions) && |content| > config.maxFileSize ==>
      r == Failure(ApiError(400, SizeLimitDetail(config.maxFileSize)))
    ensures r.Success? <==>
      && ValidateImageFile(file, config.allowedExtensions)
      && |content| <= config.maxFileSize
      && imageVerifies
      && store.Stored?
    ensures ValidateImageFile(file, config.allowedExtensions) && |content| <= config.maxFileSize && !imageVerifies ==>
      r == Failure(ApiError(400, InvalidImageDetail))
    ensures ValidateImageFile(file, config.allowedExtensions) && |content| <= config.maxFileSize && imageVerifies && store.StoreFailed? ==>
      r == Failure(ApiError(500, "Failed to upload file: " + store.reason))
    ensures r.Failure? && r.error.status != 400 ==>
      store.StoreFailed? && r.error == ApiError(500, "Failed to upload file: " + store.reason)
    ensures r.Success? ==>
      && r.value.userId == user.sub
      && r.value.fileSize == |content|
      && r.value.originalFilename == file.filename
      && Some(r.value.contentType) == file.contentType
      && r.value.storedFilename == GenerateUniqueFilename(file.filename, uniqueId)
      && Extension(r.value.storedFilename) == Extension(file.filename)
      && r.value.id == store.id
      && r.value.fileUrl == store.fileUrl
      && r.value.uploadedAt == store.uploadedAt
  {
    if !ValidateImageFile(file, config.allowedExtensions) then
      Failure(ApiError(400, InvalidTypeDetail))
    else if |content| > config.maxFileSize then
      Failure(ApiError(400, SizeLimitDetail(config.maxFileSize)))
    else if !imageVerifies then
      Failure(ApiError(400, InvalidImageDetail))
    else
      var storedFilename := GenerateUniqueFilename(file.filename, uniqueId);
      match store
      case StoreFailed(reason) => Failure(ApiError(500, "Failed to upload file: " + reason))
      case Stored(url, id, at) =>
        Success(FileRecord(id, user.sub, file.filename, storedFilename, url,
                           |content|, file.contentType.value, at))
  }

  /** An entry of the `/files` response. */
  datatype FileView = FileView(
    id: int,
    originalFilename: string,
    fileUrl: string,
    fileSize: nat,
    contentType: string,
    uploadedAt: int)

  function ToView(rec: FileRecord): FileView
  {
    FileView(rec.id, rec.originalFilename, rec.fileUrl, rec.fileSize, rec.contentType, rec.uploadedAt)
  }

  /** The records of one user, each kept as often as it occurs in `db`. */
  function FilterByUser(db: seq<FileRecord>, sub: string): (r: seq<FileRecord>)
    ensures forall x | x in r :: x.userId == sub
    ensures forall x :: multiset(r)[x] == if x.userId == sub then multiset(db)[x] else 0
  {
    if db == [] then []
    else
      assert db == [db[0]] + db[1..];
      (if db[0].userId == sub then [db[0]] else []) + FilterByUser(db[1..], sub)
  }

  /** Ordered by upload time, newest first. */
  predicate NewestFirst(s: seq<FileRecord>)
  {
    forall i, j | 0 <= i < j < |s| :: s[i].uploadedAt >= s[j].uploadedAt
  }

  function InsertNewestFirst(x: FileRecord, s: seq<FileRecord>): (r: seq<FileRecord>)
    requires NewestFirst(s)
    ensures NewestFirst(r)
    ensures multiset(r) == multiset(s) + multiset{x}
    ensures |r| == |s| + 1
    ensures r != [] && (r[0] == x || (s != [] && r[0] == s[0]))
  {
    if s == [] || x.uploadedAt >= s[0].uploadedAt then [x] + s
    else
      assert s == [s[0]] + s[1..];
      [s[0]] + InsertNewestFirst(x, s[1..])
  }

  /** `ORDER BY uploaded_at DESC`: a permutation of `s`, newest first. */
  function SortNewestFirst(s: seq<FileRecord>): (r: seq<FileRecord>)
    ensures NewestFirst(r)
    ensures multiset(r) == multiset(s)
  {
    if s == [] then []
    else
      assert s == [s[0]] + s[1..];
      InsertNewestFirst(s[0], SortNewestFirst(s[1..]))
  }

  /** Projecting every record of `recs` to its response entry. */
  function Views(recs: seq<FileRecord>): seq<FileView>
  {
    seq(|recs|, i requires 0 <= i < |recs| => ToView(recs[i]))
  }

  /** `get_user_files`: the caller's records, newest first, one entry per record. */
  function GetUserFiles(db: seq<FileRecord>, user: Claims): (views: seq<FileView>)
    ensures |views| == |FilterByUser(db, user.sub)|
    ensures forall i, j | 0 <= i < j < |views| :: views[i].uploadedAt >= views[j].uploadedAt
    ensures forall rec | rec in db && rec.userId == user.sub :: ToView(rec) in views
    ensures forall v | v in views :: exists rec | rec in db :: rec.userId == user.sub && ToView(rec) == v
  {
    var mine := FilterByUser(db, user.sub);
    var recs := SortNewestFirst(mine);
    ListingContents(db, user.sub, mine, recs);
    ListingViews(db, user.sub, recs);
    Views(recs)
  }

  /** The response entries of a sorted listing of the caller's records. */
  lemma ListingViews(db: seq<FileRecord>, sub: string, recs: seq<FileRecord>)
    requires NewestFirst(recs)
    requires forall rec | rec in db && rec.userId == sub :: rec in recs
    requires forall rec | rec in recs :: rec in db && rec.userId == sub
    ensures forall i, j | 0 <= i < j < |Views(recs)| :: Views(recs)[i].uploadedAt >= Views(recs)[j].uploadedAt
    ensures forall rec | rec in db && rec.userId == sub :: ToView(rec) in Views(recs)
    ensures forall v | v in Views(recs) :: exists rec | rec in db :: rec.userId == sub && ToView(rec) == v
  {
    var views := Views(recs);
    forall rec | rec in db && rec.userId == sub
      ensures ToView(rec) in views
    {
      var i :| 0 <= i < |recs| && recs[i] == rec;
      assert views[i] == ToView(rec);
    }
    forall v | v in views
      ensures exists rec | rec in db :: rec.userId == sub && ToView(rec) == v
    {
      var i :| 0 <= i < |views| && views[i] == v;
      assert recs[i] in recs;
    }
  }

  /** What the sorted listing holds, in terms of the records of `db`. */
  lemma ListingContents(db: seq<FileRecord>, sub: string, mine: seq<FileRecord>, recs: seq<FileRecord>)
    requires mine == FilterByUser(db, sub) && recs == SortNewestFirst(mine)
    ensures |recs| == |mine|
    ensures forall rec | rec in db && rec.userId == sub :: rec in recs
    ensures forall rec | rec in recs :: rec in db && rec.userId == sub
  {
    assert |multiset(recs)| == |multiset(mine)|;
    forall rec | rec in db && rec.userId == sub
      ensures rec in recs
    {
      assert multiset(recs)[rec] == multiset(db)[rec] > 0;
    }
    forall rec | rec in recs
      ensures rec in db && rec.userId == sub
    {
      assert multiset(mine)[rec] > 0;
      assert rec in mine;
    }
  }

  /** A record added to the database appears in its owner's next listing. */
  lemma StoredRecordIsListed(db: seq<FileRecord>, rec: FileRecord)
    ensures ToView(rec) in GetUserFiles(db + [rec], Claims(rec.userId))
  {
    assert rec in db + [rec];
  }

  /** A successful upload appears in the uploader's next listing. */
  lemma UploadIsListed(config: Config, user: Claims, file: UploadedFile, content: seq<byte>,
                       imageVerifies: bool, uniqueId: string, store: StoreOutcome, db: seq<FileRecord>)
    requires UploadFile(config, user, file, content, imageVerifies, uniqueId, store).Success?
    ensures ToView(UploadFile(config, user, file, content, imageVerifies, uniqueId, store).value)
            in GetUserFiles(db + [UploadFile(config, user, file, content, imageVerifies, uniqueId, store).value], user)
  {
    StoredRecordIsListed(db, UploadFile(config, user, file, content, imageVerifies, uniqueId, store).value);
  }

  /** A key of the JSON Web Key Set, with the fields the service copies. */
  datatype Jwk = Jwk(kty: string, kid: string, use: string, n: string, e: string)

  /** The unverified token header; `kid` may be absent. */
  datatype TokenHeader = TokenHeader(kid: Option<string>)

  /** The first key of `keys` whose `kid` is `kid`: a key of the set, with that `kid`. */
  function FirstKeyWithKid(keys: seq<Jwk>, kid: string): (k: Option<Jwk>)
    ensures k.Some? ==> k.value in keys && k.value.kid == kid
  {
    if keys == [] then None
    else if keys[0].kid == kid then Some(keys[0])
    else FirstKeyWithKid(keys[1..], kid)
  }

  /**
   * `FirstKeyWithKid` finds a key exactly when one carries the `kid`, and
   * what it finds is the key at the first position that does.
   */
  lemma {:induction false} FirstKeyWithKidIsFirstMatch(keys: seq<Jwk>, kid: string)
    ensures FirstKeyWithKid(keys, kid).None? <==> forall i | 0 <= i < |keys| :: keys[i].kid != kid
    ensures FirstKeyWithKid(keys, kid).Some? ==> exists i | 0 <= i < |keys| ::
      && keys[i] == FirstKeyWithKid(keys, kid).value
      && keys[i].kid == kid
      && forall j | 0 <= j < i :: keys[j].kid != kid
  {
    if keys != [] && keys[0].kid != kid {
      var tail := keys[1..];
      FirstKeyWithKidIsFirstMatch(tail, kid);
      assert forall i | 0 < i < |keys| :: keys[i] == tail[i - 1];
      if FirstKeyWithKid(tail, kid).Some? {
        var i :| 0 <= i < |tail| && tail[i] == FirstKeyWithKid(tail, kid).value && tail[i].kid == kid
                 && forall j | 0 <= j < i :: tail[j].kid != kid;
        assert keys[i + 1] == tail[i];
      }
    }
  }

  datatype KeyLookup =
    | KeyFound(key: Jwk)
    | NoMatchingKey
    | HeaderWithoutKid   // reading the missing `kid` raises KeyError

  /**
   * The key-finding loop of `verify_token`: scan the keys in order and stop
   * at the first whose `kid` is the header's. The header's `kid` is read once
   * per key, so a header without one fails only when there is a key to
   * compare it with.
   */
  method FindSigningKey(keys: seq<Jwk>, header: TokenHeader) returns (r: KeyLookup)
    ensures keys == [] ==> r == NoMatchingKey
    ensures keys != [] && header.kid.None? ==> r == HeaderWithoutKid
    ensures header.kid.Some? ==>
      r == match FirstKeyWithKid(keys, header.kid.value)
           case Some(k) => KeyFound(k)
           case None => NoMatchingKey
  {
    var rsaKey: Option<Jwk> := None;
    var i := 0;
    while i < |keys|
      invariant 0 <= i <= |keys|
      invariant rsaKey.None?
      invariant i > 0 ==> header.kid.Some?
      invariant header.kid.Some? ==> forall j | 0 <= j < i :: keys[j].kid != header.kid.value
    {
      if header.kid.None? {
        return HeaderWithoutKid;
      }
      if keys[i].kid == header.kid.value {
        rsaKey := Some(keys[i]);
        break;
      }
      i := i + 1;
    }
    if header.kid.Some? {
      FirstKeyWithKidIsFirstMatch(keys, header.kid.value);
    }
    if rsaKey.Some? {
      r := KeyFound(rsaKey.value);
    } else {
      r := NoMatchingKey;
    }
  }

  const InvalidTokenError: ApiError := ApiError(401, "Invalid token")
  const NoKeyError: ApiError := ApiError(401, "Unable to find appropriate key")
  /** The framework's response to an exception the handler does not catch. */
  const InternalError: ApiError := ApiError(500, "Internal Server Error")

  /**
   * `verify_token` for the fetched key set `keys`. `header` is the decoded
   * unverified header, or None when the token is malformed; `decode` stands
   * for signature, audience and issuer checking against one key.
   */
  method VerifyToken(keys: seq<Jwk>, header: Option<TokenHeader>, decode: Jwk -> Option<Claims>)
      returns (r: Result<Claims, ApiError>)
    ensures header.None? ==> r == Failure(InvalidTokenError)
    ensures header.Some? && keys != [] && header.value.kid.None? ==> r == Failure(InternalError)
    ensures header.Some? && (keys == [] || header.value.kid.Some?) ==>
      var kid := header.value.kid.GetOr("");
      r == if keys == [] || FirstKeyWithKid(keys, kid).None? then Failure(NoKeyError)
           else if decode(FirstKeyWithKid(keys, kid).value).None? then Failure(InvalidTokenError)
           else Success(decode(FirstKeyWithKid(keys, kid).value).value)
  {
    if header.None? {
      return Failure(InvalidTokenError);
    }
    var lookup := FindSigningKey(keys, header.value);
    match lookup {
      case HeaderWithoutKid =>
        r := Failure(InternalError);
      case NoMatchingKey =>
        r := Failure(NoKeyError);
      case KeyFound(key) =>
        var payload := decode(key);
        if payload.None? {
          r := Failure(InvalidTokenError);
        } else {
          r := Success(payload.value);
        }
    }
  }
}
