/**
 * `registerUser` (src/controllers/user.controller.js): a guarded insertion into the user store.
 * `Registration` states outright what one call does to the store and what it answers;
 * `RegisterUser` is the controller, step by step, proved to behave as `Registration` says.
 */
module UserController {
  import opened Wrappers
  import opened JsString
  import opened UserModel

  /** One uploaded file as multer describes it; only its local path is used. */
  datatype FilePart = FilePart(path: string)

  /**
   * `req.files` once multer has run: each key is present only if that file field was sent,
   * so a key may be absent (None) as well as hold an empty list.
   */
  datatype Files = Files(avatar: Option<seq<FilePart>>, coverImage: Option<seq<FilePart>>)

  /** The parts of the request the controller reads: the four body fields and `req.files`. */
  datatype RegisterRequest = RegisterRequest(
    fullName: Option<string>,
    email: Option<string>,
    password: Option<string>,
    username: Option<string>,
    files: Option<Files>)

  /**
   * What the controller expects back from `uploadOnCloudinary`: an object with a `url`.
   * The helper in src/utils/cloudinary.js actually returns the bare URL string and takes
   * no folder argument; the model follows what the controller reads and passes.
   */
  datatype Upload = Upload(url: string)

  /** One call of the upload helper, with the folder the controller passes to it. */
  datatype UploadCall = UploadCall(path: string, folder: string)

  /**
   * The answer: the 201 response, an `ApiError` the controller throws, or a `TypeError`
   * the JavaScript runtime throws (both handed to `asyncHandler`, which is not part of this model).
   */
  datatype Response =
    | Ok(status: int, user: PublicUser)
    | Err(status: int, message: string)
    | Fault(message: string)

  /** The response, the store after the call, and the uploads attempted, in order. */
  datatype Outcome = Outcome(response: Response, users: map<UserId, User>, uploads: seq<UploadCall>)

  const AllFieldsRequired := "All fields are required"
  const UserAlreadyExists := "User with given email or username already exists"
  const AvatarImageRequired := "Avatar image is required"
  const AvatarFieldRequired := "Avatar field required"
  const UserCreationFailed := "User creation failed"
  /** V8's message for `undefined[0]` and `undefined.toLowerCase()`. */
  const ReadingIndexZero := "Cannot read properties of undefined (reading '0')"
  const ReadingToLowerCase := "Cannot read properties of undefined (reading 'toLowerCase')"
  /** The answers of the checks that run before any upload (lines 14-38). */
  const PreUploadRejections: set<Response> :=
    {Err(400, AllFieldsRequired), Err(409, UserAlreadyExists), Err(400, AvatarImageRequired), Fault(ReadingIndexZero)}
  const AvatarFolder := "avatars"
  const CoverImageFolder := "coverImages"

  // ---------------------------------------------------------------------------
  // The pure pieces
  // ---------------------------------------------------------------------------

  /** `field?.trim() === ""`: an absent field is not blank. */
  predicate IsBlank(field: Option<string>) {
    field.Some? && Trim(field.value) == ""
  }

  /** `[fullName, email, password, username].some(...)`. */
  predicate AnyBlank(req: RegisterRequest) {
    IsBlank(req.fullName) || IsBlank(req.email) || IsBlank(req.password) || IsBlank(req.username)
  }

  /** The field is present and made of white space only. */
  predicate WhiteSpaceOnly(field: Option<string>) {
    field.Some? && AllWhiteSpace(field.value)
  }

  /** A field is blank exactly when it is present and made of white space only. */
  lemma BlankMeansWhiteSpaceOnly(field: Option<string>)
    ensures IsBlank(field) <==> WhiteSpaceOnly(field)
  {
    if field.Some? {
      TrimEmptyIffAllWhiteSpace(field.value);
    }
  }

  /** Evaluating `req.files?.<key>[0]?.path`: a path, `undefined`, or a thrown `TypeError`. */
  datatype PathRead = Read(path: Option<string>) | Throws

  function FirstPath(parts: Option<seq<FilePart>>): PathRead {
    match parts
    case None => Throws
    case Some(ps) => if |ps| == 0 then Read(None) else Read(Some(ps[0].path))
  }

  function AvatarLocalPath(files: Option<Files>): PathRead {
    if files.None? then Read(None) else FirstPath(files.value.avatar)
  }

  function CoverImageLocalPath(files: Option<Files>): PathRead {
    if files.None? then Read(None) else FirstPath(files.value.coverImage)
  }

  /** Both paths of lines 33-34, or None when either line throws. */
  function LocalPaths(files: Option<Files>): Option<(Option<string>, Option<string>)> {
    var a := AvatarLocalPath(files);
    var c := CoverImageLocalPath(files);
    if a.Throws? || c.Throws? then None else Some((a.path, c.path))
  }

  /** The uploads lines 40-44 make: the avatar, then the cover image when its path is truthy. */
  function UploadCalls(avatarPath: string, coverPath: Option<string>): seq<UploadCall> {
    [UploadCall(avatarPath, AvatarFolder)]
      + (if Truthy(coverPath) then [UploadCall(coverPath.value, CoverImageFolder)] else [])
  }

  /** The record `User.create` receives (lines 49-56). */
  function NewRecord(req: RegisterRequest, avatar: Upload, coverImage: Option<Upload>): User
    requires req.username.Some?
  {
    User(req.fullName, req.email, req.password, ToLower(req.username.value), avatar.url,
         if coverImage.Some? && coverImage.value.url != "" then coverImage.value.url else "",
         None)
  }

  // ---------------------------------------------------------------------------
  // What one registration does
  // ---------------------------------------------------------------------------

  /**
   * One call of `registerUser` against the store `users`, where `id` is the id the store
   * hands to the next record and `upload` gives the upload helper's result for a path.
   */
  function Registration(users: map<UserId, User>, id: UserId, req: RegisterRequest,
                        upload: string -> Option<Upload>): Outcome
  {
    if AnyBlank(req) then
      Outcome(Err(400, AllFieldsRequired), users, [])
    else if HasMatch(users, req.email, req.username) then
      Outcome(Err(409, UserAlreadyExists), users, [])
    else match LocalPaths(req.files)
      case None => Outcome(Fault(ReadingIndexZero), users, [])
      case Some((avatarPath, coverPath)) =>
        if !Truthy(avatarPath) then
          Outcome(Err(400, AvatarImageRequired), users, [])
        else
          Uploaded(users, id, req, upload, avatarPath.value, coverPath)
  }

  /** Lines 40-69, from the uploads on, once the checks have passed. */
  function Uploaded(users: map<UserId, User>, id: UserId, req: RegisterRequest,
                    upload: string -> Option<Upload>, avatarPath: string, coverPath: Option<string>): Outcome
  {
    var calls := UploadCalls(avatarPath, coverPath);
    var avatar := upload(avatarPath);
    var coverImage := if Truthy(coverPath) then upload(coverPath.value) else None;
    if avatar.None? then
      Outcome(Err(400, AvatarFieldRequired), users, calls)
    else if req.username.None? then
      Outcome(Fault(ReadingToLowerCase), users, calls)
    else
      var users' := users[id := NewRecord(req, avatar.value, coverImage)];
      match FindById(users', id)
      case None => Outcome(Err(500, UserCreationFailed), users', calls)
      case Some(created) => Outcome(Ok(201, created), users', calls)
  }

  /** The controller, in the order the source runs its steps. */
  method RegisterUser(store: UserStore, req: RegisterRequest, upload: string -> Option<Upload>)
    returns (response: Response, uploads: seq<UploadCall>)
    requires store.Valid()
    modifies store
    ensures store.Valid()
    ensures Outcome(response, store.users, uploads)
         == Registration(old(store.users), old(store.nextId), req, upload)
    ensures store.nextId == if store.users == old(store.users) then old(store.nextId) else old(store.nextId) + 1
  {
    uploads := [];
    if AnyBlank(req) {
      return Err(400, AllFieldsRequired), uploads;
    }

    var existedUser := store.FindOne(req.email, req.username);
    if existedUser.Some? {
      return Err(409, UserAlreadyExists), uploads;
    }

    var avatarRead := AvatarLocalPath(req.files);
    if avatarRead.Throws? {
      return Fault(ReadingIndexZero), uploads;
    }
    var coverRead := CoverImageLocalPath(req.files);
    if coverRead.Throws? {
      return Fault(ReadingIndexZero), uploads;
    }
    var avatarLocalPath, coverImageLocalPath := avatarRead.path, coverRead.path;

    if !Truthy(avatarLocalPath) {
      return Err(400, AvatarImageRequired), uploads;
    }

    ReachesUploadStage(store.users, store.nextId, req, upload);
    response, uploads := UploadAndCreate(store, req, upload, avatarLocalPath.value, coverImageLocalPath);
  }

  /** Lines 40-69 of the controller: the uploads, the last check, `create` and the re-read. */
  method UploadAndCreate(store: UserStore, req: RegisterRequest, upload: string -> Option<Upload>,
                         avatarLocalPath: string, coverImageLocalPath: Option<string>)
    returns (response: Response, uploads: seq<UploadCall>)
    requires store.Valid()
    modifies store
    ensures store.Valid()
    ensures Outcome(response, store.users, uploads)
         == Uploaded(old(store.users), old(store.nextId), req, upload, avatarLocalPath, coverImageLocalPath)
    ensures store.nextId == if store.users == old(store.users) then old(store.nextId) else old(store.nextId) + 1
  {
    var avatar := upload(avatarLocalPath);
    uploads := [UploadCall(avatarLocalPath, AvatarFolder)];
    var coverImage: Option<Upload> := None;
    if Truthy(coverImageLocalPath) {
      coverImage := upload(coverImageLocalPath.value);
      uploads := uploads + [UploadCall(coverImageLocalPath.value, CoverImageFolder)];
    }

    if avatar.None? {
      return Err(400, AvatarFieldRequired), uploads;
    }
    if req.username.None? {
      return Fault(ReadingToLowerCase), uploads;
    }
    var id := store.Create(NewRecord(req, avatar.value, coverImage));

    var createdUser := FindById(store.users, id);
    response := match createdUser
      case None => Err(500, UserCreationFailed)
      case Some(u) => Ok(201, u);
    assert id in store.users && id !in old(store.users);
  }

  // ---------------------------------------------------------------------------
  // Properties of a registration
  // ---------------------------------------------------------------------------

  /** The four body fields in the order line 15 lists them. */
  function BodyFields(req: RegisterRequest): seq<Option<string>> {
    [req.fullName, req.email, req.password, req.username]
  }

  /**
   * Some field is present and white space only exactly when the blank check fires, and
   * then the answer is 400, nothing is uploaded and the store is unchanged.
   */
  lemma BlankFieldRejected(users: map<UserId, User>, id: UserId, req: RegisterRequest,
                           upload: string -> Option<Upload>)
    requires exists f :: f in BodyFields(req) && WhiteSpaceOnly(f)
    ensures Registration(users, id, req, upload) == Outcome(Err(400, AllFieldsRequired), users, [])
  {
    AnyBlankIffWhiteSpaceField(req);
  }

  /** The blank check fires exactly when one of the four fields is present and white space only. */
  lemma AnyBlankIffWhiteSpaceField(req: RegisterRequest)
    ensures AnyBlank(req) <==> exists f :: f in BodyFields(req) && WhiteSpaceOnly(f)
  {
    BlankMeansWhiteSpaceOnly(req.fullName);
    BlankMeansWhiteSpaceOnly(req.email);
    BlankMeansWhiteSpaceOnly(req.password);
    BlankMeansWhiteSpaceOnly(req.username);
    var fs := BodyFields(req);
    assert fs[0] == req.fullName && fs[1] == req.email && fs[2] == req.password && fs[3] == req.username;
    assert forall f :: f in fs ==> f == fs[0] || f == fs[1] || f == fs[2] || f == fs[3];
    if IsBlank(req.fullName) {
      assert fs[0] in fs;
    } else if IsBlank(req.email) {
      assert fs[1] in fs;
    } else if IsBlank(req.password) {
      assert fs[2] in fs;
    } else if IsBlank(req.username) {
      assert fs[3] in fs;
    }
  }

  /**
   * A record with the given email, or with exactly the given username (compared before
   * lower-casing), makes a non-blank registration fail with 409, store unchanged, no upload.
   */
  lemma DuplicateRejected(users: map<UserId, User>, id: UserId, req: RegisterRequest,
                          upload: string -> Option<Upload>, existing: UserId)
    requires !AnyBlank(req)
    requires existing in users
    requires users[existing].email == req.email || Some(users[existing].username) == req.username
    ensures Registration(users, id, req, upload) == Outcome(Err(409, UserAlreadyExists), users, [])
  {
  }

  /** Without a truthy avatar path the answer is 400 "Avatar image is required" and nothing is uploaded. */
  lemma MissingAvatarRejected(users: map<UserId, User>, id: UserId, req: RegisterRequest,
                              upload: string -> Option<Upload>)
    requires !AnyBlank(req) && !HasMatch(users, req.email, req.username)
    requires LocalPaths(req.files).Some? && !Truthy(LocalPaths(req.files).value.0)
    ensures Registration(users, id, req, upload) == Outcome(Err(400, AvatarImageRequired), users, [])
  {
  }

  /**
   * A multipart request that sends the avatar but no cover image leaves the `coverImage`
   * key out of `req.files`, so line 34 throws before the avatar path is even checked.
   */
  lemma AvatarOnlyRequestFaults(users: map<UserId, User>, id: UserId, req: RegisterRequest,
                                upload: string -> Option<Upload>)
    requires !AnyBlank(req) && !HasMatch(users, req.email, req.username)
    requires req.files.Some? && req.files.value.coverImage.None?
    ensures Registration(users, id, req, upload) == Outcome(Fault(ReadingIndexZero), users, [])
  {
  }

  /**
   * The blank check, the duplicate check and the path checks all come before any upload:
   * no upload is attempted exactly when the call ends in one of their rejections, and
   * otherwise the avatar is the first file uploaded.
   */
  lemma ChecksPrecedeUploads(users: map<UserId, User>, id: UserId, req: RegisterRequest,
                             upload: string -> Option<Upload>)
    ensures var o := Registration(users, id, req, upload);
      o.uploads == [] <==> o.response in PreUploadRejections
    ensures var o := Registration(users, id, req, upload);
      o.uploads != [] ==> o.uploads[0] == UploadCall(LocalPaths(req.files).value.0.value, AvatarFolder)
  {
    var o := Registration(users, id, req, upload);
    if !AnyBlank(req) && !HasMatch(users, req.email, req.username) && LocalPaths(req.files).Some? {
      var (a, c) := LocalPaths(req.files).value;
      if Truthy(a) {
        assert o == Uploaded(users, id, req, upload, a.value, c);
        UploadStageUploads(users, id, req, upload, a.value, c);
      }
    }
  }

  /** Once the checks have passed, the avatar is uploaded first and the answer is none of theirs. */
  lemma UploadStageUploads(users: map<UserId, User>, id: UserId, req: RegisterRequest,
                           upload: string -> Option<Upload>, avatarPath: string, coverPath: Option<string>)
    ensures var o := Uploaded(users, id, req, upload, avatarPath, coverPath);
      o.uploads != [] && o.uploads[0] == UploadCall(avatarPath, AvatarFolder)
      && o.response !in PreUploadRejections
  {
    var o := Uploaded(users, id, req, upload, avatarPath, coverPath);
    assert AvatarFieldRequired[7] != AvatarImageRequired[7];
    assert ReadingToLowerCase[46] != ReadingIndexZero[46];
    assert o.response.Ok? || o.response == Err(400, AvatarFieldRequired)
      || o.response == Fault(ReadingToLowerCase) || o.response == Err(500, UserCreationFailed);
  }

  /**
   * A failed avatar upload gives 400 "Avatar field required" and leaves the store as it
   * was, after the cover image, when it had a path, has been uploaded too.
   */
  lemma FailedAvatarUploadRejected(users: map<UserId, User>, id: UserId, req: RegisterRequest,
                                   upload: string -> Option<Upload>)
    requires !AnyBlank(req) && !HasMatch(users, req.email, req.username)
    requires LocalPaths(req.files).Some?
    requires var (a, c) := LocalPaths(req.files).value; Truthy(a) && upload(a.value).None?
    ensures var (a, c) := LocalPaths(req.files).value;
      Registration(users, id, req, upload)
        == Outcome(Err(400, AvatarFieldRequired), users, UploadCalls(a.value, c))
    ensures var (a, c) := LocalPaths(req.files).value;
      Truthy(c) ==> UploadCall(c.value, CoverImageFolder) in Registration(users, id, req, upload).uploads
  {
  }

  /**
   * An absent username passes the blank and duplicate checks and only fails at
   * `username.toLowerCase()`, after the uploads, with the store unchanged.
   */
  lemma AbsentUsernameFaultsAfterUploads(users: map<UserId, User>, id: UserId, req: RegisterRequest,
                                         upload: string -> Option<Upload>)
    requires req.username.None? && !AnyBlank(req) && !HasMatch(users, req.email, req.username)
    requires LocalPaths(req.files).Some?
    requires var (a, c) := LocalPaths(req.files).value; Truthy(a) && upload(a.value).Some?
    ensures var o := Registration(users, id, req, upload);
      o.response == Fault(ReadingToLowerCase) && o.users == users && o.uploads != []
  {
  }

  /** Registration succeeds exactly when every check passes and the avatar upload yields a result. */
  lemma RegistrationSucceedsIff(users: map<UserId, User>, id: UserId, req: RegisterRequest,
                                upload: string -> Option<Upload>)
    ensures Registration(users, id, req, upload).response.Ok? <==>
      && !AnyBlank(req)
      && !HasMatch(users, req.email, req.username)
      && LocalPaths(req.files).Some?
      && Truthy(LocalPaths(req.files).value.0)
      && upload(LocalPaths(req.files).value.0.value).Some?
      && req.username.Some?
  {
  }

  /**
   * A successful registration adds exactly one record, under the fresh id, and leaves every
   * other record as it was.
   */
  lemma SuccessfulRegistrationAddsOneRecord(users: map<UserId, User>, id: UserId, req: RegisterRequest,
                                            upload: string -> Option<Upload>)
    requires id !in users
    requires !AnyBlank(req) && !HasMatch(users, req.email, req.username)
    requires LocalPaths(req.files).Some?
    requires var (a, c) := LocalPaths(req.files).value; Truthy(a) && upload(a.value).Some?
    requires req.username.Some?
    ensures var o := Registration(users, id, req, upload);
      && o.response.Ok?
      && id in o.users && o.users.Keys == users.Keys + {id} && |o.users| == |users| + 1
      && (forall k :: k in users ==> o.users[k] == users[k])
  {
    var (a, c) := LocalPaths(req.files).value;
    ReachesUploadStage(users, id, req, upload);
    UploadStageOutcome(users, id, req, upload, a.value, c);
    var r := NewRecord(req, upload(a.value).value, if Truthy(c) then upload(c.value) else None);
    InsertFresh(users, id, r);
  }

  /**
   * The record a successful registration creates holds fullName, email and password as
   * given, the username lower-cased, the avatar's url, the cover image's url or "", and no
   * refresh token.
   */
  lemma CreatedRecordFields(users: map<UserId, User>, id: UserId, req: RegisterRequest,
                            upload: string -> Option<Upload>)
    requires id !in users
    requires !AnyBlank(req) && !HasMatch(users, req.email, req.username)
    requires LocalPaths(req.files).Some?
    requires var (a, c) := LocalPaths(req.files).value; Truthy(a) && upload(a.value).Some?
    requires req.username.Some?
    ensures id in Registration(users, id, req, upload).users
    ensures var r := Registration(users, id, req, upload).users[id];
      var (a, c) := LocalPaths(req.files).value;
      && r.fullName == req.fullName && r.email == req.email && r.password == req.password
      && r.username == ToLower(req.username.value)
      && r.avatar == upload(a.value).value.url
      && r.coverImage == (if Truthy(c) && upload(c.value).Some? then upload(c.value).value.url else "")
      && r.refreshToken == None
  {
    var (a, c) := LocalPaths(req.files).value;
    ReachesUploadStage(users, id, req, upload);
    UploadStageOutcome(users, id, req, upload, a.value, c);
  }

  /** Once the checks pass, what remains of the call is the upload stage. */
  lemma ReachesUploadStage(users: map<UserId, User>, id: UserId, req: RegisterRequest,
                           upload: string -> Option<Upload>)
    requires !AnyBlank(req) && !HasMatch(users, req.email, req.username)
    requires LocalPaths(req.files).Some? && Truthy(LocalPaths(req.files).value.0)
    ensures var (a, c) := LocalPaths(req.files).value;
      Registration(users, id, req, upload) == Uploaded(users, id, req, upload, a.value, c)
  {
  }

  /** The upload stage on its own: it creates the record exactly when the avatar upload succeeded and the username is present. */
  lemma UploadStageOutcome(users: map<UserId, User>, id: UserId, req: RegisterRequest,
                           upload: string -> Option<Upload>, avatarPath: string, coverPath: Option<string>)
    requires id !in users
    ensures var o := Uploaded(users, id, req, upload, avatarPath, coverPath);
      && (o.response.Ok? <==> upload(avatarPath).Some? && req.username.Some?)
      && (!o.response.Ok? ==> o.users == users && o.response != Err(500, UserCreationFailed))
      && (o.response.Ok? ==>
            var r := NewRecord(req, upload(avatarPath).value,
                               if Truthy(coverPath) then upload(coverPath.value) else None);
            o.users == users[id := r] && o.response == Ok(201, Sanitize(id, r)))
  {
  }

  /**
   * On success the answer is 201 with the new record minus password and refresh token; since
   * the model is sequential the re-read always finds the record, so 500 never occurs, and
   * the store changes exactly when the registration succeeds.
   */
  lemma SuccessReturnsSanitizedRecord(users: map<UserId, User>, id: UserId, req: RegisterRequest,
                                      upload: string -> Option<Upload>)
    requires id !in users
    ensures var o := Registration(users, id, req, upload);
      o.response.Ok? ==> o.response.status == 201 && o.response.user == Sanitize(id, o.users[id])
    ensures Registration(users, id, req, upload).response != Err(500, UserCreationFailed)
    ensures Registration(users, id, req, upload).users != users <==> Registration(users, id, req, upload).response.Ok?
  {
    var o := Registration(users, id, req, upload);
    if !AnyBlank(req) && !HasMatch(users, req.email, req.username) && LocalPaths(req.files).Some? {
      var (a, c) := LocalPaths(req.files).value;
      if Truthy(a) {
        assert o == Uploaded(users, id, req, upload, a.value, c);
        UploadStageOutcome(users, id, req, upload, a.value, c);
        assert o.response.Ok? ==> id in o.users;
      }
    }
  }

  /**
   * Registration keeps emails and usernames unique, but only when the request's username is
   * its own lower-case form: the duplicate check compares the raw username with stored,
   * lower-cased ones.
   */
  lemma RegistrationKeepsIdentitiesUnique(users: map<UserId, User>, id: UserId, req: RegisterRequest,
                                          upload: string -> Option<Upload>)
    requires id !in users && UniqueIdentities(users)
    requires req.username.Some? ==> ToLower(req.username.value) == req.username.value
    ensures UniqueIdentities(Registration(users, id, req, upload).users)
  {
    var o := Registration(users, id, req, upload);
    SuccessReturnsSanitizedRecord(users, id, req, upload);
    if o.response.Ok? {
      RegistrationSucceedsIff(users, id, req, upload);
      SuccessfulRegistrationAddsOneRecord(users, id, req, upload);
      CreatedRecordFields(users, id, req, upload);
      var r := o.users[id];
      assert r.email == req.email && Some(r.username) == req.username;
      forall k | k in users
        ensures users[k].email != r.email && users[k].username != r.username
      {
        assert !MatchesEither(users[k], req.email, req.username);
      }
      forall a, b | a in o.users && b in o.users && a != b
        ensures o.users[a].email != o.users[b].email && o.users[a].username != o.users[b].username
      {
        if a != id && b != id {
          assert o.users[a] == users[a] && o.users[b] == users[b];
        }
      }
    }
  }

  /**
   * The duplicate check is case-sensitive: when a record already holds the lower-cased form
   * of the requested username (say "alice" for "Alice"), the check lets the request through
   * and the store ends up with two records sharing that username.
   */
  lemma CaseVariantUsernameDuplicates(users: map<UserId, User>, id: UserId, req: RegisterRequest,
                                      upload: string -> Option<Upload>, existing: UserId)
    requires id !in users && existing in users
    requires !AnyBlank(req) && !HasMatch(users, req.email, req.username)
    requires LocalPaths(req.files).Some?
    requires var (a, c) := LocalPaths(req.files).value; Truthy(a) && upload(a.value).Some?
    requires req.username.Some? && users[existing].username == ToLower(req.username.value)
    ensures var o := Registration(users, id, req, upload);
      && o.response.Ok?
      && existing in o.users && id in o.users && existing != id
      && o.users[existing].username == o.users[id].username
      && !UniqueIdentities(o.users)
  {
    RegistrationSucceedsIff(users, id, req, upload);
    SuccessfulRegistrationAddsOneRecord(users, id, req, upload);
    CreatedRecordFields(users, id, req, upload);
  }
}
