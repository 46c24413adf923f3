# User registration and access-token gate

A Dafny model of the two pieces of logic in this Express/Mongoose backend that make precise
promises:

- **`registerUser`** (src/controllers/user.controller.js) — a guarded insertion into the user
  collection. In order: reject blank body fields (400), reject an existing email or username
  (409), read the local paths of the uploaded files, require an avatar path (400), upload the
  avatar and, when there is one, the cover image, require the avatar upload to have succeeded
  (400), create the record with the username lower-cased, re-read it without `password` and
  `refreshToken` (500 if that fails) and answer 201 with it.
- **`verfifyJWT`** (src/middlewares/auth.middleware.js) — the gate in front of protected routes.
  It takes the access token from a truthy `accessToken` cookie or else from the
  `Authorization` header with its first `"Bearer "` removed, verifies it, looks the token's
  `_id` up in the store, and on success sets `req.user` to the sanitized record and calls
  `next()`. Every failure is caught and rethrown as one 401 "Unauthorized access, invalid token".

Files:

| file | module | what it holds |
|---|---|---|
| wrappers.dfy | `Wrappers` | `Option`, standing for `undefined`/`null` |
| js_string.dfy | `JsString` | `trim`, `toLowerCase`, `replace` with a string pattern, truthiness |
| user_model.dfy | `UserModel` | the stored record, its sanitized projection, the in-memory `UserStore` class (`findOne`, `create`) and `FindById` for `findById().select()` |
| user_controller.dfy | `UserController` | `Registration` (what one call does), `RegisterUser` (the controller as a method on the store), and the properties |
| auth_middleware.dfy | `AuthMiddleware` | `ExtractToken`, `Decide`, the `Request` class, `VerifyJwt`, and the properties |

`RegisterUser` is the controller step by step, with early returns in the source's order; its
postcondition ties its answer, the new store and the list of uploads it made to the function
`Registration`, and the lemmas state the controller's promises about `Registration`.
`VerifyJwt` is the middleware as a method that sets `req.user` and counts calls of `next()`;
its postcondition ties both to the function `Decide`.

Collaborators that are not part of this model are parameters: the upload helper is a function
from a local path to an optional `Upload` (an object with a `url`), `jwt.verify` is a function
from a token and a secret to optional claims, and the access-token secret is a string.

Modelling choices worth knowing:

- **Absent fields.** A body field may be absent. `field?.trim() === ""` is false for an absent
  field, so absent fields pass the blank check (`BlankMeansWhiteSpaceOnly`). An absent
  `username` then fails only at `username.toLowerCase()`, after the uploads
  (`AbsentUsernameFaultsAfterUploads`). In the duplicate filter an absent value matches
  records lacking that field (MongoDB's null matching); Mongoose's own treatment of
  `undefined` filter values is not part of this model.
- **Runtime errors.** `req.files?.avatar[0]` and `req.files?.coverImage[0]` throw a
  `TypeError` when `req.files` exists but the key is absent. The model answers `Fault` with
  V8's message. multer leaves out the key of a file field that was not sent. So a request
  with an avatar and no cover image faults at line 34 (`AvatarOnlyRequestFaults`): the
  cover image is not optional as written.
- **Case of usernames.** The duplicate check compares the username as sent. The record stores
  it lower-cased. Uniqueness of usernames is therefore kept only when the sent username is
  its own lower-case form (`RegistrationKeepsIdentitiesUnique`). With "alice" stored, a request for
  "Alice" gets through and the store then holds two records named "alice"
  (`CaseVariantUsernameDuplicates`). The model keeps the check as written.
- **Upload result.** The controller reads `avatar.url` and `coverImage?.url` and passes a folder
  name. The helper in src/utils/cloudinary.js takes no folder (line 11) and returns the bare URL
  string (line 20), on which `.url` is `undefined`. The model follows the controller's reading.
- **Ids.** The store hands out ids from a counter. This stands for Mongo's ObjectId
  generation. The model is sequential, so the re-read after `create` always finds the record
  and the 500 answer never occurs (`SuccessReturnsSanitizedRecord`).
- **Where the call ends.** `ApiError`s and `TypeError`s end up in `asyncHandler`, which is not
  part of this model. `Registration` and `VerifyJwt` return them as values.

## Model

| member | source | states |
|---|---|---|
| JsString.Truthy | src/controllers/user.controller.js:36 | definition of JavaScript truthiness for an optional string (absent or empty is falsy), also used at user.controller.js lines 42 and 55 and auth.middleware.js lines 12 and 15; properties in the rows for MissingAvatarRejected, CookieTakesPrecedence, HeaderFallback and MissingTokenRejected |
| JsString.TrimStart | src/controllers/user.controller.js:16 | the result is the suffix left after the longest white-space prefix: all dropped code points are white space and the result is empty or starts with a non-space |
| JsString.TrimEnd | src/controllers/user.controller.js:16 | the result is the prefix left before the longest white-space suffix: all dropped code points are white space and the result is empty or ends with a non-space |
| JsString.Trim | src/controllers/user.controller.js:16 | definition (`TrimEnd` of `TrimStart`); properties in the rows for TrimStart, TrimEnd, TrimEmptyIffAllWhiteSpace and TrimKeepsUnpadded |
| JsString.TrimEmptyIffAllWhiteSpace | src/controllers/user.controller.js:16 | `s.trim() === ""` holds exactly when every code point of `s` is ECMAScript white space or a line terminator |
| JsString.TrimKeepsUnpadded | src/controllers/user.controller.js:16 | trimming a string that neither starts nor ends with white space returns it unchanged |
| JsString.ToLower | src/controllers/user.controller.js:53 | lower-casing keeps the length and leaves no letter A-Z |
| JsString.ToLowerAt | src/controllers/user.controller.js:53 | each code point of the result is the lower-case form of the input's code point at the same place |
| JsString.ToLowerKeepsLowerCase | src/controllers/user.controller.js:53 | a string with no upper-case letter is its own lower-case form |
| JsString.ToLowerIdempotent | src/controllers/user.controller.js:53 | lower-casing twice is lower-casing once |
| JsString.IndexOfFrom | src/middlewares/auth.middleware.js:13 | the result is the first position at or after `from` where the pattern occurs, or None when it occurs nowhere from there on |
| JsString.ReplaceFirst | src/middlewares/auth.middleware.js:13 | definition of `replace` with a string pattern; properties in the rows for IndexOfFrom, ReplaceFirstAtFirstOccurrence, ReplaceFirstWithoutOccurrence and RemoveLeadingPattern |
| JsString.ReplaceFirstAtFirstOccurrence | src/middlewares/auth.middleware.js:13 | `replace` with a string pattern replaces exactly the first occurrence and keeps everything around it |
| JsString.ReplaceFirstWithoutOccurrence | src/middlewares/auth.middleware.js:13 | `replace` returns its input when the pattern does not occur in it |
| JsString.RemoveLeadingPattern | src/middlewares/auth.middleware.js:13 | removing a pattern that starts the string leaves exactly what followed it |
| UserModel.Sanitize | src/controllers/user.controller.js:58-60 | definition of the `select("-password -refreshToken")` projection; properties in the rows for SanitizeForgetsOnlySecrets, SuccessReturnsSanitizedRecord and AdmitsExactlyStoredSubjects |
| UserModel.SanitizeForgetsOnlySecrets | src/controllers/user.controller.js:58-60 | two records give the same sanitized record exactly when they differ at most in `password` and `refreshToken` |
| UserModel.FindById | src/controllers/user.controller.js:58-60 | definition of `findById(id).select("-password -refreshToken")`; properties in the row for FindByIdAfterInsert |
| UserModel.FindByIdAfterInsert | src/controllers/user.controller.js:49-60 | reading back the id a record was just stored under gives that record without its secrets, the fresh id read nothing before, and every other id reads as before |
| UserModel.MatchesEither | src/controllers/user.controller.js:22-24 | definition of one record matching the `$or` filter on email or username; properties in the rows for UserStore.FindOne, DuplicateRejected and CaseVariantUsernameDuplicates |
| UserModel.HasMatch | src/controllers/user.controller.js:22-24 | definition of some stored record matching the `$or` filter; properties in the rows for UserStore.FindOne, DuplicateRejected and RegistrationSucceedsIff |
| UserModel.UserStore.FindOne | src/controllers/user.controller.js:22-24 | `findOne({$or: [{email}, {username}]})` returns a record exactly when some stored record has the email or the username, and what it returns is such a stored record |
| UserModel.UserStore.Create | src/controllers/user.controller.js:49-56 | `create` stores the record under a fresh id, returns that id and changes no other record |
| UserController.IsBlank | src/controllers/user.controller.js:16 | definition of `field?.trim() === ""`; properties in the row for BlankMeansWhiteSpaceOnly |
| UserController.AnyBlank | src/controllers/user.controller.js:14-18 | definition of the `.some` blank check; properties in the rows for AnyBlankIffWhiteSpaceField and BlankFieldRejected |
| UserController.FirstPath | src/controllers/user.controller.js:33-34 | definition of evaluating `<key>[0]?.path` on an optional file list: a missing key throws, an empty list gives undefined; properties in the rows for AvatarOnlyRequestFaults and MissingAvatarRejected |
| UserController.AvatarLocalPath | src/controllers/user.controller.js:33 | definition of `req.files?.avatar[0]?.path`; properties in the rows for MissingAvatarRejected and ChecksPrecedeUploads |
| UserController.CoverImageLocalPath | src/controllers/user.controller.js:34 | definition of `req.files?.coverImage[0]?.path`; properties in the rows for AvatarOnlyRequestFaults and FailedAvatarUploadRejected |
| UserController.LocalPaths | src/controllers/user.controller.js:33-34 | definition of reading both file paths, None when a read throws; properties in the rows for AvatarOnlyRequestFaults, MissingAvatarRejected and ChecksPrecedeUploads |
| UserController.UploadCalls | src/controllers/user.controller.js:40-44 | definition of the upload sequence: the avatar into its folder, then the cover image when its path is truthy; properties in the rows for ChecksPrecedeUploads and FailedAvatarUploadRejected |
| UserController.NewRecord | src/controllers/user.controller.js:49-56 | definition of the record passed to `create`; properties in the row for CreatedRecordFields |
| UserController.Registration | src/controllers/user.controller.js:14-69 | definition of one call of the controller as answer, new store and uploads; properties in the rows for BlankFieldRejected through CaseVariantUsernameDuplicates, and RegisterUser is proved to follow it |
| UserController.Uploaded | src/controllers/user.controller.js:40-69 | definition of the upload-and-create stage; properties in the rows for UploadStageOutcome, FailedAvatarUploadRejected and AbsentUsernameFaultsAfterUploads, and UploadAndCreate is proved to follow it |
| UserController.BlankMeansWhiteSpaceOnly | src/controllers/user.controller.js:16 | a field is blank exactly when it is present and made of white space only; an absent field is never blank |
| UserController.AnyBlankIffWhiteSpaceField | src/controllers/user.controller.js:14-18 | the blank check fires exactly when one of fullName, email, password, username is present and white space only |
| UserController.BlankFieldRejected | src/controllers/user.controller.js:14-20 | with a white-space-only field the answer is 400 "All fields are required", the store is unchanged and nothing is uploaded |
| UserController.DuplicateRejected | src/controllers/user.controller.js:22-31 | when a stored record has the given email or exactly the given username, a non-blank registration gets 409, the store is unchanged and nothing is uploaded |
| UserController.MissingAvatarRejected | src/controllers/user.controller.js:33-38 | without a truthy avatar path the answer is 400 "Avatar image is required", nothing is uploaded and nothing is created |
| UserController.AvatarOnlyRequestFaults | src/controllers/user.controller.js:33-34 | when `req.files` has no `coverImage` key the cover-path read throws, before any upload and with the store unchanged |
| UserController.ChecksPrecedeUploads | src/controllers/user.controller.js:14-44 | no upload is made exactly when the call ends in the blank, duplicate, path-read or avatar-path rejection; otherwise the first upload is the avatar's, into "avatars" |
| UserController.FailedAvatarUploadRejected | src/controllers/user.controller.js:40-48 | a failed avatar upload gives 400 "Avatar field required" with the store unchanged, after the cover image (when it had a path) was uploaded too |
| UserController.AbsentUsernameFaultsAfterUploads | src/controllers/user.controller.js:12-53 | an absent username passes the checks and fails at `toLowerCase` after the uploads, with the store unchanged |
| UserController.RegistrationSucceedsIff | src/controllers/user.controller.js:14-69 | registration answers 201 exactly when no field is blank, no record matches, the paths can be read, the avatar path is truthy, the avatar upload succeeds and the username is present |
| UserController.SuccessfulRegistrationAddsOneRecord | src/controllers/user.controller.js:49-56 | when every check passes and the avatar upload succeeds, the answer is 201 and exactly one record is added, under the fresh id; every other record is kept |
| UserController.CreatedRecordFields | src/controllers/user.controller.js:49-56 | the created record holds fullName, email and password as given, the username lower-cased, the avatar's url, the cover image's url or "", and no refresh token |
| UserController.SuccessReturnsSanitizedRecord | src/controllers/user.controller.js:58-69 | on success the answer is 201 with the new record minus password and refresh token; 500 never occurs; the store changes exactly when the registration succeeds |
| UserController.RegistrationKeepsIdentitiesUnique | src/controllers/user.controller.js:22-53 | starting from a store with unique emails and usernames, registration keeps them unique provided the sent username is its own lower-case form |
| UserController.CaseVariantUsernameDuplicates | src/controllers/user.controller.js:22-53 | when a stored record holds the lower-cased form of the sent username but not the username itself, registration succeeds and two records share a username |
| UserController.RegisterUser | src/controllers/user.controller.js:8-70 | the controller, run against the store, gives the answer, new store and uploads `Registration` describes, and keeps the store's id invariant |
| UserController.UploadAndCreate | src/controllers/user.controller.js:40-69 | the second half of the controller, run against the store, gives the answer, new store and uploads of the upload stage `Uploaded`, and keeps the store's id invariant |
| UserController.UploadStageOutcome | src/controllers/user.controller.js:40-69 | once the checks have passed, a record is created exactly when the avatar upload succeeded and the username is present; otherwise the store is unchanged; 500 never occurs |
| AuthMiddleware.ExtractToken | src/middlewares/auth.middleware.js:11-13 | definition of the token expression; properties in the rows for CookieTakesPrecedence and HeaderFallback |
| AuthMiddleware.Decide | src/middlewares/auth.middleware.js:11-25 | definition of the `try` block's outcome, admit with a user or deny with a reason; properties in the rows for MissingTokenRejected, UnknownSubjectRejected and AdmitsExactlyStoredSubjects, and VerifyJwt is proved to follow it |
| AuthMiddleware.InnerMessage | src/middlewares/auth.middleware.js:15-24 | definition of the message the `try` block throws with for each reason (line 16, the library's for line 19, line 24); properties in the row for RejectionIsUniform |
| AuthMiddleware.Rethrow | src/middlewares/auth.middleware.js:29-31 | definition of the `catch` block; properties in the row for RejectionIsUniform |
| AuthMiddleware.Thrown | src/middlewares/auth.middleware.js:10-31 | definition of what leaves the middleware for a decision; properties in the rows for RejectionIsUniform and VerifyJwt |
| AuthMiddleware.CookieTakesPrecedence | src/middlewares/auth.middleware.js:11-13 | a truthy `accessToken` cookie is the token, whatever the `Authorization` header holds |
| AuthMiddleware.HeaderFallback | src/middlewares/auth.middleware.js:11-13 | with an empty or absent cookie the token is the header with its first "Bearer " removed: "Bearer t" gives "t", a header without "Bearer " is kept whole, a later "Bearer " is cut out of the middle; no header gives no token |
| AuthMiddleware.MissingTokenRejected | src/middlewares/auth.middleware.js:15-16 | without a truthy token the gate rejects, whatever the verifier and the store would say |
| AuthMiddleware.UnknownSubjectRejected | src/middlewares/auth.middleware.js:19-25 | a token that verifies but has no `_id`, or an `_id` with no stored record, is rejected |
| AuthMiddleware.AdmitsExactlyStoredSubjects | src/middlewares/auth.middleware.js:11-27 | the gate admits exactly when the token is truthy, verifies, and its `_id` names a stored record; the attached user is that record without password and refresh token |
| AuthMiddleware.RejectionIsUniform | src/middlewares/auth.middleware.js:10-31 | a request leaves without an error exactly when the gate admits it; any two requests the gate denies, for whatever reasons and library messages, leave with the same 401 "Unauthorized access, invalid token", never with the messages of lines 16 and 24 |
| AuthMiddleware.VerifyJwt | src/middlewares/auth.middleware.js:6-32 | on admission `req.user` is the sanitized record and `next()` is called once, and nothing is thrown; on rejection `req.user` and `next` are untouched and the 401 is thrown; what is thrown is `Thrown` of the gate's decision; the store is unchanged |

## Left out

- JsString.ToLower: maps only A-Z to a-z; JavaScript's `toLowerCase` applies the full Unicode case mapping, which is not modelled.
- Login, logout, token refresh and rotation, password change, profile updates, channel profile and watch history: src/routes/user.route.js imports them, but the controller defines only `registerUser`, so no code of theirs is there to model.
- src/models/user.model.js is not part of this model. So schema validation, setters and password hashing are not modelled: the record keeps `password` as given. Mongo's `$or`/`select` are modelled by an in-memory map and an explicit projection.
- The upload helper (src/utils/cloudinary.js) is a network call with local-file deletion. It is a parameter here, a fixed function of the path, so two uploads of the same path give the same result.
- `jwt.verify`, the access-token secret and the token format are a cryptographic library call. The verifier is a parameter returning optional claims. Its thrown errors are one `VerificationFailed` reason, and an `_id` that Mongoose cannot cast counts as an unknown subject; both end in the same 401.
- Body fields that are not strings. A non-string field makes `.trim` throw; fields are modelled as strings or absent.
- Concurrency: the race between `findOne` and `create`, and a record deleted before the re-read. Registration is modelled sequentially.
- An exception thrown by `next()` itself, which the `try` would also turn into the 401.
- `asyncHandler`, `ApiError`, `ApiResponse`, Express routing, `src/index.js` bootstrap, and the logging (including the printing of the access-token secret at src/middlewares/auth.middleware.js:7-8).
