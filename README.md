# node-tdd-orm: session tokens, attachments and posts in Dafny

This project models the resource-lifecycle core of the node-tdd-orm backend, an
Express/Sequelize service where users post short texts ("hoaxes") with optional file
attachments. The core consists of:

- **Session tokens** (`src/auth/TokenService.js`). Issuing a token, the sliding-expiry
  `verify` that refreshes `lastUseAt`, deletion by value, and one iteration of the
  hourly cleanup.
- **Attachments and blobs** (`src/file/FileService.js`). The name and type recorded
  for an upload, the 2 MiB and PNG/JPEG checks, and the first-claim-wins
  `associateFileToHoax`. Also one iteration of the daily sweep of unclaimed uploads,
  idempotent `deleteAttachment`, and `deleteUserFiles`.
- **Posts** (`src/hoax/HoaxService.js`). `save` (create, then claim the attachment)
  and the paginated `getHoaxes`. Also `deleteHoax`, which checks ownership, deletes
  the blob and then the post, whose attachment row goes with it by the foreign key's
  `ON DELETE CASCADE`.
- **Request handlers** (`src/auth/AuthenticationRouters.js`,
  `src/hoax/HoaxRouter.js`). The `/auth` chain of early returns, `/logout`, the
  authenticate-then-validate gate of `POST /hoaxes`, and the `GET` listing that hands
  errors to `next`.

The model works on values and state like this:

- The three tables the core writes (tokens, file attachments, hoaxes) are classes
  (`TokenStore`, `FileStore`, `HoaxTable`) whose `map<nat, Row>` field is keyed by the
  autoincrement id (ids start at 1); their `nextId` field is the next key. The users
  table, which the core only reads, is passed in as a `map<nat, User>`.
- The two upload folders are `set<string>` fields of `FileStore`.
- The clock is an explicit `now: int` in milliseconds.
- Four foreign calls become parameters: the random string, file-type detection,
  `bcrypt.compare` and the e-mail validator.
- JavaScript truthiness is kept. A `hoaxId` or `fileAttachment` of 0 is falsy, and so
  is an empty `image` or `Authorization` header.

Files:

- `common.dfy`: `Option`, `Result`, `Outcome`, the exception classes and the
  truthiness predicates.
- `models.dfy`: the row datatypes.
- `keys.dfy`: the least key (`findOne` with no order), the greatest key and the
  `ORDER BY id DESC` listing.
- `token_service.dfy`, `file_service.dfy`, `hoax_service.dfy`,
  `authentication_routers.dfy` and `hoax_router.dfy`: one module per source file.

Three details of the code are kept exactly:

- `verify` refuses a token used exactly 7 days ago, because its filter is the strict
  `Op.gt` on `lastUseAt`. The cleanup keeps that same token, because its filter is the
  strict `Op.lt` (`TokenService.ExactlyOneWeekRejectedButKept`).
- `verify` on an unknown or expired token assigns `lastUseAt` on the `null` row and
  throws a TypeError.
  It does so before writing anything (`TokenService.TokenStore.Verify` returns
  `Failure(NullDereference)`).
- In the daily sweep, a rejected `unlink` leaves the `for` loop. That row and every row
  not yet handled stay in place, and so do their blobs
  (`FileService.FileStore.RemoveUnusedAttachmentsIteration`).

## Model

| member | source | states |
|---|---|---|
| TokenService.TokenStore.CreateToken | src/auth/TokenService.js:6-11 | inserts exactly one row `{generated, userId, lastUseAt = now}` under a fresh id, returns the generated value, and leaves every other row as it was |
| TokenService.TokenStore.Verify | src/auth/TokenService.js:13-23 | succeeds iff some row has the value and `lastUseAt > now - 7 days`. On success it returns that row's owner and sets only that row's `lastUseAt` to `now`. Otherwise it fails with the null dereference and changes nothing |
| TokenService.TokenStore.DeleteToken | src/auth/TokenService.js:25-27 | the table becomes exactly the rows whose value differs from the argument |
| TokenService.TokenStore.CleanupIteration | src/auth/TokenService.js:29-36 | the table becomes the rows with `lastUseAt` not before one week ago |
| TokenService.LiveMeansUsedWithinAWeek | src/auth/TokenService.js:13-17 | `verify`'s filter holds iff the value matches and the row was used less than 604800000 ms ago. A row 7 days + 1 ms old is rejected |
| TokenService.ExactlyOneWeekRejectedButKept | src/auth/TokenService.js:13-36 | a row used exactly one week ago is rejected by `verify` (strict `gt`) and kept, unchanged, by the cleanup (strict `lt`) |
| TokenService.LaterSweepSubsumesEarlier | src/auth/TokenService.js:29-36 | after a cleanup no expired row is left. Sweeping at t1 and then at t2 >= t1 is the same as sweeping once at t2, and the rows kept at t2 are among those kept at t1 |
| TokenService.SweepIdempotent | src/auth/TokenService.js:31-35 | a second cleanup at the same time removes nothing |
| TokenService.EightDaysOldTokenDead | src/auth/TokenService.js:13-36 | a row last used eight days ago is rejected by `verify` and is gone after one cleanup |
| TokenService.SweepPreservesVerify | src/auth/TokenService.js:13-36 | the cleanup never changes what `verify` accepts: a live row exists after it iff one existed before |
| TokenService.DeleteKeepsOtherSessions | src/auth/TokenService.js:13-27 | deleting one token value does not change whether `verify` accepts any other value |
| TokenService.DeleteTokenIdempotent | src/auth/TokenService.js:25-27 | deleting twice is deleting once, and deleting an absent value changes nothing |
| TokenService.DeletedTokenNeverVerifies | src/auth/TokenService.js:13-27 | after `deleteToken(v)`, `verify(v)` finds no row at any time |
| FileService.AttachmentFilename | src/file/FileService.js:53-57 | the stored filename starts with the random string |
| FileService.ExtensionIffTypeDetected | src/file/FileService.js:49-66 | for a random string without dots, the name has an extension iff a type was detected. That extension is `.ext` of the detected type, and `fileType` is recorded under the same condition |
| FileService.FileStore.SaveAttachment | src/file/FileService.js:49-69 | writes the blob under the derived name, inserts one unclaimed row uploaded at `now` under a fresh id, and returns that id |
| FileService.IsLessThan2MB | src/file/FileService.js:35-37 | a buffer passes iff it is shorter than 2 * 1024 * 1024 bytes (no contract beyond its definition; see the next row) |
| FileService.TwoMegabyteBoundary | src/file/FileService.js:35-37 | the size check is strict: 2097151 bytes pass and 2097152 bytes do not |
| FileService.IsSupportedFileType | src/file/FileService.js:39-47 | an undetected type is never supported |
| FileService.SupportedFileTypes | src/file/FileService.js:39-66 | supported iff the `fileType` that would be stored is `image/png` or `image/jpeg`. An undetected type and a GIF are refused, whatever the extension |
| FileService.AttachmentFileType | src/file/FileService.js:52-55 | the stored `fileType` is present iff a type was detected, and then it is the detected MIME type |
| FileService.FileStore.AssociateFileToHoax | src/file/FileService.js:71-83 | the attachment table becomes `Claim(old, attachmentId, hoaxId)` |
| FileService.ClaimEffect | src/file/FileService.js:71-83 | claiming an unknown id changes nothing, and claiming an unclaimed row sets only its `hoaxId`. No row is added or removed |
| FileService.FirstClaimWins | src/file/FileService.js:78-80 | once a row is claimed by a hoax, a later claim by any hoax leaves the row unchanged |
| FileService.ClaimedNeverSwept | src/file/FileService.js:90-97 | a claimed row is never selected by the sweep, however old it is |
| FileService.ClaimAndSweepExclusive | src/file/FileService.js:71-97 | after a claim the row is not selected by the sweep, and claiming a row the sweep removed changes nothing |
| FileService.GraceWindow | src/file/FileService.js:86-92 | an unclaimed upload 25 h old is selected. One 23 h old is not, and neither is one exactly 24 h old (strict `lt`) |
| FileService.FileStore.RemoveUnusedAttachmentsIteration | src/file/FileService.js:89-103 | removes only selected rows, each together with its blob, and leaves the rows it keeps unchanged. On success it has removed all of them and no unused row is left. On a missing blob it stops, naming a selected row that is still present and whose blob is missing |
| FileService.CompletedSweepLeavesNoneUnused | src/file/FileService.js:89-103 | after a completed sweep at time t no row is left for a sweep at t to select, and a row selected at t1 is selected at every later time |
| FileService.FileStore.DeleteAttachment | src/file/FileService.js:106-112 | the attachment folder becomes the old one minus the filename, whether or not it was there. It never fails |
| FileService.DeleteAttachmentIdempotent | src/file/FileService.js:106-112 | deleting an attachment blob twice is deleting it once: the set identity behind `FileStore.DeleteAttachment`'s ensures `attachmentFiles == old(attachmentFiles) - {filename}` |
| FileService.FileStore.DeleteProfileImage | src/file/FileService.js:30-33 | succeeds iff the profile blob exists, and afterwards it is gone |
| FileService.FileStore.DeleteUserFiles | src/file/FileService.js:114-136 | deletes the profile image iff `user.image` is set, failing before any attachment is touched if that blob is missing. Otherwise it deletes the blobs of exactly the attachments of the user's hoaxes |
| HoaxService.HoaxTable.Create | src/hoax/HoaxService.js:14 | inserts the row under a fresh non-zero id and returns the id |
| HoaxService.AttachmentOf | src/hoax/HoaxService.js:41-45 | the included attachment is absent iff no row claims the hoax. Otherwise it is a row that claims it |
| HoaxService.SaveKeepsLinked | src/hoax/HoaxService.js:14-18 | inserting under a fresh id and claiming for it keeps the foreign-key and one-attachment-per-hoax facts |
| HoaxService.DeleteKeepsLinked | database/migrations/20220129082434-create-file-attachment.js:19-25 | deleting a hoax with its cascade keeps those facts |
| HoaxService.CascadeRemovesIncludedAttachment | database/migrations/20220129082434-create-file-attachment.js:19-25 | under those facts the cascade removes exactly the included attachment's row, or nothing when there is none |
| HoaxService.Save | src/hoax/HoaxService.js:8-19 | creates one hoax with the body's content, `timestamp = now` and the caller's id. It claims `fileAttachment` for the new id only when that field is truthy, and keeps the linking facts |
| HoaxService.DeleteHoax | src/hoax/HoaxService.js:66-79 | fails with `ForbiddenException('unauthorized_hoax_delete')` and changes nothing iff no hoax has that id and owner. Otherwise it removes the included attachment's blob, the hoax and, by cascade, its attachment rows |
| HoaxService.CeilDivIsCeiling | src/hoax/HoaxService.js:62 | `CeilDiv(count, size)` is `Math.ceil(count / size)`: the least page count whose pages hold `count` items, 0 when `count` is 0 |
| HoaxService.PageBelowTotal | src/hoax/HoaxService.js:47-62 | a page number is below `totalPages` iff its offset `page * size` is below the count |
| HoaxService.PageLength | src/hoax/HoaxService.js:48-49 | `OFFSET offset LIMIT limit` leaves at most `limit` rows, all within the count, none when the offset is past the count, and otherwise either a full `limit` or every row to the end |
| HoaxService.GetHoaxes | src/hoax/HoaxService.js:21-64 | fails with `NotFoundException('user_not_found')` iff a user id is given and names no user. Otherwise it echoes `page` and `size`, sets `totalPages = ceil(count / size)`, and returns exactly `min(size, count - page * size)` items (none past the end) |
| HoaxService.RankedMatchListed | src/hoax/HoaxService.js:47-49 | the match of rank r in the id-descending order is item `r % size` of page `r / size` |
| HoaxService.EveryMatchIsListed | src/hoax/HoaxService.js:32-59 | no gaps: every matching hoax appears, on page `rank / size` at index `rank % size`, where rank is the number of matching hoaxes with a greater id |
| HoaxService.ListedItem | src/hoax/HoaxService.js:47-59 | item i of a page is the listed form of the matching hoax at position `page * size + i` of the id-descending order |
| HoaxService.PageItemRanked | src/hoax/HoaxService.js:32-59 | item i is a matching hoax shown with its own content and owner, and exactly `page * size + i` matching hoaxes have a greater id, so no hoax is listed twice and the order is id descending |
| HoaxService.PageNonEmptyIffBelowTotal | src/hoax/HoaxService.js:47-62 | a page is non-empty iff its number is below `totalPages`, and every page before the last holds `size` items |
| HoaxService.ElevenHoaxesTwoPages | src/hoax/HoaxService.js:47-62 | with eleven matching hoaxes at size 10 there are two pages. Page 0 holds ten, and page 1 holds only the least-id hoax |
| HoaxService.EmptyListing | src/hoax/HoaxService.js:52-63 | with no hoaxes, every page is empty and `totalPages` is 0 |
| HoaxService.ItemAttachmentKey | src/hoax/HoaxService.js:53-59 | an item carries `fileAttachment` iff an attachment claims its hoax, and then it is that attachment's filename and type |
| Keys.SortedDesc | src/hoax/HoaxService.js:47 | the listing holds exactly the given ids, each once, in strictly descending order |
| Keys.SortedDescRank | src/hoax/HoaxService.js:47 | the id at position j of the listing has exactly j ids above it |
| Keys.SortedDescLastIsLeast | src/hoax/HoaxService.js:47 | the last id of the listing is the least one |
| AuthenticationRouters.FindByEmail | src/user/UserService.js:11-14 | finds a user iff one has the email, and then it is the lowest-id user with that email |
| AuthenticationRouters.LoginDecision | src/auth/AuthenticationRouters.js:12-35 | an invalid body gives `AuthenticationException`. Success means a valid body, a user with that email, a matching password and an active account. `ForbiddenException` means some user with that email has a matching password and is inactive |
| AuthenticationRouters.Login | src/auth/AuthenticationRouters.js:21-44 | on a refused login it passes the exception on and writes no token. On success it issues exactly one token for that user and answers with id, username, image and the token |
| AuthenticationRouters.ValidationBeforeLookup | src/auth/AuthenticationRouters.js:13-25 | a malformed body gets the same answer whatever the users and whatever the password check says |
| AuthenticationRouters.UnknownEmailRefused | src/auth/AuthenticationRouters.js:27-29 | an unknown email gets `AuthenticationException` |
| AuthenticationRouters.WrongPasswordBeatsInactive | src/auth/AuthenticationRouters.js:31-34 | when the account `findByEmail` returns (any number of accounts may share the email) has a different password, the answer is `AuthenticationException`, not `ForbiddenException`, whether or not it is inactive |
| AuthenticationRouters.SingleAccountOutcome | src/auth/AuthenticationRouters.js:27-36 | with one account under the email, login succeeds iff the password matches and the account is active. It gets `ForbiddenException` iff the password matches and the account is inactive |
| AuthenticationRouters.IssuedTokenIsLive | src/auth/AuthenticationRouters.js:36 | the token a login issues is accepted by `verify` at the same instant |
| AuthenticationRouters.TokenFromHeader | src/auth/AuthenticationRouters.js:51 | for a header of at least 7 characters, the header is its first 7 characters followed by the token. A shorter header gives the empty token |
| AuthenticationRouters.BearerRoundTrip | src/auth/AuthenticationRouters.js:51 | the token read from `"Bearer " + t` is `t` |
| AuthenticationRouters.Logout | src/auth/AuthenticationRouters.js:47-56 | with a non-empty header it deletes every token equal to the header from index 7 on. With none it changes nothing |
| AuthenticationRouters.LogoutEndsSession | src/auth/AuthenticationRouters.js:47-56 | after logging out with `Bearer t`, `t` no longer verifies |
| HoaxRouter.ContentSizeOk | src/hoax/HoaxRouter.js:13-15 | an absent content never passes the length check |
| HoaxRouter.SubmitDecision | src/hoax/HoaxRouter.js:13-23 | accepts iff a user is authenticated and the content length is within 10..5000. Without a user the answer is `AuthenticationException('unauthorized_hoax_submit')`, otherwise `ValidationException` |
| HoaxRouter.AuthBeforeValidation | src/hoax/HoaxRouter.js:16-19 | an anonymous submission gets the same `AuthenticationException` whatever its body |
| HoaxRouter.ContentBounds | src/hoax/HoaxRouter.js:13-23 | lengths 10 and 5000 pass, and 9, 5001 and an absent content are refused |
| HoaxRouter.PostHoax | src/hoax/HoaxRouter.js:11-28 | answers with the gate's decision. On refusal nothing is saved. On acceptance `save` runs once with the body and the authenticated user |
| HoaxRouter.ListHoaxes | src/hoax/HoaxRouter.js:30-41 | forwards `user_not_found` to `next` iff the path's user id names no user. Otherwise it sends the page for the given `page` and `size` |
| HoaxRouter.UserListingOnlyOwnHoaxes | src/hoax/HoaxRouter.js:36 | every item of a user's listing belongs to that user |

## Left out

- Timers: the `setInterval` scheduling of both sweeps is not modelled. Each sweep is
  one iteration at a given `now`. Overlapping iterations and races between a claim
  and a sweep are concurrency.
- Sequelize and SQL: tables are in-memory maps. The cascade is stated as an effect
  of deleting a hoax. The `Linked` facts (foreign key, at most one attachment per
  hoax) are a precondition of the lemmas that need them, and `Save` and `DeleteHoax` preserve them.
- Filesystem: folders are sets of names. The only filesystem failure modelled is
  unlinking a missing blob. Other I/O errors and `createFolders` and
  `saveProfileImage` are left out.
- `randomString`, `bcrypt.compare`, `FileType.fromBuffer` and express-validator's
  `isEmail` are foreign code. Their results are parameters, and nothing is claimed
  about token uniqueness.
- `Keys.Least`: `findOne` without an order may return any matching row. The model
  picks the lowest id, both for the user `findByEmail` returns and for a hoax's
  included attachment. `TokenService.TokenStore.Verify` instead takes any live row
  with the value, with no fixed choice.
- `FileService.FileStore.DeleteUserFiles`: the `deleteAttachment` calls are not
  awaited in the source. The model treats them as completed when the method returns.
- `HoaxRouter.ContentSizeOk`: length is counted in characters of the Dafny string.
  express-validator counts UTF-16 code units and surrogate pairs differently, and
  non-string content (numbers) is not modelled.
- The pagination middleware is not part of this model. `page` is a `nat` and
  `size > 0` is a precondition of the listing.
- `HoaxService.GetHoaxes` is a ghost function: its order is the id-descending listing
  `Keys.SortedDesc`, defined by its properties rather than computed.
- Express routing, response bodies' message strings, localisation (`req.t`) and the
  error handler's JSON are not modelled. Exceptions are their class and message key.
- E-mail, configuration, bootstrapping, user registration and the password-reset,
  user-delete and user-update handlers are outside the core. `src/user/UserService.js`
  contributes only `findByEmail`.
- `Token.userId` may be null in the database schema. The model gives every token an
  owner.
