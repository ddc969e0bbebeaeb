/** The `/hoaxes` routes: submission, gated first on authentication and then on the
    content's length, and the listing, which hands `getHoaxes`'s exception to the error
    handler instead of answering with it. */
module HoaxRouter {
  import opened Common
  import opened Models
  import opened FileService
  import opened HoaxService

  /** A submitted body; `content` is `None` when absent or `null`. */
  datatype SubmitBody = SubmitBody(content: Option<string>, fileAttachment: Option<nat>)

  const MIN_CONTENT_LENGTH := 10
  const MAX_CONTENT_LENGTH := 5000

  /** `isLength({ min: 10, max: 5000 })`: an absent content is validated as the empty
      string, which is too short. */
  predicate ContentSizeOk(content: Option<string>): (ok: bool)
    ensures ok ==> content.Some?
  {
    var c := if content.Some? then content.value else "";
    MIN_CONTENT_LENGTH <= |c| <= MAX_CONTENT_LENGTH
  }

  /** The gate of `POST /hoaxes`: `Pass` when the body goes on to `save`, otherwise the
      exception passed to `next`. */
  function SubmitDecision(authenticatedUser: Option<Identity>, body: SubmitBody): (r: Outcome<Exception>)
    ensures r.Pass? <==> authenticatedUser.Some? && ContentSizeOk(body.content)
    ensures r.Pass? ==> body.content.Some?
    ensures authenticatedUser.None? ==>
      r == Fail(AuthenticationException(Some("unauthorized_hoax_submit")))
    ensures authenticatedUser.Some? && !ContentSizeOk(body.content) ==> r == Fail(ValidationException)
  {
    if authenticatedUser.None? then Fail(AuthenticationException(Some("unauthorized_hoax_submit")))
    else if !ContentSizeOk(body.content) then Fail(ValidationException)
    else Pass
  }

  /** Authentication is checked before validation: an anonymous submission gets the same
      answer whatever its body. */
  lemma AuthBeforeValidation(b1: SubmitBody, b2: SubmitBody)
    ensures SubmitDecision(None, b1) == SubmitDecision(None, b2)
    ensures SubmitDecision(None, b1).Fail? && SubmitDecision(None, b1).error.AuthenticationException?
  {
  }

  /** The content length bounds are both inclusive. */
  lemma ContentBounds(user: Identity, fileAttachment: Option<nat>)
    ensures SubmitDecision(Some(user), SubmitBody(Some(seq(10, _ => 'a')), fileAttachment)).Pass?
    ensures SubmitDecision(Some(user), SubmitBody(Some(seq(5000, _ => 'a')), fileAttachment)).Pass?
    ensures SubmitDecision(Some(user), SubmitBody(Some(seq(9, _ => 'a')), fileAttachment)) == Fail(ValidationException)
    ensures SubmitDecision(Some(user), SubmitBody(Some(seq(5001, _ => 'a')), fileAttachment)) == Fail(ValidationException)
    ensures SubmitDecision(Some(user), SubmitBody(None, fileAttachment)) == Fail(ValidationException)
  {
  }

  /** `POST /hoaxes`: when the gate passes, saves the body once as the authenticated user's
      hoax (claiming its attachment); otherwise saves nothing. */
  method PostHoax(table: HoaxTable, files: FileStore, authenticatedUser: Option<Identity>, body: SubmitBody, now: int)
    returns (r: Outcome<Exception>)
    requires table.Valid() && files.Valid()
    modifies table, files`attachments
    ensures table.Valid() && files.Valid()
    ensures r == SubmitDecision(authenticatedUser, body)
    ensures r.Fail? ==>
      && table.rows == old(table.rows) && table.nextId == old(table.nextId)
      && files.attachments == old(files.attachments)
    ensures r.Pass? ==>
      && old(table.nextId) !in old(table.rows)
      && table.rows == old(table.rows)[old(table.nextId) := Hoax(body.content.value, now, authenticatedUser.value.id)]
      && files.attachments ==
           if TruthyId(body.fileAttachment) then Claim(old(files.attachments), body.fileAttachment.value, old(table.nextId))
           else old(files.attachments)
    ensures Linked(old(table.rows), old(files.attachments)) ==> Linked(table.rows, files.attachments)
  {
    r := SubmitDecision(authenticatedUser, body);
    if r.Pass? {
      Save(table, files, HoaxBody(body.content.value, body.fileAttachment), authenticatedUser.value, now);
    }
  }

  /** What the listing handler does with a request: send the page, or forward the
      exception to the error handler. */
  datatype Response = Sent(page: Page) | Next(error: Exception)

  /** `GET /hoaxes` and `GET /users/:userId/hoaxes`: passes the pagination and the path's
      user id to `getHoaxes`; the page it returns is sent, the exception it throws goes
      to `next`. */
  ghost function ListHoaxes(users: map<nat, User>, hoaxes: map<nat, Hoax>, attachments: map<nat, Attachment>,
                            page: nat, size: nat, userId: Option<nat>): (resp: Response)
    requires size > 0
    ensures resp.Next? <==> userId.Some? && userId.value !in users
    ensures resp.Next? ==> resp.error == NotFoundException("user_not_found")
    ensures resp.Sent? ==>
      && resp.page.page == page && resp.page.size == size
      && resp.page.totalPages == CeilDiv(|ListedIds(users, hoaxes, userId)|, size)
  {
    match GetHoaxes(users, hoaxes, attachments, page, size, userId)
    case Success(p) => Sent(p)
    case Failure(e) => Next(e)
  }

  /** The user-scoped listing shows only that user's hoaxes. */
  lemma UserListingOnlyOwnHoaxes(users: map<nat, User>, hoaxes: map<nat, Hoax>, attachments: map<nat, Attachment>,
                                 page: nat, size: nat, userId: nat, i: nat)
    requires size > 0 && userId in users
    requires ListHoaxes(users, hoaxes, attachments, page, size, Some(userId)).Sent?
    requires i < |ListHoaxes(users, hoaxes, attachments, page, size, Some(userId)).page.content|
    ensures ListHoaxes(users, hoaxes, attachments, page, size, Some(userId)).page.content[i].user.id == userId
  {
    PageItemRanked(users, hoaxes, attachments, page, size, Some(userId), i);
  }
}
