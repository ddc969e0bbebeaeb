/** Posts ("hoaxes"): saving a post and claiming its attachment, the paginated listing,
    and deleting one's own post together with its attachment. */
module HoaxService {
  import opened Common
  import opened Models
  import opened FileService
  import Keys

  /** The fields of a submitted post that `save` reads. */
  datatype HoaxBody = HoaxBody(content: string, fileAttachment: Option<nat>)

  /** The hoax table with its autoincrement key. */
  class HoaxTable {
    var rows: map<nat, Hoax>
    var nextId: nat

    ghost predicate Valid()
      reads this
    {
      1 <= nextId && forall k :: k in rows ==> 1 <= k < nextId
    }

    constructor ()
      ensures Valid() && rows == map[]
    {
      rows := map[];
      nextId := 1;
    }

    /** `Hoax.create`: inserts the row under a fresh id and returns the id. */
    method Create(hoax: Hoax) returns (id: nat)
      requires Valid()
      modifies this
      ensures Valid()
      ensures id == old(nextId) && id !in old(rows) && id != 0
      ensures rows == old(rows)[id := hoax]
    {
      id := nextId;
      rows := rows[id := hoax];
      nextId := nextId + 1;
    }
  }

  /** The ids of the attachments claimed by hoax `hoaxId`. */
  function ClaimIds(attachments: map<nat, Attachment>, hoaxId: nat): set<nat> {
    set k | k in attachments && attachments[k].hoaxId == Some(hoaxId)
  }

  /** The attachment that the `include` of a hoax loads, `null` when none claims it
      (the lowest id if several did; the database facts below rule that out). */
  function AttachmentOf(attachments: map<nat, Attachment>, hoaxId: nat): (a: Option<Attachment>)
    ensures a.None? <==> ClaimIds(attachments, hoaxId) == {}
    ensures a.Some? ==> a.value.hoaxId == Some(hoaxId) && a.value in attachments.Values
  {
    var ids := ClaimIds(attachments, hoaxId);
    if ids == {} then None else Some(attachments[Keys.Least(ids)])
  }

  /** The attachment table after `ON DELETE CASCADE` of hoax `hoaxId`. */
  function Cascade(attachments: map<nat, Attachment>, hoaxId: nat): map<nat, Attachment> {
    map k | k in attachments && attachments[k].hoaxId != Some(hoaxId) :: attachments[k]
  }

  /** The blob that `deleteHoax` removes: that of the included attachment, if any. */
  function IncludedFilename(attachments: map<nat, Attachment>, hoaxId: nat): set<string> {
    match AttachmentOf(attachments, hoaxId)
    case None => {}
    case Some(a) => {a.filename}
  }

  /** What the database keeps true between the two tables: every claim names an existing
      hoax (the foreign key), and no two attachments claim the same hoax. */
  ghost predicate Linked(hoaxes: map<nat, Hoax>, attachments: map<nat, Attachment>) {
    && (forall k :: k in attachments && attachments[k].hoaxId.Some? ==> attachments[k].hoaxId.value in hoaxes)
    && (forall j, k :: j in attachments && k in attachments && j != k && attachments[j].hoaxId.Some?
          ==> attachments[j].hoaxId != attachments[k].hoaxId)
  }

  /** Inserting a hoax under a fresh id and letting it claim an attachment keeps the
      database facts: nothing claimed the fresh id before. */
  lemma SaveKeepsLinked(hoaxes: map<nat, Hoax>, attachments: map<nat, Attachment>, id: nat, hoax: Hoax, attachmentId: nat)
    requires Linked(hoaxes, attachments) && id !in hoaxes
    ensures Linked(hoaxes[id := hoax], attachments)
    ensures Linked(hoaxes[id := hoax], Claim(attachments, attachmentId, id))
  {
    var claimed := Claim(attachments, attachmentId, id);
    forall j, k | j in claimed && k in claimed && j != k && claimed[j].hoaxId.Some?
      ensures claimed[j].hoaxId != claimed[k].hoaxId
    {
      if claimed[j].hoaxId == Some(id) {
        assert attachments[k].hoaxId != Some(id);
      }
    }
  }

  /** Deleting a hoax with its cascade keeps the database facts. */
  lemma DeleteKeepsLinked(hoaxes: map<nat, Hoax>, attachments: map<nat, Attachment>, hoaxId: nat)
    requires Linked(hoaxes, attachments)
    ensures Linked(hoaxes - {hoaxId}, Cascade(attachments, hoaxId))
  {
  }

  /** Under the database facts the cascade removes exactly the attachment whose blob
      `deleteHoax` deleted, and no other row. */
  lemma CascadeRemovesIncludedAttachment(hoaxes: map<nat, Hoax>, attachments: map<nat, Attachment>, hoaxId: nat)
    requires Linked(hoaxes, attachments)
    ensures AttachmentOf(attachments, hoaxId).None? ==> Cascade(attachments, hoaxId) == attachments
    ensures AttachmentOf(attachments, hoaxId).Some? ==>
      exists k :: k in attachments && attachments[k] == AttachmentOf(attachments, hoaxId).value
        && Cascade(attachments, hoaxId) == attachments - {k}
  {
    var ids := ClaimIds(attachments, hoaxId);
    if ids != {} {
      var k := Keys.Least(ids);
      assert ids == {k};
      assert Cascade(attachments, hoaxId) == attachments - {k};
    } else {
      forall k | k in attachments ensures attachments[k].hoaxId != Some(hoaxId) {
        assert k in ids <==> attachments[k].hoaxId == Some(hoaxId);
      }
      assert Cascade(attachments, hoaxId) == attachments;
    }
  }

  /** `save`: creates the hoax with the body's content, `timestamp = now` and the
      caller's id, then claims `body.fileAttachment` for it when that field is truthy. */
  method Save(table: HoaxTable, files: FileStore, body: HoaxBody, user: Identity, now: int)
    requires table.Valid() && files.Valid()
    modifies table, files`attachments
    ensures table.Valid() && files.Valid()
    ensures old(table.nextId) !in old(table.rows)
    ensures table.rows == old(table.rows)[old(table.nextId) := Hoax(body.content, now, user.id)]
    ensures files.attachments ==
      if TruthyId(body.fileAttachment) then Claim(old(files.attachments), body.fileAttachment.value, old(table.nextId))
      else old(files.attachments)
    ensures Linked(old(table.rows), old(files.attachments)) ==> Linked(table.rows, files.attachments)
  {
    var id := table.Create(Hoax(body.content, now, user.id));
    if Linked(old(table.rows), files.attachments) {
      SaveKeepsLinked(old(table.rows), files.attachments, id, Hoax(body.content, now, user.id),
                      if body.fileAttachment.Some? then body.fileAttachment.value else 0);
    }
    if TruthyId(body.fileAttachment) {
      files.AssociateFileToHoax(body.fileAttachment.value, id);
    }
  }

  /** The hoax exists and belongs to the user: the row `deleteHoax` looks up. */
  predicate IsOwnHoax(hoaxes: map<nat, Hoax>, hoaxId: nat, userId: nat) {
    hoaxId in hoaxes && hoaxes[hoaxId].userId == userId
  }

  /** `deleteHoax`: refuses, changing nothing, unless the hoax is the user's; otherwise
      deletes the included attachment's blob, then the hoax, whose attachment rows go
      with it by the cascade. */
  method DeleteHoax(table: HoaxTable, files: FileStore, hoaxId: nat, userId: nat) returns (r: Outcome<Exception>)
    requires table.Valid() && files.Valid()
    modifies table`rows, files`attachments, files`attachmentFiles
    ensures table.Valid() && files.Valid()
    ensures r.Fail? <==> !IsOwnHoax(old(table.rows), hoaxId, userId)
    ensures r.Fail? ==>
      && r.error == ForbiddenException(Some("unauthorized_hoax_delete"))
      && table.rows == old(table.rows)
      && files.attachments == old(files.attachments)
      && files.attachmentFiles == old(files.attachmentFiles)
    ensures r.Pass? ==>
      && table.rows == old(table.rows) - {hoaxId}
      && files.attachments == Cascade(old(files.attachments), hoaxId)
      && files.attachmentFiles == old(files.attachmentFiles) - IncludedFilename(old(files.attachments), hoaxId)
    ensures Linked(old(table.rows), old(files.attachments)) ==> Linked(table.rows, files.attachments)
  {
    if !IsOwnHoax(table.rows, hoaxId, userId) {
      return Fail(ForbiddenException(Some("unauthorized_hoax_delete")));
    }
    var attachment := AttachmentOf(files.attachments, hoaxId);
    if attachment.Some? {
      files.DeleteAttachment(attachment.value.filename);
    }
    table.rows := table.rows - {hoaxId};
    // the foreign key's ON DELETE CASCADE
    files.attachments := Cascade(files.attachments, hoaxId);
    if Linked(old(table.rows), old(files.attachments)) {
      DeleteKeepsLinked(old(table.rows), old(files.attachments), hoaxId);
    }
    r := Pass;
  }

  /** The owner as the listing shows it. */
  datatype UserView = UserView(id: nat, username: string, email: string, image: Option<string>)

  /** An attachment as the listing shows it. */
  datatype FileView = FileView(filename: string, fileType: Option<string>)

  /** A listed hoax; `fileAttachment` is `None` where the key is deleted from the item. */
  datatype HoaxView = HoaxView(id: nat, content: string, timestamp: int, user: UserView, fileAttachment: Option<FileView>)

  /** The page object `getHoaxes` returns. */
  datatype Page = Page(content: seq<HoaxView>, page: nat, size: nat, totalPages: nat)

  /** The hoaxes the query matches: those whose owner exists (the inner join on the user),
      restricted to one owner when a user id is given. */
  function ListedIds(users: map<nat, User>, hoaxes: map<nat, Hoax>, userId: Option<nat>): set<nat> {
    set k | k in hoaxes && hoaxes[k].userId in users && (userId.None? || hoaxes[k].userId == userId.value)
  }

  /** `Math.ceil(count / size)`. */
  function CeilDiv(count: nat, size: nat): nat
    requires size > 0
  {
    (count + size - 1) / size
  }

  lemma MulMonotone(a: nat, b: nat, size: nat)
    requires a <= b
    ensures a * size <= b * size
  {
  }

  /** `CeilDiv` is the ceiling: the least number of pages of `size` that hold `count` items. */
  lemma CeilDivIsCeiling(count: nat, size: nat)
    requires size > 0
    ensures CeilDiv(count, size) * size >= count
    ensures CeilDiv(count, size) * size < count + size
    ensures count == 0 ==> CeilDiv(count, size) == 0
  {
    var q := CeilDiv(count, size);
    var rem := (count + size - 1) % size;
    assert count + size - 1 == q * size + rem;
  }

  /** A page number is below `totalPages` iff the page's offset is below the count. */
  lemma PageBelowTotal(count: nat, size: nat, page: nat)
    requires size > 0
    ensures page < CeilDiv(count, size) <==> page * size < count
  {
    var q := CeilDiv(count, size);
    CeilDivIsCeiling(count, size);
    if page < q {
      MulMonotone(page, q - 1, size);
      assert (q - 1) * size == q * size - size;
    } else {
      MulMonotone(q, page, size);
    }
  }

  /** The listed form of hoax `k`. */
  function View(users: map<nat, User>, hoaxes: map<nat, Hoax>, attachments: map<nat, Attachment>, k: nat): HoaxView
    requires k in hoaxes && hoaxes[k].userId in users
  {
    var h := hoaxes[k];
    var u := users[h.userId];
    var file := match AttachmentOf(attachments, k)
      case None => None
      case Some(a) => Some(FileView(a.filename, a.fileType));
    HoaxView(k, h.content, h.timestamp, UserView(h.userId, u.username, u.email, u.image), file)
  }

  /** The number of rows that `OFFSET offset LIMIT limit` leaves of `count` rows. */
  function PageLength(count: nat, offset: nat, limit: nat): (n: nat)
    ensures n <= limit
    ensures n == 0 || offset + n <= count
    ensures offset >= count ==> n == 0
    ensures offset < count ==> n == limit || offset + n == count
  {
    if offset >= count then 0 else if offset + limit <= count then limit else count - offset
  }

  /** `getHoaxes(page, size, userId)`: an unknown user id throws `user_not_found`;
      otherwise the matching hoaxes ordered by id descending, `size` of them from offset
      `page * size`, with `page` and `size` echoed and `totalPages = ceil(count / size)`. */
  ghost function GetHoaxes(users: map<nat, User>, hoaxes: map<nat, Hoax>, attachments: map<nat, Attachment>,
                     page: nat, size: nat, userId: Option<nat>): (r: Result<Page, Exception>)
    requires size > 0
    ensures r.Failure? <==> userId.Some? && userId.value !in users
    ensures r.Failure? ==> r.error == NotFoundException("user_not_found")
    ensures r.Success? ==>
      && r.value.page == page && r.value.size == size
      && r.value.totalPages == CeilDiv(|ListedIds(users, hoaxes, userId)|, size)
    ensures r.Success? ==>
      var count := |ListedIds(users, hoaxes, userId)|;
      |r.value.content| ==
        if page * size >= count then 0
        else if page * size + size <= count then size
        else count - page * size
  {
    if userId.Some? && userId.value !in users then Failure(NotFoundException("user_not_found"))
    else
      var listed := ListedIds(users, hoaxes, userId);
      var ids := Keys.SortedDesc(listed);
      var offset := page * size;
      var n := PageLength(|ids|, offset, size);
      var content := seq(n, i requires 0 <= i < n => View(users, hoaxes, attachments, ids[offset + i]));
      Success(Page(content, page, size, CeilDiv(|ids|, size)))
  }

  /** The i-th item of a page is a matching hoax shown with its own owner and content,
      and exactly `page * size + i` matching hoaxes have a greater id: the pages list
      the matches by id descending, without gaps or repeats. */
  lemma PageItemRanked(users: map<nat, User>, hoaxes: map<nat, Hoax>, attachments: map<nat, Attachment>,
                       page: nat, size: nat, userId: Option<nat>, i: nat)
    requires size > 0
    requires GetHoaxes(users, hoaxes, attachments, page, size, userId).Success?
    requires i < |GetHoaxes(users, hoaxes, attachments, page, size, userId).value.content|
    ensures var item := GetHoaxes(users, hoaxes, attachments, page, size, userId).value.content[i];
      && item.id in ListedIds(users, hoaxes, userId)
      && item.content == hoaxes[item.id].content
      && item.user.id == hoaxes[item.id].userId
      && (userId.Some? ==> item.user.id == userId.value)
      && Keys.CountAbove(ListedIds(users, hoaxes, userId), item.id) == page * size + i
  {
    var listed := ListedIds(users, hoaxes, userId);
    ListedItem(users, hoaxes, attachments, page, size, userId, i);
    Keys.SortedDescRank(listed, page * size + i);
  }

  /** Rank `r` falls on page `r / size` at index `r % size`, and that page holds it. */
  lemma RankOnPage(count: nat, size: nat, r: nat)
    requires size > 0 && r < count
    ensures (r / size) * size + r % size == r
    ensures (r / size) * size < count
    ensures r % size < if (r / size) * size + size <= count then size else count - (r / size) * size
  {
  }

  /** The match of rank `r` in the id-descending order is item `r % size` of page `r / size`. */
  lemma RankedMatchListed(users: map<nat, User>, hoaxes: map<nat, Hoax>, attachments: map<nat, Attachment>,
                          size: nat, userId: Option<nat>, r: nat)
    requires size > 0
    requires userId.None? || userId.value in users
    requires r < |ListedIds(users, hoaxes, userId)|
    ensures var p := GetHoaxes(users, hoaxes, attachments, r / size, size, userId).value;
      && r % size < |p.content|
      && p.content[r % size].id == Keys.SortedDesc(ListedIds(users, hoaxes, userId))[r]
  {
    var page, i := r / size, r % size;
    RankOnPage(|ListedIds(users, hoaxes, userId)|, size, r);
    ListedItem(users, hoaxes, attachments, page, size, userId, i);
  }

  /** No gaps: every matching hoax is listed, on the page and at the index given by the
      number of matching hoaxes with a greater id. */
  lemma EveryMatchIsListed(users: map<nat, User>, hoaxes: map<nat, Hoax>, attachments: map<nat, Attachment>,
                           size: nat, userId: Option<nat>, k: nat)
    requires size > 0
    requires userId.None? || userId.value in users
    requires k in ListedIds(users, hoaxes, userId)
    ensures var rank := Keys.CountAbove(ListedIds(users, hoaxes, userId), k);
      var p := GetHoaxes(users, hoaxes, attachments, rank / size, size, userId).value;
      && rank % size < |p.content|
      && p.content[rank % size].id == k
  {
    var listed := ListedIds(users, hoaxes, userId);
    var ids := Keys.SortedDesc(listed);
    assert k in ids;
    var j :| 0 <= j < |ids| && ids[j] == k;
    Keys.SortedDescRank(listed, j);
    RankedMatchListed(users, hoaxes, attachments, size, userId, j);
  }

  /** Item `i` of a page is the view of the `page * size + i`-th matching id. */
  lemma ListedItem(users: map<nat, User>, hoaxes: map<nat, Hoax>, attachments: map<nat, Attachment>,
                   page: nat, size: nat, userId: Option<nat>, i: nat)
    requires size > 0
    requires GetHoaxes(users, hoaxes, attachments, page, size, userId).Success?
    requires i < |GetHoaxes(users, hoaxes, attachments, page, size, userId).value.content|
    ensures page * size + i < |ListedIds(users, hoaxes, userId)|
    ensures var id := Keys.SortedDesc(ListedIds(users, hoaxes, userId))[page * size + i];
      id in hoaxes && hoaxes[id].userId in users
      && GetHoaxes(users, hoaxes, attachments, page, size, userId).value.content[i] == View(users, hoaxes, attachments, id)
  {
    var listed := ListedIds(users, hoaxes, userId);
    var ids := Keys.SortedDesc(listed);
    assert |ids| == |listed|;
  }

  /** A page is non-empty iff its number is below `totalPages`; it holds `size` items
      unless it is the last one. */
  lemma PageNonEmptyIffBelowTotal(users: map<nat, User>, hoaxes: map<nat, Hoax>, attachments: map<nat, Attachment>,
                                  page: nat, size: nat, userId: Option<nat>)
    requires size > 0
    requires GetHoaxes(users, hoaxes, attachments, page, size, userId).Success?
    ensures var p := GetHoaxes(users, hoaxes, attachments, page, size, userId).value;
      && (|p.content| > 0 <==> page < p.totalPages)
      && (page + 1 < p.totalPages ==> |p.content| == size)
  {
    var n := |ListedIds(users, hoaxes, userId)|;
    PageBelowTotal(n, size, page);
    PageBelowTotal(n, size, page + 1);
    assert (page + 1) * size == page * size + size;
  }

  /** Eleven matching hoaxes at size 10: two pages; the second holds only the oldest
      (least id) hoax. */
  lemma ElevenHoaxesTwoPages(users: map<nat, User>, hoaxes: map<nat, Hoax>, attachments: map<nat, Attachment>)
    requires |ListedIds(users, hoaxes, None)| == 11
    ensures var p0 := GetHoaxes(users, hoaxes, attachments, 0, 10, None).value;
      |p0.content| == 10 && p0.totalPages == 2
    ensures var p1 := GetHoaxes(users, hoaxes, attachments, 1, 10, None).value;
      && |p1.content| == 1 && p1.page == 1
      && p1.content[0].id == Keys.Least(ListedIds(users, hoaxes, None))
  {
    var listed := ListedIds(users, hoaxes, None);
    ListedItem(users, hoaxes, attachments, 1, 10, None, 0);
    Keys.SortedDescLastIsLeast(listed);
  }

  /** With no hoaxes the page is empty and `totalPages` is 0. */
  lemma EmptyListing(users: map<nat, User>, attachments: map<nat, Attachment>, page: nat, size: nat)
    requires size > 0
    ensures GetHoaxes(users, map[], attachments, page, size, None) == Success(Page([], page, size, 0))
  {
    assert ListedIds(users, map[], None) == {};
  }

  /** An item carries `fileAttachment` iff an attachment claims its hoax, and then it is
      that attachment's name and type. */
  lemma ItemAttachmentKey(users: map<nat, User>, hoaxes: map<nat, Hoax>, attachments: map<nat, Attachment>,
                          page: nat, size: nat, userId: Option<nat>, i: nat)
    requires size > 0
    requires GetHoaxes(users, hoaxes, attachments, page, size, userId).Success?
    requires i < |GetHoaxes(users, hoaxes, attachments, page, size, userId).value.content|
    ensures var item := GetHoaxes(users, hoaxes, attachments, page, size, userId).value.content[i];
      && (item.fileAttachment.None? <==> ClaimIds(attachments, item.id) == {})
      && (item.fileAttachment.Some? ==>
            exists k :: k in attachments && attachments[k].hoaxId == Some(item.id)
              && item.fileAttachment.value == FileView(attachments[k].filename, attachments[k].fileType))
  {
    ListedItem(users, hoaxes, attachments, page, size, userId, i);
    var item := GetHoaxes(users, hoaxes, attachments, page, size, userId).value.content[i];
    var ids := ClaimIds(attachments, item.id);
    if ids != {} {
      var k := Keys.Least(ids);
      assert attachments[k].hoaxId == Some(item.id);
    }
  }
}
