/** The attachment table and the blob store: naming an upload, the size and type
    checks, first-claim-wins association with a hoax, one iteration of the daily
    sweep of unclaimed uploads, and blob deletion. The two upload folders are sets
    of filenames. */
module FileService {
  import opened Common
  import opened Models

  const ONE_DAY_IN_MILLIS: int := 24 * 60 * 60 * 1000

  /** What file-type detection reports for a buffer. */
  datatype FileType = FileType(ext: string, mime: string)

  /** `isLessThan2MB` on a buffer of `length` bytes. */
  predicate IsLessThan2MB(length: nat) {
    length < 2 * 1024 * 1024
  }

  /** `isSupportedFileType` on the already detected type of a buffer. */
  predicate IsSupportedFileType(detected: Option<FileType>): (ok: bool)
    ensures ok ==> detected.Some?
  {
    match detected
    case None => false
    case Some(t) => t.mime == "image/png" || t.mime == "image/jpeg"
  }

  /** The stored name of an upload: the random string, with `.ext` appended when a
      type was detected. */
  function AttachmentFilename(random: string, detected: Option<FileType>): (filename: string)
    ensures |random| <= |filename| && filename[..|random|] == random
  {
    if detected.Some? then random + "." + detected.value.ext else random
  }

  /** The stored `fileType` of an upload: the detected MIME type, if any. */
  function AttachmentFileType(detected: Option<FileType>): (fileType: Option<string>)
    ensures fileType.Some? <==> detected.Some?
    ensures fileType.Some? ==> fileType.value == detected.value.mime
  {
    if detected.Some? then Some(detected.value.mime) else None
  }

  /** `if (attachment.hoaxId)`: a claim that `associateFileToHoax` respects. */
  predicate IsClaimed(a: Attachment) {
    TruthyId(a.hoaxId)
  }

  /** The table after `associateFileToHoax(attachmentId, hoaxId)`. */
  function Claim(rows: map<nat, Attachment>, attachmentId: nat, hoaxId: nat): map<nat, Attachment> {
    if attachmentId !in rows || IsClaimed(rows[attachmentId]) then rows
    else rows[attachmentId := rows[attachmentId].(hoaxId := Some(hoaxId))]
  }

  /** The row filter of the sweep: uploaded strictly before one day ago and `hoaxId IS NULL`. */
  predicate IsUnused(a: Attachment, now: int) {
    a.uploadDate < now - ONE_DAY_IN_MILLIS && a.hoaxId.None?
  }

  /** The rows the sweep at time `now` selects. */
  function UnusedIds(rows: map<nat, Attachment>, now: int): set<nat> {
    set k | k in rows && IsUnused(rows[k], now)
  }

  /** The filenames of the rows `ids`. */
  function FilenamesOf(rows: map<nat, Attachment>, ids: set<nat>): set<string> {
    set k | k in ids && k in rows :: rows[k].filename
  }

  /** The rows whose hoax belongs to the user (the inner join of `deleteUserFiles`). */
  function UserAttachmentIds(rows: map<nat, Attachment>, hoaxes: map<nat, Hoax>, userId: nat): set<nat> {
    set k | k in rows && rows[k].hoaxId.Some? && rows[k].hoaxId.value in hoaxes
              && hoaxes[rows[k].hoaxId.value].userId == userId
  }

  /** The attachment table with its autoincrement key, and the two upload folders. */
  class FileStore {
    var attachments: map<nat, Attachment>
    var nextId: nat
    var attachmentFiles: set<string>
    var profileFiles: set<string>

    ghost predicate Valid()
      reads this
    {
      1 <= nextId && forall k :: k in attachments ==> 1 <= k < nextId
    }

    constructor (attachmentFiles: set<string>, profileFiles: set<string>)
      ensures Valid() && attachments == map[]
      ensures this.attachmentFiles == attachmentFiles && this.profileFiles == profileFiles
    {
      attachments := map[];
      nextId := 1;
      this.attachmentFiles := attachmentFiles;
      this.profileFiles := profileFiles;
    }

    /** `saveAttachment`, with the random string and the detected type as inputs: writes
        the blob, inserts an unclaimed row uploaded at `now`, and returns its id. */
    method SaveAttachment(random: string, detected: Option<FileType>, now: int) returns (id: nat)
      requires Valid()
      modifies this
      ensures Valid()
      ensures id == old(nextId) && id !in old(attachments)
      ensures attachments == old(attachments)[id := Attachment(AttachmentFilename(random, detected), now, AttachmentFileType(detected), None)]
      ensures attachmentFiles == old(attachmentFiles) + {AttachmentFilename(random, detected)}
      ensures profileFiles == old(profileFiles)
    {
      var fileType: Option<string> := None;
      var filename := random;
      if detected.Some? {
        fileType := Some(detected.value.mime);
        filename := filename + "." + detected.value.ext;
      }
      attachmentFiles := attachmentFiles + {filename};
      id := nextId;
      attachments := attachments[id := Attachment(filename, now, fileType, None)];
      nextId := nextId + 1;
    }

    /** `associateFileToHoax`: an unknown id is ignored, a claimed row keeps its claim,
        an unclaimed row gets `hoaxId`. */
    method AssociateFileToHoax(attachmentId: nat, hoaxId: nat)
      requires Valid()
      modifies this`attachments
      ensures Valid()
      ensures attachments == Claim(old(attachments), attachmentId, hoaxId)
    {
      if attachmentId !in attachments {
        return;
      }
      var attachment := attachments[attachmentId];
      if IsClaimed(attachment) {
        return;
      }
      attachments := attachments[attachmentId := attachment.(hoaxId := Some(hoaxId))];
    }

    /** One iteration of `removeUnusedAttachments` at time `now`: for each selected row,
        unlink its blob, then destroy the row. An unlink of a missing blob rejects and
        ends the iteration; the rows handled so far (`processed`) are gone with their
        blobs, and the rest stay. */
    method RemoveUnusedAttachmentsIteration(now: int) returns (r: Outcome<Exception>, ghost processed: set<nat>)
      requires Valid()
      modifies this`attachments, this`attachmentFiles
      ensures Valid()
      ensures processed <= UnusedIds(old(attachments), now)
      ensures attachments == old(attachments) - processed
      ensures attachmentFiles == old(attachmentFiles) - FilenamesOf(old(attachments), processed)
      ensures r.Pass? ==> processed == UnusedIds(old(attachments), now)
      ensures r.Pass? ==> UnusedIds(attachments, now) == {}
      ensures forall k :: k in attachments ==> attachments[k] == old(attachments)[k]
      ensures r.Fail? ==>
        exists k :: k in UnusedIds(old(attachments), now) - processed
          && r.error == NoSuchFile(old(attachments)[k].filename)
          && old(attachments)[k].filename !in attachmentFiles
    {
      var selected := UnusedIds(attachments, now);
      var pending := selected;
      processed := {};
      while pending != {}
        invariant pending <= selected && processed == selected - pending
        invariant attachments == old(attachments) - processed
        invariant attachmentFiles == old(attachmentFiles) - FilenamesOf(old(attachments), processed)
        invariant Valid()
        decreases pending
      {
        var k :| k in pending;
        var filename := attachments[k].filename;
        if filename !in attachmentFiles {
          return Fail(NoSuchFile(filename)), processed;
        }
        attachmentFiles := attachmentFiles - {filename};
        attachments := attachments - {k};
        pending := pending - {k};
        processed := processed + {k};
      }
      r := Pass;
      CompletedSweepLeavesNoneUnused(old(attachments), now, now);
    }

    /** `deleteAttachment`: removes the blob when it exists; never fails. */
    method DeleteAttachment(filename: string)
      modifies this`attachmentFiles
      ensures attachmentFiles == old(attachmentFiles) - {filename}
    {
      if filename in attachmentFiles {
        attachmentFiles := attachmentFiles - {filename};
      }
    }

    /** `deleteProfileImage`: unlinks the profile blob, rejecting when it is missing. */
    method DeleteProfileImage(filename: string) returns (r: Outcome<Exception>)
      modifies this`profileFiles
      ensures r.Pass? <==> filename in old(profileFiles)
      ensures r.Fail? ==> r.error == NoSuchFile(filename)
      ensures profileFiles == old(profileFiles) - {filename}
    {
      if filename !in profileFiles {
        return Fail(NoSuchFile(filename));
      }
      profileFiles := profileFiles - {filename};
      r := Pass;
    }

    /** `deleteUserFiles`: deletes the profile image when `user.image` is set (a missing
        blob rejects, before any attachment is touched), then the blob of every
        attachment of the user's hoaxes. Rows are left to the database. */
    method DeleteUserFiles(userId: nat, user: User, hoaxes: map<nat, Hoax>) returns (r: Outcome<Exception>)
      modifies this`attachmentFiles, this`profileFiles
      ensures TruthyString(user.image) ==> profileFiles == old(profileFiles) - {user.image.value}
      ensures !TruthyString(user.image) ==> profileFiles == old(profileFiles)
      ensures r.Fail? <==> TruthyString(user.image) && user.image.value !in old(profileFiles)
      ensures r.Fail? ==> r.error == NoSuchFile(user.image.value) && attachmentFiles == old(attachmentFiles)
      ensures r.Pass? ==>
        attachmentFiles == old(attachmentFiles) - FilenamesOf(attachments, UserAttachmentIds(attachments, hoaxes, userId))
    {
      if TruthyString(user.image) {
        r := DeleteProfileImage(user.image.value);
        if r.Fail? {
          return;
        }
      }
      r := Pass;
      var owned := UserAttachmentIds(attachments, hoaxes, userId);
      if owned == {} {
        return;
      }
      var pending := owned;
      ghost var profileAfter := profileFiles;
      while pending != {}
        invariant pending <= owned
        invariant profileFiles == profileAfter
        invariant attachmentFiles == old(attachmentFiles) - FilenamesOf(attachments, owned - pending)
        decreases pending
      {
        var k :| k in pending;
        DeleteAttachment(attachments[k].filename);
        pending := pending - {k};
      }
    }
  }

  /** The size limit is strict: 2 MiB itself is too large. */
  lemma TwoMegabyteBoundary()
    ensures IsLessThan2MB(2097151) && !IsLessThan2MB(2097152)
  {
  }

  /** An upload that passes the type check is stored with `fileType` `image/png` or
      `image/jpeg`, and one whose type was not detected is refused; the extension plays
      no part (a GIF named `.png` is refused, a PNG named `.jpg` is accepted). */
  lemma SupportedFileTypes(detected: Option<FileType>)
    ensures IsSupportedFileType(detected) <==>
      AttachmentFileType(detected) == Some("image/png") || AttachmentFileType(detected) == Some("image/jpeg")
    ensures !IsSupportedFileType(None)
    ensures !IsSupportedFileType(Some(FileType("png", "image/gif")))
    ensures IsSupportedFileType(Some(FileType("jpg", "image/png")))
  {
  }

  /** For a random string without dots (as `randomString` produces), the stored name has
      an extension iff a type was detected, and that extension is the detected one; the
      stored `fileType` is present under the same condition. */
  lemma ExtensionIffTypeDetected(random: string, detected: Option<FileType>)
    requires '.' !in random
    ensures '.' in AttachmentFilename(random, detected) <==> detected.Some?
    ensures detected.Some? ==> AttachmentFilename(random, detected)[|random|..] == "." + detected.value.ext
    ensures AttachmentFileType(detected).Some? <==> detected.Some?
  {
    var name := AttachmentFilename(random, detected);
    if detected.Some? {
      assert name[|random|] == '.';
    } else {
      assert name == random;
    }
  }

  /** Claiming an unknown id changes nothing; claiming an unclaimed row sets its `hoaxId`
      and nothing else. */
  lemma ClaimEffect(rows: map<nat, Attachment>, attachmentId: nat, hoaxId: nat)
    ensures attachmentId !in rows ==> Claim(rows, attachmentId, hoaxId) == rows
    ensures attachmentId in rows && !IsClaimed(rows[attachmentId]) ==>
      Claim(rows, attachmentId, hoaxId) == rows[attachmentId := rows[attachmentId].(hoaxId := Some(hoaxId))]
    ensures Claim(rows, attachmentId, hoaxId).Keys == rows.Keys
  {
  }

  /** First claim wins: once claimed by hoax `first` (ids start at 1), a later claim by
      any hoax leaves the row as it is. */
  lemma FirstClaimWins(rows: map<nat, Attachment>, attachmentId: nat, first: nat, second: nat)
    requires attachmentId in rows && !IsClaimed(rows[attachmentId]) && first != 0
    ensures var once := Claim(rows, attachmentId, first);
      Claim(once, attachmentId, second) == once && once[attachmentId].hoaxId == Some(first)
  {
  }

  /** A claimed row is never selected by the sweep, however old it is. */
  lemma ClaimedNeverSwept(rows: map<nat, Attachment>, k: nat, now: int)
    requires k in rows && rows[k].hoaxId.Some?
    ensures k !in UnusedIds(rows, now)
  {
  }

  /** Claim and sweep exclude each other: after a claim the row is not selected, and a
      claim of a row the sweep removed is a no-op. */
  lemma ClaimAndSweepExclusive(rows: map<nat, Attachment>, k: nat, hoaxId: nat, now: int)
    requires k in rows
    ensures k !in UnusedIds(Claim(rows, k, hoaxId), now)
    ensures Claim(rows - {k}, k, hoaxId) == rows - {k}
  {
  }

  /** Grace window: an unclaimed row uploaded 25 hours ago is selected, one uploaded
      23 hours ago is not, and one uploaded exactly 24 hours ago is not either. */
  lemma GraceWindow(a: Attachment, now: int)
    requires a.hoaxId.None?
    ensures a.uploadDate == now - 25 * 60 * 60 * 1000 ==> IsUnused(a, now)
    ensures a.uploadDate == now - 23 * 60 * 60 * 1000 ==> !IsUnused(a, now)
    ensures a.uploadDate == now - ONE_DAY_IN_MILLIS ==> !IsUnused(a, now)
  {
  }

  /** After a completed sweep iteration nothing is left to sweep at the same time, and a
      row the sweep selects at `t1` is selected at every later time too. */
  lemma CompletedSweepLeavesNoneUnused(rows: map<nat, Attachment>, t1: int, t2: int)
    requires t1 <= t2
    ensures UnusedIds(rows - UnusedIds(rows, t1), t1) == {}
    ensures UnusedIds(rows, t1) <= UnusedIds(rows, t2)
  {
    var kept := rows - UnusedIds(rows, t1);
    forall k | k in kept ensures !IsUnused(kept[k], t1) {
      assert k !in UnusedIds(rows, t1);
    }
  }

  /** Deleting an attachment blob twice is deleting it once. */
  lemma DeleteAttachmentIdempotent(files: set<string>, filename: string)
    ensures files - {filename} - {filename} == files - {filename}
  {
  }
}
