/** The rows of the four tables, one datatype per Sequelize model. The primary key
    `id` is not a field: each table maps ids to rows. */
module Models {
  import opened Common

  /** A row of `users`. `image` is the profile image's filename, if any. */
  datatype User = User(username: string, email: string, password: string, inactive: bool, image: Option<string>)

  /** A row of `tokens`: the bearer value, its owner and the time of its last use (ms). */
  datatype Token = Token(token: string, userId: nat, lastUseAt: int)

  /** A row of `fileAttachments`: `hoaxId` is the post that claimed it, `null` until then. */
  datatype Attachment = Attachment(filename: string, uploadDate: int, fileType: Option<string>, hoaxId: Option<nat>)

  /** A row of `hoaxes`: the post's text, its creation time (ms) and its owner. */
  datatype Hoax = Hoax(content: string, timestamp: int, userId: nat)
}
