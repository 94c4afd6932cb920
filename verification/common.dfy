/** Values shared by both mailer scripts: configuration, outgoing mail and portal messages. */
module Common {

  /** An optional value; `None` stands for JavaScript's `null`/`undefined`. */
  datatype Option<+T> = None | Some(value: T)

  /** One octet of a downloaded attachment. */
  type Byte = x: int | 0 <= x < 256

  /** The sender and recipient addresses read from `config.json` (`CONFIG.email.from`/`to`). */
  datatype Config = Config(from: string, to: string)

  /** A nodemailer attachment: a file name and the raw bytes, passed through verbatim. */
  datatype Attachment = Attachment(filename: string, content: seq<Byte>)

  /** A nodemailer message with exactly the fields the scripts fill in. `date` holds the
      string a letter's `Date` is built from; the parsed `Date` itself is not modelled. */
  datatype Email = Email(
    from: string,
    to: string,
    subject: string,
    text: string,
    date: Option<string>,
    attachments: Option<seq<Attachment>>)

  /** One message of a parent/teacher thread, as scraped from the portal. */
  datatype Message = Message(author: string, body: string)
}
