/**
 * The records the mail server keeps and hands to the browser page, and the
 * two string operations both sides rely on: ASCII lower-casing (the key
 * normalisation of every address) and taking a bounded prefix (the preview).
 */
module MailData {

  /** Attachment metadata kept with a message; the attachment body is dropped. */
  datatype Attachment = Attachment(filename: string, contentType: string, size: int)

  /** A full stored message, as built by the SMTP intake handler. `date` is in milliseconds. */
  datatype Message = Message(
    id: string,
    from: string,
    to: seq<string>,
    subject: string,
    text: string,
    html: string,
    date: int,
    attachments: seq<Attachment>)

  /** The short entry appended to a recipient's inbox for every delivered message. */
  datatype Preview = Preview(id: string, from: string, subject: string, date: int, preview: string)

  /** A store entry with the millisecond instant it was stored at (`{ data, timestamp }`). */
  datatype Timed<T> = Timed(content: T, timestamp: int)

  /** An inbox: its previews in arrival order and the instant it was created. */
  type Mailbox = Timed<seq<Preview>>

  /** A stored message with its receipt instant. */
  type StoredMessage = Timed<Message>

  /** Lower-cases one character; only the ASCII letters A-Z change. */
  function LowerChar(c: char): (r: char)
    ensures 'A' <= c <= 'Z' ==> r as int == c as int + 32
    ensures !('A' <= c <= 'Z') ==> r == c
    ensures !('A' <= r <= 'Z')
  {
    if 'A' <= c <= 'Z' then (c as int + 32) as char else c
  }

  /** `toLowerCase()`, character by character. */
  function Lower(s: string): (r: string)
    ensures |r| == |s|
    ensures forall i :: 0 <= i < |s| ==> r[i] == LowerChar(s[i])
  {
    seq(|s|, i requires 0 <= i < |s| => LowerChar(s[i]))
  }

  /** True when lower-casing leaves `s` as it is. */
  predicate IsLower(s: string) {
    forall i :: 0 <= i < |s| ==> !('A' <= s[i] <= 'Z')
  }

  /** Lower-casing is a normalisation: its result is already lower-case. */
  lemma LowerIsLower(s: string)
    ensures IsLower(Lower(s))
    ensures Lower(Lower(s)) == Lower(s)
  {
  }

  /** A lower-case string is a fixed point of `Lower`. */
  lemma LowerOfLower(s: string)
    requires IsLower(s)
    ensures Lower(s) == s
  {
  }

  /** Lower-casing distributes over concatenation. */
  lemma LowerConcat(a: string, b: string)
    ensures Lower(a + b) == Lower(a) + Lower(b)
  {
  }

  /** `s.substring(0, n)` for `n >= 0`: at most the first `n` characters. */
  function Prefix(s: string, n: nat): (r: string)
    ensures |r| == if |s| < n then |s| else n
    ensures r <= s
  {
    if |s| <= n then s else s[..n]
  }
}
