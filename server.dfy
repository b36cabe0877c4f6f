/**
 * The in-memory mail store of server.js: a map from message id to the stored
 * message and a map from lower-cased address to its inbox, the handlers that
 * read and change them, the SMTP intake step and the retention sweep.
 *
 * The clock (`Date.now()`), the random source (`Math.random()`) and the MIME
 * parser are external: their results arrive as parameters.
 */
module MailServer {
  import opened Wrappers
  import opened MailData

  const DefaultDomain: string := "temp-mail.local"
  const DefaultRetentionHours: int := 24
  const MsPerHour: int := 60 * 60 * 1000
  /** Characters a random local part is drawn from. */
  const Alphabet: string := "abcdefghijklmnopqrstuvwxyz0123456789"
  const LocalPartLength: nat := 10
  /** Number of body characters copied into an inbox preview. */
  const PreviewLength: nat := 100
  const NoSubject: string := "(No Subject)"

  // ---------------------------------------------------------------------------
  // Configuration

  /** `process.env.DOMAIN || 'temp-mail.local'`: an unset or empty variable gives the default. */
  function ConfiguredDomain(env: Option<string>): (domain: string)
    ensures domain != ""
    ensures env.Some? && env.value != "" ==> domain == env.value
    ensures env.None? || env.value == "" ==> domain == DefaultDomain
  {
    if env.Some? && env.value != "" then env.value else DefaultDomain
  }

  /**
   * `parseInt(process.env.EMAIL_RETENTION_HOURS) || 24`, with `parsed` the
   * result of `parseInt` (`None` for NaN): NaN and 0 fall back to 24 hours.
   */
  function ConfiguredRetentionHours(parsed: Option<int>): (hours: int)
    ensures hours != 0
    ensures parsed.Some? && parsed.value != 0 ==> hours == parsed.value
    ensures parsed.None? || parsed.value == 0 ==> hours == DefaultRetentionHours
  {
    if parsed.Some? && parsed.value != 0 then parsed.value else DefaultRetentionHours
  }

  /**
   * An entry stamped at `timestamp` is expired at `now` when it is strictly
   * older than the retention; with a non-negative retention, only an entry
   * stamped before `now` can be expired.
   */
  predicate Expired(timestamp: int, now: int, retentionMs: int)
    ensures Expired(timestamp, now, retentionMs) && retentionMs >= 0 ==> timestamp < now
  {
    now - timestamp > retentionMs
  }

  // ---------------------------------------------------------------------------
  // Random address minting

  /** True when every character of `s` is a lower-case ASCII letter or a digit. */
  predicate InAlphabet(s: string) {
    forall i :: 0 <= i < |s| ==> s[i] in Alphabet
  }

  /**
   * `generateRandomEmail`: ten draws from the alphabet, then `@` and the
   * domain. `picks[i]` is `Math.floor(Math.random() * 36)` of the i-th draw.
   */
  method RandomAddress(picks: seq<int>, domain: string) returns (address: string)
    requires |picks| == LocalPartLength
    requires forall i :: 0 <= i < |picks| ==> 0 <= picks[i] < |Alphabet|
    ensures |address| == LocalPartLength + 1 + |domain|
    ensures forall i :: 0 <= i < LocalPartLength ==> address[i] == Alphabet[picks[i]]
    ensures InAlphabet(address[..LocalPartLength])
    ensures address[LocalPartLength] == '@' && address[LocalPartLength + 1..] == domain
    ensures IsLower(domain) ==> Lower(address) == address
  {
    var username := "";
    for i := 0 to LocalPartLength
      invariant |username| == i
      invariant forall k :: 0 <= k < i ==> username[k] == Alphabet[picks[k]]
    {
      username := username + [Alphabet[picks[i]]];
    }
    address := username + "@" + domain;
    assert address[..LocalPartLength] == username;
    assert address[LocalPartLength + 1..] == domain;
    if IsLower(domain) {
      AlphabetIsLower();
      assert IsLower(address) by {
        forall i | 0 <= i < |address| ensures !('A' <= address[i] <= 'Z') {
          if i < LocalPartLength {
            assert address[i] == Alphabet[picks[i]];
          } else if i > LocalPartLength {
            assert address[i] == domain[i - LocalPartLength - 1];
          }
        }
      }
      LowerOfLower(address);
    }
  }

  /** No character of the alphabet is an upper-case letter. */
  lemma AlphabetIsLower()
    ensures IsLower(Alphabet)
  {
  }

  // ---------------------------------------------------------------------------
  // Intake: building the stored message and its preview

  /** An attachment as the MIME parser yields it; only its metadata is kept. */
  datatype ParsedAttachment = ParsedAttachment(filename: string, contentType: string, size: int, content: seq<bv8>)

  /** The fields of `simpleParser`'s result that intake reads; `None` is a missing or falsy field. */
  datatype ParsedMail = ParsedMail(
    from: Option<string>,
    subject: Option<string>,
    text: Option<string>,
    html: Option<string>,
    date: Option<int>,
    attachments: Option<seq<ParsedAttachment>>)

  /** What the parser hands to the `onData` callback. */
  datatype ParseResult = ParseFailed(error: string) | Parsed(mail: ParsedMail)

  /** What intake passes to the SMTP server's `callback`. */
  datatype Reply = Accepted | Rejected(error: string)

  /** JavaScript's `s || fallback` on a possibly missing string: empty counts as missing. */
  function OrElse(s: Option<string>, fallback: string): (r: string)
    ensures s.Some? && s.value != "" ==> r == s.value
    ensures s.None? || s.value == "" ==> r == fallback
  {
    if s.Some? && s.value != "" then s.value else fallback
  }

  function Metadata(a: ParsedAttachment): Attachment {
    Attachment(a.filename, a.contentType, a.size)
  }

  /** The envelope recipients, each lower-cased, in envelope order (duplicates kept). */
  function LowerAll(rcptTo: seq<string>): (recipients: seq<string>)
    ensures |recipients| == |rcptTo|
    ensures forall i :: 0 <= i < |rcptTo| ==> recipients[i] == Lower(rcptTo[i])
  {
    seq(|rcptTo|, i requires 0 <= i < |rcptTo| => Lower(rcptTo[i]))
  }

  /**
   * The `emailData` object built in `onData`: parsed fields with their
   * defaults, the lower-cased recipients and the attachment metadata.
   */
  function BuildMessage(mail: ParsedMail, rcptTo: seq<string>, mailFrom: string, id: string, now: int): (m: Message)
    ensures m.id == id
    ensures m.to == LowerAll(rcptTo)
    ensures mail.from.Some? && mail.from.value != "" ==> m.from == mail.from.value
    ensures mail.from.None? || mail.from.value == "" ==> m.from == mailFrom
    ensures m.subject == if mail.subject.Some? && mail.subject.value != "" then mail.subject.value else NoSubject
    ensures m.text == if mail.text.Some? then mail.text.value else ""
    ensures m.html == if mail.html.Some? then mail.html.value else ""
    ensures m.date == if mail.date.Some? then mail.date.value else now
    ensures mail.attachments.None? ==> m.attachments == []
    ensures mail.attachments.Some? ==>
      |m.attachments| == |mail.attachments.value| &&
      forall i :: 0 <= i < |m.attachments| ==>
        var a := mail.attachments.value[i];
        m.attachments[i] == Attachment(a.filename, a.contentType, a.size)
  {
    Message(
      id,
      OrElse(mail.from, mailFrom),
      LowerAll(rcptTo),
      OrElse(mail.subject, NoSubject),
      OrElse(mail.text, ""),
      OrElse(mail.html, ""),
      mail.date.GetOr(now),
      if mail.attachments.Some? then
        seq(|mail.attachments.value|, i requires 0 <= i < |mail.attachments.value| => Metadata(mail.attachments.value[i]))
      else [])
  }

  /** The preview pushed onto each recipient's inbox: same id, sender, subject and date, and the body cut to 100 characters. */
  function MakePreview(m: Message): (p: Preview)
    ensures p.id == m.id && p.from == m.from && p.subject == m.subject && p.date == m.date
    ensures |p.preview| == if |m.text| < PreviewLength then |m.text| else PreviewLength
    ensures p.preview == m.text[..|p.preview|]
  {
    Preview(m.id, m.from, m.subject, m.date, Prefix(m.text, PreviewLength))
  }

  // ---------------------------------------------------------------------------
  // Intake: fan-out of one preview to every recipient

  /** One step of the `forEach`: create the inbox with timestamp `now` if absent, then append `p`. */
  function DeliverOne(boxes: map<string, Mailbox>, recipient: string, p: Preview, now: int): (after: map<string, Mailbox>)
    ensures after.Keys == boxes.Keys + {recipient}
    ensures after[recipient].content == ContentOf(boxes, recipient) + [p]
  {
    var box := if recipient in boxes then boxes[recipient] else Timed([], now);
    boxes[recipient := Timed(box.content + [p], box.timestamp)]
  }

  /** The inboxes after the `forEach` has visited `recipients` in order. */
  function Deliver(boxes: map<string, Mailbox>, recipients: seq<string>, p: Preview, now: int): (after: map<string, Mailbox>)
    ensures after.Keys == boxes.Keys + set r | r in recipients
  {
    if recipients == [] then boxes
    else DeliverOne(Deliver(boxes, recipients[..|recipients| - 1], p, now), recipients[|recipients| - 1], p, now)
  }

  /** Delivering to one more recipient of a prefix is one more fan-out step. */
  lemma DeliverPrefix(boxes: map<string, Mailbox>, recipients: seq<string>, i: int, p: Preview, now: int)
    requires 0 <= i < |recipients|
    ensures Deliver(boxes, recipients[..i + 1], p, now) == DeliverOne(Deliver(boxes, recipients[..i], p, now), recipients[i], p, now)
  {
    assert recipients[..i + 1][..i] == recipients[..i];
  }

  /** The handler's two updates, creating the inbox when missing and then appending, make one fan-out step. */
  lemma CreateThenAppend(boxes: map<string, Mailbox>, recipient: string, p: Preview, now: int)
    ensures var created := if recipient in boxes then boxes else boxes[recipient := Timed([], now)];
      created[recipient := Timed(created[recipient].content + [p], created[recipient].timestamp)] == DeliverOne(boxes, recipient, p, now)
  {
  }

  /** How many times `a` occurs in `s`. */
  function Occurrences(s: seq<string>, a: string): nat
  {
    if s == [] then 0
    else Occurrences(s[..|s| - 1], a) + if s[|s| - 1] == a then 1 else 0
  }

  /** `n` copies of `p`. */
  function Copies(p: Preview, n: nat): (r: seq<Preview>)
    ensures |r| == n
    ensures forall i :: 0 <= i < n ==> r[i] == p
  {
    if n == 0 then [] else Copies(p, n - 1) + [p]
  }

  /** One fan-out step touches the inbox of its recipient only. */
  lemma DeliverOneAt(boxes: map<string, Mailbox>, recipient: string, p: Preview, now: int, a: string)
    ensures var after := DeliverOne(boxes, recipient, p, now);
      && (a in after <==> a in boxes || a == recipient)
      && (a != recipient && a in boxes ==> after[a] == boxes[a])
      && (a == recipient ==>
            after[a] == Timed((if a in boxes then boxes[a].content else []) + [p], if a in boxes then boxes[a].timestamp else now))
  {
  }

  /**
   * Which inboxes exist after fan-out, and their timestamps: an inbox
   * exists exactly when it existed or the address is a recipient; an
   * existing inbox keeps its timestamp and a new one is stamped `now`.
   */
  lemma {:induction false} DeliverKeysAt(boxes: map<string, Mailbox>, recipients: seq<string>, p: Preview, now: int, a: string)
    ensures var after := Deliver(boxes, recipients, p, now);
      && (a in after <==> a in boxes || a in recipients)
      && (a in after ==> after[a].timestamp == if a in boxes then boxes[a].timestamp else now)
  {
    if recipients != [] {
      var init := recipients[..|recipients| - 1];
      var last := recipients[|recipients| - 1];
      assert a in recipients <==> a in init || a == last by {
        assert recipients == init + [last];
      }
      DeliverKeysAt(boxes, init, p, now, a);
      DeliverOneAt(Deliver(boxes, init, p, now), last, p, now, a);
    }
  }

  /** The previews held for `a`, none when it has no inbox. */
  function ContentOf(boxes: map<string, Mailbox>, a: string): seq<Preview>
  {
    if a in boxes then boxes[a].content else []
  }

  /** Each occurrence of `a` among the recipients appends one copy of the preview to its inbox. */
  lemma {:induction false} DeliverContent(boxes: map<string, Mailbox>, recipients: seq<string>, p: Preview, now: int, a: string)
    ensures ContentOf(Deliver(boxes, recipients, p, now), a) == ContentOf(boxes, a) + Copies(p, Occurrences(recipients, a))
  {
    if recipients != [] {
      var init := recipients[..|recipients| - 1];
      DeliverContent(boxes, init, p, now, a);
      DeliverOneAt(Deliver(boxes, init, p, now), recipients[|recipients| - 1], p, now, a);
      var n := Occurrences(init, a);
      assert Copies(p, n + 1) == Copies(p, n) + [p];
    }
  }

  /**
   * The contents of every inbox after fan-out: what it held before (nothing
   * for a new inbox) followed by one copy of the preview per occurrence of
   * the address among the recipients; the inbox exists afterwards.
   */
  lemma DeliverAt(boxes: map<string, Mailbox>, recipients: seq<string>, p: Preview, now: int, a: string)
    requires a in boxes || a in recipients
    ensures var after := Deliver(boxes, recipients, p, now);
      a in after && after[a].content == (if a in boxes then boxes[a].content else []) + Copies(p, Occurrences(recipients, a))
  {
    DeliverKeysAt(boxes, recipients, p, now, a);
    DeliverContent(boxes, recipients, p, now, a);
  }

  /** An element that is not in `s` occurs zero times. */
  lemma {:induction false} OccurrencesAbsent(s: seq<string>, a: string)
    requires a !in s
    ensures Occurrences(s, a) == 0
  {
    if s != [] {
      var init := s[..|s| - 1];
      assert a !in init by {
        assert s == init + [s[|s| - 1]];
      }
      OccurrencesAbsent(init, a);
    }
  }

  /** Delivery to distinct recipients: every recipient's inbox ends with exactly one new preview. */
  lemma DeliverDistinct(boxes: map<string, Mailbox>, recipients: seq<string>, p: Preview, now: int, a: string)
    requires a in recipients
    requires forall i, j :: 0 <= i < j < |recipients| ==> recipients[i] != recipients[j]
    ensures var after := Deliver(boxes, recipients, p, now);
      a in after && after[a].content == (if a in boxes then boxes[a].content else []) + [p]
  {
    DeliverAt(boxes, recipients, p, now, a);
    var i :| 0 <= i < |recipients| && recipients[i] == a;
    DistinctCount(recipients, i);
    assert Copies(p, 1) == [p];
  }

  /** In a sequence without repetitions, an element occurs once. */
  lemma {:induction false} DistinctCount(s: seq<string>, i: int)
    requires 0 <= i < |s|
    requires forall j, k :: 0 <= j < k < |s| ==> s[j] != s[k]
    ensures Occurrences(s, s[i]) == 1
  {
    var init := s[..|s| - 1];
    if i == |s| - 1 {
      assert s[i] !in init;
      OccurrencesAbsent(init, s[i]);
    } else {
      assert s[i] == init[i];
      DistinctCount(init, i);
    }
  }

  // ---------------------------------------------------------------------------
  // Retention sweep

  /** The entries of `m` that are not expired at `now`. */
  function Unexpired<T>(m: map<string, Timed<T>>, now: int, retentionMs: int): (kept: map<string, Timed<T>>)
    ensures forall k :: k in kept <==> k in m && !Expired(m[k].timestamp, now, retentionMs)
    ensures forall k :: k in kept ==> kept[k] == m[k]
  {
    map k | k in m && !Expired(m[k].timestamp, now, retentionMs) :: m[k]
  }

  /**
   * One loop of `cleanupExpiredEmails`: visit every key and delete the
   * entry when it is expired.
   */
  method Evict<T>(m: map<string, Timed<T>>, now: int, retentionMs: int) returns (kept: map<string, Timed<T>>)
    ensures kept.Keys <= m.Keys
    ensures forall k :: k in m ==> (k in kept <==> !Expired(m[k].timestamp, now, retentionMs))
    ensures forall k :: k in kept ==> kept[k] == m[k]
  {
    kept := m;
    var pending := m.Keys;
    while pending != {}
      invariant pending <= kept.Keys <= m.Keys
      invariant forall k :: k in kept ==> kept[k] == m[k]
      invariant forall k :: k in m && k !in pending ==> (k in kept <==> !Expired(m[k].timestamp, now, retentionMs))
      decreases pending
    {
      var key :| key in pending;
      if now - kept[key].timestamp > retentionMs {
        kept := kept - {key};
      }
      pending := pending - {key};
    }
  }

  /**
   * A later sweep subsumes an earlier one: sweeping at `t1` and then at
   * `t2 >= t1` leaves what one sweep at `t2` leaves. A delayed or missed
   * sweep therefore only keeps entries longer, never removes them early.
   */
  lemma SweepsCompose<T>(m: map<string, Timed<T>>, t1: int, t2: int, retentionMs: int)
    requires t1 <= t2
    ensures Unexpired(Unexpired(m, t1, retentionMs), t2, retentionMs) == Unexpired(m, t2, retentionMs)
  {
    var a := Unexpired(Unexpired(m, t1, retentionMs), t2, retentionMs);
    var b := Unexpired(m, t2, retentionMs);
    assert a.Keys == b.Keys;
  }

  // ---------------------------------------------------------------------------
  // The store

  /** Result of `GET /api/emails/:emailAddress`. */
  datatype InboxView = InboxView(emails: seq<Preview>, count: int, expiresAt: Option<int>)

  class MailStore {
    const domain: string
    const retentionHours: int
    /** `emails`: message id to stored message. */
    var emails: map<string, StoredMessage>
    /** `emailBoxes`: address to inbox; intake and listing use lower-cased addresses, `Generate` the address as minted. */
    var boxes: map<string, Mailbox>

    /** Every stored message is kept under its own id. */
    predicate IdsMatch()
      reads this
    {
      forall k :: k in emails ==> emails[k].content.id == k
    }

    /** An empty store for the configured domain and retention. */
    constructor (domain: string, retentionHours: int)
      ensures this.domain == domain && this.retentionHours == retentionHours
      ensures emails == map[] && boxes == map[]
      ensures IdsMatch()
    {
      this.domain := domain;
      this.retentionHours := retentionHours;
      emails := map[];
      boxes := map[];
    }

    function RetentionMs(): int
      reads this
    {
      retentionHours * MsPerHour
    }

    /**
     * `GET /api/generate`: mint a random address and give it an empty inbox
     * stamped `now`. An inbox already under that key is overwritten.
     */
    method Generate(picks: seq<int>, now: int) returns (address: string)
      requires |picks| == LocalPartLength
      requires forall i :: 0 <= i < |picks| ==> 0 <= picks[i] < |Alphabet|
      requires IdsMatch()
      modifies this
      ensures IdsMatch()
      ensures |address| == LocalPartLength + 1 + |domain|
      ensures InAlphabet(address[..LocalPartLength]) && address[LocalPartLength..] == "@" + domain
      ensures boxes == old(boxes)[address := Timed([], now)]
      ensures emails == old(emails)
      ensures IsLower(domain) ==> List(address) == InboxView([], 0, Some(now + RetentionMs()))
      ensures !IsLower(domain) ==> Lower(address) != address
    {
      address := RandomAddress(picks, domain);
      assert address[LocalPartLength..] == "@" + domain;
      if !IsLower(domain) {
        UpperDomainNotListed(address, domain);
      }
      boxes := boxes[address := Timed([], now)];
    }

    /**
     * `GET /api/emails/:emailAddress`: the inbox of the lower-cased address,
     * its size and its expiry instant; an unknown address lists as empty
     * with no expiry.
     */
    function List(address: string): (view: InboxView)
      reads this
      ensures Lower(address) in boxes ==>
        var box := boxes[Lower(address)];
        view.emails == box.content && view.expiresAt == Some(box.timestamp + RetentionMs())
      ensures Lower(address) !in boxes ==> view.emails == [] && view.expiresAt == None
      ensures view.count == |view.emails|
    {
      var key := Lower(address);
      if key in boxes then
        InboxView(boxes[key].content, |boxes[key].content|, Some(boxes[key].timestamp + RetentionMs()))
      else
        InboxView([], 0, None)
    }

    /** `GET /api/email/:id`: the stored message, or `None` for not found. */
    function Fetch(id: string): (found: Option<Message>)
      reads this
      ensures found.Some? <==> id in emails
      ensures found.Some? ==> found.value == emails[id].content
      ensures found.Some? && IdsMatch() ==> found.value.id == id
    {
      if id in emails then Some(emails[id].content) else None
    }

    /**
     * `DELETE /api/emails/:emailAddress`: remove the inbox of the lower-cased
     * address, if any. Messages stay fetchable.
     */
    method Delete(address: string)
      requires IdsMatch()
      modifies this
      ensures IdsMatch()
      ensures boxes == old(boxes) - {Lower(address)}
      ensures emails == old(emails)
      ensures List(address) == InboxView([], 0, None)
    {
      boxes := boxes - {Lower(address)};
    }

    /**
     * `onData` after parsing: on a parse error report it and change nothing;
     * otherwise store the message once under `id` (overwriting an entry with
     * the same id) and append its preview to each recipient's inbox.
     */
    method Receive(parse: ParseResult, rcptTo: seq<string>, mailFrom: string, id: string, now: int) returns (reply: Reply)
      requires IdsMatch()
      modifies this
      ensures IdsMatch()
      ensures parse.ParseFailed? ==> reply == Rejected(parse.error) && emails == old(emails) && boxes == old(boxes)
      ensures parse.Parsed? ==>
        var m := BuildMessage(parse.mail, rcptTo, mailFrom, id, now);
        && reply == Accepted
        && emails == old(emails)[id := Timed(m, now)]
        && boxes == Deliver(old(boxes), m.to, MakePreview(m), now)
    {
      if parse.ParseFailed? {
        return Rejected(parse.error);
      }
      var recipients := LowerAll(rcptTo);
      var m := BuildMessage(parse.mail, rcptTo, mailFrom, id, now);
      emails := emails[id := Timed(m, now)];
      var p := MakePreview(m);
      for i := 0 to |recipients|
        invariant emails == old(emails)[id := Timed(m, now)]
        invariant boxes == Deliver(old(boxes), recipients[..i], p, now)
      {
        var r := recipients[i];
        DeliverPrefix(old(boxes), recipients, i, p, now);
        CreateThenAppend(boxes, r, p, now);
        if r !in boxes {
          boxes := boxes[r := Timed([], now)];
        }
        boxes := boxes[r := Timed(boxes[r].content + [p], boxes[r].timestamp)];
      }
      assert recipients[..|recipients|] == recipients;
      reply := Accepted;
    }

    /** `cleanupExpiredEmails` at instant `now`: inboxes and messages are evicted independently. */
    method Sweep(now: int)
      requires IdsMatch()
      modifies this
      ensures IdsMatch()
      ensures boxes == Unexpired(old(boxes), now, RetentionMs())
      ensures emails == Unexpired(old(emails), now, RetentionMs())
    {
      var retentionMs := retentionHours * MsPerHour;
      boxes := Evict(boxes, now, retentionMs);
      emails := Evict(emails, now, retentionMs);
    }
  }

  /** The expiry instant a listing reports is the last instant at which a sweep keeps the inbox. */
  lemma ListedExpiryMatchesSweep(store: MailStore, address: string, now: int)
    requires Lower(address) in store.boxes
    ensures store.List(address).expiresAt.Some?
    ensures var kept := Unexpired(store.boxes, now, store.RetentionMs());
      Lower(address) in kept <==> now <= store.List(address).expiresAt.value
  {
  }

  /**
   * A minted address whose domain has an upper-case letter is not its own
   * lower-cased form, so listing it reads another key than the one
   * `Generate` filled.
   */
  lemma UpperDomainNotListed(address: string, domain: string)
    requires |address| > LocalPartLength && address[LocalPartLength + 1..] == domain
    requires !IsLower(domain)
    ensures Lower(address) != address
  {
    var i :| 0 <= i < |domain| && 'A' <= domain[i] <= 'Z';
    assert address[LocalPartLength + 1 + i] == domain[i];
    assert Lower(address)[LocalPartLength + 1 + i] != domain[i];
  }

  /** Listing does not depend on the letter case of the address. */
  lemma ListIgnoresCase(store: MailStore, address: string)
    ensures store.List(address) == store.List(Lower(address))
  {
    LowerIsLower(address);
  }
}
