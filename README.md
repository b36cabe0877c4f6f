# Temporary mail service — a Dafny model

This project models the core of a disposable-mail service. It has two halves.

The server (`server.js`) holds everything in memory:

- a map from message id to the stored message;
- a map from address to its inbox. Intake, listing and deletion use the lower-cased address, while `GET /api/generate` stores the address as minted. An inbox is a list of short previews with the instant the inbox was created.

The server's operations are:

- a random address is minted with an empty inbox (`GET /api/generate`);
- an inbox is listed with its expiry instant, one message is fetched by id, and an inbox is deleted;
- mail arriving over SMTP is parsed, stored once and fanned out as a preview to every recipient's inbox;
- an hourly sweep evicts every inbox and every message older than the retention period.

The browser page (`public/mail.js`) keeps its own cache of the inbox in `localStorage`:

- a newest-first list of messages without repeated ids;
- the set of ids already seen.

On each refresh it merges the server's listing into that cache. Each new message is fetched in full, and its preview is stored when the fetch fails. The page also has a few string rules:

- the user name is taken from the URL path;
- the page's own address is built from it;
- a compose recipient without `@` is completed with the default domain;
- the body shown for a message is chosen by a fallback order.

Files:

- `wrappers.dfy` (`Wrappers`): `Option`.
- `mail_data.dfy` (`MailData`): the message, preview and attachment records, the timestamped entry, and ASCII lower-casing.
- `server.dfy` (`MailServer`): configuration, address minting, intake, fan-out, the sweep, and the `MailStore` class whose fields are the two maps.
- `page_text.dfy` (`PageText`): path splitting and the user name, `trim`, recipient completion, and body choice.
- `page.dfy` (`MailPage`): the `InboxCache` class (the `localStorage` slot and `lastEmailIds`), the refresh merge and its specification `MergeAll`, and the body of a cached message.

State that the source changes in place is modelled as classes:

- the server's two maps are `MailStore.emails` and `MailStore.boxes`;
- the page's stored list and seen ids are `InboxCache.slot` and `InboxCache.seen`.

Loops in the source are methods with loops:

- the random draw is `RandomAddress`;
- the fan-out `forEach` is inside `Receive`;
- each sweep loop is `Evict`;
- the refresh loop is `Merge`;
- the seen-ids `forEach` is `RememberShown`.

Each loop is proved against what it computes:

- `Receive` is proved against the fan-out function `Deliver`;
- `Evict` against the map function `Unexpired`;
- `Merge` against the refresh function `MergeAll`;
- `RandomAddress` against the draws, character by character (`Alphabet[picks[i]]`);
- `RememberShown` against the set of cached ids `IdsOf`.

The properties the service relies on are proved as lemmas about `Deliver`, `Unexpired` and `MergeAll`.

The model keeps these behaviours of the code:

- `GET /api/generate` overwrites an inbox already stored under the drawn address. It does not reject the address or retry.
- Recipients are not de-duplicated. An address named twice in the envelope gets the preview twice (`DeliverAt`). Exactly one copy is guaranteed only for distinct recipients (`DeliverDistinct`).
- Eviction is strict: an entry is removed only when it is strictly older than the retention period (`now - timestamp > retentionMs`). It is still listed and kept at exactly the expiry instant (`ListedExpiryMatchesSweep`).
- A message id that collides with a stored one overwrites that message.
- The delete handler removes the inbox only. The messages stay fetchable by id until the sweep removes them.

There is one consequence of the code worth knowing. `generateRandomEmail` keys the new inbox with the domain as configured, while listing lower-cases the address it is given. So when `DOMAIN` contains an upper-case letter, a freshly generated inbox is never found by listing. For this reason `Generate`'s promise about listing is stated only for a lower-case domain. For any other domain, `Generate` proves that the minted address differs from its lower-cased form, so listing reads another key (`UpperDomainNotListed`).

The clock, the random source, the MIME parser and the page's HTTP requests are external. Their results are parameters:

- `now` stands for the clock: it is `Date.now()` and `new Date()` in the handler it is passed to;
- `picks` is the ten `Math.floor(Math.random() * 36)` draws;
- `id` is the generated message id;
- `ParseResult` is what `simpleParser` reports;
- `Option<seq<Preview>>` is a listing request that failed or succeeded;
- `details[i]` is the full message when fetching it succeeded.

## Model

| member | source | states |
|---|---|---|
| MailServer.ConfiguredDomain | server.js:12 | the domain is the `DOMAIN` variable when it is set and non-empty, otherwise `temp-mail.local`; it is never empty |
| MailServer.ConfiguredRetentionHours | server.js:13 | the retention is the parsed hour count unless parsing gave NaN or 0, in which case it is 24; it is never 0 |
| MailServer.RandomAddress | server.js:29-36 | the address is ten characters, the i-th being the alphabet character at the i-th draw, then `@` and the domain; the local part lies in the alphabet, and the address is lower-case when the domain is |
| MailServer.AlphabetIsLower | server.js:30 | no character of the alphabet is an upper-case letter, so a minted local part survives lower-casing |
| MailServer.MailStore.Generate | server.js:77-82 | the new address has the minted shape; the inbox map gains (or overwrites) that address with an empty inbox stamped `now`; messages are unchanged; with a lower-case domain, listing the address right away gives no messages and expiry `now` plus the retention; with a domain holding an upper-case letter, the address differs from its lower-cased form; every message stays stored under its own id |
| MailServer.MailStore.List | server.js:105-114 | the listing reads the inbox of the lower-cased address: its previews and its timestamp plus the retention as the expiry; an unknown address lists no previews and no expiry; the count is the number of previews listed |
| MailServer.UpperDomainNotListed | server.js:79 | an address whose domain part holds an upper-case letter is not its own lower-cased form, so the inbox stored under it is not the one listing reads |
| MailServer.ListIgnoresCase | server.js:106-107 | listing an address and listing its lower-cased form give the same result |
| MailServer.ListedExpiryMatchesSweep | server.js:41-45 | for a listed inbox, a sweep at `now` keeps it exactly when `now` is at or before the expiry instant the listing reports |
| MailServer.MailStore.Fetch | server.js:117-131 | a message is found exactly when its id is stored, and then it is the stored message, whose id is the one it was fetched by as long as every message is stored under its own id; otherwise the not-found path |
| MailServer.MailStore.Delete | server.js:134-141 | the inbox map loses the lower-cased address and nothing else; messages are unchanged; afterwards the address lists as unknown; every message stays stored under its own id |
| MailServer.OrElse | server.js:163-168 | JavaScript's logical-or with a fallback string: a missing or empty value gives the fallback, any other value is kept |
| MailServer.LowerAll | server.js:157 | the recipients are the envelope addresses lower-cased, one for one and in order |
| MailServer.BuildMessage | server.js:157-174 | the stored message has the given id and the lower-cased recipients; sender, subject, text, html and date take the parsed value or fall back to the envelope sender, `(No Subject)`, empty, empty and `now`; attachments keep only filename, type and size, one for one |
| MailServer.MakePreview | server.js:190-196 | the preview has the message's id, sender, subject and date, and its text is the first `min(100, length)` characters of the message text |
| MailServer.MailStore.Receive | server.js:149-202 | a parse error is passed back and nothing changes; otherwise the reply is success, the message map gains the built message under `id` stamped `now`, and the inbox map is the fan-out `Deliver` of its preview to the recipients in order; since the message carries `id`, every message stays stored under its own id |
| MailServer.DeliverOne | server.js:184-196 | one `forEach` step: the inbox map gains the recipient's key if it was missing and no other key, and the recipient's inbox ends with the preview after its old contents |
| MailServer.Deliver | server.js:183-197 | after the `forEach`, the inbox keys are the old keys plus every recipient |
| MailServer.CreateThenAppend | server.js:184-196 | the handler's two updates, creating the inbox with stamp `now` when missing and then pushing the preview, give exactly the fan-out step `DeliverOne` |
| MailServer.DeliverOneAt | server.js:183-196 | one fan-out step creates the recipient's inbox when missing (stamped `now`), appends the preview to it and leaves every other inbox as it was |
| MailServer.DeliverKeysAt | server.js:183-189 | after fan-out an inbox exists exactly when it existed before or its address is a recipient; an existing inbox keeps its timestamp and a new one is stamped `now` |
| MailServer.DeliverContent | server.js:183-197 | after fan-out each address holds its old previews followed by one copy of the preview per occurrence among the recipients |
| MailServer.DeliverAt | server.js:183-197 | an address that had an inbox or is a recipient has an inbox afterwards, holding its old previews (none if new) followed by one copy per occurrence among the recipients |
| MailServer.DeliverDistinct | server.js:183-197 | with no repeated recipients, each recipient's inbox ends with exactly one new copy of the preview after its old contents |
| MailServer.OccurrencesAbsent | server.js:183 | an address that is not a recipient receives no copies |
| MailServer.DistinctCount | server.js:183 | among distinct recipients each one occurs once |
| MailServer.Copies | server.js:190 | the repeated previews are exactly `n` entries, each equal to the preview |
| MailServer.Expired | server.js:45 | an entry is expired when `now` minus its stamp exceeds the retention, so with a non-negative retention only an entry stamped before `now` can be expired |
| MailServer.Unexpired | server.js:39-56 | an entry is kept exactly when it is in the map and not strictly older than the retention at `now`, and it is kept unchanged |
| MailServer.Evict | server.js:44-49 | the loop deletes exactly the expired entries: the keys only shrink, a key stays exactly when it is not expired, and kept values are unchanged |
| MailServer.MailStore.Sweep | server.js:39-59 | both the inbox map and the message map become their unexpired entries at `now` under the configured retention, each evicted independently; every message stays stored under its own id |
| MailServer.SweepsCompose | server.js:39-62 | a sweep at `t1` followed by one at a later `t2` leaves what a single sweep at `t2` leaves, so a delayed sweep never evicts early |
| MailData.LowerChar | server.js:106 | lower-casing changes exactly the upper-case letters, each to its lower-case letter, and never yields an upper-case letter |
| MailData.Lower | server.js:106 | lower-casing keeps the length and lower-cases each character in place |
| MailData.LowerIsLower | server.js:106 | the result of lower-casing is lower-case, and lower-casing it again changes nothing |
| MailData.LowerOfLower | server.js:106 | a string with no upper-case letter is left unchanged by lower-casing |
| MailData.LowerConcat | public/mail.js:151 | lower-casing a concatenation lower-cases each part |
| MailData.Prefix | server.js:195 | `substring(0, n)` gives the first `n` characters, or the whole string when it is shorter |
| MailPage.InboxCache.LocalEmails | public/mail.js:59-67 | the cached list is the stored list when one is stored and readable, otherwise empty |
| MailPage.InboxCache.AddEmail | public/mail.js:79-88 | a message is added exactly when no cached message has its id; when added, the stored list is it followed by the old list, otherwise storage is unchanged; distinct ids stay distinct |
| MailPage.PrependKeepsDistinct | public/mail.js:82-83 | putting a message with a new id in front keeps the ids distinct |
| MailPage.HasIdInSuffix | public/mail.js:83 | a message already cached stays cached when others are put in front of it |
| MailPage.InboxCache.RememberShown | public/mail.js:175 | the seen ids become the old seen ids plus the id of every cached message |
| MailPage.Chosen | public/mail.js:198-217 | the entry stored for a new preview is the full message when its fetch succeeded, otherwise the preview itself |
| MailPage.MergeStep | public/mail.js:191-219 | one iteration changes the state exactly when the preview id is unseen and no cached entry has the chosen entry's id; it then puts the chosen entry in front, marks the preview id as seen and raises the new-mail flag |
| MailPage.MergeAll | public/mail.js:186-220 | after the loop over the listing the cache has grown by at most one entry per listed preview, the seen ids only grew, and a raised new-mail flag stays raised |
| MailPage.InboxCache.Merge | public/mail.js:186-220 | the loop leaves the cache, the seen ids and the new-mail flag equal to the `MergeAll` specification of the listing; storage is rewritten only when something was added |
| MailPage.MergeGrowsAtFront | public/mail.js:186-220 | a refresh only adds messages in front of the cached list, at most one per listed preview, keeps the old list as its tail, and never forgets a seen id |
| MailPage.MergeFlagIffAdded | public/mail.js:188-220 | the new-mail flag is raised exactly when the refresh added at least one message to the cache |
| MailPage.MergeKeepsDistinct | public/mail.js:186-220 | a refresh keeps the cached ids distinct |
| MailPage.MergeCoversListing | public/mail.js:186-220 | when fetched messages carry their preview's id, every listed id ends up seen before or cached, and every id newly marked seen is cached |
| MailPage.InboxCache.Refresh | public/mail.js:179-249 | a failed listing adds nothing and only re-marks the cached ids as seen; otherwise the cache is the merge of the listing, and when mail was added every cached id is marked seen |
| MailPage.StoreRefreshCoversListing | server.js:161-180 | when every fetched detail is what the server's store holds for its preview's id, every listed id ends up seen before or cached, whichever fetches failed, because intake stores each message under its own id |
| MailPage.InboxCache.Clear | public/mail.js:376-383 | once the dialog is confirmed, the stored list is removed and the seen ids are forgotten, so the cache reads as empty |
| MailPage.DetailBody | public/mail.js:314-317 | a full message is never shown by a preview, and shows no content only when both its html and its text are blank; a stored preview shows its preview exactly when that holds a non-white-space character, and no content otherwise |
| PageText.Split | public/mail.js:52 | splitting on `/` always yields at least one part |
| PageText.SplitPartsHaveNoSlash | public/mail.js:52 | no part of a split contains `/` |
| PageText.LastPartIsSuffix | public/mail.js:52-53 | the last part of a split is the suffix after the last `/`, or the whole string when it has none |
| PageText.JoinSplit | public/mail.js:52 | joining the parts of a split with `/` gives back the original string |
| PageText.NonEmpty | public/mail.js:52 | `.filter(Boolean)` keeps exactly the non-empty parts and no empty one, so it is no longer than the split; its last element is a part followed only by empty parts |
| PageText.Username | public/mail.js:52-53 | the user name is empty or one of the `/`-separated parts of the path |
| PageText.UsernameDropsTrailingSlash | public/mail.js:52-53 | a trailing `/` on the path does not change the user name |
| PageText.UsernameIsLastPart | public/mail.js:52-53 | for a path not ending in `/`, the user name is the last part of the split, and it is not empty |
| PageText.LastSegmentAtSlash | public/mail.js:52-53 | appending `/` to a path keeps its last segment where it was |
| PageText.UsernameHasNoSlash | public/mail.js:52-53 | the user name never contains `/` |
| PageText.UsernameEmptyIffSlashes | public/mail.js:52-53 | the user name is empty exactly when the path consists of `/` characters only |
| PageText.UsernameIsLastSegment | public/mail.js:52-53 | a non-empty user name occurs in the path right after a `/` or at the start, and only `/` follows it |
| PageText.CurrentAddress | public/mail.js:151 | the page's address is the lower-cased user name, `@` and the domain; lower-casing it lower-cases only the domain part, so it is lower-case when the domain is |
| PageText.SkipSpaces | public/mail.js:114 | the scan from the front stops at the first character that is not white space, and skips only white space |
| PageText.BackSpaces | public/mail.js:114 | the scan from the back stops after the last character that is not white space, and skips only white space |
| PageText.TrimIsSlice | public/mail.js:114 | `trim` returns a slice of its input with only white space outside it |
| PageText.Trim | public/mail.js:114 | the result of `trim` is no longer than its input and neither starts nor ends with white space |
| PageText.TrimEmptyIffBlank | public/mail.js:114-115 | `trim` gives the empty string exactly when every character is white space |
| PageText.TrimOfTrimmed | public/mail.js:114 | `trim` leaves a string without white space at either end unchanged |
| PageText.CompleteRecipient | public/mail.js:421-424 | the recipient sent on submit is the trimmed input when that is empty or contains `@`, and otherwise the trimmed input with `@` and the default domain appended |
| PageText.CompleteRecipientIdempotent | public/mail.js:421-424 | when the domain does not end in white space, a submitted recipient is empty or contains `@`, and completing it again changes nothing |
| PageText.BlurComplete | public/mail.js:113-117 | on blur, the field becomes the trimmed input with `@` and the default domain when the trimmed input is non-empty and has no `@`; otherwise the field keeps what was typed, untrimmed |
| PageText.BlurThenSubmit | public/mail.js:113-117 | when the domain does not end in white space, submitting after the blur completion sends the same recipient as submitting the typed input directly |
| PageText.ChooseBody | public/mail.js:314-317 | the html is shown exactly when it is present and not blank; otherwise the text when it is not blank; otherwise the preview when it is not blank; otherwise no content; the value shown is the chosen field |
| Wrappers.Option.GetOr | server.js:168 | a present value is returned as is and an absent one gives the default (the receipt instant for a missing date) |

## Left out

- HTTP routing, CORS, JSON encoding, status codes and static file serving: only what each handler reads and changes in the two maps is modelled.
- The SMTP server and `simpleParser`: the parse result is an input (`ParseResult`), and the size limit `MAX_EMAIL_SIZE` that the SMTP server enforces is not modelled.
- The `setInterval` timer: `Sweep` is one run of `cleanupExpiredEmails`, and when it runs is up to the caller.
- `getMemoryStats` and `GET /api/stats`: these report process memory, which has no counterpart here. The page's use of the returned domain is the `domain` parameter of `CurrentAddress` and `CompleteRecipient`.
- Logging (`console.log`, `console.error`): it has no effect on state.
- `public/app.js`: it is not part of this model.
- The page's DOM rendering, `escapeHtml`, the `\n` to `<br>` replacement, `formatBytes`, the notification sound and the hours-until-expiry text. A `Body` names which field is shown, not its markup, and `NoContent` stands for the literal placeholder text.
- The JSON round trip of `localStorage`: a stored list is a `Slot` value, and text that does not parse is `Unreadable`. A failing `saveLocalEmails` (storage full) is not modelled; a save always succeeds.
- The lookup in `showEmailDetail`, which tries the cache and then the server, is not modelled; only the body choice (`DetailBody`) is.
- The `if (!currentEmail) return` guard and a listing whose `success` is false: the server always answers `success: true`, so a listing is either a failed request (`None`) or a list.
- `POST /api/send` and the other routes the page calls but `server.js` does not define.
- Concurrency: the asynchronous handlers are modelled as atomic steps, and interleavings of intake, sweep and refresh are not modelled.
- The clear-cache dialog: only the confirmed branch is modelled (`Clear`); a declined dialog changes nothing.
- MailServer.MailStore.Receive: one instant `now` stands for every clock reading of intake. That is the `new Date()` fallback for a missing date, the message stamp, and one stamp per newly created inbox. In the source these are separate readings that may differ by a few milliseconds. The message id, which the source also builds from the clock, is the separate parameter `id`.
- MailData.Lower: lower-cases ASCII letters only, whereas `toLowerCase` also maps non-ASCII letters.
- MailData.Prefix: counts characters as Dafny `char`s, whereas JavaScript's `substring` counts UTF-16 code units.
- PageText.Trim: strips the ECMAScript white-space and line-terminator characters one `char` at a time, without UTF-16 surrogate handling.
- Timestamps and dates are unbounded integers of milliseconds, without JavaScript's floating-point number range or the `Date` object's text form.
- The message id is a parameter: its construction from the clock and a base-36 random string is not modelled, and neither is its uniqueness (a collision overwrites, as in the source).
