# BANF Zelle payment automation and Gmail helpers, modelled in Dafny

This project models the Zelle payment pipeline of the BANF web back end and the
small data-structure logic of its Gmail helper service, and proves properties
of the model.

**Zelle pipeline (`banf_web/zelle_payment_service.py`)**
- The classifier decides whether a message is a Zelle payment notification.
- The field extractors read the amount, sender, memo, confirmation code and
  bank from a notification. Each tries an ordered list of rules and keeps the
  first hit, with a default when nothing matches.
- The member matcher tries, in priority order, email equality, a memo naming
  the member, and the sender name (exact or partial).
- The mailbox scan does the following:
  - skips message ids already stored;
  - records per-message errors;
  - inserts each new notification at most once;
  - for a matched member, credits the member's balance (clamped at zero) and
    writes one payment-history row;
  - logs the scan.
- The manual handlers verify, reject and match a payment.
- The background poller is modelled as a running flag.

**Gmail helpers (`banf_web/gmail_service.py`)**
- The contact-group book supports create, delete, add with email
  de-duplication, and remove.
- Inbox pagination uses Python slice and floor-division semantics.
- The RSVP subject classifier feeds a per-status tally.

**Modules**
- `Wrappers` and `Text` (text.dfy): options, replies, ASCII case mapping,
  `strip`, `split()[0]`, substring search.
- `Ordered` (ordered.dfy): the first-success search that every extractor and
  the matcher use.
- `Decimal` (decimal.dfy): amount text to integer cents.
- `ZelleParse`, `ZelleMatch` (zelle_parse.dfy, zelle_match.dfy): the
  classifier, the extractors and the matcher, all pure.
- `ZelleStore` (zelle_store.dfy): the tables as a value `Db`, and every
  change the service makes to them, as functions with lemmas.
- `ZelleService` (zelle_service.dfy): the class `PaymentService`, whose
  fields are the tables and whose methods are the handlers. Each method is
  proved equal to its `ZelleStore` transition and to preserve `Valid`. The
  class `Poller` holds the running flag.
- `Contacts` (contacts.dfy): the class `ContactBook`, plus the functions that
  specify its add and remove.
- `Inbox`, `Rsvp` (inbox.dfy, rsvp.dfy): pagination and RSVP tallying.

**Representation choices**
- Amounts are integer cents, not floats.
- A payment's row id is its position plus one, since the table is
  AUTOINCREMENT and nothing deletes rows.
- The regular expressions are abstract ordered rules, passed in as `Rules`.
  Everything around them is modelled as the code does it: rule order, first
  hit, the fallbacks, the sender-domain list, the bank map, comma stripping,
  the amount parse (for ASCII digits, see Left out), the noise-word filter
  and `strip()`.
- The mailbox seen by one scan is a value, `Mailbox`. It is unreachable, a
  search that raised, or a listing of ids. Each id comes with the outcome of
  fetching it: the message, a non-OK status, or an exception.

**Behaviour of the code that the model keeps**
- A scan writes no poll_log row when the connection fails (lines 391-394) or
  when the search returns nothing (lines 407-409). Every other scan writes
  exactly one (lines 525-537).
- `verify_payment` does not check the payment's status (lines 681-709). A
  rejected payment verified for a member is credited. The corrected
  verification keeps this (`ZelleStore.RejectThenVerifyCredits`).
- `match_payment_to_member` does not check the payment's status either. A
  rejected payment can be matched and becomes verified. Matching moves no
  balance and writes no history row (lines 767-772).
- `reject_payment` and `match_payment_to_member` answer success for a
  payment id that does not exist. Their UPDATE changes no row.

## Model

| member | source | states |
|---|---|---|
| Text.Strip | banf_web/zelle_payment_service.py:241 | `strip()`: the result is a slice of the input with only whitespace before and after it. It has no leading or trailing whitespace. It is empty exactly when the input is all whitespace. It is the input itself when the input has no outer whitespace |
| Text.StripStart | banf_web/zelle_payment_service.py:241 | The leading half of `strip()`: a suffix of the input, with only whitespace removed and no whitespace at its head |
| Text.StripEnd | banf_web/zelle_payment_service.py:241 | The trailing half of `strip()`: a prefix of the input, with only whitespace removed and no whitespace at its end |
| Text.FirstWord | banf_web/zelle_payment_service.py:244 | `name.split()[0]` of a name that starts with a non-space: the longest space-free prefix |
| Text.Take | banf_web/zelle_payment_service.py:469 | `body[:500]`: the prefix of length min(len, n), so the whole text when it is short enough |
| Text.StripCommas | banf_web/zelle_payment_service.py:221 | `replace(',', '')`: no comma is left, every other character keeps its count, and a comma-free text is unchanged |
| Ordered.FirstHit | banf_web/zelle_payment_service.py:217-226 | Rules are tried in order and the first success wins. It reports None exactly when every rule fails |
| Ordered.FirstHitAt | banf_web/zelle_payment_service.py:217-226 | A success preceded only by failures is the answer |
| Decimal.DigitsRoundTrip | banf_web/zelle_payment_service.py:221-224 | Decimal digits read back as the number they print |
| Decimal.ParseCents | banf_web/zelle_payment_service.py:221-225 | `float()` of a comma-free capture, in cents: "" fails; a success means the text has a digit and holds only digits and '.'; a digit string D reads as D·100 cents |
| Decimal.CaptureCents | banf_web/zelle_payment_service.py:221-225 | A capture whose amount parses has a digit and holds only digits, '.' and ',' |
| Decimal.ParseRenderedCents | banf_web/zelle_payment_service.py:221-224 | Every amount printed as `D.dd` parses back to the same number of cents |
| Decimal.CommasIgnored | banf_web/zelle_payment_service.py:221-224 | A thousands separator does not change the amount read from a capture |
| Decimal.StripCommasAppend | banf_web/zelle_payment_service.py:221 | Comma removal distributes over concatenation |
| Decimal.CommasOnlyFail | banf_web/zelle_payment_service.py:221-225 | A capture made only of commas does not parse: `float('')` raises and the next pattern is tried |
| ZelleParse.IsZelleEmail | banf_web/zelle_payment_service.py:188-207 | True exactly when one of the three signals holds: (1) a subject rule matches; (2) a listed sender domain occurs in the from-address and "zelle" occurs in the lower-cased subject, from and body; (3) "zelle" and a `$`-amount token both occur in that text |
| ZelleParse.SubjectSearch | banf_web/zelle_payment_service.py:192-195 | The subject patterns find a hit exactly when one of them matches |
| ZelleParse.DomainSearch | banf_web/zelle_payment_service.py:197-201 | The domain loop finds a hit exactly when a listed domain occurs in the from-address and "zelle" occurs in the text |
| ZelleParse.DollarToken | banf_web/zelle_payment_service.py:204 | `\$[\d,]+` finds every amount printed as `$D.dd`, wherever it is, and nothing in a text without `$` |
| ZelleParse.ParseZelleAmount | banf_web/zelle_payment_service.py:210-226 | The value of the first pattern whose comma-stripped capture parses. A capture that does not parse passes on to the next pattern. None when no pattern yields a value |
| ZelleParse.ParseZelleSender | banf_web/zelle_payment_service.py:229-246 | The first stripped capture whose first word is not a noise word. "Unknown Sender" when none is acceptable. The result never starts with a noise word |
| ZelleParse.UnknownSenderIsNotNoise | banf_web/zelle_payment_service.py:243-246 | The default "Unknown Sender" itself passes the noise filter |
| ZelleParse.BestEffortCapture | banf_web/zelle_payment_service.py:249-273 | Memo and confirmation: the stripped capture of the first matching pattern, or "" when none matches |
| ZelleParse.ParseBankSource | banf_web/zelle_payment_service.py:276-291 | The label of the first bank-map key, in map order, that occurs in the lower-cased from and body. "Unknown Bank" exactly when no key occurs |
| ZelleParse.ExtractFields | banf_web/zelle_payment_service.py:446-453 | The amount is that of the first pattern whose capture parses, read from subject and body together, and 0 when none does (lines 452-453). The sender, memo, confirmation and bank are what `ParseZelleSender`, `BestEffortCapture` and `ParseBankSource` give, so the sender never starts with a noise word |
| ZelleMatch.MatchMember | banf_web/zelle_payment_service.py:324-368 | Stage priority, exact in both directions: email, then memo, then sender name, then no match. The member is the first in table order that passes the reported stage. In the name stage, exact or partial is decided for that member. Name matching is skipped for "" and "Unknown Sender" |
| ZelleMatch.ScanNeverMatchesByEmail | banf_web/zelle_payment_service.py:456 | The scan passes no sender email, so it never reports an email match |
| ZelleMatch.EmailOutranksNames | banf_web/zelle_payment_service.py:332-337 | The first member whose email matches wins, whatever the memo and sender name say |
| ZelleMatch.EarlierPartialBeatsLaterExact | banf_web/zelle_payment_service.py:350-365 | A partial match on an earlier member beats an exact match on a later one |
| ZelleMatch.MemoNamingMemberMatches | banf_web/zelle_payment_service.py:340-347 | A memo that begins with a member's full name matches that member by memo, unless an earlier member is mentioned |
| ZelleStore.Credit | banf_web/zelle_payment_service.py:484-489 | The balance UPDATE keeps the number of member rows and every row's id |
| ZelleStore.CreditAt | banf_web/zelle_payment_service.py:484-489 | The balance update touches exactly the rows with that id: total paid rises by the amount, and balance due becomes max(0, balance − amount) |
| ZelleStore.CreditTotalPaid | banf_web/zelle_payment_service.py:484-489 | The sum of total paid rises by the amount times the number of rows with that id |
| ZelleStore.PrimaryKeyCount | banf_web/zelle_payment_service.py:102-103 | Member ids are a primary key, so an existing id names exactly one row |
| ZelleStore.AbsentIdCount | banf_web/zelle_payment_service.py:484-489 | An update with an id that is in no row matches no row |
| ZelleStore.CreditExistingMember | banf_web/zelle_payment_service.py:484-489 | Crediting an existing member raises the members' total paid by exactly the amount |
| ZelleStore.CreditsForUnreferenced | banf_web/zelle_payment_service.py:117-130 | A payment that no history row references has no credits |
| ZelleStore.CreditPreservesIds | banf_web/zelle_payment_service.py:484-489 | The balance update keeps member ids distinct |
| ZelleStore.NewPayment | banf_web/zelle_payment_service.py:462-476 | The inserted row: auto_verified and auto_matched exactly when a member matched, pending otherwise. Its matched id is that member's. It carries the email id, amount and sender, and is not yet verified by anyone |
| ZelleStore.Ingest | banf_web/zelle_payment_service.py:459-515 | No summary exactly when the email id is already stored, and then the tables are unchanged. Otherwise one row is appended and the summary's id is the new row count. Stored payments and history rows are kept, at most one history row is added, and the poll log is untouched |
| ZelleStore.IngestAtMostOnce | banf_web/zelle_payment_service.py:79 | The UNIQUE email id and the swallowed IntegrityError (lines 512-513) make the insert at-most-once: ingesting an id again changes nothing and reports nothing |
| ZelleStore.IngestNew | banf_web/zelle_payment_service.py:462-510 | A new id appends exactly one row, with row id = count + 1. The row is auto_verified and auto-matched exactly when a member matched, else pending. Only on a match is the member credited and one history row written for the new payment |
| ZelleStore.IngestPreservesValid | banf_web/zelle_payment_service.py:462-513 | The insert keeps the table invariant `Valid`: email ids distinct, member ids distinct, history rows reference existing payments, and no payment credited twice |
| ZelleStore.MatchedIsMember | banf_web/zelle_payment_service.py:456 | The member the scan credits is a row of the members table |
| ZelleStore.CountAutoAppend | banf_web/zelle_payment_service.py:480-481 | The auto-verified count distributes over concatenation |
| ZelleStore.ScanItem | banf_web/zelle_payment_service.py:421-518 | A stored id or a non-OK fetch changes nothing. A fetch that raises adds exactly one error line, `Email b'<id>': <first 100 characters>`, and changes nothing else. Only a raise touches the errors. `emails_checked` and the poll log are kept |
| ZelleStore.ScanMessage | banf_web/zelle_payment_service.py:430-456 | A message that is not a Zelle notification changes nothing. Errors, `emails_checked` and the poll log are kept, and at most one row is added |
| ZelleStore.Record | banf_web/zelle_payment_service.py:459-515 | A stored email id changes nothing. A new one adds one row, raises `new_payments` by one and `auto_matched` by one exactly on a match, and appends its summary (row id, sender, amount, memo, matched name, strategy, status) |
| ZelleStore.ScanItems | banf_web/zelle_payment_service.py:421-518 | The loop keeps `emails_checked` and the poll log, and adds at most one row per listed id |
| ZelleStore.ScanItemsErrors | banf_web/zelle_payment_service.py:421-518 | After the loop, `errors` is the initial list followed by one error line per listed id, not stored when the scan began, whose fetch raised, in listing order |
| ZelleStore.Scan | banf_web/zelle_payment_service.py:373-540 | A failed connection or an empty search changes no table. A failed connection or search yields one error and no payment. A failed search or a non-empty listing appends exactly one poll_log row, holding the scan's emails checked, new payments, auto-matched count and errors (lines 525-537). For a listing, `emails_checked` is the number of ids, stored payments are kept, `new_payments` is the number of rows added (at most one per id) and `auto_matched` the number of them auto-verified |
| ZelleStore.GrowsTrans | banf_web/zelle_payment_service.py:421-518 | The counter relation of the scan composes across loop turns |
| ZelleStore.ScanItemCounts | banf_web/zelle_payment_service.py:421-518 | One loop turn adds at most one row. `new_payments` counts it. `auto_matched` and the history each grow by one exactly when that row is auto_verified. A summary is appended for it. Older rows, older history rows and the poll log are untouched |
| ZelleStore.RecordCounts | banf_web/zelle_payment_service.py:459-515 | Recording one message adds at most one row and keeps every counter in step with the rows: `new_payments`, `auto_matched` and the history grow together with the new row |
| ZelleStore.ScanItemSettles | banf_web/zelle_payment_service.py:421-515 | After one loop turn the listed id is settled: it is stored, its fetch gave no message, or the message is not a Zelle notification |
| ZelleStore.ScanItemsCounts | banf_web/zelle_payment_service.py:421-518 | Over the whole loop, the same counting relation holds between the tables and the results |
| ZelleStore.ScanItemsPreservesValid | banf_web/zelle_payment_service.py:421-518 | The loop keeps `Valid` |
| ZelleStore.ScanPreservesValid | banf_web/zelle_payment_service.py:373-540 | The scan, on every outcome of the mailbox, keeps `Valid` |
| ZelleStore.ScanItemKeepsIds | banf_web/zelle_payment_service.py:421-518 | A loop turn never removes a stored email id |
| ZelleStore.ScanItemsSettles | banf_web/zelle_payment_service.py:418-456 | After the loop, every listed message is stored, or it is not a stored-to-be Zelle notification (a non-OK fetch, an exception, or not Zelle) |
| ZelleStore.ScanItemsSettledNoChange | banf_web/zelle_payment_service.py:418-427 | Over settled messages, with the stored ids as the skip set, the loop changes no table |
| ZelleStore.RescanChangesNothing | banf_web/zelle_payment_service.py:415-427 | Scanning the same mailbox a second time creates no payment and changes no balance or history row |
| ZelleStore.VerifyAsWritten | banf_web/zelle_payment_service.py:665-724 | The handler as written. Success exactly for a stored payment; an unknown id changes nothing. The row becomes verified, by the caller or "admin", and takes the given member id and name, each kept from the row when none is given (COALESCE, 690-699); its other columns and all other rows are unchanged. Whenever a member id is known, the member table is `Credit` of the amount to that id and one history row is appended for this payment, member and amount; otherwise members and history are unchanged |
| ZelleStore.VerifyAsWrittenCreditsTwice | banf_web/zelle_payment_service.py:665-724 | As written, verifying an auto-verified payment credits it a second time: two history rows, and twice the amount on the member |
| ZelleStore.Verify | banf_web/zelle_payment_service.py:665-724 | The corrected handler. Success exactly for a stored payment; an unknown id changes nothing. The row update is the same as the code's (COALESCE of member id and name, verified by, every other row unchanged). When the member id names a member and the payment has credited nobody, the member table is `Credit` of the amount to that id and one history row is appended for this payment, member and amount; otherwise members and history are unchanged. The poll log is untouched |
| ZelleStore.VerifyPreservesValid | banf_web/zelle_payment_service.py:665-724 | The corrected verification keeps `Valid`, so no payment ever credits twice |
| ZelleStore.VerifyTwiceCreditsOnce | banf_web/zelle_payment_service.py:665-724 | Verifying twice with the corrected rule moves no balance the second time |
| ZelleStore.VerifyCreditsUncredited | banf_web/zelle_payment_service.py:701-720 | For a payment not yet credited, verified for a member of the table or with no member id, the corrected verification is exactly the code as written. For a member id that names no row, the code writes a history row that credits nobody; the corrected one leaves balances and history alone |
| ZelleStore.AbsentIdUnchanged | banf_web/zelle_payment_service.py:704-709 | The balance UPDATE with an id that is in no row changes no row |
| ZelleStore.UnknownMemberDoesNotBlockCredit | banf_web/zelle_payment_service.py:701-720 | After a verification naming an unknown member, which credits nobody, a verification for a real member credits that payment exactly once, by its amount |
| ZelleStore.RejectThenVerifyCredits | banf_web/zelle_payment_service.py:681-720 | A rejected payment, verified for a member, becomes verified and is credited once: no status is checked |
| ZelleStore.Reject | banf_web/zelle_payment_service.py:727-742 | Always success. Balances, history and the poll log are untouched. The stored row, if any, becomes rejected and its memo gets " [REJECTED: reason]" appended (line 737); its other columns and every other row are unchanged; an unknown id changes nothing |
| ZelleStore.RejectKeepsBalances | banf_web/zelle_payment_service.py:727-742 | Reject sets status rejected on an existing row. It never touches balances or history, and it keeps `Valid` |
| ZelleStore.FindMember | banf_web/zelle_payment_service.py:760-764 | `SELECT * FROM members WHERE id = ?`: a member with that id, or None when no row has it |
| ZelleStore.MatchToMember | banf_web/zelle_payment_service.py:745-775 | Balances, history and the poll log are untouched. Success exactly when the member id is non-empty and names a member; then a stored row takes that member's id, full name and email, becomes verified and loses its auto-matched flag (767-772), with its other columns kept. Every other row is unchanged. Otherwise, or for an unknown payment, nothing changes |
| ZelleStore.MatchKeepsBalances | banf_web/zelle_payment_service.py:745-775 | Match succeeds exactly when the member id is non-empty and known. It then sets verified and clears auto-matched. It never touches balances or history, and it keeps `Valid` |
| ZelleStore.MatchThenVerifyCreditsOnce | banf_web/zelle_payment_service.py:745-775 | A hand-matched payment is credited exactly once when it is then verified |
| ZelleService.PaymentService.constructor | banf_web/zelle_payment_service.py:71-130 | Empty payment, history and poll-log tables over a members table with distinct ids, which satisfy `Valid` |
| ZelleService.PaymentService.InsertPayment | banf_web/zelle_payment_service.py:459-515 | The new tables and the summary are those of `ZelleStore.Ingest`, and `Valid` is kept |
| ZelleService.PaymentService.PollMessage | banf_web/zelle_payment_service.py:421-518 | One loop turn, equal to `ZelleStore.ScanItem`, keeping `Valid` |
| ZelleService.PaymentService.PollFetched | banf_web/zelle_payment_service.py:430-456 | A fetched message is classified, extracted and matched as in `ZelleStore.ScanMessage` |
| ZelleService.PaymentService.RecordPayment | banf_web/zelle_payment_service.py:459-510 | The insert and its counters, as in `ZelleStore.Record` |
| ZelleService.PaymentService.PollForZelle | banf_web/zelle_payment_service.py:373-540 | The whole scan, on every outcome of the mailbox, equals `ZelleStore.Scan` and keeps `Valid` |
| ZelleService.PaymentService.PollListing | banf_web/zelle_payment_service.py:409-518 | The loop over the listed ids, against the ids stored when the scan began, proved by a loop invariant equal to the left fold `ZelleStore.ScanItems`, keeping `Valid` |
| ZelleService.PaymentService.VerifyPayment | banf_web/zelle_payment_service.py:665-724 | The handler, with the corrected credit rule (see Findings), equal to `ZelleStore.Verify` and keeping `Valid` |
| ZelleService.PaymentService.RejectPayment | banf_web/zelle_payment_service.py:727-742 | Equal to `ZelleStore.Reject`, keeping `Valid` |
| ZelleService.PaymentService.MatchPaymentToMember | banf_web/zelle_payment_service.py:745-775 | Equal to `ZelleStore.MatchToMember`, keeping `Valid` |
| ZelleService.Poller.constructor | banf_web/zelle_payment_service.py:545-546 | The poller starts stopped |
| ZelleService.Poller.Start | banf_web/zelle_payment_service.py:568-576 | Returns false and changes nothing when already running. Otherwise it sets the flag and returns true |
| ZelleService.Poller.Stop | banf_web/zelle_payment_service.py:579-583 | Always clears the flag and returns true |
| Contacts.EmailsAppend | banf_web/gmail_service.py:664 | The email set of a concatenation is the union of the email sets |
| Contacts.EmailsSingleton | banf_web/gmail_service.py:669 | One contact contributes its own email |
| Contacts.DistinctEmailsCount | banf_web/gmail_service.py:664-670 | A list with distinct emails has as many emails as contacts |
| Contacts.AcceptSpec | banf_web/gmail_service.py:664-670 | What `add_to_group` appends is exactly the batch's new non-empty emails, each once, none already in the group. Each is carried by the first contact of the batch that has it. They come in batch order: the appended list is the batch filtered to those first contacts |
| Contacts.AcceptEmails | banf_web/gmail_service.py:664-670 | The appended contacts have distinct emails, and their emails are exactly the batch's non-empty emails not already in the group |
| Contacts.AcceptOrigin | banf_web/gmail_service.py:664-670 | Every appended contact is the first contact of the batch that carries its email |
| Contacts.AcceptInOrder | banf_web/gmail_service.py:666-670 | The appended list equals the batch's contacts that have a new non-empty email not taken earlier in the batch, kept in batch order |
| Contacts.Accept | banf_web/gmail_service.py:666-670 | At most one contact per batch entry. Every appended contact comes from the batch, with a non-empty email not already in the group |
| Contacts.AcceptCount | banf_web/gmail_service.py:665-673 | `added` equals the number of distinct new non-empty emails in the batch |
| Contacts.AcceptAgain | banf_web/gmail_service.py:664-670 | Posting the same batch again adds nothing |
| Contacts.AcceptNothingNew | banf_web/gmail_service.py:667 | A batch with no new non-empty email adds nothing |
| Contacts.WithoutAppend | banf_web/gmail_service.py:686-689 | Removal keeps the original order: it distributes over concatenation |
| Contacts.Without | banf_web/gmail_service.py:686-689 | The kept contacts are contacts of the group, none with the removed email. A group without that email is unchanged |
| Contacts.WithoutMembers | banf_web/gmail_service.py:686-689 | Removal keeps exactly the contacts whose email differs, and the group's emails lose exactly that email |
| Contacts.WithoutDistinct | banf_web/gmail_service.py:686-689 | Removal keeps a group's emails distinct |
| Contacts.AddKeepsDistinct | banf_web/gmail_service.py:664-670 | Appending the accepted contacts keeps a group's emails distinct |
| Contacts.ContactBook.constructor | banf_web/gmail_service.py:52-76 | The default groups used when no contacts file exists, each with distinct emails |
| Contacts.ContactBook.CreateGroup | banf_web/gmail_service.py:620-639 | 400 for an empty name and 409 for an existing one, both without change. Otherwise exactly one new empty group. Distinct emails are kept |
| Contacts.ContactBook.DeleteGroup | banf_web/gmail_service.py:642-651 | 404 without change for a missing group. Otherwise exactly that group is removed |
| Contacts.ContactBook.AddToGroup | banf_web/gmail_service.py:654-673 | 404 without change for a missing group. Otherwise the group's contacts gain exactly `Accept` of the batch, and `added` is its length. Distinct emails are kept |
| Contacts.ContactBook.AppendNew | banf_web/gmail_service.py:664-670 | The loop of `add_to_group`, proved by loop invariant: the result is the old list followed by `Accept` of the batch, and `added` is the number appended |
| Contacts.ContactBook.RemoveFromGroup | banf_web/gmail_service.py:676-691 | 404 without change for a missing group. Otherwise the group's contacts become `Without` that email |
| Inbox.SliceBound | banf_web/gmail_service.py:225 | Python's clamping of a slice bound, with negative bounds counted from the end |
| Inbox.Reverse | banf_web/gmail_service.py:219 | `all_ids.reverse()`: position i holds the element at n − 1 − i |
| Inbox.FloorDiv | banf_web/gmail_service.py:245 | Python's `//` rounds toward negative infinity: for b > 0, q·b ≤ a < (q + 1)·b; for b < 0, (q + 1)·b < a ≤ q·b |
| Inbox.PySlice | banf_web/gmail_service.py:225 | `xs[i:j]`: never longer than the list, holds only its elements, is the clamped slice for 0 ≤ i ≤ j, and is empty for 0 ≤ j ≤ i |
| Inbox.PageStart | banf_web/gmail_service.py:223-224 | `start = (page - 1) * per_page` is non-negative for page ≥ 1 and per_page ≥ 0, and start + per_page = page · per_page |
| Inbox.PageIds | banf_web/gmail_service.py:218-225 | A page holds only ids of the mailbox, and never more than there are |
| Inbox.TotalPages | banf_web/gmail_service.py:245 | For a positive page size, `total_pages` is non-negative and 0 exactly when there are no messages |
| Inbox.InboxPage | banf_web/gmail_service.py:200-249 | No page exactly when `per_page` is 0 (the division raises). Otherwise `total`, `page` and `per_page` are echoed, the ids are ids of the mailbox, `total_pages` is 0 exactly for an empty mailbox, and a positive page holds at most `per_page` ids |
| Inbox.PageBeyondEndIsEmpty | banf_web/gmail_service.py:222-225 | A page that starts at or after the end of the list is empty |
| Inbox.PageIsSlice | banf_web/gmail_service.py:217-225 | Page p holds at most per_page ids from position (p − 1)·per_page of the newest-first list. Its k-th id is the original id at n − 1 − (start + k) |
| Inbox.SliceFrom | banf_web/gmail_service.py:222-225 | A non-negative slice of the newest-first list, clamped to its length |
| Inbox.TotalPagesIsCeiling | banf_web/gmail_service.py:245 | `total_pages` is the ceiling of total / per_page, and 0 exactly when there are no messages |
| Inbox.PageZeroIsEmpty | banf_web/gmail_service.py:222-225 | Page 0 is empty |
| Inbox.PagesUpToIsPrefix | banf_web/gmail_service.py:222-225 | Pages 1 to k concatenated are the first k·per_page ids, newest first |
| Inbox.PagesCoverInbox | banf_web/gmail_service.py:217-245 | Pages 1 to `total_pages` list every id exactly once, newest first, and every later page is empty |
| Rsvp.StatusOf | banf_web/gmail_service.py:516-525 | attending iff the upper-cased subject contains "RSVP YES". Else maybe iff it contains "RSVP MAYBE". Else not_attending iff it contains "RSVP NO". Else unknown |
| Rsvp.ContainsInfix | banf_web/gmail_service.py:518 | A keyword inside a subject is found by the substring test |
| Rsvp.YesAnywhereAttends | banf_web/gmail_service.py:516-519 | "rsvp yes" in any letter case, anywhere in the subject, makes the reply attending |
| Rsvp.MaybeOutranksNo | banf_web/gmail_service.py:520-523 | Without "RSVP YES", a subject containing "RSVP MAYBE" is maybe, even when it also contains "RSVP NO" |
| Rsvp.Statuses | banf_web/gmail_service.py:505-563 | At most one status per reply, one for every reply when none raised, and each is `StatusOf` the subject of a reply that parsed. `StatusesAppend` and `StatusesOne` pin the list down exactly |
| Rsvp.FailedRepliesDropped | banf_web/gmail_service.py:507-563 | `total` counts exactly the replies whose fetch and parse did not raise |
| Rsvp.CountsPartition | banf_web/gmail_service.py:569-573 | The four status counts add up to the number of replies |
| Rsvp.TallyOf | banf_web/gmail_service.py:567-574 | `total` is at most the number of replies, equal to it when none raised. Each of `attending`, `maybe`, `declined` and `unknown` is the number of replies that parsed and whose subject reads as that status (`RepliesWith`) |
| Rsvp.StatusesAppend | banf_web/gmail_service.py:505-563 | The statuses are taken reply by reply in search order: the list for two runs of replies is the concatenation of their lists |
| Rsvp.StatusesOne | banf_web/gmail_service.py:513-563 | A reply that parsed contributes exactly its subject's status; one whose fetch or parse raised contributes nothing (`except: pass`) |
| Rsvp.StatusCounts | banf_web/gmail_service.py:567-574 | Counting a status in the list gives the number of parsed replies with that status |
| Rsvp.TallyAddsUp | banf_web/gmail_service.py:567-574 | attending + maybe + declined + unknown = total |

## Left out

- IMAP and SMTP connections, login, search, fetch and logout are left out. So are MIME and header decoding and body extraction (`get_email_body`, `decode_email_header`, `parse_email_message`). The mailbox seen by a scan is a value of type `Mailbox`, and a message is its decoded subject, from, date and body.
- The regular expressions of the subject, amount, sender, memo and confirmation patterns are not modelled character by character. Each is an abstract rule in `Rules`; the logic around the rules follows the code. A sender capture is typed to start with a capital letter, as every sender pattern guarantees.
- The fallback IMAP search criteria and the `days_back` window are part of the search, which is abstract.
- Floating-point amounts are left out; amounts are integer cents. `float()` is modelled only for the capture shapes the amount patterns produce, `digits` and `digits.dd`.
- Decimal.ParseCents: only ASCII digits are read. Python's `float()` also accepts other Unicode decimal digits, which the amount patterns' `\d` can capture (lines 213-216).
- ZelleParse.HasDollarToken: `\d` in the dollar-token pattern (line 204) is taken as an ASCII digit. Python's `\d` also matches other Unicode decimal digits.
- Case mapping is ASCII only. This is what SQLite's `LOWER` does. Python's `lower()`/`upper()` also map non-ASCII letters, and that is not modelled.
- SQL text, connections and commits, `init_db` seeding, `seed_test_data`, and the read-only queries (`get_stats`, `get_payments`, `get_payment`, `get_members`, `get_member_payments`, `get_payment_history`, `poller_status`) are left out.
- Timestamps, receipt numbers, durations, `time.sleep` and the background thread are clock and concurrency concerns. Only the poller's running flag is modelled.
- Flask routing and the JSON request and response plumbing are left out. Handlers receive their parsed arguments, and replies carry only the status code and error message.
- `verified_by` defaults to "admin" when absent; a handler receiving a body that is not JSON is the same as one receiving an empty body.
- The contacts JSON file (`load_contacts` / `save_contacts`) is left out; the map is the state. A stored contact without an `email` key is modelled as email "", where the source would raise `KeyError`.
- The inbox page's message fetching and per-message error entries are left out. Only the page's ids, `total` and `total_pages` are modelled. A page size of 0 is the error answer, because `total_pages` divides by it.
- RSVP name, adult, kid and dietary extraction and `raw_body` are regular-expression field extraction on the reply. They are left out; only the status and the tally are modelled.
- The scan's "IMAP error" branch is modelled for a search that raises (`Mailbox.SearchFailed`). An exception from `logout` after the loop, which would add that error line after processing, is not modelled.
- Sending mail to a group, the evite templates, and the other Wix and JavaScript files are left out.

## Findings

| source | as written | input that shows it | evidently intended | confidence | as-written member | corrected member |
|---|---|---|---|---|---|---|
| banf_web/zelle_payment_service.py:701-720 | `verify_payment` credits the member and writes a history row whenever a member id is known. It does not check whether this payment already credited someone | a notification auto-matched at scan time (status auto_verified, member credited once), then `POST /api/zelle/payments/<id>/verify` with an empty body | a payment credits a member at most once. A history row is written only for a real credit: when the payment has credited nobody and the member id names a member. Verifying again, or for a different member, marks the row verified and relabels it, but the credit stays with the first member | medium, not executed | ZelleStore.VerifyAsWrittenCreditsTwice | ZelleStore.VerifyPreservesValid |

The as-written handler is `ZelleStore.VerifyAsWritten`. The corrected one is
`ZelleStore.Verify`, which the class method `PaymentService.VerifyPayment`
implements. `ZelleStore.VerifyCreditsUncredited` shows the two agree whenever
the payment has not been credited yet and its member id is empty or names a
member. For an id that names nobody, the code's history row credits no one,
and it would later stop the corrected rule from crediting a real member.
The corrected rule writes no such row (`ZelleStore.UnknownMemberDoesNotBlockCredit`).
