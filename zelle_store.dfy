/**
 * The SQLite tables of the Zelle service as values, and the changes the
 * service makes to them: the per-message insert and balance update of
 * `poll_gmail_for_zelle`, the whole scan, and the manual verify, reject and
 * match handlers (banf_web/zelle_payment_service.py, lines 69-540, 665-775).
 *
 * A payment's row id is its position in `payments` plus one: the table is
 * AUTOINCREMENT and nothing in the service deletes rows. Amounts are cents.
 */
module ZelleStore {
  import opened Wrappers
  import opened Text
  import opened Ordered
  import opened ZelleParse
  import opened ZelleMatch

  datatype Status = Pending | AutoVerified | Verified | Rejected

  /** An inbox message after header decoding and body extraction. */
  datatype Message = Message(subject: string, fromAddr: string, date: string, body: string)

  /** A row of `zelle_payments`. */
  datatype Payment = Payment(
    emailId: string,
    date: string,
    senderName: string,
    senderEmail: string,
    amount: nat,
    memo: string,
    confirmation: string,
    bank: string,
    subject: string,
    snippet: string,
    matchedId: Option<string>,
    matchedName: Option<string>,
    matchedEmail: Option<string>,
    status: Status,
    verifiedBy: Option<string>,
    autoMatched: bool)

  /** A row of `payment_history`: one balance credit to a member. */
  datatype HistoryEntry = HistoryEntry(
    memberId: string,
    memberName: Option<string>,
    paymentId: nat,
    amount: nat,
    description: string)

  /** A row of `poll_log`. */
  datatype PollLogEntry = PollLogEntry(emailsChecked: nat, newPayments: nat, autoMatched: nat, errors: seq<string>)

  datatype Db = Db(
    payments: seq<Payment>,
    members: seq<Member>,
    history: seq<HistoryEntry>,
    pollLog: seq<PollLogEntry>)

  // ---------------------------------------------------------------- balances

  /** `MAX(0, balance_due - amount)` */
  function ClampedSub(balance: nat, amount: nat): nat {
    if amount <= balance then balance - amount else 0
  }

  /** One member row after a payment of `amount`. */
  function Paid(m: Member, amount: nat): Member {
    m.(balanceDue := ClampedSub(m.balanceDue, amount), totalPaid := m.totalPaid + amount)
  }

  /** `UPDATE members SET total_paid = total_paid + ?, balance_due = MAX(0, balance_due - ?) WHERE id = ?` */
  function Credit(members: seq<Member>, id: string, amount: nat): (r: seq<Member>)
    ensures |r| == |members|
    ensures forall i :: 0 <= i < |r| ==> r[i].id == members[i].id
  {
    if members == [] then []
    else [if members[0].id == id then Paid(members[0], amount) else members[0]] + Credit(members[1..], id, amount)
  }

  /**
   * The update touches exactly the rows with the given id: each of them has
   * `amount` added to its total paid and its balance lowered by `amount`,
   * but not below zero; every other row is unchanged.
   */
  lemma {:induction false} CreditAt(members: seq<Member>, id: string, amount: nat)
    ensures |Credit(members, id, amount)| == |members|
    ensures forall i :: 0 <= i < |members| ==>
              Credit(members, id, amount)[i] == (if members[i].id == id then Paid(members[i], amount) else members[i])
    ensures forall i :: 0 <= i < |members| && members[i].id == id ==>
              && Credit(members, id, amount)[i].totalPaid == members[i].totalPaid + amount
              && Credit(members, id, amount)[i].balanceDue == (if members[i].balanceDue >= amount then members[i].balanceDue - amount else 0)
  {
    if members != [] {
      CreditAt(members[1..], id, amount);
    }
  }

  function TotalPaid(members: seq<Member>): nat {
    if members == [] then 0 else members[0].totalPaid + TotalPaid(members[1..])
  }

  function CountId(members: seq<Member>, id: string): nat {
    if members == [] then 0 else (if members[0].id == id then 1 else 0) + CountId(members[1..], id)
  }

  /** The money credited is the amount times the number of rows with that id. */
  lemma {:induction false} CreditTotalPaid(members: seq<Member>, id: string, amount: nat)
    ensures TotalPaid(Credit(members, id, amount)) == TotalPaid(members) + amount * CountId(members, id)
  {
    if members != [] {
      var rest := members[1..];
      CreditTotalPaid(rest, id, amount);
      var c := Credit(members, id, amount);
      assert c[1..] == Credit(rest, id, amount);
      assert TotalPaid(c) == c[0].totalPaid + TotalPaid(Credit(rest, id, amount));
      if members[0].id == id {
        assert CountId(members, id) == 1 + CountId(rest, id);
        assert amount * (1 + CountId(rest, id)) == amount + amount * CountId(rest, id);
      } else {
        assert CountId(members, id) == CountId(rest, id);
      }
    }
  }

  ghost predicate DistinctMemberIds(members: seq<Member>) {
    forall i, j :: 0 <= i < j < |members| ==> members[i].id != members[j].id
  }

  /** `members.id` is the primary key: an existing id names exactly one row. */
  lemma {:induction false} PrimaryKeyCount(members: seq<Member>, k: nat)
    requires DistinctMemberIds(members) && k < |members|
    ensures CountId(members, members[k].id) == 1
  {
    if k == 0 {
      AbsentIdCount(members[1..], members[0].id);
    } else {
      PrimaryKeyCount(members[1..], k - 1);
    }
  }

  lemma {:induction false} AbsentIdCount(members: seq<Member>, id: string)
    requires forall i :: 0 <= i < |members| ==> members[i].id != id
    ensures CountId(members, id) == 0
  {
    if members != [] {
      AbsentIdCount(members[1..], id);
    }
  }

  /** A credit to an existing member raises the members' total paid by exactly the amount. */
  lemma CreditExistingMember(members: seq<Member>, k: nat, amount: nat)
    requires DistinctMemberIds(members) && k < |members|
    ensures TotalPaid(Credit(members, members[k].id, amount)) == TotalPaid(members) + amount
  {
    CreditTotalPaid(members, members[k].id, amount);
    PrimaryKeyCount(members, k);
  }

  // ---------------------------------------------------------------- invariant

  function EmailIds(payments: seq<Payment>): set<string> {
    set i | 0 <= i < |payments| :: payments[i].emailId
  }

  /** Number of `payment_history` rows that credit payment `pid`. */
  function CreditsFor(history: seq<HistoryEntry>, pid: nat): nat {
    if history == [] then 0
    else CreditsFor(history[..|history| - 1], pid) + (if history[|history| - 1].paymentId == pid then 1 else 0)
  }

  /** `email_id` is UNIQUE. */
  ghost predicate DistinctEmailIds(payments: seq<Payment>) {
    forall i, j :: 0 <= i < j < |payments| ==> payments[i].emailId != payments[j].emailId
  }

  ghost predicate HistoryRefsValid(db: Db) {
    forall k :: 0 <= k < |db.history| ==> 1 <= db.history[k].paymentId <= |db.payments|
  }

  /** No payment has credited a member more than once. */
  ghost predicate CreditedAtMostOnce(db: Db) {
    forall pid :: CreditsFor(db.history, pid) <= 1
  }

  ghost predicate Valid(db: Db) {
    && DistinctEmailIds(db.payments)
    && DistinctMemberIds(db.members)
    && HistoryRefsValid(db)
    && CreditedAtMostOnce(db)
  }

  lemma {:induction false} CreditsForUnreferenced(history: seq<HistoryEntry>, pid: nat)
    requires forall k :: 0 <= k < |history| ==> history[k].paymentId != pid
    ensures CreditsFor(history, pid) == 0
  {
    if history != [] {
      CreditsForUnreferenced(history[..|history| - 1], pid);
    }
  }

  lemma CreditPreservesIds(members: seq<Member>, id: string, amount: nat)
    requires DistinctMemberIds(members)
    ensures DistinctMemberIds(Credit(members, id, amount))
  {
    CreditAt(members, id, amount);
  }

  // ---------------------------------------------------------------- ingest

  /** The entry of `results['payments']` for a new row. */
  datatype PaymentSummary = PaymentSummary(
    id: nat,
    sender: string,
    amount: nat,
    memo: string,
    matched: Option<string>,
    strategy: Strategy,
    status: Status)

  /** The row the scan inserts for a message: auto-verified exactly when a member matched. */
  function NewPayment(emailId: string, msg: Message, f: Fields, m: MatchResult): (r: Payment)
    ensures r.emailId == emailId && r.amount == f.amount && r.senderName == f.sender
    ensures r.status == AutoVerified <==> m.member.Some?
    ensures r.status == Pending <==> m.member.None?
    ensures r.autoMatched <==> m.member.Some?
    ensures r.matchedId.Some? <==> m.member.Some?
    ensures m.member.Some? ==> r.matchedId == Some(m.member.value.id)
    ensures r.verifiedBy.None?
  {
    var matched := m.member.Some?;
    Payment(
      emailId, msg.date, f.sender, msg.fromAddr, f.amount, f.memo, f.confirmation, f.bank,
      msg.subject, Take(msg.body, 500),
      if matched then Some(m.member.value.id) else None,
      if matched then Some(m.member.value.fullName) else None,
      if matched then Some(m.member.value.email) else None,
      if matched then AutoVerified else Pending,
      None,
      matched)
  }

  function IngestDescription(sender: string, memo: string): string {
    "Zelle from " + sender + ": " + (if memo == "" then "No memo" else memo)
  }

  /**
   * The insert of lines 459-515: a message id already in the table violates
   * the UNIQUE constraint and the IntegrityError is swallowed, leaving the
   * tables as they were; otherwise the row is appended and, on a match, the
   * member is credited and one history row is written.
   */
  function Ingest(db: Db, emailId: string, msg: Message, f: Fields, m: MatchResult): (r: (Db, Option<PaymentSummary>))
    ensures r.1.None? <==> emailId in EmailIds(db.payments)
    ensures r.1.None? ==> r.0 == db
    ensures r.1.Some? ==> |r.0.payments| == |db.payments| + 1 && r.1.value.id == |r.0.payments|
    ensures |db.payments| <= |r.0.payments| && r.0.payments[..|db.payments|] == db.payments
    ensures |db.history| <= |r.0.history| <= |db.history| + 1 && r.0.history[..|db.history|] == db.history
    ensures r.0.pollLog == db.pollLog
  {
    if emailId in EmailIds(db.payments) then (db, None)
    else
      var pid := |db.payments| + 1;
      var p := NewPayment(emailId, msg, f, m);
      var db1 := db.(payments := db.payments + [p]);
      var summary := PaymentSummary(pid, f.sender, f.amount, f.memo, p.matchedName, m.strategy, p.status);
      match m.member
      case None => (db1, Some(summary))
      case Some(mem) =>
        var entry := HistoryEntry(mem.id, Some(mem.fullName), pid, f.amount, IngestDescription(f.sender, f.memo));
        (db1.(members := Credit(db1.members, mem.id, f.amount), history := db1.history + [entry]), Some(summary))
  }

  /** A message id is stored at most once: ingesting it again changes nothing and reports nothing. */
  lemma IngestAtMostOnce(db: Db, emailId: string, msg: Message, f: Fields, m: MatchResult,
                         msg': Message, f': Fields, m': MatchResult)
    ensures var db1 := Ingest(db, emailId, msg, f, m).0;
            Ingest(db1, emailId, msg', f', m') == (db1, None)
  {
    var db1 := Ingest(db, emailId, msg, f, m).0;
    if emailId !in EmailIds(db.payments) {
      assert db1.payments[|db.payments|].emailId == emailId;
    }
  }

  /**
   * A new message yields one new row whose status is auto_verified exactly
   * when a member matched; only then is the member credited, with one
   * history row for the new payment.
   */
  lemma IngestNew(db: Db, emailId: string, msg: Message, f: Fields, m: MatchResult)
    requires emailId !in EmailIds(db.payments)
    ensures var (db1, s) := Ingest(db, emailId, msg, f, m);
            && s.Some? && s.value.id == |db.payments| + 1
            && db1.payments == db.payments + [NewPayment(emailId, msg, f, m)]
            && (db1.payments[|db.payments|].status == AutoVerified <==> m.member.Some?)
            && (db1.payments[|db.payments|].autoMatched <==> m.member.Some?)
            && (m.member.None? ==> db1.members == db.members && db1.history == db.history)
            && (m.member.Some? ==> (&& db1.members == Credit(db.members, m.member.value.id, f.amount)
                                   && |db1.history| == |db.history| + 1
                                   && db1.history[|db.history|].paymentId == |db.payments| + 1))
  {
  }

  /** Appending a row with a new email id keeps email ids distinct. */
  lemma AppendKeepsEmailIdsDistinct(payments: seq<Payment>, p: Payment)
    requires DistinctEmailIds(payments) && p.emailId !in EmailIds(payments)
    ensures DistinctEmailIds(payments + [p])
  {
    assert forall i :: 0 <= i < |payments| ==> payments[i].emailId in EmailIds(payments);
  }

  /** A history row for a payment no row references yet keeps every payment credited at most once. */
  lemma AppendKeepsCreditedOnce(history: seq<HistoryEntry>, entry: HistoryEntry)
    requires forall q :: CreditsFor(history, q) <= 1
    requires forall k :: 0 <= k < |history| ==> history[k].paymentId != entry.paymentId
    ensures forall q :: CreditsFor(history + [entry], q) <= 1
  {
    CreditsForUnreferenced(history, entry.paymentId);
    forall q
      ensures CreditsFor(history + [entry], q) <= 1
    {
      assert (history + [entry])[..|history|] == history;
    }
  }

  /** A history row for a payment that has credited nobody keeps every payment credited at most once. */
  lemma FirstCreditKeepsCreditedOnce(history: seq<HistoryEntry>, entry: HistoryEntry)
    requires forall q :: CreditsFor(history, q) <= 1
    requires CreditsFor(history, entry.paymentId) == 0
    ensures forall q :: CreditsFor(history + [entry], q) <= 1
  {
    forall q
      ensures CreditsFor(history + [entry], q) <= 1
    {
      assert (history + [entry])[..|history|] == history;
    }
  }

  /** The insert keeps the table invariants. */
  lemma IngestPreservesValid(db: Db, emailId: string, msg: Message, f: Fields, m: MatchResult)
    requires Valid(db)
    ensures Valid(Ingest(db, emailId, msg, f, m).0)
  {
    if emailId !in EmailIds(db.payments) {
      var db1 := Ingest(db, emailId, msg, f, m).0;
      var pid := |db.payments| + 1;
      AppendKeepsEmailIdsDistinct(db.payments, NewPayment(emailId, msg, f, m));
      if m.member.Some? {
        var mem := m.member.value;
        var entry := HistoryEntry(mem.id, Some(mem.fullName), pid, f.amount, IngestDescription(f.sender, f.memo));
        assert db1.history == db.history + [entry] && db1.members == Credit(db.members, mem.id, f.amount);
        CreditPreservesIds(db.members, mem.id, f.amount);
        AppendKeepsCreditedOnce(db.history, entry);
      }
    }
  }

  // ---------------------------------------------------------------- scan

  /** What fetching one message id gave: the message, a non-OK status, or an exception. */
  datatype Fetch = Fetched(msg: Message) | NotOk | Raises(reason: string)

  datatype MailItem = MailItem(id: string, fetch: Fetch)

  /**
   * The mailbox as seen by one scan: unreachable, a search that raised, or
   * the ids the search returned with their fetches.
   */
  datatype Mailbox = Unreachable(reason: string) | SearchFailed(reason: string) | Listing(items: seq<MailItem>)

  /** The `results` dictionary of a scan (its duration is not modelled). */
  datatype ScanResult = ScanResult(
    emailsChecked: nat,
    newPayments: nat,
    autoMatched: nat,
    errors: seq<string>,
    payments: seq<PaymentSummary>)

  /** `f"Email {eid}: {str(e)[:100]}"`, where `eid` is the raw bytes id. */
  function ErrorLine(id: string, reason: string): string {
    "Email b'" + id + "': " + Take(reason, 100)
  }

  /**
   * One turn of the loop of lines 421-518. Ids present when the scan began
   * are skipped before fetching; a non-OK fetch and a non-Zelle message are
   * skipped; an exception is recorded and the loop goes on.
   */
  function ScanItem(rules: Rules, existing: set<string>, st: (Db, ScanResult), item: MailItem): (r: (Db, ScanResult))
    ensures item.id in existing || item.fetch.NotOk? ==> r == st
    ensures item.id !in existing && item.fetch.Raises? ==>
              r.0 == st.0 && r.1 == st.1.(errors := st.1.errors + [ErrorLine(item.id, item.fetch.reason)])
    ensures !item.fetch.Raises? ==> r.1.errors == st.1.errors
    ensures r.1.emailsChecked == st.1.emailsChecked && r.0.pollLog == st.0.pollLog
  {
    var db := st.0;
    var res := st.1;
    if item.id in existing then st
    else
      match item.fetch
      case NotOk => st
      case Raises(reason) => (db, res.(errors := res.errors + [ErrorLine(item.id, reason)]))
      case Fetched(msg) => ScanMessage(rules, db, res, item.id, msg)
  }

  /** A fetched message: classified, and a Zelle notification extracted, matched and recorded. */
  function ScanMessage(rules: Rules, db: Db, res: ScanResult, id: string, msg: Message): (r: (Db, ScanResult))
    ensures !IsZelleEmail(rules.subject, msg.subject, msg.fromAddr, msg.body) ==> r == (db, res)
    ensures r.1.errors == res.errors && r.1.emailsChecked == res.emailsChecked
    ensures r.0.pollLog == db.pollLog && |r.0.payments| <= |db.payments| + 1
  {
    if !IsZelleEmail(rules.subject, msg.subject, msg.fromAddr, msg.body) then (db, res)
    else
      var f := ExtractFields(rules, msg.subject, msg.fromAddr, msg.body);
      Record(db, res, id, msg, f, MatchMember(db.members, f.sender, f.memo, ""))
  }

  /** The insert, and the scan's counters for it. */
  function Record(db: Db, res: ScanResult, id: string, msg: Message, f: Fields, m: MatchResult): (r: (Db, ScanResult))
    ensures id in EmailIds(db.payments) ==> r == (db, res)
    ensures id !in EmailIds(db.payments) ==>
              && |r.0.payments| == |db.payments| + 1
              && r.1.newPayments == res.newPayments + 1
              && r.1.autoMatched == res.autoMatched + (if m.member.Some? then 1 else 0)
              && r.1.payments == res.payments + [PaymentSummary(|db.payments| + 1, f.sender, f.amount, f.memo,
                                                                 r.0.payments[|db.payments|].matchedName, m.strategy,
                                                                 r.0.payments[|db.payments|].status)]
    ensures r.1.errors == res.errors && r.1.emailsChecked == res.emailsChecked
    ensures r.0.pollLog == db.pollLog && |r.0.payments| <= |db.payments| + 1
  {
    var ingested := Ingest(db, id, msg, f, m);
    match ingested.1
    case None => (ingested.0, res)
    case Some(s) =>
      (ingested.0, res.(newPayments := res.newPayments + 1,
                        autoMatched := res.autoMatched + (if m.member.Some? then 1 else 0),
                        payments := res.payments + [s]))
  }

  /** The loop over the listed ids, in order. */
  function ScanItems(rules: Rules, existing: set<string>, st: (Db, ScanResult), items: seq<MailItem>): (r: (Db, ScanResult))
    ensures r.1.emailsChecked == st.1.emailsChecked && r.0.pollLog == st.0.pollLog
    ensures |r.0.payments| <= |st.0.payments| + |items|
    decreases |items|
  {
    if items == [] then st
    else ScanItem(rules, existing, ScanItems(rules, existing, st, items[..|items| - 1]), items[|items| - 1])
  }

  /**
   * The error lines the loop adds: one per listed id that was not stored
   * when the scan began and whose fetch raised, in listing order.
   */
  function ExpectedErrors(existing: set<string>, items: seq<MailItem>): (r: seq<string>)
    ensures |r| <= |items|
    decreases |items|
  {
    if items == [] then []
    else
      var item := items[|items| - 1];
      ExpectedErrors(existing, items[..|items| - 1])
        + (if item.id !in existing && item.fetch.Raises? then [ErrorLine(item.id, item.fetch.reason)] else [])
  }

  /** The loop's `errors` are the initial ones followed by exactly the expected error lines. */
  lemma {:induction false} ScanItemsErrors(rules: Rules, existing: set<string>, st: (Db, ScanResult), items: seq<MailItem>)
    ensures ScanItems(rules, existing, st, items).1.errors == st.1.errors + ExpectedErrors(existing, items)
  {
    if items == [] {
      assert st.1.errors + [] == st.1.errors;
    } else {
      var init := items[..|items| - 1];
      ScanItemsErrors(rules, existing, st, init);
      var prev := ScanItems(rules, existing, st, init);
      var item := items[|items| - 1];
      var tail := if item.id !in existing && item.fetch.Raises? then [ErrorLine(item.id, item.fetch.reason)] else [];
      assert ScanItem(rules, existing, prev, item).1.errors == prev.1.errors + tail;
      assert st.1.errors + ExpectedErrors(existing, init) + tail == st.1.errors + (ExpectedErrors(existing, init) + tail);
    }
  }

  function EmptyScan(): ScanResult {
    ScanResult(0, 0, 0, [], [])
  }

  /**
   * `poll_gmail_for_zelle`: a connection failure and an empty search return
   * at once, without a poll_log row; a search that raises is recorded and
   * logged; otherwise the listed ids are processed against the ids stored
   * when the scan began, and one poll_log row is added.
   */
  function Scan(rules: Rules, db: Db, mailbox: Mailbox): (r: (Db, ScanResult))
    ensures mailbox.Unreachable? || mailbox == Listing([]) ==> r.0 == db && r.1.emailsChecked == 0
    ensures mailbox.Unreachable? || mailbox.SearchFailed? ==> |r.1.errors| == 1 && r.0.payments == db.payments
    ensures mailbox.SearchFailed? || (mailbox.Listing? && mailbox.items != []) ==>
              |r.0.pollLog| == |db.pollLog| + 1 && r.0.pollLog[..|db.pollLog|] == db.pollLog
    ensures mailbox.SearchFailed? || (mailbox.Listing? && mailbox.items != []) ==>
              r.0.pollLog == db.pollLog + [PollLogEntry(r.1.emailsChecked, r.1.newPayments, r.1.autoMatched, r.1.errors)]
    ensures mailbox.Listing? ==>
              r.1.emailsChecked == |mailbox.items| && |r.0.payments| <= |db.payments| + |mailbox.items|
    ensures mailbox.Listing? ==>
              && |db.payments| <= |r.0.payments| && r.0.payments[..|db.payments|] == db.payments
              && r.1.newPayments == |r.0.payments| - |db.payments|
              && r.1.autoMatched == CountAuto(r.0.payments[|db.payments|..])
  {
    match mailbox
    case Unreachable(reason) => (db, EmptyScan().(errors := ["Gmail connection failed: " + reason]))
    case SearchFailed(reason) =>
      var res := EmptyScan().(errors := ["IMAP error: " + Take(reason, 200)]);
      (db.(pollLog := db.pollLog + [PollLogEntry(0, 0, 0, res.errors)]), res)
    case Listing(items) =>
      if items == [] then (db, EmptyScan())
      else
        var st := ScanItems(rules, EmailIds(db.payments), (db, EmptyScan().(emailsChecked := |items|)), items);
        var res := st.1;
        ScanItemsCounts(rules, EmailIds(db.payments), db, EmptyScan().(emailsChecked := |items|), items);
        (st.0.(pollLog := st.0.pollLog + [PollLogEntry(res.emailsChecked, res.newPayments, res.autoMatched, res.errors)]), res)
  }

  /** The matched member, when there is one, is a row of the table. */
  lemma MatchedIsMember(members: seq<Member>, senderName: string, memo: string)
    ensures var m := MatchMember(members, senderName, memo, "");
            m.member.Some? ==> m.member.value in members
  {
  }

  function CountAuto(payments: seq<Payment>): nat {
    if payments == [] then 0
    else CountAuto(payments[..|payments| - 1]) + (if payments[|payments| - 1].status == AutoVerified then 1 else 0)
  }

  lemma {:induction false} CountAutoAppend(a: seq<Payment>, b: seq<Payment>)
    ensures CountAuto(a + b) == CountAuto(a) + CountAuto(b)
  {
    if b != [] {
      assert (a + b)[..|a + b| - 1] == a + b[..|b| - 1];
      CountAutoAppend(a, b[..|b| - 1]);
    } else {
      assert a + b == a;
    }
  }

  /**
   * From (db, res) to (db', res'): rows are only appended; `new_payments`
   * counts the rows added, `auto_matched` counts those of them that are
   * auto_verified, and each of those, and nothing else, wrote one history
   * row; the summaries list gains one entry per row added.
   */
  ghost predicate Grows(db: Db, res: ScanResult, db': Db, res': ScanResult) {
    && |db.payments| <= |db'.payments|
    && db'.payments[..|db.payments|] == db.payments
    && res'.newPayments == res.newPayments + (|db'.payments| - |db.payments|)
    && res'.autoMatched == res.autoMatched + CountAuto(db'.payments[|db.payments|..])
    && |db'.history| == |db.history| + CountAuto(db'.payments[|db.payments|..])
    && db'.history[..|db.history|] == db.history
    && |res'.payments| == |res.payments| + (|db'.payments| - |db.payments|)
    && res'.payments[..|res.payments|] == res.payments
    && res'.emailsChecked == res.emailsChecked
    && db'.pollLog == db.pollLog
  }

  /** Proof helper: a step that changes nothing grows trivially. */
  lemma GrowsRefl(db: Db, res: ScanResult)
    ensures Grows(db, res, db, res)
  {
    assert db.payments[|db.payments|..] == [];
    assert db.history[..|db.history|] == db.history;
  }

  lemma GrowsTrans(db0: Db, res0: ScanResult, db1: Db, res1: ScanResult, db2: Db, res2: ScanResult)
    requires Grows(db0, res0, db1, res1) && Grows(db1, res1, db2, res2)
    ensures Grows(db0, res0, db2, res2)
  {
    var n, mid := |db0.payments|, |db1.payments|;
    var S, M := db2.payments, db1.payments;
    assert S[..n] == S[..mid][..n];
    assert S[n..] == M[n..] + S[mid..];
    CountAutoAppend(M[n..], S[mid..]);
    var R, Q := res2.payments, res1.payments;
    assert R[..|res0.payments|] == R[..|Q|][..|res0.payments|];
    assert db2.history[..|db0.history|] == db2.history[..|db1.history|][..|db0.history|];
  }

  /** Recording one message adds at most one row, and counts it as it should. */
  lemma RecordCounts(db: Db, res: ScanResult, id: string, msg: Message, f: Fields, m: MatchResult)
    ensures var st' := Record(db, res, id, msg, f, m);
            && |st'.0.payments| <= |db.payments| + 1
            && Grows(db, res, st'.0, st'.1)
  {
    var st' := Record(db, res, id, msg, f, m);
    var n := |db.payments|;
    if id in EmailIds(db.payments) {
      GrowsRefl(db, res);
    } else {
      IngestNew(db, id, msg, f, m);
      var p := NewPayment(id, msg, f, m);
      assert st'.0.payments[n..] == [p];
      assert [p][..0] == [];
      assert CountAuto([p]) == (if m.member.Some? then 1 else 0);
    }
  }

  /** One loop turn adds at most one row, and counts it as it should. */
  lemma ScanItemCounts(rules: Rules, existing: set<string>, st: (Db, ScanResult), item: MailItem)
    ensures var st' := ScanItem(rules, existing, st, item);
            && |st'.0.payments| <= |st.0.payments| + 1
            && Grows(st.0, st.1, st'.0, st'.1)
  {
    GrowsRefl(st.0, st.1);
    if item.id !in existing && item.fetch.Fetched? {
      var msg := item.fetch.msg;
      if IsZelleEmail(rules.subject, msg.subject, msg.fromAddr, msg.body) {
        var f := ExtractFields(rules, msg.subject, msg.fromAddr, msg.body);
        RecordCounts(st.0, st.1, item.id, msg, f, MatchMember(st.0.members, f.sender, f.memo, ""));
      }
    }
  }

  /** The whole loop, by the one-turn lemma. */
  lemma {:induction false} ScanItemsCounts(rules: Rules, existing: set<string>, db: Db, res: ScanResult, items: seq<MailItem>)
    ensures var st := ScanItems(rules, existing, (db, res), items);
            Grows(db, res, st.0, st.1)
  {
    if items == [] {
      GrowsRefl(db, res);
    } else {
      var init := items[..|items| - 1];
      var prev := ScanItems(rules, existing, (db, res), init);
      ScanItemsCounts(rules, existing, db, res, init);
      var st := ScanItem(rules, existing, prev, items[|items| - 1]);
      assert ScanItems(rules, existing, (db, res), items) == st;
      ScanItemCounts(rules, existing, prev, items[|items| - 1]);
      GrowsTrans(db, res, prev.0, prev.1, st.0, st.1);
    }
  }

  /** The scan keeps the table invariants. */
  lemma {:induction false} ScanItemsPreservesValid(rules: Rules, existing: set<string>, db: Db, res: ScanResult, items: seq<MailItem>)
    requires Valid(db)
    ensures Valid(ScanItems(rules, existing, (db, res), items).0)
  {
    if items != [] {
      ScanItemsPreservesValid(rules, existing, db, res, items[..|items| - 1]);
      var prev := ScanItems(rules, existing, (db, res), items[..|items| - 1]);
      var item := items[|items| - 1];
      if item.id !in existing && item.fetch.Fetched? {
        var msg := item.fetch.msg;
        var f := ExtractFields(rules, msg.subject, msg.fromAddr, msg.body);
        var m := MatchMember(prev.0.members, f.sender, f.memo, "");
        IngestPreservesValid(prev.0, item.id, msg, f, m);
      }
    }
  }

  lemma ScanPreservesValid(rules: Rules, db: Db, mailbox: Mailbox)
    requires Valid(db)
    ensures Valid(Scan(rules, db, mailbox).0)
  {
    if mailbox.Listing? && mailbox.items != [] {
      ScanItemsPreservesValid(rules, EmailIds(db.payments), db, EmptyScan().(emailsChecked := |mailbox.items|), mailbox.items);
    }
  }

  /** After a scan, a message is settled when its id is stored or it would not be stored anyway. */
  predicate Settled(rules: Rules, payments: seq<Payment>, item: MailItem) {
    || item.id in EmailIds(payments)
    || !item.fetch.Fetched?
    || !IsZelleEmail(rules.subject, item.fetch.msg.subject, item.fetch.msg.fromAddr, item.fetch.msg.body)
  }

  lemma PrefixKeepsIds(payments: seq<Payment>, payments': seq<Payment>)
    requires |payments| <= |payments'| && payments'[..|payments|] == payments
    ensures EmailIds(payments) <= EmailIds(payments')
  {
    forall x | x in EmailIds(payments) ensures x in EmailIds(payments') {
      var i :| 0 <= i < |payments| && payments[i].emailId == x;
      assert payments'[i].emailId == x;
    }
  }

  lemma ScanItemKeepsIds(rules: Rules, existing: set<string>, st: (Db, ScanResult), item: MailItem)
    ensures EmailIds(st.0.payments) <= EmailIds(ScanItem(rules, existing, st, item).0.payments)
  {
    ScanItemCounts(rules, existing, st, item);
    PrefixKeepsIds(st.0.payments, ScanItem(rules, existing, st, item).0.payments);
  }

  /** The message a loop turn processes is settled after that turn. */
  lemma ScanItemSettles(rules: Rules, existing: set<string>, prev: (Db, ScanResult), item: MailItem)
    requires existing <= EmailIds(prev.0.payments)
    ensures Settled(rules, ScanItem(rules, existing, prev, item).0.payments, item)
  {
    var st := ScanItem(rules, existing, prev, item);
    ScanItemKeepsIds(rules, existing, prev, item);
    if item.id !in existing && item.fetch.Fetched? {
      var msg := item.fetch.msg;
      if IsZelleEmail(rules.subject, msg.subject, msg.fromAddr, msg.body) {
        var f := ExtractFields(rules, msg.subject, msg.fromAddr, msg.body);
        var m := MatchMember(prev.0.members, f.sender, f.memo, "");
        if item.id !in EmailIds(prev.0.payments) {
          IngestNew(prev.0, item.id, msg, f, m);
          assert st.0.payments[|prev.0.payments|].emailId == item.id;
        }
      }
    }
  }

  /** Storing more ids keeps a settled message settled. */
  lemma SettledGrows(rules: Rules, payments: seq<Payment>, payments': seq<Payment>, items: seq<MailItem>)
    requires EmailIds(payments) <= EmailIds(payments')
    requires forall i :: 0 <= i < |items| ==> Settled(rules, payments, items[i])
    ensures forall i :: 0 <= i < |items| ==> Settled(rules, payments', items[i])
  {
  }

  /** Every message the scan listed is settled afterwards. */
  lemma {:induction false} ScanItemsSettles(rules: Rules, existing: set<string>, db: Db, res: ScanResult, items: seq<MailItem>)
    requires existing <= EmailIds(db.payments)
    ensures var st := ScanItems(rules, existing, (db, res), items);
            && EmailIds(db.payments) <= EmailIds(st.0.payments)
            && forall i :: 0 <= i < |items| ==> Settled(rules, st.0.payments, items[i])
  {
    if items != [] {
      var init := items[..|items| - 1];
      ScanItemsSettles(rules, existing, db, res, init);
      var prev := ScanItems(rules, existing, (db, res), init);
      var item := items[|items| - 1];
      var st := ScanItem(rules, existing, prev, item);
      assert st == ScanItems(rules, existing, (db, res), items);
      ScanItemKeepsIds(rules, existing, prev, item);
      ScanItemSettles(rules, existing, prev, item);
      SettledGrows(rules, prev.0.payments, st.0.payments, init);
      forall i | 0 <= i < |items|
        ensures Settled(rules, st.0.payments, items[i])
      {
        if i < |items| - 1 {
          assert items[i] == init[i];
        }
      }
    }
  }

  /** Over settled messages, with the stored ids as the skip set, the loop changes no table. */
  lemma {:induction false} ScanItemsSettledNoChange(rules: Rules, db: Db, res: ScanResult, items: seq<MailItem>)
    requires forall i :: 0 <= i < |items| ==> Settled(rules, db.payments, items[i])
    ensures ScanItems(rules, EmailIds(db.payments), (db, res), items).0 == db
  {
    if items != [] {
      var init := items[..|items| - 1];
      forall i | 0 <= i < |init| ensures Settled(rules, db.payments, init[i]) {
        assert init[i] == items[i];
      }
      ScanItemsSettledNoChange(rules, db, res, init);
    }
  }

  /**
   * Re-scanning the same mailbox creates no record and moves no balance:
   * the stored-id skip, together with the UNIQUE email id, makes the scan
   * idempotent on the payment, member and history tables.
   */
  lemma RescanChangesNothing(rules: Rules, db: Db, mailbox: Mailbox)
    ensures var db1 := Scan(rules, db, mailbox).0;
            var db2 := Scan(rules, db1, mailbox).0;
            db2.payments == db1.payments && db2.members == db1.members && db2.history == db1.history
  {
    if mailbox.Listing? && mailbox.items != [] {
      var items := mailbox.items;
      var res0 := EmptyScan().(emailsChecked := |items|);
      ScanItemsSettles(rules, EmailIds(db.payments), db, res0, items);
      var st := ScanItems(rules, EmailIds(db.payments), (db, res0), items);
      var db1 := Scan(rules, db, mailbox).0;
      assert db1.payments == st.0.payments;
      ScanItemsSettledNoChange(rules, db1, res0, items);
    }
  }

  // ---------------------------------------------------------------- manual transitions

  predicate Found(db: Db, pid: nat) {
    1 <= pid <= |db.payments|
  }

  /** The row update of `verify_payment`: status verified, member kept through COALESCE when none is given. */
  function VerifiedRow(p: Payment, memberId: string, memberName: string, verifiedBy: string): Payment {
    p.(status := Verified,
       matchedId := if memberId != "" then Some(memberId) else p.matchedId,
       matchedName := if memberName != "" then Some(memberName) else p.matchedName,
       verifiedBy := Some(verifiedBy))
  }

  /**
   * What every verification of a stored payment does to `zelle_payments`:
   * that row is verified by the caller (default "admin") and takes the given
   * member id and name, each kept from the row when none is given (the
   * COALESCE of lines 690-699). Its other columns and every other row are
   * unchanged.
   */
  ghost predicate VerifyMarksRow(db: Db, pid: nat, memberId: string, memberName: string, verifiedBy: Option<string>, db': Db)
    requires Found(db, pid)
  {
    var p := db.payments[pid - 1];
    && |db'.payments| == |db.payments|
    && (forall i :: 0 <= i < |db.payments| && i != pid - 1 ==> db'.payments[i] == db.payments[i])
    && db'.payments[pid - 1].status == Verified
    && db'.payments[pid - 1].verifiedBy == Some(verifiedBy.GetOr("admin"))
    && db'.payments[pid - 1].matchedId == (if memberId != "" then Some(memberId) else p.matchedId)
    && db'.payments[pid - 1].matchedName == (if memberName != "" then Some(memberName) else p.matchedName)
    && db'.payments[pid - 1] == p.(status := Verified, verifiedBy := db'.payments[pid - 1].verifiedBy,
                                   matchedId := db'.payments[pid - 1].matchedId,
                                   matchedName := db'.payments[pid - 1].matchedName)
  }

  /**
   * One credit of the payment's amount to the member the verification
   * names: the member table is `Credit` of it, and exactly one history row
   * is appended, for this payment, that member and that amount, under the
   * given member name or else the row's, described by the sender's name.
   */
  ghost predicate CreditedOnce(db: Db, pid: nat, memberId: string, memberName: string, db': Db)
    requires Found(db, pid)
  {
    var p := db.payments[pid - 1];
    var mid := VerifyTarget(p, memberId);
    && db'.members == Credit(db.members, mid, p.amount)
    && |db'.history| == |db.history| + 1
    && db'.history[..|db.history|] == db.history
    && db'.history[|db.history|].paymentId == pid
    && db'.history[|db.history|].memberId == mid
    && db'.history[|db.history|].amount == p.amount
    && db'.history[|db.history|].memberName == (if memberName != "" then Some(memberName) else p.matchedName)
    && db'.history[|db.history|].description == "Verified Zelle from " + p.senderName
  }

  /** The corrected rule's condition for crediting: a member id, no earlier credit for this payment, and a member with that id. */
  predicate FirstCredit(db: Db, pid: nat, memberId: string)
    requires Found(db, pid)
  {
    var mid := VerifyTarget(db.payments[pid - 1], memberId);
    mid != "" && CreditsFor(db.history, pid) == 0 && FindMember(db.members, mid).Some?
  }

  /** The member a verification credits: the one given, else the one already on the row. */
  function VerifyTarget(p: Payment, memberId: string): string {
    if memberId != "" then memberId else p.matchedId.GetOr("")
  }

  /** Lines 701-720: credit the member and write one history row. */
  function VerifyCredit(db: Db, pid: nat, memberId: string, memberName: string): Db
    requires Found(db, pid)
  {
    var p := db.payments[pid - 1];
    var mid := VerifyTarget(p, memberId);
    var name := if memberName != "" then Some(memberName) else p.matchedName;
    db.(members := Credit(db.members, mid, p.amount),
        history := db.history + [HistoryEntry(mid, name, pid, p.amount, "Verified Zelle from " + p.senderName)])
  }

  /**
   * `verify_payment` as written: an unknown payment answers 404; otherwise
   * the row is marked verified and, whenever a member id is known, that
   * member is credited, whatever the payment's status and history.
   */
  function VerifyAsWritten(db: Db, pid: nat, memberId: string, memberName: string, verifiedBy: Option<string>): (r: (Db, Reply))
    ensures r.1 == Success <==> Found(db, pid)
    ensures !Found(db, pid) ==> r.0 == db
    ensures Found(db, pid) ==> |r.0.payments| == |db.payments| && r.0.payments[pid - 1].status == Verified
    ensures Found(db, pid) ==> VerifyMarksRow(db, pid, memberId, memberName, verifiedBy, r.0)
    ensures Found(db, pid) && VerifyTarget(db.payments[pid - 1], memberId) != "" ==> CreditedOnce(db, pid, memberId, memberName, r.0)
    ensures Found(db, pid) && VerifyTarget(db.payments[pid - 1], memberId) == "" ==> r.0.members == db.members && r.0.history == db.history
    ensures r.0.pollLog == db.pollLog
  {
    if !Found(db, pid) then (db, Error(404, "Payment not found"))
    else
      var p := db.payments[pid - 1];
      var db1 := db.(payments := db.payments[pid - 1 := VerifiedRow(p, memberId, memberName, verifiedBy.GetOr("admin"))]);
      if VerifyTarget(p, memberId) == "" then (db1, Success)
      else (VerifyCredit(db1, pid, memberId, memberName), Success)
  }

  /**
   * `verify_payment` corrected. An unknown payment answers 404. Otherwise the
   * row is marked verified, and the member is credited, with one history
   * row, only when this payment has credited nobody yet and the member id
   * names a row of the members table. A second verification, or one that
   * names another member, relabels the row but moves no money.
   */
  function Verify(db: Db, pid: nat, memberId: string, memberName: string, verifiedBy: Option<string>): (r: (Db, Reply))
    ensures r.1 == Success <==> Found(db, pid)
    ensures !Found(db, pid) ==> r.0 == db
    ensures Found(db, pid) ==> |r.0.payments| == |db.payments| && r.0.payments[pid - 1].status == Verified
    ensures Found(db, pid) ==> VerifyMarksRow(db, pid, memberId, memberName, verifiedBy, r.0)
    ensures Found(db, pid) && FirstCredit(db, pid, memberId) ==> CreditedOnce(db, pid, memberId, memberName, r.0)
    ensures Found(db, pid) && !FirstCredit(db, pid, memberId) ==> r.0.members == db.members && r.0.history == db.history
    ensures r.0.pollLog == db.pollLog
  {
    if !Found(db, pid) then (db, Error(404, "Payment not found"))
    else
      var p := db.payments[pid - 1];
      var db1 := db.(payments := db.payments[pid - 1 := VerifiedRow(p, memberId, memberName, verifiedBy.GetOr("admin"))]);
      if !FirstCredit(db, pid, memberId) then (db1, Success)
      else (VerifyCredit(db1, pid, memberId, memberName), Success)
  }

  /**
   * The verification as written credits an auto-verified payment a second
   * time: ingest credited it once, verifying it credits it again, so its
   * member's total paid rises by twice the amount.
   */
  lemma VerifyAsWrittenCreditsTwice(db: Db, emailId: string, msg: Message, f: Fields, m: MatchResult, k: nat)
    requires Valid(db) && emailId !in EmailIds(db.payments)
    requires k < |db.members| && m.member == Some(db.members[k]) && db.members[k].id != ""
    ensures var pid := |db.payments| + 1;
            var db1 := Ingest(db, emailId, msg, f, m).0;
            var db2 := VerifyAsWritten(db1, pid, "", "", None).0;
            && db1.payments[pid - 1].status == AutoVerified
            && CreditsFor(db2.history, pid) == 2
            && !CreditedAtMostOnce(db2)
            && db2.members[k].totalPaid == db.members[k].totalPaid + 2 * f.amount
  {
    var pid := |db.payments| + 1;
    var id := db.members[k].id;
    IngestNew(db, emailId, msg, f, m);
    var db1 := Ingest(db, emailId, msg, f, m).0;
    var db2 := VerifyAsWritten(db1, pid, "", "", None).0;
    forall j | 0 <= j < |db.history| ensures db.history[j].paymentId != pid { }
    CreditsForUnreferenced(db.history, pid);
    assert db1.history[..|db1.history| - 1] == db.history;
    assert db2.history[..|db2.history| - 1] == db1.history;
    CreditAt(db.members, id, f.amount);
    CreditAt(db1.members, id, f.amount);
  }

  /** The corrected verification keeps the table invariants, so no payment credits twice. */
  lemma VerifyPreservesValid(db: Db, pid: nat, memberId: string, memberName: string, verifiedBy: Option<string>)
    requires Valid(db)
    ensures Valid(Verify(db, pid, memberId, memberName, verifiedBy).0)
  {
    if Found(db, pid) {
      var p := db.payments[pid - 1];
      var db1 := db.(payments := db.payments[pid - 1 := VerifiedRow(p, memberId, memberName, verifiedBy.GetOr("admin"))]);
      var mid := VerifyTarget(p, memberId);
      if mid != "" && CreditsFor(db.history, pid) == 0 && FindMember(db.members, mid).Some? {
        var db2 := VerifyCredit(db1, pid, memberId, memberName);
        CreditPreservesIds(db1.members, mid, p.amount);
        FirstCreditKeepsCreditedOnce(db.history, db2.history[|db.history|]);
        assert db2.history == db.history + [db2.history[|db.history|]];
      }
    }
  }

  /** Verifying a payment twice credits its member at most once. */
  lemma VerifyTwiceCreditsOnce(db: Db, pid: nat, memberId: string, memberName: string, verifiedBy: Option<string>)
    ensures var db1 := Verify(db, pid, memberId, memberName, verifiedBy).0;
            var db2 := Verify(db1, pid, memberId, memberName, verifiedBy).0;
            db2.members == db1.members && db2.history == db1.history
  {
    var db1 := Verify(db, pid, memberId, memberName, verifiedBy).0;
    if Found(db, pid) && db1.history != db.history {
      assert db1.history[..|db1.history| - 1] == db.history;
      assert CreditsFor(db1.history, pid) > 0;
    }
  }

  /**
   * A payment nobody has credited yet, verified for a member of the table
   * (or with no member at all), is handled exactly as the code does it.
   * Verified for an id that names no member, it only has its row updated,
   * where the code writes a history row that credits nobody.
   */
  lemma VerifyCreditsUncredited(db: Db, pid: nat, memberId: string, memberName: string, verifiedBy: Option<string>)
    requires Found(db, pid) && CreditsFor(db.history, pid) == 0
    ensures var mid := VerifyTarget(db.payments[pid - 1], memberId);
            mid == "" || FindMember(db.members, mid).Some? ==>
              Verify(db, pid, memberId, memberName, verifiedBy) == VerifyAsWritten(db, pid, memberId, memberName, verifiedBy)
    ensures var mid := VerifyTarget(db.payments[pid - 1], memberId);
            var r := Verify(db, pid, memberId, memberName, verifiedBy).0;
            mid != "" && FindMember(db.members, mid).None? ==>
              && r.members == db.members && r.history == db.history
              && VerifyAsWritten(db, pid, memberId, memberName, verifiedBy).0.members == db.members
              && |VerifyAsWritten(db, pid, memberId, memberName, verifiedBy).0.history| == |db.history| + 1
  {
    var mid := VerifyTarget(db.payments[pid - 1], memberId);
    if mid != "" && FindMember(db.members, mid).None? {
      var w := VerifyAsWritten(db, pid, memberId, memberName, verifiedBy).0;
      AbsentIdUnchanged(db.members, mid, db.payments[pid - 1].amount);
    }
  }

  /** An update whose id is in no row changes no row. */
  lemma {:induction false} AbsentIdUnchanged(members: seq<Member>, id: string, amount: nat)
    requires forall i :: 0 <= i < |members| ==> members[i].id != id
    ensures Credit(members, id, amount) == members
  {
    if members != [] {
      AbsentIdUnchanged(members[1..], id, amount);
    }
  }

  /**
   * A verification with a member id that names nobody does not keep the
   * payment from being credited by a later verification for a real member.
   */
  lemma UnknownMemberDoesNotBlockCredit(db: Db, pid: nat, typo: string, k: nat)
    requires Valid(db) && Found(db, pid) && CreditsFor(db.history, pid) == 0
    requires typo != "" && FindMember(db.members, typo).None?
    requires k < |db.members| && db.members[k].id != ""
    ensures var db1 := Verify(db, pid, typo, "", None).0;
            var db2 := Verify(db1, pid, db.members[k].id, "", None).0;
            && db1.members == db.members && db1.history == db.history
            && CreditsFor(db2.history, pid) == 1
            && TotalPaid(db2.members) == TotalPaid(db.members) + db.payments[pid - 1].amount
  {
    var id := db.members[k].id;
    var db1 := Verify(db, pid, typo, "", None).0;
    var db2 := Verify(db1, pid, id, "", None).0;
    assert FindMember(db.members, id).Some? by {
      assert db.members[k].id == id;
    }
    assert db2.history[..|db2.history| - 1] == db.history;
    CreditExistingMember(db.members, k, db.payments[pid - 1].amount);
  }

  /**
   * Neither the code nor the correction checks the payment's status: a
   * rejected payment verified for a member is credited.
   */
  lemma RejectThenVerifyCredits(db: Db, pid: nat, reason: string, k: nat)
    requires Valid(db) && Found(db, pid) && CreditsFor(db.history, pid) == 0
    requires k < |db.members| && db.members[k].id != ""
    ensures var db1 := Reject(db, pid, reason).0;
            var db2 := Verify(db1, pid, db.members[k].id, "", None).0;
            && db1.payments[pid - 1].status == Rejected
            && db2.payments[pid - 1].status == Verified
            && CreditsFor(db2.history, pid) == 1
            && TotalPaid(db2.members) == TotalPaid(db.members) + db.payments[pid - 1].amount
  {
    var id := db.members[k].id;
    var db1 := Reject(db, pid, reason).0;
    var db2 := Verify(db1, pid, id, "", None).0;
    assert FindMember(db.members, id).Some? by {
      assert db.members[k].id == id;
    }
    assert db1.payments[pid - 1].amount == db.payments[pid - 1].amount;
    assert db2.history[..|db2.history| - 1] == db.history;
    CreditExistingMember(db.members, k, db.payments[pid - 1].amount);
  }

  /**
   * `reject_payment`: the row becomes rejected and its memo gets the reason
   * appended; an unknown id changes nothing and still answers success.
   */
  function Reject(db: Db, pid: nat, reason: string): (r: (Db, Reply))
    ensures r.1 == Success
    ensures r.0.members == db.members && r.0.history == db.history && r.0.pollLog == db.pollLog
    ensures |r.0.payments| == |db.payments|
    ensures forall i :: 0 <= i < |db.payments| && i != pid - 1 ==> r.0.payments[i] == db.payments[i]
    ensures Found(db, pid) ==> r.0.payments[pid - 1].status == Rejected && r.0.payments[pid - 1].amount == db.payments[pid - 1].amount
    ensures Found(db, pid) ==> r.0.payments[pid - 1].memo == db.payments[pid - 1].memo + " [REJECTED: " + reason + "]"
    ensures Found(db, pid) ==> r.0.payments[pid - 1] == db.payments[pid - 1].(status := Rejected, memo := r.0.payments[pid - 1].memo)
    ensures !Found(db, pid) ==> r.0 == db
  {
    if !Found(db, pid) then (db, Success)
    else
      var p := db.payments[pid - 1];
      (db.(payments := db.payments[pid - 1 := p.(status := Rejected, memo := p.memo + " [REJECTED: " + reason + "]")]), Success)
  }

  /** Rejecting never touches member balances or the history, and keeps the invariants. */
  lemma RejectKeepsBalances(db: Db, pid: nat, reason: string)
    requires Valid(db)
    ensures var db1 := Reject(db, pid, reason).0;
            && db1.members == db.members && db1.history == db.history
            && |db1.payments| == |db.payments|
            && (Found(db, pid) ==> db1.payments[pid - 1].status == Rejected)
            && Valid(db1)
  {
    var db1 := Reject(db, pid, reason).0;
    if Found(db, pid) {
      assert forall i :: 0 <= i < |db.payments| ==> db1.payments[i].emailId == db.payments[i].emailId;
    }
  }

  /** The first member row with the given id. */
  function FindMember(members: seq<Member>, id: string): (r: Option<Member>)
    ensures r.Some? ==> r.value in members && r.value.id == id
    ensures r.None? ==> forall i :: 0 <= i < |members| ==> members[i].id != id
  {
    match FirstHit(members, (m: Member) => if m.id == id then Some(m) else None)
    case None => None
    case Some(hit) => Some(hit.1)
  }

  /**
   * `match_payment_to_member`: a missing member id answers 400, an unknown
   * member 404; otherwise the row takes that member, becomes verified and
   * loses its auto-matched flag, with no balance change. An unknown payment
   * id changes nothing and answers success.
   */
  function MatchToMember(db: Db, pid: nat, memberId: string): (r: (Db, Reply))
    ensures r.0.members == db.members && r.0.history == db.history && r.0.pollLog == db.pollLog
    ensures |r.0.payments| == |db.payments|
    ensures r.1.Success? <==> memberId != "" && FindMember(db.members, memberId).Some?
    ensures r.1.Success? && Found(db, pid) ==>
              && r.0.payments[pid - 1].matchedId == Some(memberId)
              && r.0.payments[pid - 1].status == Verified && !r.0.payments[pid - 1].autoMatched
    ensures r.1.Success? && Found(db, pid) ==>
              var m := FindMember(db.members, memberId).value;
              r.0.payments[pid - 1] == db.payments[pid - 1].(matchedId := Some(m.id), matchedName := Some(m.fullName),
                                                             matchedEmail := Some(m.email), status := Verified, autoMatched := false)
    ensures forall i :: 0 <= i < |db.payments| && i != pid - 1 ==> r.0.payments[i] == db.payments[i]
    ensures !r.1.Success? || !Found(db, pid) ==> r.0 == db
  {
    if memberId == "" then (db, Error(400, "member_id required"))
    else
      match FindMember(db.members, memberId)
      case None => (db, Error(404, "Member not found"))
      case Some(mem) =>
        if !Found(db, pid) then (db, Success)
        else
          var p := db.payments[pid - 1];
          var p' := p.(matchedId := Some(mem.id), matchedName := Some(mem.fullName), matchedEmail := Some(mem.email),
                       status := Verified, autoMatched := false);
          (db.(payments := db.payments[pid - 1 := p']), Success)
  }

  /** A manual match never touches member balances or the history, and keeps the invariants. */
  lemma MatchKeepsBalances(db: Db, pid: nat, memberId: string)
    requires Valid(db)
    ensures var (db1, reply) := MatchToMember(db, pid, memberId);
            && db1.members == db.members && db1.history == db.history
            && (reply.Success? <==> memberId != "" && FindMember(db.members, memberId).Some?)
            && (reply.Success? && Found(db, pid) ==> db1.payments[pid - 1].status == Verified && !db1.payments[pid - 1].autoMatched)
            && Valid(db1)
  {
    var db1 := MatchToMember(db, pid, memberId).0;
    if Found(db, pid) {
      assert forall i :: 0 <= i < |db.payments| ==> db1.payments[i].emailId == db.payments[i].emailId;
    }
  }

  /**
   * A payment first matched by hand (verified, nothing credited) is still
   * credited exactly once when it is then verified.
   */
  lemma MatchThenVerifyCreditsOnce(db: Db, pid: nat, memberId: string)
    requires Valid(db) && Found(db, pid) && CreditsFor(db.history, pid) == 0
    requires memberId != "" && FindMember(db.members, memberId).Some?
    ensures var db1 := MatchToMember(db, pid, memberId).0;
            var db2 := Verify(db1, pid, "", "", None).0;
            && CreditsFor(db2.history, pid) == 1
            && TotalPaid(db2.members) == TotalPaid(db.members) + db.payments[pid - 1].amount
  {
    var db1 := MatchToMember(db, pid, memberId).0;
    var db2 := Verify(db1, pid, "", "", None).0;
    assert db2.history[..|db2.history| - 1] == db.history;
    var k :| 0 <= k < |db.members| && db.members[k] == FindMember(db.members, memberId).value;
    CreditExistingMember(db.members, k, db.payments[pid - 1].amount);
  }
}
