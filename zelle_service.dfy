/**
 * The Zelle service as stateful objects: the database tables the handlers
 * update in place, and the background poller's running flag
 * (banf_web/zelle_payment_service.py). Each handler is proved against the
 * table transition of the same name in ZelleStore and keeps its invariant.
 */
module ZelleService {
  import opened Wrappers
  import opened Text
  import opened ZelleParse
  import opened ZelleMatch
  import opened ZelleStore

  /** The tables of zelle_payments.db (and the shared members table). */
  class PaymentService {
    var payments: seq<Payment>
    var members: seq<Member>
    var history: seq<HistoryEntry>
    var pollLog: seq<PollLogEntry>

    function State(): Db
      reads this
    {
      Db(payments, members, history, pollLog)
    }

    /** A fresh database over an existing members table. */
    constructor (existingMembers: seq<Member>)
      requires DistinctMemberIds(existingMembers)
      ensures State() == Db([], existingMembers, [], [])
      ensures Valid(State())
    {
      payments := [];
      members := existingMembers;
      history := [];
      pollLog := [];
    }

    /** The insert and balance update for one new message (lines 459-515). */
    method InsertPayment(emailId: string, msg: Message, f: Fields, m: MatchResult) returns (created: Option<PaymentSummary>)
      requires Valid(State())
      modifies this
      ensures (State(), created) == Ingest(old(State()), emailId, msg, f, m)
      ensures Valid(State())
    {
      IngestPreservesValid(State(), emailId, msg, f, m);
      if emailId in EmailIds(payments) {
        // the UNIQUE constraint rejects the row and the IntegrityError is swallowed
        return None;
      }
      var pid := |payments| + 1;
      var p := NewPayment(emailId, msg, f, m);
      payments := payments + [p];
      if m.member.Some? {
        var mem := m.member.value;
        members := Credit(members, mem.id, f.amount);
        history := history + [HistoryEntry(mem.id, Some(mem.fullName), pid, f.amount, IngestDescription(f.sender, f.memo))];
      }
      created := Some(PaymentSummary(pid, f.sender, f.amount, f.memo, p.matchedName, m.strategy, p.status));
    }

    /** One turn of the scan loop: skip, record the error, or classify, extract, match and insert. */
    method PollMessage(rules: Rules, existing: set<string>, item: MailItem, res: ScanResult) returns (res': ScanResult)
      requires Valid(State())
      modifies this
      ensures (State(), res') == ScanItem(rules, existing, (old(State()), res), item)
      ensures Valid(State())
    {
      res' := res;
      if item.id !in existing {
        match item.fetch {
          case NotOk =>
          case Raises(reason) =>
            res' := res.(errors := res.errors + [ErrorLine(item.id, reason)]);
          case Fetched(msg) =>
            res' := PollFetched(rules, item.id, msg, res);
        }
      }
    }

    /** A fetched message: classify it and, for a Zelle notification, extract, match and record. */
    method PollFetched(rules: Rules, id: string, msg: Message, res: ScanResult) returns (res': ScanResult)
      requires Valid(State())
      modifies this
      ensures (State(), res') == ScanMessage(rules, old(State()), res, id, msg)
      ensures Valid(State())
    {
      res' := res;
      if IsZelleEmail(rules.subject, msg.subject, msg.fromAddr, msg.body) {
        var f := ExtractFields(rules, msg.subject, msg.fromAddr, msg.body);
        var m := MatchMember(members, f.sender, f.memo, "");
        res' := RecordPayment(id, msg, f, m, res);
      }
    }

    /** Insert the payment and count it in the scan's results. */
    method RecordPayment(id: string, msg: Message, f: Fields, m: MatchResult, res: ScanResult) returns (res': ScanResult)
      requires Valid(State())
      modifies this
      ensures (State(), res') == Record(old(State()), res, id, msg, f, m)
      ensures Valid(State())
    {
      res' := res;
      var created := InsertPayment(id, msg, f, m);
      if created.Some? {
        res' := res.(newPayments := res.newPayments + 1,
                     autoMatched := res.autoMatched + (if m.member.Some? then 1 else 0),
                     payments := res.payments + [created.value]);
      }
    }

    /** `poll_gmail_for_zelle`, over the mailbox as this scan sees it. */
    method PollForZelle(rules: Rules, mailbox: Mailbox) returns (res: ScanResult)
      requires Valid(State())
      modifies this
      ensures (State(), res) == Scan(rules, old(State()), mailbox)
      ensures Valid(State())
    {
      match mailbox {
        case Unreachable(reason) =>
          res := EmptyScan().(errors := ["Gmail connection failed: " + reason]);
        case SearchFailed(reason) =>
          res := EmptyScan().(errors := ["IMAP error: " + Take(reason, 200)]);
          pollLog := pollLog + [PollLogEntry(0, 0, 0, res.errors)];
        case Listing(items) =>
          if items == [] {
            return EmptyScan();
          }
          res := PollListing(rules, items);
          pollLog := pollLog + [PollLogEntry(res.emailsChecked, res.newPayments, res.autoMatched, res.errors)];
      }
    }

    /** The loop over the listed ids, skipping those stored when the scan began. */
    method PollListing(rules: Rules, items: seq<MailItem>) returns (res: ScanResult)
      requires Valid(State())
      modifies this
      ensures (State(), res) ==
              ScanItems(rules, EmailIds(old(payments)), (old(State()), EmptyScan().(emailsChecked := |items|)), items)
      ensures Valid(State())
    {
      var existing := EmailIds(payments);
      var res0 := EmptyScan().(emailsChecked := |items|);
      res := res0;
      var i := 0;
      while i < |items|
        invariant 0 <= i <= |items|
        invariant (State(), res) == ScanItems(rules, existing, (old(State()), res0), items[..i])
        invariant Valid(State())
      {
        ghost var before := (State(), res);
        res := PollMessage(rules, existing, items[i], res);
        assert items[..i + 1][..i] == items[..i];
        assert ScanItems(rules, existing, (old(State()), res0), items[..i + 1]) == ScanItem(rules, existing, before, items[i]);
        i := i + 1;
      }
      assert items[..|items|] == items;
    }

    /**
     * `verify_payment`, crediting only a member of the table and only a
     * payment that has credited nobody yet.
     */
    method VerifyPayment(pid: nat, memberId: string, memberName: string, verifiedBy: Option<string>) returns (reply: Reply)
      requires Valid(State())
      modifies this
      ensures (State(), reply) == Verify(old(State()), pid, memberId, memberName, verifiedBy)
      ensures Valid(State())
    {
      VerifyPreservesValid(State(), pid, memberId, memberName, verifiedBy);
      if !(1 <= pid <= |payments|) {
        return Error(404, "Payment not found");
      }
      var p := payments[pid - 1];
      var credit := FirstCredit(State(), pid, memberId);
      payments := payments[pid - 1 := VerifiedRow(p, memberId, memberName, verifiedBy.GetOr("admin"))];
      if credit {
        var mid := VerifyTarget(p, memberId);
        var name := if memberName != "" then Some(memberName) else p.matchedName;
        members := Credit(members, mid, p.amount);
        history := history + [HistoryEntry(mid, name, pid, p.amount, "Verified Zelle from " + p.senderName)];
      }
      reply := Success;
    }

    /** `reject_payment`. */
    method RejectPayment(pid: nat, reason: string) returns (reply: Reply)
      requires Valid(State())
      modifies this
      ensures (State(), reply) == Reject(old(State()), pid, reason)
      ensures Valid(State())
    {
      RejectKeepsBalances(State(), pid, reason);
      if 1 <= pid <= |payments| {
        var p := payments[pid - 1];
        payments := payments[pid - 1 := p.(status := Rejected, memo := p.memo + " [REJECTED: " + reason + "]")];
      }
      reply := Success;
    }

    /** `match_payment_to_member`. */
    method MatchPaymentToMember(pid: nat, memberId: string) returns (reply: Reply)
      requires Valid(State())
      modifies this
      ensures (State(), reply) == MatchToMember(old(State()), pid, memberId)
      ensures Valid(State())
    {
      MatchKeepsBalances(State(), pid, memberId);
      if memberId == "" {
        return Error(400, "member_id required");
      }
      var found := FindMember(members, memberId);
      if found.None? {
        return Error(404, "Member not found");
      }
      var mem := found.value;
      if 1 <= pid <= |payments| {
        var p := payments[pid - 1];
        payments := payments[pid - 1 := p.(matchedId := Some(mem.id), matchedName := Some(mem.fullName),
                                           matchedEmail := Some(mem.email), status := Verified, autoMatched := false)];
      }
      reply := Success;
    }
  }

  /** The background poller's running flag; the thread and its sleeps are not modelled. */
  class Poller {
    var running: bool

    constructor ()
      ensures !running
    {
      running := false;
    }

    /** `start_poller`: refuses when already running, so at most one thread is started. */
    method Start() returns (started: bool)
      modifies this
      ensures started <==> !old(running)
      ensures running
    {
      if running {
        return false;
      }
      running := true;
      started := true;
    }

    /** `stop_poller`: clears the flag and always reports success. */
    method Stop() returns (stopped: bool)
      modifies this
      ensures stopped && !running
    {
      running := false;
      stopped := true;
    }
  }
}
