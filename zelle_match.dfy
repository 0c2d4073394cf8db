/**
 * `match_member` (banf_web/zelle_payment_service.py, lines 324-368): the
 * strategies are tried in a fixed priority order over the members table,
 * read in table order, and the first member a strategy accepts is returned.
 */
module ZelleMatch {
  import opened Wrappers
  import opened Text
  import opened Ordered
  import ZelleParse

  /** A row of the members table; `balanceDue` and `totalPaid` are in cents. */
  datatype Member = Member(
    id: string,
    firstName: string,
    lastName: string,
    fullName: string,
    email: string,
    balanceDue: nat,
    totalPaid: nat)

  datatype Strategy = EmailMatch | MemoMatch | NameExact | NamePartial | NoMatch

  datatype MatchResult = MatchResult(member: Option<Member>, strategy: Strategy)

  /** `LOWER(email) = LOWER(?)` */
  predicate EmailHit(senderEmail: string, m: Member) {
    Lower(m.email) == Lower(senderEmail)
  }

  /** The memo mentions the member's full name or last name, ignoring case. */
  predicate MemoHit(memo: string, m: Member) {
    Contains(Lower(memo), Lower(m.fullName)) || Contains(Lower(memo), Lower(m.lastName))
  }

  /**
   * The sender-name test for one member: exact when the name is the full
   * name, partial when the last name occurs in the sender name or the
   * sender name occurs in the full name.
   */
  function NameHit(senderName: string, m: Member): Option<Strategy> {
    var name := Lower(senderName);
    if name == Lower(m.fullName) then Some(NameExact)
    else if Contains(name, Lower(m.lastName)) || Contains(Lower(m.fullName), name) then Some(NamePartial)
    else None
  }

  predicate EmailStage(members: seq<Member>, senderEmail: string) {
    senderEmail != "" && exists i :: 0 <= i < |members| && EmailHit(senderEmail, members[i])
  }

  predicate MemoStage(members: seq<Member>, memo: string) {
    memo != "" && exists i :: 0 <= i < |members| && MemoHit(memo, members[i])
  }

  /** Name matching is skipped for an empty name and for the "Unknown Sender" default. */
  predicate NameUsable(senderName: string) {
    senderName != "" && senderName != ZelleParse.UnknownSender
  }

  predicate NameStage(members: seq<Member>, senderName: string) {
    NameUsable(senderName) && exists i :: 0 <= i < |members| && NameHit(senderName, members[i]).Some?
  }

  /** Whether member `m` passes the test of the stage that reports strategy `s`. */
  predicate StageHit(s: Strategy, senderName: string, memo: string, senderEmail: string, m: Member) {
    match s
    case EmailMatch => EmailHit(senderEmail, m)
    case MemoMatch => MemoHit(memo, m)
    case NameExact => NameHit(senderName, m).Some?
    case NamePartial => NameHit(senderName, m).Some?
    case NoMatch => false
  }

  /**
   * The strategy reported is the first stage, in priority order, that some
   * member passes; the member is the first one in table order that passes
   * it; in the name stage, exact or partial is decided for that member only.
   */
  function MatchMember(members: seq<Member>, senderName: string, memo: string, senderEmail: string): (r: MatchResult)
    ensures r.member.None? <==> r.strategy == NoMatch
    ensures r.strategy == EmailMatch <==> EmailStage(members, senderEmail)
    ensures r.strategy == MemoMatch <==> !EmailStage(members, senderEmail) && MemoStage(members, memo)
    ensures (r.strategy == NameExact || r.strategy == NamePartial) <==>
              !EmailStage(members, senderEmail) && !MemoStage(members, memo) && NameStage(members, senderName)
    ensures r.member.Some? ==>
              exists k :: && 0 <= k < |members|
                          && members[k] == r.member.value
                          && StageHit(r.strategy, senderName, memo, senderEmail, members[k])
                          && (r.strategy == NameExact || r.strategy == NamePartial ==> NameHit(senderName, members[k]) == Some(r.strategy))
                          && forall i :: 0 <= i < k ==> !StageHit(r.strategy, senderName, memo, senderEmail, members[i])
  {
    var byEmail :=
      if senderEmail != "" then FirstHit(members, (m: Member) => if EmailHit(senderEmail, m) then Some(EmailMatch) else None)
      else None;
    if byEmail.Some? then
      MatchResult(Some(members[byEmail.value.0]), EmailMatch)
    else
      var byMemo :=
        if memo != "" then FirstHit(members, (m: Member) => if MemoHit(memo, m) then Some(MemoMatch) else None)
        else None;
      if byMemo.Some? then
        MatchResult(Some(members[byMemo.value.0]), MemoMatch)
      else
        var byName := if NameUsable(senderName) then FirstHit(members, (m: Member) => NameHit(senderName, m)) else None;
        if byName.Some? then
          MatchResult(Some(members[byName.value.0]), byName.value.1)
        else
          MatchResult(None, NoMatch)
  }

  /** The scan calls the matcher without a sender email, so it never matches by email. */
  lemma ScanNeverMatchesByEmail(members: seq<Member>, senderName: string, memo: string)
    ensures MatchMember(members, senderName, memo, "").strategy != EmailMatch
  {
  }

  /**
   * An email match outranks any name match: a payer whose address belongs to
   * a member is credited to the first such member even when the sender name
   * names somebody else.
   */
  lemma EmailOutranksNames(members: seq<Member>, senderName: string, memo: string, senderEmail: string, k: nat)
    requires senderEmail != "" && k < |members| && EmailHit(senderEmail, members[k])
    requires forall i :: 0 <= i < k ==> !EmailHit(senderEmail, members[i])
    ensures MatchMember(members, senderName, memo, senderEmail) == MatchResult(Some(members[k]), EmailMatch)
  {
    var r := MatchMember(members, senderName, memo, senderEmail);
    var j :| && 0 <= j < |members| && members[j] == r.member.value
             && StageHit(r.strategy, senderName, memo, senderEmail, members[j])
             && forall i :: 0 <= i < j ==> !StageHit(r.strategy, senderName, memo, senderEmail, members[i]);
  }

  /**
   * In the name stage members are visited in table order and each is tried
   * for an exact and then a partial match, so a partial match on an earlier
   * member wins over an exact match on a later one.
   */
  lemma EarlierPartialBeatsLaterExact(members: seq<Member>, senderName: string, memo: string, i: nat, j: nat)
    requires NameUsable(senderName) && !MemoStage(members, memo)
    requires i < j < |members|
    requires NameHit(senderName, members[i]) == Some(NamePartial)
    requires NameHit(senderName, members[j]) == Some(NameExact)
    requires forall h :: 0 <= h < i ==> NameHit(senderName, members[h]).None?
    ensures MatchMember(members, senderName, memo, "") == MatchResult(Some(members[i]), NamePartial)
  {
    var r := MatchMember(members, senderName, memo, "");
    assert NameStage(members, senderName);
    var k :| && 0 <= k < |members| && members[k] == r.member.value
             && StageHit(r.strategy, senderName, memo, "", members[k])
             && NameHit(senderName, members[k]) == Some(r.strategy)
             && forall h :: 0 <= h < k ==> !StageHit(r.strategy, senderName, memo, "", members[h]);
  }

  /**
   * A memo that begins with a member's full name (as in "Sunil Banerjee
   * Family") matches that member by memo, provided no earlier member is
   * mentioned in it.
   */
  lemma MemoNamingMemberMatches(members: seq<Member>, senderName: string, memo: string, rest: string, k: nat)
    requires k < |members| && memo == members[k].fullName + rest && memo != ""
    requires forall i :: 0 <= i < k ==> !MemoHit(memo, members[i])
    ensures MatchMember(members, senderName, memo, "") == MatchResult(Some(members[k]), MemoMatch)
  {
    LowerAppend(members[k].fullName, rest);
    ContainsPrefix(Lower(memo), Lower(members[k].fullName), Lower(rest));
    assert MemoHit(memo, members[k]);
    var r := MatchMember(members, senderName, memo, "");
    var j :| && 0 <= j < |members| && members[j] == r.member.value
             && StageHit(r.strategy, senderName, memo, "", members[j])
             && forall i :: 0 <= i < j ==> !StageHit(r.strategy, senderName, memo, "", members[i]);
  }
}
