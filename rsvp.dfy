/**
 * RSVP replies of `check_rsvp_replies` (banf_web/gmail_service.py, lines
 * 505-576): each reply's status is read from its subject by an ordered
 * keyword test, and the replies are tallied by status. A reply whose fetch
 * or parse raises is dropped by the handler's `except: pass`.
 */
module Rsvp {
  import opened Text

  datatype RsvpStatus = Attending | MaybeAttending | NotAttending | UnknownStatus

  /**
   * The keywords are searched in the upper-cased subject in the order YES,
   * MAYBE, NO; the first one present decides.
   */
  function StatusOf(subject: string): (r: RsvpStatus)
    ensures r == Attending <==> Contains(Upper(subject), "RSVP YES")
    ensures r == MaybeAttending <==> !Contains(Upper(subject), "RSVP YES") && Contains(Upper(subject), "RSVP MAYBE")
    ensures r == NotAttending <==>
              && !Contains(Upper(subject), "RSVP YES") && !Contains(Upper(subject), "RSVP MAYBE")
              && Contains(Upper(subject), "RSVP NO")
  {
    var upper := Upper(subject);
    if Contains(upper, "RSVP YES") then Attending
    else if Contains(upper, "RSVP MAYBE") then MaybeAttending
    else if Contains(upper, "RSVP NO") then NotAttending
    else UnknownStatus
  }

  lemma ContainsInfix(text: string, a: string, pat: string, b: string)
    requires text == a + pat + b
    ensures Contains(text, pat)
  {
    assert text[|a|..] == pat + b;
  }

  /**
   * The test ignores case and position: a subject carrying "rsvp yes" in any
   * letter case anywhere is an attending reply, whatever else it says.
   */
  lemma YesAnywhereAttends(before: string, yes: string, after: string)
    requires Upper(yes) == "RSVP YES"
    ensures StatusOf(before + yes + after) == Attending
  {
    UpperAppend(before + yes, after);
    UpperAppend(before, yes);
    ContainsInfix(Upper(before + yes + after), Upper(before), "RSVP YES", Upper(after));
  }

  /** A "RSVP NO" reply that also quotes "RSVP MAYBE" counts as maybe, since MAYBE is tested first. */
  lemma MaybeOutranksNo(before: string, after: string)
    requires !Contains(Upper(before + "RSVP MAYBE" + after), "RSVP YES")
    ensures StatusOf(before + "RSVP MAYBE" + after) == MaybeAttending
  {
    UpperAppend(before + "RSVP MAYBE", after);
    UpperAppend(before, "RSVP MAYBE");
    ContainsInfix(Upper(before + "RSVP MAYBE" + after), Upper(before), "RSVP MAYBE", Upper(after));
  }

  /** One search hit: its subject, or the exception raised while fetching or parsing it. */
  datatype Reply = Parsed(subject: string) | Failed

  /** The statuses of the `rsvps` list, in search order, failed replies dropped. */
  function Statuses(replies: seq<Reply>): (r: seq<RsvpStatus>)
    ensures |r| <= |replies|
    ensures (forall j :: 0 <= j < |replies| ==> replies[j].Parsed?) ==> |r| == |replies|
    ensures forall k :: 0 <= k < |r| ==>
              exists j :: 0 <= j < |replies| && replies[j].Parsed? && r[k] == StatusOf(replies[j].subject)
  {
    if replies == [] then []
    else
      var prefix := replies[..|replies| - 1];
      var init := Statuses(prefix);
      assert forall j :: 0 <= j < |prefix| ==> prefix[j] == replies[j];
      match replies[|replies| - 1]
      case Parsed(subject) => init + [StatusOf(subject)]
      case Failed => init
  }

  /**
   * `Statuses` is determined by these three facts: it maps a parsed reply to
   * its subject's status, drops a failed one, and works reply by reply, in
   * order.
   */
  lemma {:induction false} StatusesAppend(a: seq<Reply>, b: seq<Reply>)
    ensures Statuses(a + b) == Statuses(a) + Statuses(b)
  {
    if b == [] {
      assert a + b == a;
    } else {
      var b' := b[..|b| - 1];
      assert (a + b)[..|a + b| - 1] == a + b';
      assert (a + b)[|a + b| - 1] == b[|b| - 1];
      StatusesAppend(a, b');
    }
  }

  lemma StatusesOne(subject: string)
    ensures Statuses([Parsed(subject)]) == [StatusOf(subject)]
    ensures Statuses([Failed]) == []
  {
    assert [Parsed(subject)][..0] == [];
    assert [Failed][..0] == [];
  }

  /** The number of replies that parsed and whose subject reads as `s`. */
  function RepliesWith(replies: seq<Reply>, s: RsvpStatus): nat {
    if replies == [] then 0
    else
      var last := replies[|replies| - 1];
      RepliesWith(replies[..|replies| - 1], s) + (if last.Parsed? && StatusOf(last.subject) == s then 1 else 0)
  }

  function CountParsed(replies: seq<Reply>): nat {
    if replies == [] then 0
    else CountParsed(replies[..|replies| - 1]) + (if replies[|replies| - 1].Parsed? then 1 else 0)
  }

  /** `total` counts exactly the replies that did not raise. */
  lemma {:induction false} FailedRepliesDropped(replies: seq<Reply>)
    ensures |Statuses(replies)| == CountParsed(replies)
  {
    if replies != [] {
      FailedRepliesDropped(replies[..|replies| - 1]);
    }
  }

  function Count(rs: seq<RsvpStatus>, s: RsvpStatus): nat {
    if rs == [] then 0 else (if rs[0] == s then 1 else 0) + Count(rs[1..], s)
  }

  datatype Tally = Tally(total: nat, attending: nat, maybe: nat, declined: nat, unknown: nat)

  /** The counts of the handler's response. */
  function TallyOf(replies: seq<Reply>): (t: Tally)
    ensures t.total <= |replies|
    ensures (forall j :: 0 <= j < |replies| ==> replies[j].Parsed?) ==> t.total == |replies|
    ensures t.attending <= t.total && t.maybe <= t.total && t.declined <= t.total && t.unknown <= t.total
    ensures t.attending == RepliesWith(replies, Attending) && t.maybe == RepliesWith(replies, MaybeAttending)
    ensures t.declined == RepliesWith(replies, NotAttending) && t.unknown == RepliesWith(replies, UnknownStatus)
  {
    var rs := Statuses(replies);
    CountsPartition(rs);
    StatusCounts(replies, Attending);
    StatusCounts(replies, MaybeAttending);
    StatusCounts(replies, NotAttending);
    StatusCounts(replies, UnknownStatus);
    Tally(|rs|, Count(rs, Attending), Count(rs, MaybeAttending), Count(rs, NotAttending), Count(rs, UnknownStatus))
  }

  lemma {:induction false} CountAppend(rs: seq<RsvpStatus>, x: RsvpStatus, s: RsvpStatus)
    ensures Count(rs + [x], s) == Count(rs, s) + (if x == s then 1 else 0)
  {
    if rs != [] {
      assert (rs + [x])[1..] == rs[1..] + [x];
      CountAppend(rs[1..], x, s);
    } else {
      assert [x][1..] == [];
    }
  }

  /** Each status count of the response counts the replies with that status. */
  lemma {:induction false} StatusCounts(replies: seq<Reply>, s: RsvpStatus)
    ensures Count(Statuses(replies), s) == RepliesWith(replies, s)
  {
    if replies != [] {
      var init := replies[..|replies| - 1];
      StatusCounts(init, s);
      match replies[|replies| - 1]
      case Parsed(subject) => CountAppend(Statuses(init), StatusOf(subject), s);
      case Failed =>
    }
  }

  lemma {:induction false} CountsPartition(rs: seq<RsvpStatus>)
    ensures Count(rs, Attending) + Count(rs, MaybeAttending) + Count(rs, NotAttending) + Count(rs, UnknownStatus) == |rs|
  {
    if rs != [] {
      CountsPartition(rs[1..]);
    }
  }

  /** The four counts partition the replies: they add up to `total`. */
  lemma TallyAddsUp(replies: seq<Reply>)
    ensures var t := TallyOf(replies);
            t.attending + t.maybe + t.declined + t.unknown == t.total
  {
    CountsPartition(Statuses(replies));
  }
}
