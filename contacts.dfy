/**
 * Contact groups of the Gmail helper service (banf_web/gmail_service.py,
 * lines 52-76 and 620-691): a map from group name to a description and a
 * list of contacts. Loading and saving the JSON file around each request is
 * not modelled; the map is the state those requests change.
 */
module Contacts {
  import opened Wrappers

  /** A posted or stored contact; an `email` that is missing, null or empty is "". */
  datatype Contact = Contact(name: string, email: string)

  datatype Group = Group(description: string, contacts: seq<Contact>)

  function Emails(cs: seq<Contact>): set<string> {
    set i | 0 <= i < |cs| :: cs[i].email
  }

  lemma EmailsAppend(a: seq<Contact>, b: seq<Contact>)
    ensures Emails(a + b) == Emails(a) + Emails(b)
  {
    var ab := a + b;
    forall e | e in Emails(a + b) ensures e in Emails(a) + Emails(b) {
      var i :| 0 <= i < |ab| && ab[i].email == e;
      if i >= |a| {
        assert b[i - |a|] == ab[i];
      }
    }
    forall e | e in Emails(a) + Emails(b) ensures e in Emails(a + b) {
      if e in Emails(a) {
        var i :| 0 <= i < |a| && a[i].email == e;
        assert ab[i] == a[i];
      } else {
        var i :| 0 <= i < |b| && b[i].email == e;
        assert ab[|a| + i] == b[i];
      }
    }
  }

  lemma EmailsSingleton(c: Contact)
    ensures Emails([c]) == {c.email}
  {
    assert [c][0] == c;
  }

  ghost predicate DistinctEmails(cs: seq<Contact>) {
    forall i, j :: 0 <= i < j < |cs| ==> cs[i].email != cs[j].email
  }

  lemma {:induction false} DistinctEmailsCount(cs: seq<Contact>)
    requires DistinctEmails(cs)
    ensures |Emails(cs)| == |cs|
  {
    if cs != [] {
      var init := cs[..|cs| - 1];
      DistinctEmailsCount(init);
      assert Emails(cs) == Emails(init) + {cs[|cs| - 1].email};
      assert cs[|cs| - 1].email !in Emails(init);
    }
  }

  // ---------------------------------------------------------------- add

  /**
   * The contacts `add_to_group` appends to a group whose emails are `seen`:
   * in batch order, each one with an email that is non-empty, not in the
   * group and not taken by a contact appended before it.
   */
  function Accept(seen: set<string>, batch: seq<Contact>): (r: seq<Contact>)
    ensures |r| <= |batch|
    ensures forall k :: 0 <= k < |r| ==> r[k] in batch && r[k].email != "" && r[k].email !in seen
    decreases |batch|
  {
    if batch == [] then []
    else
      var prev := Accept(seen, batch[..|batch| - 1]);
      var c := batch[|batch| - 1];
      if c.email != "" && c.email !in seen && c.email !in Emails(prev) then prev + [c] else prev
  }

  /** A contact of the batch whose email is new and appears nowhere earlier in the batch. */
  ghost predicate FirstNew(seen: set<string>, batch: seq<Contact>, i: int)
    requires 0 <= i < |batch|
  {
    && batch[i].email != ""
    && batch[i].email !in seen
    && forall j :: 0 <= j < i ==> batch[j].email != batch[i].email
  }

  /** The `FirstNew` contacts of the batch, in batch order. */
  ghost function FirstNewOnes(seen: set<string>, batch: seq<Contact>): seq<Contact>
    decreases |batch|
  {
    if batch == [] then []
    else
      var n := |batch| - 1;
      FirstNewOnes(seen, batch[..n]) + (if FirstNew(seen, batch, n) then [batch[n]] else [])
  }

  /** Every contact of `added` is a contact of the batch that is `FirstNew` there. */
  ghost predicate CarriedByFirst(seen: set<string>, batch: seq<Contact>, added: seq<Contact>) {
    forall k :: 0 <= k < |added| ==>
      exists i :: 0 <= i < |batch| && batch[i] == added[k] && FirstNew(seen, batch, i)
  }

  /** The appended contacts carry distinct emails: the batch's new non-empty ones. */
  lemma {:induction false} AcceptEmails(seen: set<string>, batch: seq<Contact>)
    ensures DistinctEmails(Accept(seen, batch))
    ensures Emails(Accept(seen, batch)) == Emails(batch) - seen - {""}
  {
    if batch != [] {
      var init := batch[..|batch| - 1];
      var prev := Accept(seen, init);
      var c := batch[|batch| - 1];
      AcceptEmails(seen, init);
      assert Emails(batch) == Emails(init) + {c.email};
      if c.email != "" && c.email !in seen && c.email !in Emails(prev) {
        EmailsAppend(prev, [c]);
        EmailsSingleton(c);
      }
    }
  }

  /** Each appended contact is the first contact of the batch with its email. */
  lemma AcceptOrigin(seen: set<string>, batch: seq<Contact>)
    ensures CarriedByFirst(seen, batch, Accept(seen, batch))
  {
    AcceptInOrder(seen, batch);
    FirstNewOnesCarried(seen, batch);
  }

  lemma {:induction false} FirstNewOnesCarried(seen: set<string>, batch: seq<Contact>)
    ensures CarriedByFirst(seen, batch, FirstNewOnes(seen, batch))
  {
    if batch != [] {
      var n := |batch| - 1;
      var init := batch[..n];
      FirstNewOnesCarried(seen, init);
      var prev := FirstNewOnes(seen, init);
      var acc := FirstNewOnes(seen, batch);
      forall k | 0 <= k < |acc|
        ensures exists i :: 0 <= i < |batch| && batch[i] == acc[k] && FirstNew(seen, batch, i)
      {
        if k < |prev| {
          var i :| 0 <= i < |init| && init[i] == prev[k] && FirstNew(seen, init, i);
          assert batch[i] == init[i] && acc[k] == prev[k];
          assert forall j :: 0 <= j < i ==> batch[j] == init[j];
        } else {
          assert acc[k] == batch[n];
        }
      }
      assert forall k :: 0 <= k < |acc| ==> exists i :: 0 <= i < |batch| && batch[i] == acc[k] && FirstNew(seen, batch, i);
      assert CarriedByFirst(seen, batch, acc);
    }
  }

  /** The appended contacts are the batch's `FirstNew` contacts, in batch order. */
  lemma {:induction false} AcceptInOrder(seen: set<string>, batch: seq<Contact>)
    ensures Accept(seen, batch) == FirstNewOnes(seen, batch)
  {
    if batch != [] {
      var n := |batch| - 1;
      var init := batch[..n];
      var c := batch[n];
      AcceptInOrder(seen, init);
      AcceptEmails(seen, init);
      var isNew := c.email != "" && c.email !in seen && c.email !in Emails(Accept(seen, init));
      assert isNew <==> FirstNew(seen, batch, n) by {
        if c.email != "" && c.email !in seen {
          if c.email in Emails(init) {
            var j :| 0 <= j < |init| && init[j].email == c.email;
            assert batch[j] == init[j];
          } else {
            forall j | 0 <= j < n
              ensures batch[j].email != c.email
            {
              assert batch[j] == init[j];
            }
          }
        }
      }
    }
  }

  /**
   * What is appended: exactly the new non-empty emails of the batch, each
   * once, none already in the group, each carried by the first contact of
   * the batch that has it, in batch order.
   */
  lemma AcceptSpec(seen: set<string>, batch: seq<Contact>)
    ensures DistinctEmails(Accept(seen, batch))
    ensures Emails(Accept(seen, batch)) == Emails(batch) - seen - {""}
    ensures CarriedByFirst(seen, batch, Accept(seen, batch))
    ensures Accept(seen, batch) == FirstNewOnes(seen, batch)
  {
    AcceptEmails(seen, batch);
    AcceptOrigin(seen, batch);
    AcceptInOrder(seen, batch);
  }

  /** `added` is the number of distinct new non-empty emails in the batch. */
  lemma AcceptCount(seen: set<string>, batch: seq<Contact>)
    ensures |Accept(seen, batch)| == |Emails(batch) - seen - {""}|
  {
    AcceptSpec(seen, batch);
    DistinctEmailsCount(Accept(seen, batch));
  }

  /** Posting the same batch again adds nothing. */
  lemma {:induction false} AcceptAgain(seen: set<string>, batch: seq<Contact>)
    ensures Accept(seen + Emails(Accept(seen, batch)), batch) == []
  {
    AcceptSpec(seen, batch);
    AcceptNothingNew(seen + Emails(Accept(seen, batch)), batch);
  }

  /** A batch whose non-empty emails are all in the group adds nothing. */
  lemma {:induction false} AcceptNothingNew(seen: set<string>, batch: seq<Contact>)
    requires Emails(batch) - {""} <= seen
    ensures Accept(seen, batch) == []
  {
    if batch != [] {
      var init := batch[..|batch| - 1];
      assert Emails(batch) == Emails(init) + {batch[|batch| - 1].email};
      AcceptNothingNew(seen, init);
    }
  }

  // ---------------------------------------------------------------- remove

  /** The list comprehension of `remove_from_group`. */
  function Without(cs: seq<Contact>, email: string): (r: seq<Contact>)
    ensures |r| <= |cs|
    ensures forall k :: 0 <= k < |r| ==> r[k] in cs && r[k].email != email
    ensures (forall i :: 0 <= i < |cs| ==> cs[i].email != email) ==> r == cs
  {
    if cs == [] then []
    else (if cs[0].email != email then [cs[0]] else []) + Without(cs[1..], email)
  }

  /**
   * Removal keeps, in their original order, exactly the contacts whose
   * email differs from the given one: it distributes over concatenation and
   * keeps a single contact just when its email differs.
   */
  lemma {:induction false} WithoutAppend(a: seq<Contact>, b: seq<Contact>, email: string)
    ensures Without(a + b, email) == Without(a, email) + Without(b, email)
  {
    if a == [] {
      assert a + b == b;
    } else {
      assert (a + b)[0] == a[0] && (a + b)[1..] == a[1..] + b;
      WithoutAppend(a[1..], b, email);
    }
  }

  lemma WithoutMembers(cs: seq<Contact>, email: string)
    ensures forall c :: c in Without(cs, email) <==> c in cs && c.email != email
    ensures Emails(Without(cs, email)) == Emails(cs) - {email}
    ensures |Without(cs, email)| <= |cs|
  {
    WithoutKeeps(cs, email);
    var w := Without(cs, email);
    forall e | e in Emails(w)
      ensures e in Emails(cs) - {email}
    {
      var i :| 0 <= i < |w| && w[i].email == e;
      var j :| 0 <= j < |cs| && cs[j] == w[i];
    }
    forall e | e in Emails(cs) - {email}
      ensures e in Emails(w)
    {
      var j :| 0 <= j < |cs| && cs[j].email == e;
      assert cs[j] in w;
      var i :| 0 <= i < |w| && w[i] == cs[j];
    }
  }

  lemma {:induction false} WithoutKeeps(cs: seq<Contact>, email: string)
    ensures forall c :: c in Without(cs, email) <==> c in cs && c.email != email
  {
    if cs != [] {
      WithoutKeeps(cs[1..], email);
      assert cs == [cs[0]] + cs[1..];
    }
  }

  /** Removal keeps the emails of a group distinct. */
  lemma {:induction false} WithoutDistinct(cs: seq<Contact>, email: string)
    requires DistinctEmails(cs)
    ensures DistinctEmails(Without(cs, email))
  {
    if cs != [] {
      WithoutDistinct(cs[1..], email);
      WithoutMembers(cs[1..], email);
      assert cs[0].email !in Emails(cs[1..]) by {
        forall i | 0 <= i < |cs[1..]| ensures cs[1..][i].email != cs[0].email {
          assert cs[1..][i] == cs[i + 1];
        }
      }
    }
  }

  // ---------------------------------------------------------------- the book

  /** No group lists an email twice. */
  ghost predicate GroupsDistinct(groups: map<string, Group>) {
    forall g :: g in groups ==> DistinctEmails(groups[g].contacts)
  }

  /** The groups `load_contacts` returns when no contacts file exists yet. */
  function DefaultGroups(): map<string, Group> {
    map[
      "EC Members" := Group("Executive Committee Members", [
        Contact("Admin Test", "admin@test.com"),
        Contact("Priya Sen", "events@banf.org"),
        Contact("Amit Roy", "sponsor@banf.org")]),
      "All Members" := Group("All BANF Members", []),
      "Volunteers" := Group("Event Volunteers", [])
    ]
  }

  class ContactBook {
    var groups: map<string, Group>

    ghost predicate Valid()
      reads this
    {
      GroupsDistinct(groups)
    }

    /** The book as first loaded, before any file is written. */
    constructor ()
      ensures groups == DefaultGroups()
      ensures Valid()
    {
      var initial := DefaultGroups();
      var ec := initial["EC Members"].contacts;
      assert ec[0].email != ec[1].email && ec[0].email != ec[2].email && ec[1].email != ec[2].email;
      groups := initial;
    }

    /** `create_group`: 400 for an empty name, 409 for an existing one, else a new empty group. */
    method CreateGroup(name: string, description: string) returns (reply: Reply)
      modifies this
      ensures name == "" ==> reply == Error(400, "Group name required") && groups == old(groups)
      ensures name != "" && name in old(groups) ==> reply == Error(409, "Group already exists") && groups == old(groups)
      ensures name != "" && name !in old(groups) ==> reply == Success && groups == old(groups)[name := Group(description, [])]
      ensures old(Valid()) ==> Valid()
    {
      if name == "" {
        return Error(400, "Group name required");
      }
      if name in groups {
        return Error(409, "Group already exists");
      }
      groups := groups[name := Group(description, [])];
      reply := Success;
    }

    /** `delete_group`: 404 for a missing group, else the group is gone and the others are kept. */
    method DeleteGroup(name: string) returns (reply: Reply)
      modifies this
      ensures name !in old(groups) ==> reply == Error(404, "Group not found") && groups == old(groups)
      ensures name in old(groups) ==> reply == Success && groups == old(groups) - {name}
      ensures old(Valid()) ==> Valid()
    {
      if name !in groups {
        return Error(404, "Group not found");
      }
      groups := groups - {name};
      reply := Success;
    }

    /**
     * `add_to_group`: 404 for a missing group; otherwise the accepted
     * contacts are appended in batch order and `added` counts them.
     */
    method AddToGroup(name: string, batch: seq<Contact>) returns (reply: Reply, added: nat)
      modifies this
      ensures name !in old(groups) ==> reply == Error(404, "Group not found") && added == 0 && groups == old(groups)
      ensures name in old(groups) ==>
                var g := old(groups)[name];
                var appended := Accept(Emails(g.contacts), batch);
                && reply == Success
                && added == |appended|
                && groups == old(groups)[name := g.(contacts := g.contacts + appended)]
      ensures old(Valid()) ==> Valid()
    {
      if name !in groups {
        return Error(404, "Group not found"), 0;
      }
      var g := groups[name];
      var contacts;
      contacts, added := AppendNew(g.contacts, batch);
      groups := groups[name := g.(contacts := contacts)];
      reply := Success;
      AddKeepsDistinct(g.contacts, batch);
    }

    /**
     * The loop of `add_to_group`: each contact of the batch with a non-empty
     * email not yet in the list is appended, and `added` counts them.
     */
    static method AppendNew(contacts: seq<Contact>, batch: seq<Contact>) returns (result: seq<Contact>, added: nat)
      ensures result == contacts + Accept(Emails(contacts), batch)
      ensures added == |result| - |contacts|
    {
      ghost var seen := Emails(contacts);
      result := contacts;
      var existing := Emails(contacts);
      added := 0;
      var i := 0;
      while i < |batch|
        invariant 0 <= i <= |batch|
        invariant result == contacts + Accept(seen, batch[..i])
        invariant existing == seen + Emails(Accept(seen, batch[..i]))
        invariant added == |Accept(seen, batch[..i])|
      {
        var c := batch[i];
        AcceptStep(seen, batch, i);
        if c.email != "" && c.email !in existing {
          result := result + [c];
          existing := existing + {c.email};
          added := added + 1;
        }
        i := i + 1;
      }
      assert batch[..|batch|] == batch;
    }

    /** `remove_from_group`: 404 for a missing group; otherwise the contacts with that email are dropped. */
    method RemoveFromGroup(name: string, email: string) returns (reply: Reply)
      modifies this
      ensures name !in old(groups) ==> reply == Error(404, "Group not found") && groups == old(groups)
      ensures name in old(groups) ==>
                var g := old(groups)[name];
                reply == Success && groups == old(groups)[name := g.(contacts := Without(g.contacts, email))]
      ensures old(Valid()) ==> Valid()
    {
      if name !in groups {
        return Error(404, "Group not found");
      }
      var g := groups[name];
      if DistinctEmails(g.contacts) {
        WithoutDistinct(g.contacts, email);
      }
      groups := groups[name := g.(contacts := Without(g.contacts, email))];
      reply := Success;
    }
  }

  /** One more contact of the batch: appended, with its email, exactly when it is new. */
  lemma AcceptStep(seen: set<string>, batch: seq<Contact>, i: nat)
    requires i < |batch|
    ensures var prev := Accept(seen, batch[..i]);
            var c := batch[i];
            var isNew := c.email != "" && c.email !in seen && c.email !in Emails(prev);
            && Accept(seen, batch[..i + 1]) == (if isNew then prev + [c] else prev)
            && Emails(Accept(seen, batch[..i + 1])) == Emails(prev) + (if isNew then {c.email} else {})
  {
    var prev := Accept(seen, batch[..i]);
    var c := batch[i];
    assert batch[..i + 1][..i] == batch[..i];
    if c.email != "" && c.email !in seen && c.email !in Emails(prev) {
      EmailsAppend(prev, [c]);
      EmailsSingleton(c);
    }
  }

  /** Appending the accepted contacts keeps a group's emails distinct. */
  lemma AddKeepsDistinct(contacts: seq<Contact>, batch: seq<Contact>)
    ensures DistinctEmails(contacts) ==> DistinctEmails(contacts + Accept(Emails(contacts), batch))
  {
    var acc := Accept(Emails(contacts), batch);
    AcceptSpec(Emails(contacts), batch);
    if DistinctEmails(contacts) {
      var all := contacts + acc;
      forall i, j | 0 <= i < j < |all| ensures all[i].email != all[j].email {
        if j >= |contacts| {
          assert all[j] == acc[j - |contacts|];
          assert acc[j - |contacts|].email in Emails(acc);
          if i < |contacts| {
            assert contacts[i].email in Emails(contacts);
          } else {
            assert all[i] == acc[i - |contacts|];
          }
        }
      }
    }
  }
}
