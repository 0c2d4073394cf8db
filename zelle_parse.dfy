/**
 * Classifier and field extractors of the Zelle notification pipeline
 * (banf_web/zelle_payment_service.py, lines 44-291).
 *
 * The regular expressions of the source are kept abstract: each is an
 * ordered rule that either fails or yields the text of its capture group.
 * What is modelled is everything around them: the order in which
 * rules are tried, the first success winning, the fallbacks, the sender
 * domain list, the bank map, comma stripping and amount parsing, the noise
 * word filter and the `strip()` applied to captures.
 */
module ZelleParse {
  import opened Wrappers
  import opened Text
  import opened Ordered
  import opened Decimal

  /** Bank notification sender domains, in the source's order. */
  const ZelleSenderDomains: seq<string> := [
    "chase.com", "bankofamerica.com", "wellsfargo.com",
    "usbank.com", "pnc.com", "capitalone.com", "zellepay.com",
    "notify.zelle.com", "alerts.chase.com", "ealerts.bankofamerica.com"
  ]

  /** First words that mark a sender capture as a false positive. */
  const NoiseWords: set<string> := {
    "Zelle", "Chase", "Wells", "Fargo", "Bank", "America",
    "Direct", "Deposit", "Payment", "Your", "The"
  }

  /** The bank lookup table: (key searched in the lower-cased text, label), in order. */
  const BankMap: seq<(string, string)> := [
    ("chase", "Chase"),
    ("bankofamerica", "Bank of America"),
    ("wellsfargo", "Wells Fargo"),
    ("usbank", "US Bank"),
    ("pnc", "PNC"),
    ("capitalone", "Capital One"),
    ("zelle", "Zelle Direct")
  ]

  const UnknownSender: string := "Unknown Sender"
  const UnknownBank: string := "Unknown Bank"

  /** A subject pattern, searched case-insensitively in the subject. */
  type SubjectRule = string -> bool

  /** A pattern with one capture group: the captured text of its first match. */
  type CaptureRule = string -> Option<string>

  /** Every sender pattern captures a name that starts with a capital letter. */
  type NameCapture = s: string | |s| > 0 && 'A' <= s[0] <= 'Z' witness "A"

  type SenderRule = string -> Option<NameCapture>

  /** The pattern lists of the source, one per field, each in its source order. */
  datatype Rules = Rules(
    subject: seq<SubjectRule>,
    amount: seq<CaptureRule>,
    sender: seq<SenderRule>,
    memo: seq<CaptureRule>,
    confirmation: seq<CaptureRule>)

  // ---------------------------------------------------------------- classifier

  /** `f"{subject} {from_addr} {body}".lower()` */
  function CombinedText(subject: string, fromAddr: string, body: string): string {
    Lower(subject + " " + fromAddr + " " + body)
  }

  /** `re.search(r'\$[\d,]+(?:\.\d{2})?', text)` succeeds: a `$` directly followed by a digit or a comma. */
  predicate HasDollarToken(text: string) {
    exists i :: 0 <= i < |text| - 1 && text[i] == '$' && (IsDigit(text[i + 1]) || text[i + 1] == ',')
  }

  predicate SubjectSignal(rules: seq<SubjectRule>, subject: string) {
    exists i :: 0 <= i < |rules| && rules[i](subject)
  }

  /** `domain.lower() in from_addr.lower()` */
  predicate DomainHit(fromAddr: string, domain: string) {
    Contains(Lower(fromAddr), Lower(domain))
  }

  predicate DomainSignal(fromAddr: string, text: string) {
    && (exists i :: 0 <= i < |ZelleSenderDomains| && DomainHit(fromAddr, ZelleSenderDomains[i]))
    && Contains(text, "zelle")
  }

  predicate AmountSignal(text: string) {
    Contains(text, "zelle") && HasDollarToken(text)
  }

  /**
   * An amount printed as `$D.dd` anywhere in a text is a dollar token, and
   * a text without a `$` has none.
   */
  lemma DollarToken(a: string, n: nat, b: string)
    ensures HasDollarToken(a + "$" + RenderCents(n) + b)
    ensures (forall i :: 0 <= i < |a| ==> a[i] != '$') ==> !HasDollarToken(a)
  {
    var t := a + "$" + RenderCents(n) + b;
    var digits := DigitsOf(n / 100);
    assert RenderCents(n)[0] == digits[0];
    assert t[|a|] == '$' && t[|a| + 1] == digits[0];
  }

  /**
   * `is_zelle_email`: the subject patterns are tried first, then the sender
   * domains (each only counting when the combined text mentions "zelle"),
   * then the "zelle" plus dollar-amount fallback.
   */
  function IsZelleEmail(rules: seq<SubjectRule>, subject: string, fromAddr: string, body: string): (r: bool)
    ensures r <==> || SubjectSignal(rules, subject)
                   || DomainSignal(fromAddr, CombinedText(subject, fromAddr, body))
                   || AmountSignal(CombinedText(subject, fromAddr, body))
  {
    var text := CombinedText(subject, fromAddr, body);
    SubjectSearch(rules, subject).Some? || DomainSearch(fromAddr, text).Some? || AmountSignal(text)
  }

  /** The subject patterns, tried in order. */
  function SubjectSearch(rules: seq<SubjectRule>, subject: string): (r: Option<(nat, ())>)
    ensures r.Some? <==> SubjectSignal(rules, subject)
  {
    FirstHit(rules, (p: SubjectRule) => if p(subject) then Some(()) else None)
  }

  /** The sender domains, tried in order, each counting only when the text mentions "zelle". */
  function DomainSearch(fromAddr: string, text: string): (r: Option<(nat, ())>)
    ensures r.Some? <==> DomainSignal(fromAddr, text)
  {
    FirstHit(ZelleSenderDomains,
      (d: string) => if DomainHit(fromAddr, d) && Contains(text, "zelle") then Some(()) else None)
  }

  // ---------------------------------------------------------------- amount

  /** One amount pattern: its capture, without commas, parsed; None if it does not match or does not parse. */
  function AmountAt(rule: CaptureRule, text: string): Option<nat> {
    match rule(text)
    case None => None
    case Some(capture) => CaptureCents(capture)
  }

  /**
   * `parse_zelle_amount`: the value of the first pattern whose capture
   * parses; a capture that does not parse passes on to the next pattern.
   */
  function ParseZelleAmount(rules: seq<CaptureRule>, text: string): (r: Option<nat>)
    ensures r.None? <==> forall i :: 0 <= i < |rules| ==> AmountAt(rules[i], text).None?
    ensures r.Some? ==> exists k :: && 0 <= k < |rules|
                                    && AmountAt(rules[k], text) == r
                                    && forall i :: 0 <= i < k ==> AmountAt(rules[i], text).None?
  {
    match FirstHit(rules, (p: CaptureRule) => AmountAt(p, text))
    case None => None
    case Some(hit) => Some(hit.1)
  }

  // ---------------------------------------------------------------- sender

  /** `f"{subject}\n{body}"` */
  function SenderText(subject: string, body: string): string {
    subject + "\n" + body
  }

  /** One sender pattern: its stripped capture, unless the first word is noise. */
  function SenderAt(rule: SenderRule, text: string): Option<string> {
    match rule(text)
    case None => None
    case Some(capture) =>
      var name := Strip(capture);
      if FirstWord(name) in NoiseWords then None else Some(name)
  }

  /**
   * `parse_zelle_sender`: the first acceptable capture in pattern order, or
   * "Unknown Sender"; never a name whose first word is a noise word.
   */
  function ParseZelleSender(rules: seq<SenderRule>, subject: string, body: string): (r: string)
    ensures FirstWord(r) !in NoiseWords
    ensures (forall i :: 0 <= i < |rules| ==> SenderAt(rules[i], SenderText(subject, body)).None?)
            ==> r == UnknownSender
    ensures (exists i :: 0 <= i < |rules| && SenderAt(rules[i], SenderText(subject, body)).Some?)
            ==> exists k :: && 0 <= k < |rules|
                            && SenderAt(rules[k], SenderText(subject, body)) == Some(r)
                            && forall i :: 0 <= i < k ==> SenderAt(rules[i], SenderText(subject, body)).None?
  {
    var text := SenderText(subject, body);
    match FirstHit(rules, (p: SenderRule) => SenderAt(p, text))
    case None =>
      UnknownSenderIsNotNoise();
      UnknownSender
    case Some(hit) => hit.1
  }

  /** No noise word starts with 'U', so "Unknown Sender" is never filtered as noise. */
  lemma UnknownSenderIsNotNoise()
    ensures FirstWord(UnknownSender) !in NoiseWords
  {
    assert UnknownSender[0] == 'U' && !IsSpace(UnknownSender[0]);
    NoNoiseWordStartsWithU(FirstWord(UnknownSender));
  }

  /** None of the noise words starts with 'U'. */
  lemma NoNoiseWordStartsWithU(w: string)
    requires w != [] && w[0] == 'U'
    ensures w !in NoiseWords
  {
  }

  // ---------------------------------------------------------------- memo, confirmation

  /**
   * `parse_zelle_memo` and `parse_zelle_confirmation`: the stripped capture
   * of the first pattern that matches, or "" when none does.
   */
  function BestEffortCapture(rules: seq<CaptureRule>, text: string): (r: string)
    ensures (forall i :: 0 <= i < |rules| ==> rules[i](text).None?) ==> r == ""
    ensures (exists i :: 0 <= i < |rules| && rules[i](text).Some?)
            ==> exists k :: && 0 <= k < |rules|
                            && rules[k](text).Some? && r == Strip(rules[k](text).value)
                            && forall i :: 0 <= i < k ==> rules[i](text).None?
  {
    match FirstHit(rules, (p: CaptureRule) => p(text))
    case None => ""
    case Some(hit) => Strip(hit.1)
  }

  // ---------------------------------------------------------------- bank

  /** `f"{from_addr} {body}".lower()` */
  function BankText(fromAddr: string, body: string): string {
    Lower(fromAddr + " " + body)
  }

  /**
   * `parse_bank_source`: the label of the first key of the bank map, in
   * map order, that occurs in the text; "Unknown Bank" when none does.
   */
  function ParseBankSource(fromAddr: string, body: string): (r: string)
    ensures r == UnknownBank <==> forall i :: 0 <= i < |BankMap| ==> !Contains(BankText(fromAddr, body), BankMap[i].0)
    ensures r != UnknownBank ==> exists k :: && 0 <= k < |BankMap|
                                           && BankMap[k].1 == r
                                           && Contains(BankText(fromAddr, body), BankMap[k].0)
                                           && forall i :: 0 <= i < k ==> !Contains(BankText(fromAddr, body), BankMap[i].0)
  {
    var text := BankText(fromAddr, body);
    match FirstHit(BankMap, (e: (string, string)) => if Contains(text, e.0) then Some(e.1) else None)
    case None => UnknownBank
    case Some(hit) =>
      assert BankMap[hit.0].1 != UnknownBank;
      hit.1
  }

  // ---------------------------------------------------------------- all fields

  datatype Fields = Fields(amount: nat, sender: string, memo: string, confirmation: string, bank: string)

  /**
   * The extraction step of the scan (lines 446-453): the amount is the
   * first pattern's that parses, read from subject and body together, and 0
   * when none does; sender, memo, confirmation and bank are the parsers'.
   */
  function ExtractFields(rules: Rules, subject: string, fromAddr: string, body: string): (r: Fields)
    ensures (forall i :: 0 <= i < |rules.amount| ==> AmountAt(rules.amount[i], subject + " " + body).None?) ==> r.amount == 0
    ensures r.amount != 0 ==> exists k :: 0 <= k < |rules.amount| && AmountAt(rules.amount[k], subject + " " + body) == Some(r.amount)
    ensures r.amount != 0 ==> exists k :: && 0 <= k < |rules.amount|
                                         && AmountAt(rules.amount[k], subject + " " + body) == Some(r.amount)
                                         && forall i :: 0 <= i < k ==> AmountAt(rules.amount[i], subject + " " + body).None?
    ensures FirstWord(r.sender) !in NoiseWords
    ensures r.amount == ParseZelleAmount(rules.amount, subject + " " + body).GetOr(0)
    ensures r.sender == ParseZelleSender(rules.sender, subject, body)
    ensures r.memo == BestEffortCapture(rules.memo, body) && r.confirmation == BestEffortCapture(rules.confirmation, body)
    ensures r.bank == ParseBankSource(fromAddr, body)
  {
    Fields(
      ParseZelleAmount(rules.amount, subject + " " + body).GetOr(0),
      ParseZelleSender(rules.sender, subject, body),
      BestEffortCapture(rules.memo, body),
      BestEffortCapture(rules.confirmation, body),
      ParseBankSource(fromAddr, body))
  }
}
