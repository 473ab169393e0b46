/** The fixed settings at the top of index.php and inside its probes. */
module Config {

  /** The local parts regarded as role accounts (`$roleBasedList`). */
  const ROLE_BASED_LIST: seq<string> := [
    "admin", "administrator", "postmaster", "hostmaster", "webmaster",
    "info", "help", "billing", "contact", "sales", "support", "suporte", "op"
  ]

  /** The reply codes that mean the mailbox was accepted (RFC 5321, section 4.2). */
  const ACCEPT_CODES: seq<string> := ["250", "251"]

  /** Fixed local part of the first catch-all probe. */
  const TEST_LOCAL_PART: string := "test"

  /** Prefix of the random local part of the second catch-all probe. */
  const RANDOM_LOCAL_PREFIX: string := "invalid_test_"
}

/** The pure decisions of index.php that sit around the network: the RCPT
    reply-code rule of `verificarSMTP`, the catch-all conjunction of
    `isCatchAllDomain`, how an address is split into local part and domain,
    the role-based test and `formatarCNPJ`. Every network, DNS and library
    call is an oracle: a field of `Network`. */
module Checks {
  import opened Wrappers
  import opened Php
  import opened Config

  /** The uninterpreted collaborators of the verification engine. */
  datatype Network = Network(
    /** Egulias `EmailValidator::isValid` with `RFCValidation`. */
    rfcValid: string -> bool,
    /** `checkdnsrr($domain, 'MX')`. */
    hasMx: string -> bool,
    /** `getmxrr($domain, $mx)`: the hosts, empty when it returns false. */
    mxRecords: string -> seq<string>,
    /** `fsockopen($host, 25, ..., 10)` succeeds. */
    connects: string -> bool,
    /** The line `fgets` reads after `RCPT TO` in a dialogue with host, HELO
        domain, sender and recipient; `None` when `fgets` returns false. */
    rcptReply: (string, string, string, string) -> Option<string>,
    /** `uniqid()` as used when probing the given domain. */
    uniqid: string -> string,
    /** `getDomainCreationDate($domain)`: the WHOIS exchange and its regex. */
    whoisDate: string -> Option<string>,
    /** `strtotime` of a date followed by `(int) round((time() - ts) / 86400)`;
        `None` when `strtotime` gives a false value. */
    ageDays: string -> Option<int>
  )

  /** `substr(trim($response), 0, 3)`; a failed `fgets` trims to "". */
  function ReplyCode(response: Option<string>): string {
    Prefix(Trim(response.GetOr("")), 3)
  }

  /** The RCPT acceptance rule: the trimmed reply starts with "250" or "251". */
  predicate ReplyAccepted(response: Option<string>) {
    ReplyCode(response) in ACCEPT_CODES
  }

  /** `verificarSMTP($from, $checkEmail, $domain)`: one dialogue with the first
      MX host; any MX or connection failure gives false. */
  predicate VerificarSmtp(net: Network, from: string, checkEmail: string, domain: string) {
    var mx := net.mxRecords(domain);
    if |mx| == 0 then false
    else if !net.connects(mx[0]) then false
    else ReplyAccepted(net.rcptReply(mx[0], domain, from, checkEmail))
  }

  /** The address of the fixed catch-all probe, "test@<domain>". */
  function TestAddress(domain: string): string {
    TEST_LOCAL_PART + "@" + domain
  }

  /** The address of the random catch-all probe. */
  function RandomAddress(net: Network, domain: string): string {
    RANDOM_LOCAL_PREFIX + net.uniqid(domain) + "@" + domain
  }

  /** `isCatchAllDomain($domain, $from)`: both the fixed and the random probe accepted. */
  predicate IsCatchAllDomain(net: Network, domain: string, from: string) {
    var validCheck := VerificarSmtp(net, from, TestAddress(domain), domain);
    var invalidCheck := VerificarSmtp(net, from, RandomAddress(net, domain), domain);
    validCheck && invalidCheck
  }

  /** `substr(strrchr($email, "@"), 1)`: the text after the LAST "@"
      ("" when there is none). */
  function DomainOf(email: string): (r: string)
    ensures '@' !in r
    ensures '@' in email ==> |r| < |email| && email[|email| - |r| - 1] == '@' &&
                             r == email[|email| - |r|..]
    ensures '@' !in email ==> r == ""
  {
    match LastIndexOf(email, '@')
    case None => ""
    case Some(k) => email[k + 1..]
  }

  /** `explode('@', $email)[0]`: the text before the FIRST "@" (the whole
      address when there is none). */
  function LocalPartOf(email: string): (r: string)
    ensures '@' !in r
    ensures |r| <= |email| && r == email[..|r|]
    ensures '@' in email ==> |r| < |email| && email[|r|] == '@'
    ensures '@' !in email ==> r == email
  {
    match FirstIndexOf(email, '@')
    case None => email
    case Some(k) => email[..k]
  }

  /** `in_array(strtolower($localPart), $roleBasedList)`. For the strings in
      the list PHP's loose comparison is plain string equality. */
  function IsRoleBased(email: string, roleList: seq<string>): (r: bool)
    ensures r <==> exists k :: 0 <= k < |roleList| && roleList[k] == ToLower(LocalPartOf(email))
  {
    ToLower(LocalPartOf(email)) in roleList
  }

  /** `formatarCNPJ($cnpj)`: a value with an "E" (scientific notation, with a
      decimal comma) goes through a float conversion, given here as
      `floatToPlain`; then every non-digit is removed. */
  function FormatCnpj(cnpj: string, floatToPlain: string -> string): (r: string)
    ensures forall k :: 0 <= k < |r| ==> IsDigit(r[k])
    ensures 'E' !in cnpj && 'e' !in cnpj ==> |r| <= |cnpj|
    ensures (forall k :: 0 <= k < |cnpj| ==> IsDigit(cnpj[k])) ==> r == cnpj
  {
    if 'E' in cnpj || 'e' in cnpj then DigitsOnly(floatToPlain(ReplaceChar(cnpj, ',', '.')))
    else DigitsOnly(cnpj)
  }

  /** The reply-code rule: a reply is accepted exactly when, once trimmed,
      it is at least three characters long and starts with "250" or "251". */
  lemma ReplyAcceptedMeaning(response: Option<string>)
    ensures ReplyAccepted(response) <==>
              response.Some? && |Trim(response.value)| >= 3 &&
              (Trim(response.value)[..3] == "250" || Trim(response.value)[..3] == "251")
  {
    var t := Trim(response.GetOr(""));
    assert ReplyAccepted(response) <==> Prefix(t, 3) in ACCEPT_CODES;
    CodeMeaning(t);
  }

  /** The first three characters of `t` are an accepting code exactly when
      `t` has three characters and starts with "250" or "251". */
  lemma CodeMeaning(t: string)
    ensures Prefix(t, 3) in ACCEPT_CODES <==> |t| >= 3 && (t[..3] == "250" || t[..3] == "251")
  {
    assert ACCEPT_CODES == ["250", "251"];
    if |t| < 3 {
      assert |Prefix(t, 3)| < 3;
    } else {
      assert Prefix(t, 3) == t[..3];
    }
  }

  /** The SMTP probe accepts exactly when the domain has an MX host, the
      connection to the first one opens, and the RCPT reply carries an
      accepting code; an empty MX list or a failed connection gives false. */
  lemma SmtpProbeMeaning(net: Network, from: string, checkEmail: string, domain: string)
    ensures VerificarSmtp(net, from, checkEmail, domain) <==>
              && |net.mxRecords(domain)| > 0
              && net.connects(net.mxRecords(domain)[0])
              && var reply := net.rcptReply(net.mxRecords(domain)[0], domain, from, checkEmail);
                 reply.Some? && |Trim(reply.value)| >= 3 &&
                 (Trim(reply.value)[..3] == "250" || Trim(reply.value)[..3] == "251")
  {
    if |net.mxRecords(domain)| > 0 {
      ReplyAcceptedMeaning(net.rcptReply(net.mxRecords(domain)[0], domain, from, checkEmail));
    }
  }

  /** A domain is catch-all exactly when the fixed "test" probe and the random
      probe are both accepted; one refusal is enough to clear it. */
  lemma CatchAllNeedsBothProbes(net: Network, domain: string, from: string)
    ensures IsCatchAllDomain(net, domain, from) <==>
              VerificarSmtp(net, from, TestAddress(domain), domain) &&
              VerificarSmtp(net, from, RandomAddress(net, domain), domain)
    ensures IsCatchAllDomain(net, domain, from) ==> |net.mxRecords(domain)| > 0
  {
  }

  /** Trimming a reply that starts, after white space, with an accepting code
      leaves that code in front. */
  lemma TrimKeepsCode(pad: string, code: string, rest: string)
    requires code == "250" || code == "251"
    requires forall k :: 0 <= k < |pad| ==> IsTrimChar(pad[k])
    ensures |Trim(pad + code + rest)| >= 3 && Trim(pad + code + rest)[..3] == code
  {
    assert pad + code + rest == pad + (code + rest);
    TrimLeftPadded(pad, code + rest);
    TrimRightKeeps(code + rest, 3);
    assert (code + rest)[..3] == code;
  }

  /** A reply that starts with an accepting code is accepted whatever follows
      it, leading white space included. */
  lemma AcceptingReply(pad: string, code: string, rest: string)
    requires code == "250" || code == "251"
    requires forall k :: 0 <= k < |pad| ==> IsTrimChar(pad[k])
    ensures ReplyAccepted(Some(pad + code + rest))
  {
    TrimKeepsCode(pad, code, rest);
    ReplyAcceptedMeaning(Some(pad + code + rest));
  }

  /** A failed read is refused. */
  lemma FailedReadRefused()
    ensures !ReplyAccepted(None)
  {
  }

  /** A reply with another code is refused, whatever follows the code. */
  lemma OtherCodeRefused(rest: string)
    ensures !ReplyAccepted(Some("550" + rest))
  {
    TrimLeftPadded("", "550" + rest);
    TrimRightKeeps("550" + rest, 3);
    assert Trim("550" + rest)[..3] == "550";
    ReplyAcceptedMeaning(Some("550" + rest));
  }

  /** A reply too short, once trimmed, to hold a code is refused. */
  lemma ShortReplyRefused(s: string)
    requires |Trim(s)| < 3
    ensures !ReplyAccepted(Some(s))
  {
    ReplyAcceptedMeaning(Some(s));
  }

  /** The local part of "l@rest" is l when l holds no "@". */
  lemma LocalPartOfJoin(l: string, rest: string)
    requires '@' !in l
    ensures LocalPartOf(l + "@" + rest) == l
  {
    var e := l + "@" + rest;
    assert e[|l|] == '@';
    assert e[..|l|] == l;
  }

  /** The domain of "front@d" is d when d holds no "@". */
  lemma DomainOfJoin(front: string, d: string)
    requires '@' !in d
    ensures DomainOf(front + "@" + d) == d
  {
    var e := front + "@" + d;
    assert e[|front|] == '@';
    assert e[|front| + 1..] == d;
  }

  /** Both catch-all probes are addressed to the domain under test, and the
      fixed one to its `test` mailbox. */
  lemma ProbeAddressesAtDomain(net: Network, domain: string)
    requires '@' !in domain
    ensures DomainOf(TestAddress(domain)) == domain && DomainOf(RandomAddress(net, domain)) == domain
    ensures LocalPartOf(TestAddress(domain)) == TEST_LOCAL_PART
  {
    DomainOfJoin(TEST_LOCAL_PART, domain);
    DomainOfJoin(RANDOM_LOCAL_PREFIX + net.uniqid(domain), domain);
    LocalPartOfJoin(TEST_LOCAL_PART, domain);
  }

  /** Domain and local part come from the last and the first "@": for an
      address with two "@" they no longer rebuild the address. */
  lemma SplitUsesDifferentAt(l: string, m: string, d: string)
    requires '@' !in l && '@' !in m && '@' !in d
    ensures LocalPartOf(l + "@" + m + "@" + d) == l
    ensures DomainOf(l + "@" + m + "@" + d) == d
    ensures LocalPartOf(l + "@" + m + "@" + d) + "@" + DomainOf(l + "@" + m + "@" + d) != l + "@" + m + "@" + d
  {
    var e := l + "@" + m + "@" + d;
    assert e == l + "@" + (m + "@" + d);
    LocalPartOfJoin(l, m + "@" + d);
    DomainOfJoin(l + "@" + m, d);
    assert |l + "@" + d| < |e|;
  }

  /** With exactly one "@", local part and domain rebuild the address. */
  lemma SplitSingleAt(l: string, d: string)
    requires '@' !in l && '@' !in d
    ensures LocalPartOf(l + "@" + d) + "@" + DomainOf(l + "@" + d) == l + "@" + d
  {
    LocalPartOfJoin(l, d);
    DomainOfJoin(l, d);
  }

  /** The role test looks at the local part only: the domain, and so every
      network result about it, cannot change it. */
  lemma RoleBasedIgnoresDomain(l: string, d1: string, d2: string, roleList: seq<string>)
    requires '@' !in l
    ensures IsRoleBased(l + "@" + d1, roleList) == IsRoleBased(l + "@" + d2, roleList)
    ensures IsRoleBased(l + "@" + d1, roleList) <==> ToLower(l) in roleList
  {
    LocalPartOfJoin(l, d1);
    LocalPartOfJoin(l, d2);
  }

  /** Upper-case role names are recognised: "Admin@<any domain>" is role based. */
  lemma AdminIsRoleBased(d: string)
    ensures IsRoleBased("Admin" + "@" + d, ROLE_BASED_LIST)
  {
    LocalPartOfJoin("Admin", d);
    assert ToLower("Admin") == "admin";
  }

  /** Outside scientific notation `formatarCNPJ` keeps exactly the digits of
      its input, in order. */
  lemma FormatCnpjPlain(cnpj: string, floatToPlain: string -> string)
    requires 'E' !in cnpj && 'e' !in cnpj
    ensures FormatCnpj(cnpj, floatToPlain) == DigitsOnly(cnpj)
  {
  }

  /** A CNPJ written with a separator loses it and keeps its digits. */
  lemma FormatCnpjDropsSeparator(a: string, b: string, floatToPlain: string -> string)
    requires forall k :: 0 <= k < |a| ==> IsDigit(a[k])
    requires forall k :: 0 <= k < |b| ==> IsDigit(b[k])
    ensures FormatCnpj(a + "." + b, floatToPlain) == a + b
  {
    var s := a + "." + b;
    assert forall k :: 0 <= k < |s| ==> IsDigit(s[k]) || s[k] == '.';
    assert 'E' !in s && 'e' !in s;
    DigitsDropSeparator(a, b);
  }

  /** The digits of "a.b" for digit strings `a` and `b`. */
  lemma DigitsDropSeparator(a: string, b: string)
    requires forall k :: 0 <= k < |a| ==> IsDigit(a[k])
    requires forall k :: 0 <= k < |b| ==> IsDigit(b[k])
    ensures DigitsOnly(a + "." + b) == a + b
  {
    DigitsOnlyAppend(a + ".", b);
    DigitsOnlyAppend(a, ".");
    DigitsOnlySingle('.');
  }

  /** `formatarCNPJ` is idempotent: its output is already plain digits. */
  lemma FormatCnpjIdempotent(cnpj: string, floatToPlain: string -> string)
    ensures FormatCnpj(FormatCnpj(cnpj, floatToPlain), floatToPlain) == FormatCnpj(cnpj, floatToPlain)
  {
    var r := FormatCnpj(cnpj, floatToPlain);
    assert 'E' !in r && 'e' !in r;
  }
}
