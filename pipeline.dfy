/** `validarEmailDetalhado` (index.php): one address in, one eight-field
    verdict out, with a per-run cache keyed by domain. `Verify` is the
    specification of one call, and `Verifier` holds the `static $domainCache`
    and runs the call step by step. */
module Pipeline {
  import opened Wrappers
  import opened Php
  import opened Checks

  /** The result array of `validarEmailDetalhado`. */
  datatype Verdict = Verdict(
    email: string,
    syntaxValid: bool,
    dnsMxValid: bool,
    smtpCheck: bool,
    roleBased: bool,
    catchAll: bool,
    creationDate: Option<string>,
    ageDays: Option<int>
  )

  /** One entry of `$domainCache`: the five domain-level fields. */
  datatype DomainFacts = DomainFacts(
    dnsMxValid: bool,
    smtpCheck: bool,
    catchAll: bool,
    creationDate: Option<string>,
    ageDays: Option<int>
  )

  type DomainCache = map<string, DomainFacts>

  /** An oracle consulted during a call: the RFC validator, the `checkdnsrr`
      MX check, one `verificarSMTP` probe (for the given recipient; it holds no
      dialogue when `getmxrr` finds no host or the connection fails) and one
      WHOIS lookup. */
  datatype Call =
    | SyntaxCall(email: string)
    | MxCall(domain: string)
    | SmtpCall(recipient: string, domain: string)
    | WhoisCall(domain: string)

  /** What one call produces: the verdict, the cache afterwards, and the
      oracles consulted, in order. */
  datatype Outcome = Outcome(verdict: Verdict, cache: DomainCache, calls: seq<Call>)

  /** The initial `$result`: every flag false, date and age null. */
  function DefaultVerdict(email: string): Verdict {
    Verdict(email, false, false, false, false, false, None, None)
  }

  /** The entry cached for a domain without MX records. */
  const NO_MX_FACTS: DomainFacts := DomainFacts(false, false, false, None, None)

  /** The five domain-level fields of a verdict. */
  function FactsOf(v: Verdict): DomainFacts {
    DomainFacts(v.dnsMxValid, v.smtpCheck, v.catchAll, v.creationDate, v.ageDays)
  }

  /** A verdict with its five domain-level fields taken from `f`. */
  function WithFacts(v: Verdict, f: DomainFacts): (r: Verdict)
    ensures FactsOf(r) == f
    ensures r.email == v.email && r.syntaxValid == v.syntaxValid && r.roleBased == v.roleBased
  {
    v.(dnsMxValid := f.dnsMxValid, smtpCheck := f.smtpCheck, catchAll := f.catchAll,
       creationDate := f.creationDate, ageDays := f.ageDays)
  }

  /** Domain facts as the pipeline can produce them: a domain that failed
      the MX check has nothing else, and an age needs a date. */
  predicate FactsWF(f: DomainFacts) {
    && (!f.dnsMxValid ==> f == NO_MX_FACTS)
    && (f.ageDays.Some? ==> f.creationDate.Some?)
  }

  ghost predicate CacheWF(cache: DomainCache) {
    forall d :: d in cache ==> FactsWF(cache[d])
  }

  /** The initial `$result` is a well-formed verdict whose domain fields are
      exactly the entry cached for a domain without MX records, and that entry
      is well formed. */
  lemma DefaultMatchesNoMx(email: string)
    ensures VerdictWF(DefaultVerdict(email)) && FactsWF(NO_MX_FACTS)
    ensures FactsOf(DefaultVerdict(email)) == NO_MX_FACTS
    ensures !NO_MX_FACTS.dnsMxValid && !NO_MX_FACTS.smtpCheck && !NO_MX_FACTS.catchAll
  {
  }

  /** Adding well-formed facts keeps a cache well formed. */
  lemma CacheWFUpdate(cache: DomainCache, d: string, f: DomainFacts)
    requires CacheWF(cache) && FactsWF(f)
    ensures CacheWF(cache[d := f])
  {
  }

  /** The shape of every verdict: a syntax failure leaves the default record,
      an MX failure leaves every later network field at its default, and an age
      needs a date. */
  predicate VerdictWF(v: Verdict) {
    && (!v.syntaxValid ==> v == DefaultVerdict(v.email))
    && FactsWF(FactsOf(v))
  }

  /** Lines 205-214: the WHOIS date when it is a true value, and the age only
      when the date is set and `strtotime` succeeds. */
  function WhoisFields(net: Network, domain: string): (r: (Option<string>, Option<int>))
    ensures r.1.Some? ==> r.0.Some?
    ensures r.0.Some? <==> net.whoisDate(domain).Some? && !Falsy(net.whoisDate(domain).value)
    ensures r.0.Some? ==> r.0 == net.whoisDate(domain) && r.1 == net.ageDays(r.0.value)
  {
    var creationDate := net.whoisDate(domain);
    if creationDate.Some? && !Falsy(creationDate.value) then
      (creationDate, net.ageDays(creationDate.value))
    else
      (None, None)
  }

  /** The oracles consulted on a cache miss whose MX check succeeded: the
      probe of the address itself, the two catch-all probes, then WHOIS. */
  function ProbeCalls(net: Network, email: string, domain: string): seq<Call> {
    [MxCall(domain), SmtpCall(email, domain), SmtpCall(TestAddress(domain), domain),
     SmtpCall(RandomAddress(net, domain), domain), WhoisCall(domain)]
  }

  /** Lines 193-223: the facts gathered for a domain whose MX check succeeded. */
  function ProbeFacts(net: Network, from: string, email: string, domain: string): DomainFacts {
    var (date, age) := WhoisFields(net, domain);
    DomainFacts(true, VerificarSmtp(net, from, email, domain), IsCatchAllDomain(net, domain, from), date, age)
  }

  /** One call of `validarEmailDetalhado($email, $from, $roleBasedList)` against
      the cache as it stands. */
  function Verify(cache: DomainCache, email: string, from: string, roleList: seq<string>, net: Network): (o: Outcome)
    ensures o.verdict.email == email
    // Syntax gate: default record, cache untouched, only the validator consulted.
    ensures !net.rfcValid(email) ==>
              o.verdict == DefaultVerdict(email) && o.cache == cache && o.calls == [SyntaxCall(email)]
    ensures net.rfcValid(email) ==> o.verdict.syntaxValid
    // Every valid address leaves its domain cached with exactly the facts it reports.
    ensures net.rfcValid(email) ==>
              DomainOf(email) in o.cache && o.cache[DomainOf(email)] == FactsOf(o.verdict)
    // Cache hit: the five fields are copied and no network oracle is consulted.
    ensures net.rfcValid(email) && DomainOf(email) in cache ==>
              && o.cache == cache && o.calls == [SyntaxCall(email)]
              && FactsOf(o.verdict) == cache[DomainOf(email)]
              && o.verdict.roleBased == IsRoleBased(email, roleList)
    // Miss without MX: negative facts cached, early return before the role check.
    ensures net.rfcValid(email) && DomainOf(email) !in cache && !net.hasMx(DomainOf(email)) ==>
              && o.verdict == DefaultVerdict(email).(syntaxValid := true)
              && o.cache == cache[DomainOf(email) := NO_MX_FACTS]
              && o.calls == [SyntaxCall(email), MxCall(DomainOf(email))]
    // Miss with MX: every probe runs once, the facts are cached, the role check runs.
    ensures net.rfcValid(email) && DomainOf(email) !in cache && net.hasMx(DomainOf(email)) ==>
              && o.verdict.dnsMxValid
              && o.verdict.smtpCheck == VerificarSmtp(net, from, email, DomainOf(email))
              && o.verdict.catchAll == IsCatchAllDomain(net, DomainOf(email), from)
              && (o.verdict.creationDate, o.verdict.ageDays) == WhoisFields(net, DomainOf(email))
              && o.verdict.roleBased == IsRoleBased(email, roleList)
              && o.cache == cache[DomainOf(email) := FactsOf(o.verdict)]
              && o.calls == [SyntaxCall(email)] + ProbeCalls(net, email, DomainOf(email))
  {
    var base := DefaultVerdict(email);
    if !net.rfcValid(email) then
      Outcome(base, cache, [SyntaxCall(email)])
    else
      var valid := base.(syntaxValid := true);
      var domain := DomainOf(email);
      var role := IsRoleBased(email, roleList);
      if domain in cache then
        Outcome(WithFacts(valid, cache[domain]).(roleBased := role), cache, [SyntaxCall(email)])
      else if !net.hasMx(domain) then
        Outcome(valid, cache[domain := NO_MX_FACTS], [SyntaxCall(email), MxCall(domain)])
      else
        var facts := ProbeFacts(net, from, email, domain);
        Outcome(WithFacts(valid, facts).(roleBased := role), cache[domain := facts],
                [SyntaxCall(email)] + ProbeCalls(net, email, domain))
  }

  /** The cache only grows, by the address's own domain, and no entry is
      ever overwritten. */
  lemma VerifyKeepsEntries(cache: DomainCache, email: string, from: string, roleList: seq<string>, net: Network)
    ensures var o := Verify(cache, email, from, roleList, net);
            && o.cache.Keys <= cache.Keys + {DomainOf(email)}
            && forall d :: d in cache ==> d in o.cache && o.cache[d] == cache[d]
  {
  }

  /** A well-formed cache stays well formed, and the verdict is well formed. */
  lemma VerifyWellFormed(cache: DomainCache, email: string, from: string, roleList: seq<string>, net: Network)
    requires CacheWF(cache)
    ensures CacheWF(Verify(cache, email, from, roleList, net).cache)
    ensures VerdictWF(Verify(cache, email, from, roleList, net).verdict)
  {
    var o := Verify(cache, email, from, roleList, net);
    var dom := DomainOf(email);
    if net.rfcValid(email) && dom !in cache {
      CacheWFUpdate(cache, dom, o.cache[dom]);
    }
  }

  /** The overall validity flag the callers store (line 249). */
  predicate IsValidRecord(v: Verdict) {
    v.syntaxValid && v.dnsMxValid && v.smtpCheck
  }

  /** The stored validity flag, in terms of the oracles and the cache: the
      address passes the validator and its domain has MX and an accepting
      SMTP probe, either just now or when it was cached. */
  lemma ValidFlagMeaning(cache: DomainCache, email: string, from: string, roleList: seq<string>, net: Network)
    ensures IsValidRecord(Verify(cache, email, from, roleList, net).verdict) <==>
              && net.rfcValid(email)
              && if DomainOf(email) in cache
                 then cache[DomainOf(email)].dnsMxValid && cache[DomainOf(email)].smtpCheck
                 else net.hasMx(DomainOf(email)) && VerificarSmtp(net, from, email, DomainOf(email))
  {
  }

  /** Lines 193-214: on a miss with MX records, the SMTP probe of the address,
      the catch-all probes and the WHOIS lookup fill the domain fields of
      `result`, leaving its other fields alone. */
  method ProbeDomain(result: Verdict, email: string, from: string, domain: string, net: Network)
    returns (r: Verdict, ghost log: seq<Call>)
    requires !result.smtpCheck && result.creationDate.None? && result.ageDays.None?
    ensures FactsOf(r) == ProbeFacts(net, from, email, domain)
    ensures r.email == result.email && r.syntaxValid == result.syntaxValid && r.roleBased == result.roleBased
    ensures log == ProbeCalls(net, email, domain)[1..]
  {
    r := result.(dnsMxValid := true);
    log := [SmtpCall(email, domain)];
    if VerificarSmtp(net, from, email, domain) {
      r := r.(smtpCheck := true);
    }
    log := log + [SmtpCall(TestAddress(domain), domain), SmtpCall(RandomAddress(net, domain), domain)];
    r := r.(catchAll := IsCatchAllDomain(net, domain, from));
    log := log + [WhoisCall(domain)];
    var creationDate := net.whoisDate(domain);
    if creationDate.Some? && !Falsy(creationDate.value) {
      r := r.(creationDate := creationDate);
      var age := net.ageDays(creationDate.value);
      if age.Some? {
        r := r.(ageDays := age);
      }
    }
  }

  /** The state of one request: the `static $domainCache` and a record of the
      oracles consulted so far. */
  class Verifier {
    var domainCache: DomainCache
    ghost var calls: seq<Call>

    ghost predicate Valid()
      reads this
    {
      CacheWF(domainCache)
    }

    /** A request starts with an empty cache. */
    constructor ()
      ensures Valid() && domainCache == map[] && calls == []
    {
      domainCache := map[];
      calls := [];
    }

    /** `validarEmailDetalhado`: fills the result field by field and writes
        the cache, with the source's two early returns. */
    method ValidateDetailed(email: string, from: string, roleList: seq<string>, net: Network)
      returns (result: Verdict)
      requires Valid()
      modifies this
      ensures Valid()
      ensures result == Verify(old(domainCache), email, from, roleList, net).verdict
      ensures domainCache == Verify(old(domainCache), email, from, roleList, net).cache
      ensures calls == old(calls) + Verify(old(domainCache), email, from, roleList, net).calls
    {
      ghost var goal := Verify(domainCache, email, from, roleList, net);
      result := DefaultVerdict(email);
      ghost var log := [SyntaxCall(email)];
      if !net.rfcValid(email) {
        calls := calls + log;
        return;
      }
      result := result.(syntaxValid := true);
      var domain := DomainOf(email);
      ghost var facts: DomainFacts;
      if domain in domainCache {
        var cached := domainCache[domain];
        result := result.(dnsMxValid := cached.dnsMxValid);
        result := result.(smtpCheck := cached.smtpCheck);
        result := result.(catchAll := cached.catchAll);
        result := result.(creationDate := cached.creationDate);
        result := result.(ageDays := cached.ageDays);
        facts := cached;
      } else {
        log := log + [MxCall(domain)];
        if !net.hasMx(domain) {
          CacheWFUpdate(domainCache, domain, NO_MX_FACTS);
          domainCache := domainCache[domain := NO_MX_FACTS];
          calls := calls + log;
          return;
        }
        ghost var probeLog;
        result, probeLog := ProbeDomain(result, email, from, domain, net);
        log := log + probeLog;
        assert log == [SyntaxCall(email)] + ProbeCalls(net, email, domain);
        facts := ProbeFacts(net, from, email, domain);
        CacheWFUpdate(domainCache, domain, FactsOf(result));
        domainCache := domainCache[domain := FactsOf(result)];
      }
      calls := calls + log;
      assert result == WithFacts(DefaultVerdict(email).(syntaxValid := true), facts);
      if IsRoleBased(email, roleList) {
        result := result.(roleBased := true);
      }
      assert result == goal.verdict;
    }
  }
}
