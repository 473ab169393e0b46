/** One request verifies its addresses in order through one cache (the CSV
    import does this row by row): what the cache guarantees across calls, and
    the quirks it carries. */
module Runs {
  import opened Wrappers
  import opened Php
  import opened Checks
  import opened Pipeline

  /** What a sequence of calls in one request produces. */
  datatype Run = Run(verdicts: seq<Verdict>, cache: DomainCache, calls: seq<Call>)

  /** The addresses verified in order, each against the cache the previous
      ones left. */
  function RunAll(cache: DomainCache, emails: seq<string>, from: string, roleList: seq<string>, net: Network): (r: Run)
    ensures |r.verdicts| == |emails|
    decreases |emails|
  {
    if emails == [] then Run([], cache, [])
    else
      var o := Verify(cache, emails[0], from, roleList, net);
      var rest := RunAll(o.cache, emails[1..], from, roleList, net);
      Run([o.verdict] + rest.verdicts, rest.cache, o.calls + rest.calls)
  }

  /** A cache entry, once written, is never overwritten during the run. */
  lemma {:induction false} RunKeepsEntries(cache: DomainCache, emails: seq<string>, from: string, roleList: seq<string>, net: Network)
    ensures forall d :: d in cache ==>
              d in RunAll(cache, emails, from, roleList, net).cache &&
              RunAll(cache, emails, from, roleList, net).cache[d] == cache[d]
    decreases |emails|
  {
    if emails != [] {
      var o := Verify(cache, emails[0], from, roleList, net);
      VerifyKeepsEntries(cache, emails[0], from, roleList, net);
      RunKeepsEntries(o.cache, emails[1..], from, roleList, net);
    }
  }

  /** Every valid address of a run reports exactly the facts its domain has in
      the final cache: all addresses of one domain agree on the five fields. */
  lemma {:induction false} RunVerdictsMatchCache(cache: DomainCache, emails: seq<string>, from: string, roleList: seq<string>, net: Network)
    ensures forall j :: 0 <= j < |emails| && net.rfcValid(emails[j]) ==>
              DomainOf(emails[j]) in RunAll(cache, emails, from, roleList, net).cache &&
              FactsOf(RunAll(cache, emails, from, roleList, net).verdicts[j]) ==
                RunAll(cache, emails, from, roleList, net).cache[DomainOf(emails[j])]
    decreases |emails|
  {
    if emails != [] {
      var o := Verify(cache, emails[0], from, roleList, net);
      var rest := RunAll(o.cache, emails[1..], from, roleList, net);
      RunKeepsEntries(o.cache, emails[1..], from, roleList, net);
      RunVerdictsMatchCache(o.cache, emails[1..], from, roleList, net);
      forall j | 0 <= j < |emails| && net.rfcValid(emails[j])
        ensures DomainOf(emails[j]) in rest.cache &&
                FactsOf(RunAll(cache, emails, from, roleList, net).verdicts[j]) == rest.cache[DomainOf(emails[j])]
      {
        if j > 0 {
          assert emails[1..][j - 1] == emails[j];
        }
      }
    }
  }

  /** Two valid addresses at the same domain in one run report the same
      five domain fields. */
  lemma SameDomainSameFacts(cache: DomainCache, emails: seq<string>, from: string, roleList: seq<string>, net: Network, i: nat, j: nat)
    requires i < j < |emails|
    requires net.rfcValid(emails[i]) && net.rfcValid(emails[j])
    requires DomainOf(emails[i]) == DomainOf(emails[j])
    ensures FactsOf(RunAll(cache, emails, from, roleList, net).verdicts[i]) ==
            FactsOf(RunAll(cache, emails, from, roleList, net).verdicts[j])
  {
    RunVerdictsMatchCache(cache, emails, from, roleList, net);
  }

  /** How many entries of a call record are `c`. */
  function CountCalls(calls: seq<Call>, c: Call): (n: nat)
    ensures n <= |calls|
    ensures n == 0 <==> c !in calls
  {
    if calls == [] then 0 else (if calls[0] == c then 1 else 0) + CountCalls(calls[1..], c)
  }

  lemma {:induction false} CountCallsAppend(a: seq<Call>, b: seq<Call>, c: Call)
    ensures CountCalls(a + b, c) == CountCalls(a, c) + CountCalls(b, c)
  {
    if a == [] {
      assert a + b == b;
    } else {
      assert (a + b)[1..] == a[1..] + b;
      CountCallsAppend(a[1..], b, c);
    }
  }

  /** A call record in which `c` occurs once, at a known place. */
  lemma CountCallsOnce(before: seq<Call>, c: Call, after: seq<Call>)
    requires c !in before && c !in after
    ensures CountCalls(before + [c] + after, c) == 1
  {
    CountCallsAppend(before + [c], after, c);
    CountCallsAppend(before, [c], c);
    assert [c][1..] == [];
  }

  /** On a cache miss with MX records, the call record asks MX and WHOIS
      about the address's domain once each, and about no other domain. */
  lemma ProbeCallsCount(email: string, dom: string, net: Network, d: string)
    ensures CountCalls([SyntaxCall(email)] + ProbeCalls(net, email, dom), MxCall(d)) == if dom == d then 1 else 0
    ensures CountCalls([SyntaxCall(email)] + ProbeCalls(net, email, dom), WhoisCall(d)) == if dom == d then 1 else 0
  {
    var smtp := [SmtpCall(email, dom), SmtpCall(TestAddress(dom), dom), SmtpCall(RandomAddress(net, dom), dom)];
    assert [SyntaxCall(email)] + ProbeCalls(net, email, dom) == [SyntaxCall(email), MxCall(dom)] + smtp + [WhoisCall(dom)];
    SmtpCallsCount(smtp, d);
    CountCallsAppend([SyntaxCall(email), MxCall(dom)] + smtp, [WhoisCall(dom)], MxCall(d));
    CountCallsAppend([SyntaxCall(email), MxCall(dom)] + smtp, [WhoisCall(dom)], WhoisCall(d));
    CountCallsAppend([SyntaxCall(email), MxCall(dom)], smtp, MxCall(d));
    CountCallsAppend([SyntaxCall(email), MxCall(dom)], smtp, WhoisCall(d));
  }

  /** SMTP probes are neither MX checks nor WHOIS lookups. */
  lemma {:induction false} SmtpCallsCount(smtp: seq<Call>, d: string)
    requires forall i :: 0 <= i < |smtp| ==> smtp[i].SmtpCall?
    ensures CountCalls(smtp, MxCall(d)) == 0 && CountCalls(smtp, WhoisCall(d)) == 0
  {
    if smtp != [] {
      SmtpCallsCount(smtp[1..], d);
    }
  }

  /** One call asks the MX oracle about `d` exactly when the address is valid,
      its domain is `d` and `d` is not cached, and WHOIS only when MX records
      exist too; `d` is cached afterwards whenever it was asked about. */
  lemma VerifyCountsCalls(cache: DomainCache, email: string, from: string, roleList: seq<string>, net: Network, d: string)
    ensures var o := Verify(cache, email, from, roleList, net);
            var miss := net.rfcValid(email) && DomainOf(email) == d && d !in cache;
            && CountCalls(o.calls, MxCall(d)) == (if miss then 1 else 0)
            && CountCalls(o.calls, WhoisCall(d)) == (if miss && net.hasMx(d) then 1 else 0)
            && (miss ==> d in o.cache)
  {
    var dom := DomainOf(email);
    if net.rfcValid(email) && dom !in cache {
      if !net.hasMx(dom) {
        if dom == d { CountCallsOnce([SyntaxCall(email)], MxCall(d), []); }
      } else {
        ProbeCallsCount(email, dom, net, d);
      }
    }
  }

  /** Within one run the MX check and the WHOIS lookup for a domain happen at
      most once, and never for a domain already cached when the run began. */
  lemma {:induction false} RunProbesEachDomainOnce(cache: DomainCache, emails: seq<string>, from: string, roleList: seq<string>, net: Network, d: string)
    ensures CountCalls(RunAll(cache, emails, from, roleList, net).calls, MxCall(d)) <= (if d in cache then 0 else 1)
    ensures CountCalls(RunAll(cache, emails, from, roleList, net).calls, WhoisCall(d)) <= (if d in cache then 0 else 1)
    decreases |emails|
  {
    if emails != [] {
      var o := Verify(cache, emails[0], from, roleList, net);
      VerifyCountsCalls(cache, emails[0], from, roleList, net, d);
      RunProbesEachDomainOnce(o.cache, emails[1..], from, roleList, net, d);
      var rest := RunAll(o.cache, emails[1..], from, roleList, net);
      CountCallsAppend(o.calls, rest.calls, MxCall(d));
      CountCallsAppend(o.calls, rest.calls, WhoisCall(d));
      VerifyKeepsEntries(cache, emails[0], from, roleList, net);
    }
  }

  /** How many `verificarSMTP` probes of a call record are aimed at `d`. */
  function CountSmtp(calls: seq<Call>, d: string): (n: nat)
    ensures n <= |calls|
    ensures n == 0 <==> forall k :: 0 <= k < |calls| ==> !(calls[k].SmtpCall? && calls[k].domain == d)
  {
    if calls == [] then 0
    else (if calls[0].SmtpCall? && calls[0].domain == d then 1 else 0) + CountSmtp(calls[1..], d)
  }

  lemma {:induction false} CountSmtpAppend(a: seq<Call>, b: seq<Call>, d: string)
    ensures CountSmtp(a + b, d) == CountSmtp(a, d) + CountSmtp(b, d)
  {
    if a == [] {
      assert a + b == b;
    } else {
      assert (a + b)[1..] == a[1..] + b;
      CountSmtpAppend(a[1..], b, d);
    }
  }

  /** One call runs three `verificarSMTP` probes at a domain (the address's
      own probe and the two catch-all probes) exactly when it is a cache miss
      there that passes the `checkdnsrr` MX check, and none otherwise. */
  lemma VerifyCountsSmtp(cache: DomainCache, email: string, from: string, roleList: seq<string>, net: Network, d: string)
    ensures var o := Verify(cache, email, from, roleList, net);
            var miss := net.rfcValid(email) && DomainOf(email) == d && d !in cache;
            CountSmtp(o.calls, d) == (if miss && net.hasMx(d) then 3 else 0)
  {
    var dom := DomainOf(email);
    if net.rfcValid(email) && dom !in cache && net.hasMx(dom) {
      ProbeSmtpCount(email, dom, net, d);
    } else if net.rfcValid(email) && dom !in cache {
      assert [SyntaxCall(email), MxCall(dom)][1..][1..] == [];
    }
  }

  /** A miss with MX records runs its three probes at its own domain. */
  lemma ProbeSmtpCount(email: string, dom: string, net: Network, d: string)
    ensures CountSmtp([SyntaxCall(email)] + ProbeCalls(net, email, dom), d) == if dom == d then 3 else 0
  {
    var smtp := [SmtpCall(email, dom), SmtpCall(TestAddress(dom), dom), SmtpCall(RandomAddress(net, dom), dom)];
    assert [SyntaxCall(email)] + ProbeCalls(net, email, dom) == [SyntaxCall(email), MxCall(dom)] + smtp + [WhoisCall(dom)];
    CountSmtpAppend([SyntaxCall(email), MxCall(dom)] + smtp, [WhoisCall(dom)], d);
    CountSmtpAppend([SyntaxCall(email), MxCall(dom)], smtp, d);
    assert CountSmtp([WhoisCall(dom)], d) == 0;
    assert CountSmtp([SyntaxCall(email), MxCall(dom)], d) == 0;
    SmtpTriple(smtp, dom, d);
  }

  /** Three probes at one domain count three for it and none for another. */
  lemma SmtpTriple(smtp: seq<Call>, dom: string, d: string)
    requires |smtp| == 3 && forall k :: 0 <= k < 3 ==> smtp[k].SmtpCall? && smtp[k].domain == dom
    ensures CountSmtp(smtp, d) == if dom == d then 3 else 0
  {
    assert smtp[1..][1..][1..] == [];
    assert smtp[1..][0] == smtp[1] && smtp[1..][1..][0] == smtp[2];
  }

  /** Within one run at most three `verificarSMTP` probes run per domain,
      whatever the number of its addresses, and none for a domain cached
      when the run began: the catch-all probes run per domain, not per
      address. */
  lemma {:induction false} RunSmtpPerDomain(cache: DomainCache, emails: seq<string>, from: string, roleList: seq<string>, net: Network, d: string)
    ensures CountSmtp(RunAll(cache, emails, from, roleList, net).calls, d) <= (if d in cache then 0 else 3)
    decreases |emails|
  {
    if emails != [] {
      var o := Verify(cache, emails[0], from, roleList, net);
      VerifyCountsSmtp(cache, emails[0], from, roleList, net, d);
      VerifyCountsCalls(cache, emails[0], from, roleList, net, d);
      VerifyKeepsEntries(cache, emails[0], from, roleList, net);
      RunSmtpPerDomain(o.cache, emails[1..], from, roleList, net, d);
      var rest := RunAll(o.cache, emails[1..], from, roleList, net);
      CountSmtpAppend(o.calls, rest.calls, d);
    }
  }

  /** A run of two addresses is the second call made against the cache the
      first one left, with the two call records in order. */
  lemma RunPair(cache: DomainCache, e1: string, e2: string, from: string, roleList: seq<string>, net: Network)
    ensures var o1 := Verify(cache, e1, from, roleList, net);
            var o2 := Verify(o1.cache, e2, from, roleList, net);
            RunAll(cache, [e1, e2], from, roleList, net) ==
              Run([o1.verdict, o2.verdict], o2.cache, o1.calls + o2.calls)
  {
    var o1 := Verify(cache, e1, from, roleList, net);
    var o2 := Verify(o1.cache, e2, from, roleList, net);
    assert [e1, e2][1..] == [e2];
    assert [e2][1..] == [];
    assert RunAll(o2.cache, [], from, roleList, net) == Run([], o2.cache, []);
    var rest := RunAll(o1.cache, [e2], from, roleList, net);
    assert rest == Run([o2.verdict] + [], o2.cache, o2.calls + []);
    assert [o1.verdict] + ([o2.verdict] + []) == [o1.verdict, o2.verdict];
    assert o2.calls + [] == o2.calls;
  }

  /** Two addresses at one domain with MX records, verified in turn from an
      empty cache: one MX check, one WHOIS lookup, the same domain facts, and
      the second call consults nothing but the validator. */
  lemma TwoAddressesOneDomain(l1: string, l2: string, d: string, from: string, roleList: seq<string>, net: Network)
    requires '@' !in d
    requires net.rfcValid(l1 + "@" + d) && net.rfcValid(l2 + "@" + d) && net.hasMx(d)
    ensures var r := RunAll(map[], [l1 + "@" + d, l2 + "@" + d], from, roleList, net);
            && CountCalls(r.calls, MxCall(d)) == 1
            && CountCalls(r.calls, WhoisCall(d)) == 1
            && FactsOf(r.verdicts[0]) == FactsOf(r.verdicts[1])
            && r.calls[|r.calls| - 1] == SyntaxCall(l2 + "@" + d)
            && r.calls == Verify(map[], l1 + "@" + d, from, roleList, net).calls + [SyntaxCall(l2 + "@" + d)]
  {
    DomainOfJoin(l1, d);
    DomainOfJoin(l2, d);
    var e1, e2 := l1 + "@" + d, l2 + "@" + d;
    var o1 := Verify(map[], e1, from, roleList, net);
    var o2 := Verify(o1.cache, e2, from, roleList, net);
    VerifyCountsCalls(map[], e1, from, roleList, net, d);
    VerifyCountsCalls(o1.cache, e2, from, roleList, net, d);
    assert o2.calls == [SyntaxCall(e2)];
    RunPair(map[], e1, e2, from, roleList, net);
    CountCallsAppend(o1.calls, o2.calls, MxCall(d));
    CountCallsAppend(o1.calls, o2.calls, WhoisCall(d));
  }

  /** Quirk kept from the source: the first address at a domain without MX
      returns before the role check, so "admin@<no-MX domain>" is not flagged
      role based; the next call for it hits the cache and is flagged. */
  lemma FirstNoMxAddressSkipsRoleCheck(l: string, d: string, from: string, roleList: seq<string>, net: Network)
    requires '@' !in l
    requires net.rfcValid(l + "@" + d) && !net.hasMx(DomainOf(l + "@" + d))
    requires ToLower(l) in roleList
    ensures var r := RunAll(map[], [l + "@" + d, l + "@" + d], from, roleList, net);
            !r.verdicts[0].roleBased && r.verdicts[1].roleBased
  {
    var e := l + "@" + d;
    LocalPartOfJoin(l, d);
    var o1 := Verify(map[], e, from, roleList, net);
    assert [e, e][1..] == [e];
    assert IsRoleBased(e, roleList);
  }

  /** Quirk kept from the source: the SMTP result cached for a domain is the
      probe of the first address seen there, and later addresses inherit it even
      when their own mailbox would be refused. */
  lemma SmtpResultIsInherited(e1: string, e2: string, from: string, roleList: seq<string>, net: Network)
    requires net.rfcValid(e1) && net.rfcValid(e2) && DomainOf(e1) == DomainOf(e2)
    requires net.hasMx(DomainOf(e1))
    requires VerificarSmtp(net, from, e1, DomainOf(e1)) && !VerificarSmtp(net, from, e2, DomainOf(e2))
    ensures var r := RunAll(map[], [e1, e2], from, roleList, net);
            r.verdicts[1].smtpCheck && IsValidRecord(r.verdicts[1])
  {
    assert [e1, e2][1..] == [e2];
  }

  /** A run that starts from a well-formed cache keeps it well formed and
      produces only well-formed verdicts. */
  lemma {:induction false} RunWellFormed(cache: DomainCache, emails: seq<string>, from: string, roleList: seq<string>, net: Network)
    requires CacheWF(cache)
    ensures CacheWF(RunAll(cache, emails, from, roleList, net).cache)
    ensures forall j :: 0 <= j < |emails| ==> VerdictWF(RunAll(cache, emails, from, roleList, net).verdicts[j])
    decreases |emails|
  {
    if emails != [] {
      var o := Verify(cache, emails[0], from, roleList, net);
      VerifyWellFormed(cache, emails[0], from, roleList, net);
      RunWellFormed(o.cache, emails[1..], from, roleList, net);
    }
  }
}
