/** The older reconciliation pass of one ingress (addTLSSecret.go), which
    always reissues. It runs when the ingress has TLS entries or TLS is forced.
    In force mode it first appends an entry for every rule whose host no
    original entry claims. Every entry with hosts then gets a fresh certificate
    for its first host, written into its secret in the ingress's namespace. A
    failure skips only that entry, and the entries that succeeded are
    collected. Finally the latest copy of the ingress is fetched, and its TLS
    list is replaced by the successful entries when the two counts differ. */
module AddTLSSecret {
  import opened Kube
  import opened Cluster

  // ---------------------------------------------------------------------------
  // The working list of entries (exTLS and the force-mode appends)

  /** Force mode's appended entries: one per rule, in rule order, whose host is
      not in `claimed`. `claimed` is fixed beforehand, so a host that many rules
      share gets one entry for each of those rules. */
  function Forced(rules: seq<IngressRule>, claimed: set<string>): seq<TLSEntry>
    decreases |rules|
  {
    if rules == [] then []
    else (if rules[0].host in claimed then [] else [EntryFor(rules[0].host)]) + Forced(rules[1..], claimed)
  }

  /** The entries the pass goes through. */
  function WorkingList(tls: seq<TLSEntry>, rules: seq<IngressRule>, forceTLS: bool): seq<TLSEntry> {
    if forceTLS then tls + Forced(rules, CoveredHosts(tls)) else tls
  }

  /** The hosts the original entries claim (the key set of exTLS). */
  method ClaimedHosts(ts: seq<TLSEntry>) returns (exTLS: set<string>)
    ensures exTLS == CoveredHosts(ts)
  {
    exTLS := {};
    for i := 0 to |ts|
      invariant exTLS + CoveredHosts(ts[i..]) == CoveredHosts(ts)
    {
      var r := ts[i];
      assert ts[i..][0] == r && ts[i..][1..] == ts[i + 1..];
      for j := 0 to |r.hosts|
        invariant exTLS + Elements(r.hosts[j..]) + CoveredHosts(ts[i + 1..]) == CoveredHosts(ts)
      {
        assert r.hosts[j..] == [r.hosts[j]] + r.hosts[j + 1..];
        exTLS := exTLS + {r.hosts[j]};
      }
    }
  }

  /** Appends, in rule order, an entry for each rule whose host is not in exTLS. */
  method AppendUncovered(ts: seq<TLSEntry>, rules: seq<IngressRule>, exTLS: set<string>) returns (ts': seq<TLSEntry>)
    ensures ts' == ts + Forced(rules, exTLS)
  {
    ts' := ts;
    for i := 0 to |rules|
      invariant ts + Forced(rules, exTLS) == ts' + Forced(rules[i..], exTLS)
    {
      var rule := rules[i];
      assert rules[i..][0] == rule && rules[i..][1..] == rules[i + 1..];
      if rule.host in exTLS {
        continue;
      }
      ts' := ts' + [TLSEntry([rule.host], rule.host + ".tls")];
    }
    assert rules[|rules|..] == [];
  }

  lemma {:induction false} ForcedCovers(rules: seq<IngressRule>, claimed: set<string>)
    ensures RuleHosts(rules) - claimed <= CoveredHosts(Forced(rules, claimed))
    decreases |rules|
  {
    if rules != [] {
      ForcedCovers(rules[1..], claimed);
      var head := if rules[0].host in claimed then [] else [EntryFor(rules[0].host)];
      CoveredHostsAppend(head, Forced(rules[1..], claimed));
      assert rules == [rules[0]] + rules[1..];
      RuleHostsSnoc([rules[0]], rules[0]);
      assert RuleHosts(rules) == {rules[0].host} + RuleHosts(rules[1..]);
      if head != [] {
        assert CoveredHosts(head) == {rules[0].host} + CoveredHosts(head[1..]);
      }
    }
  }

  /** Without force mode the working list is the ingress's own list; in force
      mode it starts with that list and covers every rule host. */
  lemma WorkingListShape(tls: seq<TLSEntry>, rules: seq<IngressRule>)
    ensures WorkingList(tls, rules, false) == tls
    ensures RuleHosts(rules) <= CoveredHosts(WorkingList(tls, rules, true))
    ensures |WorkingList(tls, rules, true)| >= |tls| && WorkingList(tls, rules, true)[..|tls|] == tls
  {
    ForcedCovers(rules, CoveredHosts(tls));
    CoveredHostsAppend(tls, Forced(rules, CoveredHosts(tls)));
  }

  /** The rules' hosts, in order. */
  function HostsOf(rules: seq<IngressRule>): seq<string> {
    seq(|rules|, i requires 0 <= i < |rules| => rules[i].host)
  }

  /** Each appended entry is the entry of a rule host that no original entry claims. */
  lemma {:induction false} ForcedEntriesAreUncoveredRules(rules: seq<IngressRule>, claimed: set<string>, e: TLSEntry)
    requires e in Forced(rules, claimed)
    ensures |e.hosts| == 1 && e == EntryFor(e.hosts[0])
    ensures e.hosts[0] !in claimed && e.hosts[0] in HostsOf(rules)
    decreases |rules|
  {
    if e !in Forced(rules[1..], claimed) {
      assert e == EntryFor(rules[0].host) && rules[0].host !in claimed;
      assert HostsOf(rules)[0] == rules[0].host;
    } else {
      ForcedEntriesAreUncoveredRules(rules[1..], claimed, e);
      var k :| 0 <= k < |HostsOf(rules[1..])| && HostsOf(rules[1..])[k] == e.hosts[0];
      assert HostsOf(rules)[k + 1] == e.hosts[0];
    }
  }

  /** An unclaimed host gets as many appended entries as there are rules naming it. */
  lemma {:induction false} ForcedKeepsRepeats(rules: seq<IngressRule>, claimed: set<string>, h: string)
    requires h !in claimed
    ensures multiset(Forced(rules, claimed))[EntryFor(h)] == multiset(HostsOf(rules))[h]
    decreases |rules|
  {
    if rules != [] {
      ForcedKeepsRepeats(rules[1..], claimed, h);
      var head := if rules[0].host in claimed then [] else [EntryFor(rules[0].host)];
      assert Forced(rules, claimed) == head + Forced(rules[1..], claimed);
      assert HostsOf(rules) == [rules[0].host] + HostsOf(rules[1..]);
      assert EntryFor(rules[0].host) == EntryFor(h) <==> rules[0].host == h;
    }
  }

  // ---------------------------------------------------------------------------
  // Issuance, one entry at a time, failures isolated

  /** Issue a certificate for one entry and store it; true when its secret was written. */
  function IssueOne(o: Oracle, w: World, ns: string, e: TLSEntry): (bool, World) {
    if |e.hosts| < 1 then (false, w)
    else
      var key := SecretKey(ns, e.secretName);
      var read := w.GetSecret(o, key);
      var got := read.0;
      var answer := read.1.Issue(o, RawRequest(e.hosts[0]));
      if answer.0.None? then (false, answer.1)
      else
        var sec := WithKeyPair(Fetched(got, key), answer.0.value);
        if got.None? then answer.1.CreateSecret(o, key, sec) else answer.1.UpdateSecret(o, key, sec)
  }

  datatype Issued = Issued(world: World, success: seq<TLSEntry>)

  /** The entries taken in order, each one's failure skipping only that entry;
      `success` holds the entries collected so far and grows by those that succeed. */
  function IssueFrom(o: Oracle, w: World, ns: string, ts: seq<TLSEntry>, success: seq<TLSEntry>): Issued
    decreases |ts|
  {
    if ts == [] then Issued(w, success)
    else
      var step := IssueOne(o, w, ns, ts[0]);
      IssueFrom(o, step.1, ns, ts[1..], if step.0 then success + [ts[0]] else success)
  }

  /** The issuance loop, started with an empty success list. */
  function IssueAll(o: Oracle, w: World, ns: string, ts: seq<TLSEntry>): Issued {
    IssueFrom(o, w, ns, ts, [])
  }

  /** The body of the issuance loop for one entry. */
  method IssueSecret(api: Backend, ns: string, tls: TLSEntry) returns (ok: bool)
    modifies api
    ensures (ok, api.State()) == IssueOne(api.oracle, old(api.State()), ns, tls)
  {
    if |tls.hosts| < 1 {
      return false;
    }
    var key := SecretKey(ns, tls.secretName);
    var got := api.GetSecret(key);
    var newSec := got.None?;
    var sec := if newSec then Secret(ns, tls.secretName, map[]) else got.value;
    var h := tls.hosts[0];
    var m := api.Issue(RawRequest(h));
    if m.None? {
      return false;
    }
    sec := sec.(data := sec.data[KeyDataKey := m.value.private]);
    sec := sec.(data := sec.data[CertDataKey := m.value.public]);
    if newSec {
      ok := api.CreateSecret(key, sec);
    } else {
      ok := api.UpdateSecret(key, sec);
    }
  }

  // ---------------------------------------------------------------------------
  // Convergence and the pass

  /** Re-read the ingress; when the count of successful entries differs from
      the count of its TLS entries, replace them by the successful ones and
      save it. */
  function Converge(o: Oracle, w: World, ing: Ingress, success: seq<TLSEntry>): (Result<Ingress>, World) {
    var fetch := w.GetIngress(o, KeyOf(ing));
    var latest := fetch.0;
    if latest.None? then (Err(LatestIngressFailed), fetch.1)
    else if |success| != |latest.value.spec.TLS()| then
      var save := fetch.1.UpdateIngress(o, latest.value.(spec := latest.value.spec.(tls := Some(success))));
      if save.0.None? then (Err(RemoveFailedCertsFailed), save.1) else (Ok(save.0.value), save.1)
    else (Ok(latest.value), fetch.1)
  }

  function Pass(o: Oracle, w: World, forceTLS: bool, ing: Ingress): (Result<Ingress>, World) {
    if |ing.spec.TLS()| == 0 && !forceTLS then (Err(NoIngressToUpdate), w)
    else
      var issued := IssueAll(o, w, ing.namespace, WorkingList(ing.spec.TLS(), ing.spec.rules, forceTLS));
      Converge(o, issued.world, ing, issued.success)
  }

  /** The issuance loop: every entry in order, collecting those whose secret was written. */
  method IssueEntries(api: Backend, ns: string, ts: seq<TLSEntry>) returns (success: seq<TLSEntry>)
    modifies api
    ensures IssueAll(api.oracle, old(api.State()), ns, ts) == Issued(api.State(), success)
  {
    success := [];
    for i := 0 to |ts|
      invariant IssueAll(api.oracle, old(api.State()), ns, ts) == IssueFrom(api.oracle, api.State(), ns, ts[i..], success)
    {
      var tls := ts[i];
      assert ts[i..][0] == tls && ts[i..][1..] == ts[i + 1..];
      var ok := IssueSecret(api, ns, tls);
      if ok {
        success := success + [tls];
      }
    }
    assert ts[|ts|..] == [];
  }

  method AddTLSSecrets(api: Backend, forceTLS: bool, ing: Ingress) returns (r: Result<Ingress>)
    modifies api
    ensures (r, api.State()) == Pass(api.oracle, old(api.State()), forceTLS, ing)
  {
    if |ing.spec.TLS()| == 0 && !forceTLS {
      return Err(NoIngressToUpdate);
    }
    var ts := ing.spec.TLS();
    var exTLS := ClaimedHosts(ts);
    if forceTLS {
      ts := AppendUncovered(ts, ing.spec.rules, exTLS);
    }
    var success := IssueEntries(api, ing.namespace, ts);
    var latest := api.GetIngress(KeyOf(ing));
    if latest.None? {
      return Err(LatestIngressFailed);
    }
    var cur := latest.value;
    if |success| != |cur.spec.TLS()| {
      cur := cur.(spec := cur.spec.(tls := Some(success)));
      var stored := api.UpdateIngress(cur);
      if stored.None? {
        return Err(RemoveFailedCertsFailed);
      }
      cur := stored.value;
    }
    r := Ok(cur);
  }

  // ---------------------------------------------------------------------------
  // What a pass does

  /** `s` is `t` with some elements left out, the rest kept in order. */
  predicate IsSubsequence(s: seq<TLSEntry>, t: seq<TLSEntry>)
    decreases |t|
  {
    if t == [] then s == []
    else (s != [] && s[0] == t[0] && IsSubsequence(s[1..], t[1..])) || IsSubsequence(s, t[1..])
  }

  /** The gate: the pass refuses with "no ingresses to update" exactly when the
      ingress has no TLS entry and TLS is not forced, and then it makes no call. */
  lemma ForceGate(o: Oracle, w: World, forceTLS: bool, ing: Ingress)
    ensures |ing.spec.TLS()| == 0 && !forceTLS ==> Pass(o, w, forceTLS, ing) == (Err(NoIngressToUpdate), w)
    ensures Pass(o, w, forceTLS, ing).0 == Err(NoIngressToUpdate) ==> |ing.spec.TLS()| == 0 && !forceTLS
  {
  }

  /** Every entry with hosts is reissued, whatever its secret holds: the secret is
      read, a certificate is requested for the first host, and, when one comes
      back, written with the secret's other data kept, by a create exactly when
      the read failed. The entry succeeds exactly when that write does, and
      nothing but its own secret changes. An entry without hosts makes no call. */
  lemma IssueOneWrites(o: Oracle, w: World, ns: string, e: TLSEntry)
    ensures |e.hosts| < 1 ==> IssueOne(o, w, ns, e) == (false, w)
    ensures |e.hosts| >= 1 ==>
      var key := SecretKey(ns, e.secretName);
      var got := w.GetSecret(o, key).0;
      var q := RawRequest(e.hosts[0]);
      var answer := o.issue(|w.calls| + 1, q);
      var (ok, w') := IssueOne(o, w, ns, e);
      && w'.ingresses == w.ingresses
      && (answer.None? ==> !ok && w' == w.Record(GetSecretCall(key)).Record(IssueCall(q)))
      && (answer.Some? ==>
            var sec := WithKeyPair(Fetched(got, key), answer.value);
            var write := if got.None? then CreateSecretCall(key, sec) else UpdateSecretCall(key, sec);
            && w'.calls == w.calls + [GetSecretCall(key), IssueCall(q), write]
            && (ok <==> !o.fails(|w.calls| + 2, write))
            && w'.secrets == if ok then w.secrets[key := sec] else w.secrets)
  {
  }

  /** Going through a + b goes through a, then through b from where a left off. */
  lemma {:induction false} IssueFromAppend(o: Oracle, w: World, ns: string, a: seq<TLSEntry>, b: seq<TLSEntry>, acc: seq<TLSEntry>)
    ensures IssueFrom(o, w, ns, a + b, acc)
         == IssueFrom(o, IssueFrom(o, w, ns, a, acc).world, ns, b, IssueFrom(o, w, ns, a, acc).success)
    decreases |a|
  {
    if a == [] {
      assert a + b == b;
    } else {
      assert (a + b)[0] == a[0] && (a + b)[1..] == a[1..] + b;
      var step := IssueOne(o, w, ns, a[0]);
      IssueFromAppend(o, step.1, ns, a[1..], b, if step.0 then acc + [a[0]] else acc);
    }
  }

  /** What is written does not depend on what was collected beforehand. */
  lemma {:induction false} IssueFromWorld(o: Oracle, w: World, ns: string, ts: seq<TLSEntry>, acc: seq<TLSEntry>, acc': seq<TLSEntry>)
    ensures IssueFrom(o, w, ns, ts, acc).world == IssueFrom(o, w, ns, ts, acc').world
    decreases |ts|
  {
    if ts != [] {
      var step := IssueOne(o, w, ns, ts[0]);
      IssueFromWorld(o, step.1, ns, ts[1..], if step.0 then acc + [ts[0]] else acc, if step.0 then acc' + [ts[0]] else acc');
    }
  }

  /** The entries collected beforehand are kept, ahead of the new successes. */
  lemma {:induction false} IssueFromPrefix(o: Oracle, w: World, ns: string, ts: seq<TLSEntry>, acc: seq<TLSEntry>, x: seq<TLSEntry>)
    ensures IssueFrom(o, w, ns, ts, acc + x).success == acc + IssueFrom(o, w, ns, ts, x).success
    decreases |ts|
  {
    if ts != [] {
      var step := IssueOne(o, w, ns, ts[0]);
      assert (acc + x) + [ts[0]] == acc + (x + [ts[0]]);
      IssueFromPrefix(o, step.1, ns, ts[1..], acc, if step.0 then x + [ts[0]] else x);
    }
  }

  lemma IssueFromShift(o: Oracle, w: World, ns: string, ts: seq<TLSEntry>, acc: seq<TLSEntry>)
    ensures IssueFrom(o, w, ns, ts, acc) == Issued(IssueAll(o, w, ns, ts).world, acc + IssueAll(o, w, ns, ts).success)
  {
    IssueFromWorld(o, w, ns, ts, acc, []);
    IssueFromPrefix(o, w, ns, ts, acc, []);
    assert acc + [] == acc;
  }

  /** The first entry, then the rest. */
  lemma IssueAllCons(o: Oracle, w: World, ns: string, ts: seq<TLSEntry>)
    requires ts != []
    ensures var step := IssueOne(o, w, ns, ts[0]);
            var r := IssueAll(o, step.1, ns, ts[1..]);
            IssueAll(o, w, ns, ts) == Issued(r.world, (if step.0 then [ts[0]] else []) + r.success)
  {
    var step := IssueOne(o, w, ns, ts[0]);
    assert [] + [ts[0]] == [ts[0]];
    IssueFromShift(o, step.1, ns, ts[1..], if step.0 then [ts[0]] else []);
  }

  /** Issuing for a + b issues for a, then for b from where a left off; the
      successes are a's followed by b's. */
  lemma IssueAllAppend(o: Oracle, w: World, ns: string, a: seq<TLSEntry>, b: seq<TLSEntry>)
    ensures var ra := IssueAll(o, w, ns, a);
            var rb := IssueAll(o, ra.world, ns, b);
            IssueAll(o, w, ns, a + b) == Issued(rb.world, ra.success + rb.success)
  {
    IssueFromAppend(o, w, ns, a, b, []);
    var ra := IssueAll(o, w, ns, a);
    IssueFromShift(o, ra.world, ns, b, ra.success);
  }

  /** A failing entry costs only itself: the pass goes on with the next entry
      and the successes are those before and those after it. */
  lemma FailureSkipsOnlyThatEntry(o: Oracle, w: World, ns: string, before: seq<TLSEntry>, e: TLSEntry, after: seq<TLSEntry>)
    requires !IssueOne(o, IssueAll(o, w, ns, before).world, ns, e).0
    ensures var rb := IssueAll(o, w, ns, before);
            var ra := IssueAll(o, IssueOne(o, rb.world, ns, e).1, ns, after);
            IssueAll(o, w, ns, before + [e] + after) == Issued(ra.world, rb.success + ra.success)
  {
    var rb := IssueAll(o, w, ns, before);
    IssueAllAppend(o, w, ns, before, [e] + after);
    assert before + [e] + after == before + ([e] + after);
    assert ([e] + after)[0] == e && ([e] + after)[1..] == after;
    IssueAllCons(o, rb.world, ns, [e] + after);
  }

  /** The successes are entries of the working list, in its order, each with hosts. */
  lemma {:induction false} SuccessIsSubsequence(o: Oracle, w: World, ns: string, ts: seq<TLSEntry>)
    ensures IsSubsequence(IssueAll(o, w, ns, ts).success, ts)
    ensures forall e :: e in IssueAll(o, w, ns, ts).success ==> |e.hosts| >= 1
    decreases |ts|
  {
    if ts != [] {
      var ok := IssueOne(o, w, ns, ts[0]).0;
      var w1 := IssueOne(o, w, ns, ts[0]).1;
      IssueAllCons(o, w, ns, ts);
      SuccessIsSubsequence(o, w1, ns, ts[1..]);
      var rest := IssueAll(o, w1, ns, ts[1..]).success;
      if ok {
        assert IssueAll(o, w, ns, ts).success == [ts[0]] + rest;
        assert ([ts[0]] + rest)[1..] == rest;
      } else {
        assert IssueAll(o, w, ns, ts).success == rest;
      }
    }
  }

  /** Issuing writes no secret other than those of the entries with hosts, and no ingress. */
  lemma {:induction false} IssueAllFrame(o: Oracle, w: World, ns: string, ts: seq<TLSEntry>, k: SecretKey)
    requires forall i :: 0 <= i < |ts| && |ts[i].hosts| >= 1 ==> SecretKey(ns, ts[i].secretName) != k
    ensures var r := IssueAll(o, w, ns, ts);
            (k in r.world.secrets <==> k in w.secrets)
            && (k in w.secrets ==> r.world.secrets[k] == w.secrets[k])
            && r.world.ingresses == w.ingresses
    decreases |ts|
  {
    if ts != [] {
      var w1 := IssueOne(o, w, ns, ts[0]).1;
      IssueAllCons(o, w, ns, ts);
      forall i | 0 <= i < |ts[1..]| && |ts[1..][i].hosts| >= 1 ensures SecretKey(ns, ts[1..][i].secretName) != k {
        assert ts[1..][i] == ts[i + 1];
      }
      IssueAllFrame(o, w1, ns, ts[1..], k);
    }
  }

  /** Convergence re-reads the ingress and writes it back only when the count of
      successes differs from its count of TLS entries; then, if that write
      succeeds, its TLS list is exactly the successes. Secrets are not touched. */
  lemma ConvergeOutcome(o: Oracle, w: World, ing: Ingress, success: seq<TLSEntry>)
    ensures var key := KeyOf(ing);
            var latest := w.GetIngress(o, key).0;
            var (r, w') := Converge(o, w, ing, success);
            && w'.secrets == w.secrets
            && (latest.None? ==> r == Err(LatestIngressFailed) && w' == w.Record(GetIngressCall(key)))
            && (latest.Some? && |success| == |latest.value.spec.TLS()| ==>
                  r == Ok(latest.value) && w' == w.Record(GetIngressCall(key)))
            && (latest.Some? && |success| != |latest.value.spec.TLS()| ==>
                  var fixed := latest.value.(spec := latest.value.spec.(tls := Some(success)));
                  && w'.calls == w.calls + [GetIngressCall(key), UpdateIngressCall(fixed)]
                  && (r.Ok? <==> !o.fails(|w.calls| + 1, UpdateIngressCall(fixed)))
                  && (r.Ok? ==> r.value.spec.TLS() == success && w'.ingresses == w.ingresses[KeyOf(fixed) := fixed])
                  && (r.Err? ==> r.error == RemoveFailedCertsFailed && w'.ingresses == w.ingresses))
  {
  }

  lemma OneClaimedOneNot()
    ensures WorkingList([EntryFor("b.com")], [IngressRule("b.com"), IngressRule("a.com")], true)
         == [EntryFor("b.com"), EntryFor("a.com")]
  {
    assert CoveredHosts([EntryFor("b.com")]) == {"b.com"};
    assert "a.com" != "b.com";
    assert Forced([IngressRule("b.com"), IngressRule("a.com")], {"b.com"}) == [EntryFor("a.com")];
  }

  /** Comparing counts cannot tell a failed entry from one force mode added: with
      rules b.com and a.com, an original entry for b.com whose certificate the
      authority refuses, and a.com succeeding, the counts agree (one and one),
      so the ingress keeps its failed b.com entry and never lists a.com. */
  lemma CountConvergenceCanKeepFailedEntry(o: Oracle, secrets: map<SecretKey, Secret>)
    requires forall n: nat, c: Call :: !o.fails(n, c)
    requires forall n: nat :: o.issue(n, RawRequest("b.com")).None? && o.issue(n, RawRequest("a.com")).Some?
    ensures var ing := Ingress("default", "web", map[],
                               IngressSpec([IngressRule("b.com"), IngressRule("a.com")], Some([EntryFor("b.com")])));
            var w := World(secrets, map[KeyOf(ing) := ing], []);
            && IssueAll(o, w, "default", WorkingList(ing.spec.TLS(), ing.spec.rules, true)).success == [EntryFor("a.com")]
            && Pass(o, w, true, ing).0 == Ok(ing)
  {
    var ing := Ingress("default", "web", map[],
                       IngressSpec([IngressRule("b.com"), IngressRule("a.com")], Some([EntryFor("b.com")])));
    var w := World(secrets, map[KeyOf(ing) := ing], []);
    OneClaimedOneNot();
    var ts := WorkingList(ing.spec.TLS(), ing.spec.rules, true);
    var w1 := IssueOne(o, w, "default", ts[0]).1;
    assert !IssueOne(o, w, "default", ts[0]).0;
    assert IssueOne(o, w1, "default", ts[1]).0;
    assert ts[1..][1..] == [];
    IssueAllCons(o, w1, "default", ts[1..]);
    IssueAllCons(o, w, "default", ts);
    var issued := IssueAll(o, w, "default", ts);
    assert issued.success == [EntryFor("a.com")];
    IssueAllKeepsIngresses(o, w, "default", ts);
    ConvergeOutcome(o, issued.world, ing, issued.success);
  }

  /** Issuance writes no ingress. */
  lemma {:induction false} IssueAllKeepsIngresses(o: Oracle, w: World, ns: string, ts: seq<TLSEntry>)
    ensures IssueAll(o, w, ns, ts).world.ingresses == w.ingresses
    decreases |ts|
  {
    if ts != [] {
      IssueAllCons(o, w, ns, ts);
      IssueAllKeepsIngresses(o, IssueOne(o, w, ns, ts[0]).1, ns, ts[1..]);
    }
  }

  /** A subsequence is never longer, and one as long is the sequence itself. */
  lemma {:induction false} SubsequenceLength(s: seq<TLSEntry>, t: seq<TLSEntry>)
    requires IsSubsequence(s, t)
    ensures |s| <= |t|
    ensures |s| == |t| ==> s == t
    decreases |t|
  {
    if t != [] {
      if s != [] && s[0] == t[0] && IsSubsequence(s[1..], t[1..]) {
        SubsequenceLength(s[1..], t[1..]);
        if |s| == |t| {
          assert s == [s[0]] + s[1..];
        }
      } else {
        SubsequenceLength(s, t[1..]);
      }
    }
  }

  /** Without force mode, when the stored ingress is the one the pass was given
      and the ingress calls succeed, the pass ends with the ingress listing
      exactly the entries whose secrets were written: counting is then enough,
      since the successes are the whole list exactly when as many succeeded. */
  lemma FailedEntriesArePrunedWithoutForce(o: Oracle, w: World, ing: Ingress)
    requires |ing.spec.TLS()| > 0
    requires KeyOf(ing) in w.ingresses && w.ingresses[KeyOf(ing)] == ing
    requires forall n: nat, c: Call :: (c.GetIngressCall? || c.UpdateIngressCall?) ==> !o.fails(n, c)
    ensures var r := Pass(o, w, false, ing).0;
            r.Ok? && r.value.spec.TLS() == IssueAll(o, w, ing.namespace, ing.spec.TLS()).success
  {
    var ts := ing.spec.TLS();
    var issued := IssueAll(o, w, ing.namespace, ts);
    IssueAllKeepsIngresses(o, w, ing.namespace, ts);
    SuccessIsSubsequence(o, w, ing.namespace, ts);
    SubsequenceLength(issued.success, ts);
    ConvergeOutcome(o, issued.world, ing, issued.success);
  }

  /** When no call fails and the authority always answers, every entry with
      hosts succeeds and has its secret stored; no stored secret disappears. */
  lemma {:induction false} IssueAllWhenNothingFails(o: Oracle, w: World, ns: string, ts: seq<TLSEntry>)
    requires forall n: nat, c: Call :: !o.fails(n, c)
    requires forall n: nat, q: CertRequest :: o.issue(n, q).Some?
    requires forall i :: 0 <= i < |ts| ==> |ts[i].hosts| >= 1
    ensures var r := IssueAll(o, w, ns, ts);
            && r.success == ts
            && r.world.ingresses == w.ingresses
            && w.secrets.Keys <= r.world.secrets.Keys
            && forall i :: 0 <= i < |ts| ==> SecretKey(ns, ts[i].secretName) in r.world.secrets
    decreases |ts|
  {
    if ts != [] {
      var ok := IssueOne(o, w, ns, ts[0]).0;
      var w1 := IssueOne(o, w, ns, ts[0]).1;
      IssueAllCons(o, w, ns, ts);
      assert ok && SecretKey(ns, ts[0].secretName) in w1.secrets && w.secrets.Keys <= w1.secrets.Keys;
      IssueAllWhenNothingFails(o, w1, ns, ts[1..]);
      var r := IssueAll(o, w1, ns, ts[1..]);
      assert IssueAll(o, w, ns, ts) == Issued(r.world, [ts[0]] + r.success);
      forall i | 0 <= i < |ts| ensures SecretKey(ns, ts[i].secretName) in r.world.secrets {
        if i > 0 {
          assert ts[i] == ts[1..][i - 1];
        }
      }
    }
  }

  lemma TwoRulesNoEntries()
    ensures WorkingList([], [IngressRule("a.com"), IngressRule("b.com")], true) == [EntryFor("a.com"), EntryFor("b.com")]
    ensures EntryFor("a.com").secretName == "a.com.tls" && EntryFor("b.com").secretName == "b.com.tls"
  {
    assert "a.com" != "b.com";
    assert Forced([IngressRule("a.com"), IngressRule("b.com")], {}) == [EntryFor("a.com"), EntryFor("b.com")];
  }

  /** Forcing TLS on an ingress with rules a.com and b.com and no entries,
      stored as given, with no call failing: both secrets are created and the
      ingress ends up with the two derived entries, in rule order. */
  lemma ForcedBareIngressGetsEntries(o: Oracle, secrets: map<SecretKey, Secret>)
    requires forall n: nat, c: Call :: !o.fails(n, c)
    requires forall n: nat, q: CertRequest :: o.issue(n, q).Some?
    ensures var ing := Ingress("default", "web", map[],
                               IngressSpec([IngressRule("a.com"), IngressRule("b.com")], None));
            var w := World(secrets, map[KeyOf(ing) := ing], []);
            var p := Pass(o, w, true, ing);
            && p.0.Ok? && p.0.value.spec.TLS() == [EntryFor("a.com"), EntryFor("b.com")]
            && SecretKey("default", "a.com.tls") in p.1.secrets
            && SecretKey("default", "b.com.tls") in p.1.secrets
  {
    var ing := Ingress("default", "web", map[],
                       IngressSpec([IngressRule("a.com"), IngressRule("b.com")], None));
    var w := World(secrets, map[KeyOf(ing) := ing], []);
    var ts := WorkingList(ing.spec.TLS(), ing.spec.rules, true);
    TwoRulesNoEntries();
    IssueAllWhenNothingFails(o, w, "default", ts);
    var issued := IssueAll(o, w, "default", ts);
    assert SecretKey("default", ts[0].secretName) in issued.world.secrets;
    assert SecretKey("default", ts[1].secretName) in issued.world.secrets;
    assert issued.success == ts && issued.world.ingresses == w.ingresses;
    assert Pass(o, w, true, ing) == Converge(o, issued.world, ing, ts);
    var fixed := ing.(spec := ing.spec.(tls := Some(ts)));
    assert issued.world.GetIngress(o, KeyOf(ing)).0 == Some(ing);
    assert Converge(o, issued.world, ing, ts).0 == Ok(fixed);
    assert Converge(o, issued.world, ing, ts).1.secrets == issued.world.secrets;
  }

  /** With nothing failing and an authority that answers, an entry with hosts
      makes three calls: the read, the request and a write of its secret, which
      is a create exactly when the secret was not stored. The stored keys grow
      by that secret's key alone. */
  lemma IssueOneCreatesIffAbsent(o: Oracle, w: World, ns: string, e: TLSEntry)
    requires forall n: nat, c: Call :: !o.fails(n, c)
    requires forall n: nat, q: CertRequest :: o.issue(n, q).Some?
    requires |e.hosts| >= 1
    ensures var key := SecretKey(ns, e.secretName);
            var w' := IssueOne(o, w, ns, e).1;
            && |w'.calls| == |w.calls| + 3
            && w'.calls[..|w.calls|] == w.calls
            && w'.calls[|w.calls|] == GetSecretCall(key)
            && (w'.calls[|w.calls| + 2].CreateSecretCall? || w'.calls[|w.calls| + 2].UpdateSecretCall?)
            && w'.calls[|w.calls| + 2].key == key
            && (w'.calls[|w.calls| + 2].CreateSecretCall? <==> key !in w.secrets)
            && w'.secrets.Keys == w.secrets.Keys + {key}
  {
    IssueOneWrites(o, w, ns, e);
  }

  /** Convergence only appends to the call log. */
  lemma ConvergeKeepsCalls(o: Oracle, w: World, ing: Ingress, success: seq<TLSEntry>)
    ensures var w' := Converge(o, w, ing, success).1;
            |w'.calls| >= |w.calls| && w'.calls[..|w.calls|] == w.calls
  {
  }

  /** The loop over two entries is the first entry's issuance, then the second's. */
  lemma IssueAllTwo(o: Oracle, w: World, ns: string, e1: TLSEntry, e2: TLSEntry)
    ensures IssueAll(o, w, ns, [e1, e2]).world == IssueOne(o, IssueOne(o, w, ns, e1).1, ns, e2).1
  {
    var w1 := IssueOne(o, w, ns, e1).1;
    assert [e1, e2][0] == e1 && [e1, e2][1..] == [e2] && [e2][1..] == [];
    IssueAllCons(o, w1, ns, [e2]);
    IssueAllCons(o, w, ns, [e1, e2]);
  }

  /** Two entries with hosts and distinct secret names, with nothing failing:
      six calls, the second write coming last, each write a create exactly when
      its secret was not stored before the loop. */
  lemma IssueTwoCreatesIffAbsent(o: Oracle, w: World, ns: string, e1: TLSEntry, e2: TLSEntry)
    requires forall n: nat, c: Call :: !o.fails(n, c)
    requires forall n: nat, q: CertRequest :: o.issue(n, q).Some?
    requires |e1.hosts| >= 1 && |e2.hosts| >= 1 && e1.secretName != e2.secretName
    ensures var k1 := SecretKey(ns, e1.secretName);
            var k2 := SecretKey(ns, e2.secretName);
            var cs := IssueAll(o, w, ns, [e1, e2]).world.calls;
            var n := |w.calls|;
            && |cs| == n + 6
            && cs[..n] == w.calls
            && cs[n] == GetSecretCall(k1) && cs[n + 3] == GetSecretCall(k2)
            && (cs[n + 2].CreateSecretCall? || cs[n + 2].UpdateSecretCall?) && cs[n + 2].key == k1
            && (cs[n + 5].CreateSecretCall? || cs[n + 5].UpdateSecretCall?) && cs[n + 5].key == k2
            && (cs[n + 2].CreateSecretCall? <==> k1 !in w.secrets)
            && (cs[n + 5].CreateSecretCall? <==> k2 !in w.secrets)
  {
    IssueAllTwo(o, w, ns, e1, e2);
    var w1 := IssueOne(o, w, ns, e1).1;
    IssueOneCreatesIffAbsent(o, w, ns, e1);
    IssueOneCreatesIffAbsent(o, w1, ns, e2);
    var w2 := IssueOne(o, w1, ns, e2).1;
    var n := |w.calls|;
    assert w2.calls[..n + 3] == w1.calls;
    assert w2.calls[n] == w1.calls[n] && w2.calls[n + 2] == w1.calls[n + 2];
    assert w2.calls[..n] == w1.calls[..n];
  }

  /** The same forced pass, by its calls: each entry's secret is read, a
      certificate requested and the secret written, a.com's first. Each write
      is a create exactly when that secret was not stored beforehand, and an
      update of the stored one otherwise. */
  lemma ForcedBareIngressWrites(o: Oracle, secrets: map<SecretKey, Secret>)
    requires forall n: nat, c: Call :: !o.fails(n, c)
    requires forall n: nat, q: CertRequest :: o.issue(n, q).Some?
    ensures var ing := Ingress("default", "web", map[],
                               IngressSpec([IngressRule("a.com"), IngressRule("b.com")], None));
            var p := Pass(o, World(secrets, map[KeyOf(ing) := ing], []), true, ing);
            var ka := SecretKey("default", "a.com.tls");
            var kb := SecretKey("default", "b.com.tls");
            && |p.1.calls| >= 6
            && p.1.calls[0] == GetSecretCall(ka) && p.1.calls[3] == GetSecretCall(kb)
            && (p.1.calls[2].CreateSecretCall? || p.1.calls[2].UpdateSecretCall?) && p.1.calls[2].key == ka
            && (p.1.calls[5].CreateSecretCall? || p.1.calls[5].UpdateSecretCall?) && p.1.calls[5].key == kb
            && (p.1.calls[2].CreateSecretCall? <==> ka !in secrets)
            && (p.1.calls[5].CreateSecretCall? <==> kb !in secrets)
  {
    var ing := Ingress("default", "web", map[],
                       IngressSpec([IngressRule("a.com"), IngressRule("b.com")], None));
    var w := World(secrets, map[KeyOf(ing) := ing], []);
    var ts := WorkingList(ing.spec.TLS(), ing.spec.rules, true);
    TwoRulesNoEntries();
    IssueTwoCreatesIffAbsent(o, w, "default", ts[0], ts[1]);
    assert ts == [ts[0], ts[1]];
    var issued := IssueAll(o, w, "default", ts);
    assert Pass(o, w, true, ing) == Converge(o, issued.world, ing, issued.success);
    ConvergeKeepsCalls(o, issued.world, ing, issued.success);
  }
}
