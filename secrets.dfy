/** The annotation-gated reconciliation pass of one ingress (secrets.go).
    The pass runs when the ingress already has TLS entries and carries the
    enabling annotation, or when TLS is forced for all ingresses. It adds a
    single-host entry for every rule host no entry covers and persists that
    change, then visits every entry: an entry whose stored certificate still
    parses and has not expired is left alone, any other gets a fresh key pair
    from the certificate authority, written into its secret. The first failure
    of the authority or of a secret write ends the pass with an error. */
module Secrets {
  import opened Kube
  import opened Cluster

  /** The annotation that asks for certificates to be generated for an ingress. */
  const GenCertsAnnotation: string := "kubernetes.io/tls-vault"

  /** The certificate authority client is either the signing-request capable
      Vault client or some other certifier that only takes a single host. */
  datatype CAKind = VaultClient | OtherCertifier

  /** The controller's configuration: the namespace it writes secrets to (blank
      meaning the ingress's own) and the kind of its authority client. */
  datatype Certer = Certer(namespace: string, caKind: CAKind)

  /** The process-wide force flag, the current time, and certificate parsing,
      which yields the certificate's NotAfter instant or None when the bytes
      are not a certificate. */
  datatype Env = Env(forceTLS: bool, now: int, notAfter: Bytes -> Option<int>)

  // ---------------------------------------------------------------------------
  // Coverage resolution (missingHosts)

  predicate NoDuplicates(s: seq<string>) {
    forall i, j :: 0 <= i < j < |s| ==> s[i] != s[j]
  }

  /** `hosts` is a possible answer of missingHosts: nothing when the rule and
      entry counts differ, otherwise every rule host that no entry claims, once
      each, in any order. */
  predicate IsMissingList(hosts: seq<string>, rules: seq<IngressRule>, tls: seq<TLSEntry>) {
    if |rules| != |tls| then hosts == []
    else NoDuplicates(hosts) && Elements(hosts) == RuleHosts(rules) - CoveredHosts(tls)
  }

  /** The rule hosts no TLS entry claims. The hosts are gathered in a set and
      handed out in an unspecified order, as iterating a map does. */
  method MissingHosts(rules: seq<IngressRule>, tls: seq<TLSEntry>) returns (hosts: seq<string>)
    ensures IsMissingList(hosts, rules, tls)
  {
    hosts := [];
    if |rules| != |tls| {
      return;
    }
    var m := HostSet(rules);
    m := DeleteCovered(m, tls);
    hosts := Drain(m);
  }

  /** Map all the rule hosts. */
  method HostSet(rules: seq<IngressRule>) returns (m: set<string>)
    ensures m == RuleHosts(rules)
  {
    m := {};
    for i := 0 to |rules|
      invariant m == RuleHosts(rules[..i])
    {
      assert rules[..i + 1] == rules[..i] + [rules[i]];
      RuleHostsSnoc(rules[..i], rules[i]);
      m := m + {rules[i].host};
    }
    assert rules[..|rules|] == rules;
  }

  /** Delete every host some entry claims. */
  method DeleteCovered(m0: set<string>, tls: seq<TLSEntry>) returns (m: set<string>)
    ensures m == m0 - CoveredHosts(tls)
  {
    m := m0;
    for i := 0 to |tls|
      invariant m == m0 - CoveredHosts(tls[..i])
    {
      var t := tls[i];
      for j := 0 to |t.hosts|
        invariant m == m0 - CoveredHosts(tls[..i]) - Elements(t.hosts[..j])
      {
        assert t.hosts[..j + 1] == t.hosts[..j] + [t.hosts[j]];
        ElementsSnoc(t.hosts[..j], t.hosts[j]);
        m := m - {t.hosts[j]};
      }
      CoveredHostsSnoc(tls[..i], t);
      assert t.hosts[..|t.hosts|] == t.hosts;
      assert tls[..i + 1] == tls[..i] + [t];
    }
    assert tls[..|tls|] == tls;
  }

  /** Hand out the hosts of `m`, each once, in an order of the method's choosing. */
  method Drain(m: set<string>) returns (hosts: seq<string>)
    ensures NoDuplicates(hosts) && Elements(hosts) == m
  {
    hosts := [];
    var rest := m;
    while rest != {}
      invariant rest <= m
      invariant NoDuplicates(hosts)
      invariant Elements(hosts) == m - rest
      decreases |rest|
    {
      var h :| h in rest;
      ElementsSnoc(hosts, h);
      hosts := hosts + [h];
      rest := rest - {h};
    }
  }

  lemma CoveredHostsSnoc(tls: seq<TLSEntry>, t: TLSEntry)
    ensures CoveredHosts(tls + [t]) == CoveredHosts(tls) + Elements(t.hosts)
  {
    CoveredHostsAppend(tls, [t]);
    assert CoveredHosts([t]) == Elements(t.hosts) + CoveredHosts([t][1..]);
  }

  lemma {:induction false} NoDuplicatesCount(s: seq<string>, x: string)
    requires NoDuplicates(s)
    ensures multiset(s)[x] == if x in s then 1 else 0
  {
    if s != [] {
      assert s == [s[0]] + s[1..];
      NoDuplicatesCount(s[1..], x);
      assert s[0] !in s[1..];
      assert multiset(s) == multiset{s[0]} + multiset(s[1..]);
    }
  }

  lemma {:induction false} NoDuplicatesCardinality(s: seq<string>)
    requires NoDuplicates(s)
    ensures |Elements(s)| == |s|
  {
    if s != [] {
      NoDuplicatesCardinality(s[1..]);
      assert Elements(s) == Elements(s[1..]) + {s[0]};
      assert s[0] !in Elements(s[1..]);
    }
  }

  /** Any two answers of missingHosts list the same hosts, possibly in another order. */
  lemma MissingListsArePermutations(a: seq<string>, b: seq<string>, rules: seq<IngressRule>, tls: seq<TLSEntry>)
    requires IsMissingList(a, rules, tls) && IsMissingList(b, rules, tls)
    ensures multiset(a) == multiset(b)
  {
    if |rules| == |tls| {
      forall x ensures multiset(a)[x] == multiset(b)[x] {
        NoDuplicatesCount(a, x);
        NoDuplicatesCount(b, x);
        assert x in a <==> x in Elements(a);
        assert x in b <==> x in Elements(b);
      }
    }
  }

  // ---------------------------------------------------------------------------
  // Spec augmentation (modifySpec) and its persistence (addNeededHosts)

  /** The spec with one single-host entry appended per host of `added`. */
  function Augmented(spec: IngressSpec, added: seq<string>): IngressSpec {
    spec.(tls := Some(spec.TLS() + EntriesFor(added)))
  }

  /** Appends an entry for every missing host; reports whether it appended any.
      A nil TLS list becomes an empty one in either case. */
  method ModifySpec(spec: IngressSpec) returns (spec': IngressSpec, changed: bool, ghost added: seq<string>)
    ensures IsMissingList(added, spec.rules, spec.TLS())
    ensures changed <==> added != []
    ensures spec'.rules == spec.rules && spec'.tls.Some?
    ensures |spec'.TLS()| == |spec.TLS()| + |added|
    ensures spec'.TLS()[..|spec.TLS()|] == spec.TLS()
    ensures forall k :: 0 <= k < |added| ==>
      spec'.TLS()[|spec.TLS()| + k] == TLSEntry([added[k]], added[k] + ".tls")
    ensures spec' == Augmented(spec, added)
  {
    var tls := spec.TLS();
    var needed := MissingHosts(spec.rules, tls);
    added := needed;
    if |needed| == 0 {
      assert tls + EntriesFor(needed) == tls;
      return spec.(tls := Some(tls)), false, added;
    }
    for i := 0 to |needed|
      invariant tls == spec.TLS() + EntriesFor(needed[..i])
    {
      assert EntriesFor(needed[..i + 1]) == EntriesFor(needed[..i]) + [EntryFor(needed[i])];
      tls := tls + [TLSEntry([needed[i]], needed[i] + ".tls")];
    }
    assert needed[..|needed|] == needed;
    spec', changed := spec.(tls := Some(tls)), true;
  }

  /** When the rule and entry counts agree, augmentation leaves every rule host covered. */
  lemma AugmentationCovers(rules: seq<IngressRule>, tls: seq<TLSEntry>, added: seq<string>)
    requires |rules| == |tls| && IsMissingList(added, rules, tls)
    ensures RuleHosts(rules) <= CoveredHosts(tls + EntriesFor(added))
  {
    CoveredHostsAppend(tls, EntriesFor(added));
    EntriesForCover(added);
  }

  /** A second augmentation adds nothing: either nothing was missing, or the
      added entries make the counts differ. */
  lemma AugmentationIsStable(rules: seq<IngressRule>, tls: seq<TLSEntry>, added: seq<string>, again: seq<string>)
    requires IsMissingList(added, rules, tls)
    requires IsMissingList(again, rules, tls + EntriesFor(added))
    ensures again == []
  {
    assert |tls + EntriesFor(added)| == |tls| + |added|;
    if added == [] && |rules| == |tls| {
      assert tls + EntriesFor(added) == tls;
      assert Elements(again) == {};
      NoDuplicatesCardinality(again);
    }
  }

  /** addNeededHosts: persist the augmented spec when it changed, continuing
      with the server's copy; a failed update is an error. */
  function NeededHostsAdded(o: Oracle, w: World, ing: Ingress, added: seq<string>): (Result<Ingress>, World) {
    var ing' := ing.(spec := Augmented(ing.spec, added));
    if added == [] then (Ok(ing'), w)
    else
      var (stored, w1) := w.UpdateIngress(o, ing');
      if stored.None? then (Err(IngressUpdateFailed(ing.namespace, ing.name)), w1)
      else (Ok(stored.value), w1)
  }

  method AddNeededHosts(api: Backend, ing: Ingress) returns (r: Result<Ingress>, ghost added: seq<string>)
    modifies api
    ensures IsMissingList(added, ing.spec.rules, ing.spec.TLS())
    ensures (r, api.State()) == NeededHostsAdded(api.oracle, old(api.State()), ing, added)
  {
    var spec, changed;
    spec, changed, added := ModifySpec(ing.spec);
    var ing' := ing.(spec := spec);
    if !changed {
      return Ok(ing'), added;
    }
    var stored := api.UpdateIngress(ing');
    if stored.None? {
      return Err(IngressUpdateFailed(ing.namespace, ing.name)), added;
    }
    r := Ok(stored.value);
  }

  // ---------------------------------------------------------------------------
  // One TLS entry: namespace, expiry gate, issuance, secret write

  /** unicode.IsSpace: the Latin-1 spaces and the other Unicode White_Space characters. */
  predicate IsSpace(c: char) {
    || c == ' ' || '\t' <= c <= '\r' || c == '\U{0085}' || c == '\U{00A0}'
    || c == '\U{1680}' || '\U{2000}' <= c <= '\U{200A}' || c == '\U{2028}' || c == '\U{2029}'
    || c == '\U{202F}' || c == '\U{205F}' || c == '\U{3000}'
  }

  /** strings.TrimSpace: drop the leading, then the trailing, white space. */
  function TrimSpace(s: string): string {
    TrimRight(TrimLeft(s))
  }

  function TrimLeft(s: string): string
    decreases |s|
  {
    if s != [] && IsSpace(s[0]) then TrimLeft(s[1..]) else s
  }

  function TrimRight(s: string): string
    decreases |s|
  {
    if s != [] && IsSpace(s[|s| - 1]) then TrimRight(s[..|s| - 1]) else s
  }

  /** A string made of white space only. */
  predicate IsBlank(s: string) {
    forall i :: 0 <= i < |s| ==> IsSpace(s[i])
  }

  lemma {:induction false} TrimLeftEmpty(s: string)
    ensures TrimLeft(s) == [] <==> IsBlank(s)
    decreases |s|
  {
    if s != [] && IsSpace(s[0]) {
      TrimLeftEmpty(s[1..]);
      assert forall i :: 1 <= i < |s| ==> s[i] == s[1..][i - 1];
    }
  }

  lemma {:induction false} TrimRightKeepsFirst(s: string)
    requires s != [] && !IsSpace(s[0])
    ensures TrimRight(s) != []
    decreases |s|
  {
    if IsSpace(s[|s| - 1]) {
      TrimRightKeepsFirst(s[..|s| - 1]);
    }
  }

  /** Trimming leaves nothing exactly when the string is all white space. */
  lemma BlankIffTrimsToEmpty(s: string)
    ensures TrimSpace(s) == [] <==> IsBlank(s)
  {
    TrimLeftEmpty(s);
    var t := TrimLeft(s);
    if t != [] {
      assert !IsSpace(t[0]) by { TrimLeftStops(s); }
      TrimRightKeepsFirst(t);
    }
  }

  lemma {:induction false} TrimLeftStops(s: string)
    requires TrimLeft(s) != []
    ensures !IsSpace(TrimLeft(s)[0])
    decreases |s|
  {
    if s != [] && IsSpace(s[0]) {
      TrimLeftStops(s[1..]);
    }
  }

  /** Secrets go to the controller's namespace unless it is blank once trimmed,
      and then to the ingress's own. */
  function TargetNamespace(ctrNamespace: string, ingNamespace: string): (r: string)
    ensures IsBlank(ctrNamespace) ==> r == ingNamespace
    ensures !IsBlank(ctrNamespace) ==> r == ctrNamespace
    ensures !IsBlank(ingNamespace) ==> !IsBlank(r)
  {
    BlankIffTrimsToEmpty(ctrNamespace);
    if TrimSpace(ctrNamespace) == "" then ingNamespace else ctrNamespace
  }

  /** The request made for an entry: a signing request for all its hosts with
      the first as common name on the Vault client, the first host otherwise. */
  function RequestFor(kind: CAKind, hosts: seq<string>): (q: CertRequest)
    requires |hosts| >= 1
    ensures q.CsrRequest? <==> kind == VaultClient
    ensures q.CsrRequest? ==> q.commonName == hosts[0] && q.dnsNames == hosts
    ensures q.RawRequest? ==> q.host == hosts[0]
  {
    match kind
    case VaultClient => CsrRequest(hosts[0], hosts)
    case OtherCertifier => RawRequest(hosts[0])
  }

  /** The expiry gate: the secret's certificate parses and has not yet expired. */
  predicate StillValid(env: Env, sec: Secret) {
    && CertDataKey in sec.data
    && env.notAfter(sec.data[CertDataKey]).Some?
    && env.now < env.notAfter(sec.data[CertDataKey]).value
  }

  /** The secret an entry's certificate is kept in. */
  function KeyFor(ctr: Certer, ingNamespace: string, e: TLSEntry): SecretKey {
    SecretKey(TargetNamespace(ctr.namespace, ingNamespace), e.secretName)
  }

  datatype Progress = Continue(world: World) | Abort(error: Error, world: World)

  function SyncEntry(ctr: Certer, env: Env, o: Oracle, w: World, ingNamespace: string, e: TLSEntry): Progress {
    if |e.hosts| < 1 then Continue(w)
    else
      var key := KeyFor(ctr, ingNamespace, e);
      var read := w.GetSecret(o, key);
      var got := read.0;
      var sec := Fetched(got, key);
      if StillValid(env, sec) then Continue(read.1)
      else
        var answer := read.1.Issue(o, RequestFor(ctr.caKind, e.hosts));
        if answer.0.None? then Abort(CertificateFailed(e.secretName), answer.1)
        else
          var sec' := WithKeyPair(sec, answer.0.value);
          var write := if got.None? then answer.1.CreateSecret(o, key, sec') else answer.1.UpdateSecret(o, key, sec');
          if write.0 then Continue(write.1)
          else Abort(SecretWriteFailed(if got.None? then Creating else Updating, e.secretName), write.1)
  }

  /** The entries visited in order; the first failure ends the visit. */
  function Reconcile(ctr: Certer, env: Env, o: Oracle, w: World, ingNamespace: string, es: seq<TLSEntry>): Progress
    decreases |es|
  {
    if es == [] then Continue(w)
    else
      match SyncEntry(ctr, env, o, w, ingNamespace, es[0])
      case Abort(err, w') => Abort(err, w')
      case Continue(w') => Reconcile(ctr, env, o, w', ingNamespace, es[1..])
  }

  // ---------------------------------------------------------------------------
  // The pass

  /** The gate, read before any augmentation. */
  predicate Eligible(ing: Ingress, forceTLS: bool) {
    || (|ing.spec.TLS()| > 0 && Annotation(ing.annotations, GenCertsAnnotation) != "")
    || forceTLS
  }

  /** One pass, with `added` the order in which missingHosts hands out the uncovered hosts. */
  function Pass(ctr: Certer, env: Env, o: Oracle, w: World, ing: Ingress, added: seq<string>): (Result<Ingress>, World) {
    if !Eligible(ing, env.forceTLS) then (Err(NoIngressToUpdate), w)
    else
      var (persisted, w1) := NeededHostsAdded(o, w, ing, added);
      if persisted.Err? then (persisted, w1)
      else
        var cur := persisted.value;
        match Reconcile(ctr, env, o, w1, cur.namespace, cur.spec.TLS())
        case Abort(err, w2) => (Err(err), w2)
        case Continue(w2) => (Ok(cur), w2)
  }

  /** The body of the pass's loop for one entry; None when the pass goes on. */
  method SyncSecret(ctr: Certer, env: Env, api: Backend, ingNamespace: string, tls: TLSEntry) returns (failure: Option<Error>)
    modifies api
    ensures SyncEntry(ctr, env, api.oracle, old(api.State()), ingNamespace, tls)
         == if failure.None? then Continue(api.State()) else Abort(failure.value, api.State())
  {
    if |tls.hosts| < 1 {
      return None;
    }
    var namespace := ctr.namespace;
    if TrimSpace(namespace) == "" {
      namespace := ingNamespace;
    }
    var key := SecretKey(namespace, tls.secretName);
    var got := api.GetSecret(key);
    var newSec := got.None?;
    var sec := if newSec then Secret(namespace, tls.secretName, map[]) else got.value;
    if StillValid(env, sec) {
      return None;
    }
    var pair := api.Issue(RequestFor(ctr.caKind, tls.hosts));
    if pair.None? {
      return Some(CertificateFailed(tls.secretName));
    }
    sec := sec.(data := sec.data[KeyDataKey := pair.value.private]);
    sec := sec.(data := sec.data[CertDataKey := pair.value.public]);
    var ok;
    if newSec {
      ok := api.CreateSecret(key, sec);
    } else {
      ok := api.UpdateSecret(key, sec);
    }
    if !ok {
      return Some(SecretWriteFailed(if newSec then Creating else Updating, tls.secretName));
    }
    return None;
  }

  /** The pass's loop over the entries, stopping at the first failure. */
  method SyncSecrets(ctr: Certer, env: Env, api: Backend, ingNamespace: string, entries: seq<TLSEntry>)
    returns (failure: Option<Error>)
    modifies api
    ensures Reconcile(ctr, env, api.oracle, old(api.State()), ingNamespace, entries)
         == if failure.None? then Continue(api.State()) else Abort(failure.value, api.State())
  {
    for i := 0 to |entries|
      invariant Reconcile(ctr, env, api.oracle, old(api.State()), ingNamespace, entries)
             == Reconcile(ctr, env, api.oracle, api.State(), ingNamespace, entries[i..])
    {
      assert entries[i..][0] == entries[i] && entries[i..][1..] == entries[i + 1..];
      failure := SyncSecret(ctr, env, api, ingNamespace, entries[i]);
      if failure.Some? {
        return;
      }
    }
    assert entries[|entries|..] == [];
    failure := None;
  }

  method AddTLSSecrets(ctr: Certer, env: Env, api: Backend, ing: Ingress) returns (r: Result<Ingress>, ghost added: seq<string>)
    modifies api
    ensures Eligible(ing, env.forceTLS) ==> IsMissingList(added, ing.spec.rules, ing.spec.TLS())
    ensures (r, api.State()) == Pass(ctr, env, api.oracle, old(api.State()), ing, added)
  {
    added := [];
    var annotAllows := |ing.spec.TLS()| > 0 && Annotation(ing.annotations, GenCertsAnnotation) != "";
    if !(annotAllows || env.forceTLS) {
      return Err(NoIngressToUpdate), added;
    }
    var persisted;
    persisted, added := AddNeededHosts(api, ing);
    if persisted.Err? {
      return persisted, added;
    }
    var cur := persisted.value;
    var failure := SyncSecrets(ctr, env, api, cur.namespace, cur.spec.TLS());
    if failure.Some? {
      return Err(failure.value), added;
    }
    r := Ok(cur);
  }

  // ---------------------------------------------------------------------------
  // What a pass does

  /** The errors an entry can end the pass with. */
  predicate EntryError(err: Error, e: TLSEntry) {
    err == CertificateFailed(e.secretName) || (err.SecretWriteFailed? && err.secretName == e.secretName)
  }

  /** Visiting a + b visits a, then, unless that ended the pass, b from where a left off:
      a failure ends the pass and no later entry is visited. */
  lemma {:induction false} ReconcileAppend(ctr: Certer, env: Env, o: Oracle, w: World, ns: string, a: seq<TLSEntry>, b: seq<TLSEntry>)
    ensures Reconcile(ctr, env, o, w, ns, a + b)
         == match Reconcile(ctr, env, o, w, ns, a)
            case Abort(err, w') => Abort(err, w')
            case Continue(w') => Reconcile(ctr, env, o, w', ns, b)
    decreases |a|
  {
    if a == [] {
      assert a + b == b;
    } else {
      assert (a + b)[0] == a[0] && (a + b)[1..] == a[1..] + b;
      match SyncEntry(ctr, env, o, w, ns, a[0])
      case Abort(_, _) =>
      case Continue(w1) => ReconcileAppend(ctr, env, o, w1, ns, a[1..], b);
    }
  }

  /** A pass that ends early ends with the error of one of its entries. */
  lemma {:induction false} ReconcileErrors(ctr: Certer, env: Env, o: Oracle, w: World, ns: string, es: seq<TLSEntry>)
    ensures var p := Reconcile(ctr, env, o, w, ns, es);
            p.Abort? ==> exists i :: 0 <= i < |es| && |es[i].hosts| >= 1 && EntryError(p.error, es[i])
    decreases |es|
  {
    if es != [] {
      match SyncEntry(ctr, env, o, w, ns, es[0])
      case Abort(_, _) =>
        assert |es[0].hosts| >= 1 && EntryError(Reconcile(ctr, env, o, w, ns, es).error, es[0]);
      case Continue(w1) =>
        ReconcileErrors(ctr, env, o, w1, ns, es[1..]);
        var p := Reconcile(ctr, env, o, w1, ns, es[1..]);
        if p.Abort? {
          var i :| 0 <= i < |es[1..]| && |es[1..][i].hosts| >= 1 && EntryError(p.error, es[1..][i]);
          assert es[i + 1] == es[1..][i];
        }
    }
  }

  /** The gate: a pass refuses with "no ingress to update" exactly when the
      ingress is not eligible, and then it makes no call at all. */
  lemma EligibilityGate(ctr: Certer, env: Env, o: Oracle, w: World, ing: Ingress, added: seq<string>)
    ensures !Eligible(ing, env.forceTLS) ==> Pass(ctr, env, o, w, ing, added) == (Err(NoIngressToUpdate), w)
    ensures Pass(ctr, env, o, w, ing, added).0 == Err(NoIngressToUpdate) ==> !Eligible(ing, env.forceTLS)
  {
    if Eligible(ing, env.forceTLS) {
      var (persisted, w1) := NeededHostsAdded(o, w, ing, added);
      if persisted.Ok? {
        var cur := persisted.value;
        ReconcileErrors(ctr, env, o, w1, cur.namespace, cur.spec.TLS());
      }
    }
  }

  /** When the augmented spec cannot be saved, the pass fails right after that
      one update call, before any secret is read or written. */
  lemma PersistFailureTouchesNoSecret(ctr: Certer, env: Env, o: Oracle, w: World, ing: Ingress, added: seq<string>)
    requires Eligible(ing, env.forceTLS) && added != []
    requires o.fails(|w.calls|, UpdateIngressCall(ing.(spec := Augmented(ing.spec, added))))
    ensures Pass(ctr, env, o, w, ing, added)
         == (Err(IngressUpdateFailed(ing.namespace, ing.name)),
             w.Record(UpdateIngressCall(ing.(spec := Augmented(ing.spec, added)))))
  {
  }

  /** Once the spec is in place, the pass visits the original entries followed
      by one entry per added host; the update call is made only if something
      was added, and the pass goes on with the server's copy. */
  lemma VisitsAugmentedEntries(ctr: Certer, env: Env, o: Oracle, w: World, ing: Ingress, added: seq<string>)
    requires Eligible(ing, env.forceTLS)
    requires added != [] ==> !o.fails(|w.calls|, UpdateIngressCall(ing.(spec := Augmented(ing.spec, added))))
    ensures var aug := ing.(spec := Augmented(ing.spec, added));
            var w1 := if added == [] then w else w.Record(UpdateIngressCall(aug)).(ingresses := w.ingresses[KeyOf(aug) := aug]);
            var p := Reconcile(ctr, env, o, w1, ing.namespace, ing.spec.TLS() + EntriesFor(added));
            Pass(ctr, env, o, w, ing, added) == (if p.Abort? then Err(p.error) else Ok(aug), p.world)
  {
  }

  /** An entry with hosts is left alone (its secret is read, no certificate is
      requested and nothing is written) exactly when the secret it finds, or the
      empty one it would create, holds a certificate that parses and has not expired. */
  lemma SkipIffStillValid(ctr: Certer, env: Env, o: Oracle, w: World, ns: string, e: TLSEntry)
    requires |e.hosts| >= 1
    ensures var key := KeyFor(ctr, ns, e);
            var got := w.GetSecret(o, key).0;
            (SyncEntry(ctr, env, o, w, ns, e) == Continue(w.Record(GetSecretCall(key))))
              <==> StillValid(env, Fetched(got, key))
  {
    var key := KeyFor(ctr, ns, e);
    var p := SyncEntry(ctr, env, o, w, ns, e);
    if !StillValid(env, Fetched(w.GetSecret(o, key).0, key)) {
      assert |p.world.calls| > |w.calls| + 1;
    }
  }

  /** An entry that is reissued asks the authority for a certificate for its
      hosts (the first being the primary one) and, on success, writes the new
      pair into its secret, keeping the secret's other data; the write creates
      the secret exactly when it could not be read. */
  lemma ReissueWritesNewPair(ctr: Certer, env: Env, o: Oracle, w: World, ns: string, e: TLSEntry)
    requires |e.hosts| >= 1
    requires !StillValid(env, Fetched(w.GetSecret(o, KeyFor(ctr, ns, e)).0, KeyFor(ctr, ns, e)))
    ensures var key := KeyFor(ctr, ns, e);
            var got := w.GetSecret(o, key).0;
            var q := RequestFor(ctr.caKind, e.hosts);
            var answer := o.issue(|w.calls| + 1, q);
            var p := SyncEntry(ctr, env, o, w, ns, e);
            && |p.world.calls| >= |w.calls| + 2
            && p.world.calls[..|w.calls| + 2] == w.calls + [GetSecretCall(key), IssueCall(q)]
            && (answer.None? ==> p == Abort(CertificateFailed(e.secretName), w.Record(GetSecretCall(key)).Record(IssueCall(q))))
            && (answer.Some? ==>
                  var sec := WithKeyPair(Fetched(got, key), answer.value);
                  var write := if got.None? then CreateSecretCall(key, sec) else UpdateSecretCall(key, sec);
                  && p.world.calls == w.calls + [GetSecretCall(key), IssueCall(q), write]
                  && (p.Continue? <==> !o.fails(|w.calls| + 2, write))
                  && p.world.secrets == if p.Continue? then w.secrets[key := sec] else w.secrets)
  {
  }

  /** A visit writes no secret other than those of the visited entries. */
  lemma {:induction false} ReconcileFrame(ctr: Certer, env: Env, o: Oracle, w: World, ns: string, es: seq<TLSEntry>, k: SecretKey)
    requires forall i :: 0 <= i < |es| && |es[i].hosts| >= 1 ==> KeyFor(ctr, ns, es[i]) != k
    ensures var p := Reconcile(ctr, env, o, w, ns, es);
            (k in p.world.secrets <==> k in w.secrets)
            && (k in w.secrets ==> p.world.secrets[k] == w.secrets[k])
            && p.world.ingresses == w.ingresses
    decreases |es|
  {
    if es != [] {
      match SyncEntry(ctr, env, o, w, ns, es[0])
      case Abort(_, _) =>
      case Continue(w1) =>
        forall i | 0 <= i < |es[1..]| && |es[1..][i].hosts| >= 1 ensures KeyFor(ctr, ns, es[1..][i]) != k {
          assert es[1..][i] == es[i + 1];
        }
        ReconcileFrame(ctr, env, o, w1, ns, es[1..], k);
    }
  }

  /** A second pass over secrets that are all readable and hold valid
      certificates requests no certificate and changes nothing: the pass only
      reads secrets. */
  lemma {:induction false} ValidSecretsAreLeftAlone(ctr: Certer, env: Env, o: Oracle, w: World, ns: string, es: seq<TLSEntry>)
    requires forall n: nat, k :: !o.fails(n, GetSecretCall(k))
    requires forall e :: e in es && |e.hosts| >= 1 ==>
      KeyFor(ctr, ns, e) in w.secrets && StillValid(env, w.secrets[KeyFor(ctr, ns, e)])
    ensures var p := Reconcile(ctr, env, o, w, ns, es);
            && p.Continue?
            && p.world.secrets == w.secrets && p.world.ingresses == w.ingresses
            && |p.world.calls| >= |w.calls|
            && p.world.calls[..|w.calls|] == w.calls
            && forall i :: |w.calls| <= i < |p.world.calls| ==> p.world.calls[i].GetSecretCall?
    decreases |es|
  {
    if es != [] {
      var w1 := SyncEntry(ctr, env, o, w, ns, es[0]).world;
      assert SyncEntry(ctr, env, o, w, ns, es[0]) == Continue(w1);
      assert w1.secrets == w.secrets;
      ValidSecretsAreLeftAlone(ctr, env, o, w1, ns, es[1..]);
      var p := Reconcile(ctr, env, o, w1, ns, es[1..]);
      assert p.world.calls[..|w1.calls|] == w1.calls;
      assert w1.calls[..|w.calls|] == w.calls;
      forall i | |w.calls| <= i < |p.world.calls| ensures p.world.calls[i].GetSecretCall? {
        if i < |w1.calls| {
          assert p.world.calls[i] == w1.calls[i];
        }
      }
    }
  }

  /** Idempotence of the whole pass: run again on the ingress a pass returned,
      at a time when every secret it names is readable and valid, the pass is
      eligible again, adds no entry and so makes no ingress update, returns
      the same ingress, changes no secret or ingress, and only reads secrets. */
  lemma SecondPassChangesNothing(ctr: Certer, env: Env, o: Oracle, w: World, ing: Ingress, added: seq<string>,
                                 ing2: Ingress, w2: World, again: seq<string>)
    requires IsMissingList(added, ing.spec.rules, ing.spec.TLS())
    requires Pass(ctr, env, o, w, ing, added).0 == Ok(ing2)
    requires IsMissingList(again, ing2.spec.rules, ing2.spec.TLS())
    requires forall n: nat, k :: !o.fails(n, GetSecretCall(k))
    requires forall e :: e in ing2.spec.TLS() && |e.hosts| >= 1 ==>
      KeyFor(ctr, ing2.namespace, e) in w2.secrets && StillValid(env, w2.secrets[KeyFor(ctr, ing2.namespace, e)])
    ensures var p := Pass(ctr, env, o, w2, ing2, again);
            && p.0 == Ok(ing2)
            && p.1.secrets == w2.secrets && p.1.ingresses == w2.ingresses
            && |p.1.calls| >= |w2.calls|
            && p.1.calls[..|w2.calls|] == w2.calls
            && forall i :: |w2.calls| <= i < |p.1.calls| ==> p.1.calls[i].GetSecretCall?
  {
    assert ing2 == ing.(spec := Augmented(ing.spec, added));
    assert ing2.spec.TLS() == ing.spec.TLS() + EntriesFor(added);
    AugmentationIsStable(ing.spec.rules, ing.spec.TLS(), added, again);
    assert ing2.spec.TLS() + EntriesFor(again) == ing2.spec.TLS();
    assert Augmented(ing2.spec, again) == ing2.spec;
    ValidSecretsAreLeftAlone(ctr, env, o, w2, ing2.namespace, ing2.spec.TLS());
  }

  /** A secret the Get did not return never passes the expiry gate, so its entry is always issued. */
  lemma MissingSecretIsReissued(env: Env, key: SecretKey)
    ensures !StillValid(env, Fetched(None, key))
  {
  }

  /** Forcing TLS on an ingress with rules and no TLS entries adds none: the
      rule and entry counts differ, so no host counts as missing. The pass only
      turns a nil list into an empty one and makes no call at all. */
  lemma ForcedPassLeavesBareIngress(ctr: Certer, env: Env, o: Oracle, w: World, ing: Ingress, added: seq<string>)
    requires env.forceTLS && |ing.spec.rules| > 0 && ing.spec.TLS() == []
    requires IsMissingList(added, ing.spec.rules, ing.spec.TLS())
    ensures Pass(ctr, env, o, w, ing, added) == (Ok(ing.(spec := ing.spec.(tls := Some([])))), w)
  {
    assert EntriesFor(added) == [];
  }
}
