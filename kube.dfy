/** The resources a reconciliation pass reads and writes: ingress rules and TLS
    entries, ingress resources, secrets and key pairs, together with the notion
    of which hosts a list of TLS entries covers and the deterministic naming of
    the entries the pass adds. */
module Kube {

  newtype byte = x: int | 0 <= x < 256

  type Bytes = seq<byte>

  datatype Option<T> = None | Some(value: T)

  /** One routing rule of an ingress; only its host matters to the pass. */
  datatype IngressRule = IngressRule(host: string)

  /** One certificate's coverage: the hosts it serves and the secret holding it. */
  datatype TLSEntry = TLSEntry(hosts: seq<string>, secretName: string)

  /** `tls` is None for a nil list and Some([]) for an empty but present one. */
  datatype IngressSpec = IngressSpec(rules: seq<IngressRule>, tls: Option<seq<TLSEntry>>) {
    /** The TLS entries, reading a nil list as empty. */
    function TLS(): seq<TLSEntry> {
      if tls.Some? then tls.value else []
    }
  }

  datatype Ingress = Ingress(namespace: string, name: string,
                             annotations: map<string, string>, spec: IngressSpec)

  datatype Secret = Secret(namespace: string, name: string, data: map<string, Bytes>)

  /** Secrets and ingresses are identified by namespace and name. */
  datatype SecretKey = SecretKey(namespace: string, name: string)

  datatype IngressKey = IngressKey(namespace: string, name: string)

  function KeyOf(ing: Ingress): IngressKey {
    IngressKey(ing.namespace, ing.name)
  }

  /** The secret a Get returned, or, when the Get failed, a new empty secret with the wanted identity. */
  function Fetched(got: Option<Secret>, key: SecretKey): (r: Secret)
    ensures got.Some? ==> r == got.value
    ensures got.None? ==> SecretKey(r.namespace, r.name) == key && r.data == map[]
  {
    if got.Some? then got.value else Secret(key.namespace, key.name, map[])
  }

  datatype KeyPair = KeyPair(public: Bytes, private: Bytes)

  /** The data keys in which a TLS secret keeps its certificate and private key. */
  const CertDataKey: string := "tls.crt"
  const KeyDataKey: string := "tls.key"

  /** The secret name the pass derives for a host it adds an entry for. */
  function SecretNameFor(host: string): string {
    host + ".tls"
  }

  /** The single-host entry the pass adds for an uncovered host. */
  function EntryFor(host: string): TLSEntry {
    TLSEntry([host], SecretNameFor(host))
  }

  function EntriesFor(hosts: seq<string>): seq<TLSEntry> {
    seq(|hosts|, i requires 0 <= i < |hosts| => EntryFor(hosts[i]))
  }

  /** Deriving secret names loses nothing: distinct hosts never share a secret. */
  lemma SecretNameInjective(h1: string, h2: string)
    requires SecretNameFor(h1) == SecretNameFor(h2)
    ensures h1 == h2
  {
    var n := SecretNameFor(h1);
    assert |h1| == |h2|;
    assert h1 == n[..|h1|];
    assert h2 == n[..|h2|];
  }

  /** The hosts a list names. */
  function Elements(hosts: seq<string>): set<string> {
    set h | h in hosts
  }

  lemma ElementsSnoc(hosts: seq<string>, h: string)
    ensures Elements(hosts + [h]) == Elements(hosts) + {h}
  {
  }

  /** The hosts named by a list of rules. */
  function RuleHosts(rules: seq<IngressRule>): set<string> {
    set r | r in rules :: r.host
  }

  lemma RuleHostsSnoc(rules: seq<IngressRule>, r: IngressRule)
    ensures RuleHosts(rules + [r]) == RuleHosts(rules) + {r.host}
  {
    assert forall x :: x in rules + [r] <==> x in rules || x == r;
  }

  /** The hosts claimed by at least one entry of `tls`. */
  function CoveredHosts(tls: seq<TLSEntry>): set<string> {
    if tls == [] then {} else Elements(tls[0].hosts) + CoveredHosts(tls[1..])
  }

  lemma {:induction false} CoveredHostsMeaning(tls: seq<TLSEntry>, h: string)
    ensures h in CoveredHosts(tls) <==> exists i :: 0 <= i < |tls| && h in tls[i].hosts
  {
    if tls != [] {
      CoveredHostsMeaning(tls[1..], h);
      if h in CoveredHosts(tls[1..]) {
        var i :| 0 <= i < |tls[1..]| && h in tls[1..][i].hosts;
        assert h in tls[i + 1].hosts;
      }
      if exists i :: 0 <= i < |tls| && h in tls[i].hosts {
        var i :| 0 <= i < |tls| && h in tls[i].hosts;
        if i > 0 {
          assert h in tls[1..][i - 1].hosts;
        }
      }
    }
  }

  lemma {:induction false} CoveredHostsAppend(a: seq<TLSEntry>, b: seq<TLSEntry>)
    ensures CoveredHosts(a + b) == CoveredHosts(a) + CoveredHosts(b)
  {
    if a == [] {
      assert a + b == b;
    } else {
      assert (a + b)[0] == a[0];
      assert (a + b)[1..] == a[1..] + b;
      CoveredHostsAppend(a[1..], b);
    }
  }

  /** Every host handed to EntriesFor is covered by the entries it builds. */
  lemma {:induction false} EntriesForCover(hosts: seq<string>)
    ensures CoveredHosts(EntriesFor(hosts)) == Elements(hosts)
  {
    if hosts != [] {
      assert EntriesFor(hosts)[1..] == EntriesFor(hosts[1..]);
      EntriesForCover(hosts[1..]);
      assert Elements(hosts) == {hosts[0]} + Elements(hosts[1..]);
    }
  }

  /** A duplicate-free list of hosts yields entries with pairwise distinct secret names. */
  lemma EntriesForDistinctSecrets(hosts: seq<string>)
    requires forall i, j :: 0 <= i < j < |hosts| ==> hosts[i] != hosts[j]
    ensures forall i, j :: 0 <= i < j < |hosts| ==>
      EntriesFor(hosts)[i].secretName != EntriesFor(hosts)[j].secretName
  {
    forall i, j | 0 <= i < j < |hosts|
      ensures EntriesFor(hosts)[i].secretName != EntriesFor(hosts)[j].secretName
    {
      if SecretNameFor(hosts[i]) == SecretNameFor(hosts[j]) {
        SecretNameInjective(hosts[i], hosts[j]);
      }
    }
  }

  /** The secret with a new key pair stored under the two TLS data keys. */
  function WithKeyPair(sec: Secret, pair: KeyPair): (r: Secret)
    ensures r.namespace == sec.namespace && r.name == sec.name
    ensures KeyDataKey in r.data && r.data[KeyDataKey] == pair.private
    ensures CertDataKey in r.data && r.data[CertDataKey] == pair.public
    ensures r.data.Keys == sec.data.Keys + {KeyDataKey, CertDataKey}
    ensures forall k :: k in sec.data && k != KeyDataKey && k != CertDataKey ==> r.data[k] == sec.data[k]
  {
    sec.(data := sec.data[KeyDataKey := pair.private][CertDataKey := pair.public])
  }

  /** Value of annotation `k`, or "" when absent (a Go map lookup's zero value). */
  function Annotation(annotations: map<string, string>, k: string): string {
    if k in annotations then annotations[k] else ""
  }

  /** The error outcomes of a pass. */
  datatype WriteOp = Creating | Updating

  datatype Error =
    | NoIngressToUpdate
    | IngressUpdateFailed(namespace: string, name: string)
    | CertificateFailed(secretName: string)
    | SecretWriteFailed(op: WriteOp, secretName: string)
    | LatestIngressFailed
    | RemoveFailedCertsFailed

  datatype Result<T> = Ok(value: T) | Err(error: Error)
}
