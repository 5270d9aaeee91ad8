/** The collaborators of a reconciliation pass: the cluster API (secrets and
    ingresses keyed by namespace and name) and the certificate authority.
    Their behaviour outside this program is unknown, so every outcome a call
    can have is left to an oracle that sees the call and its position in the
    log of calls made so far; a World value is the state the pass observes
    and the Backend class is that state as the pass changes it. */
module Cluster {
  import opened Kube

  /** The two shapes of request the certificate authority accepts: a signing
      request naming a common name and DNS names, or a plain single-host one. */
  datatype CertRequest =
    | CsrRequest(commonName: string, dnsNames: seq<string>)
    | RawRequest(host: string)

  datatype Call =
    | GetSecretCall(key: SecretKey)
    | CreateSecretCall(key: SecretKey, secret: Secret)
    | UpdateSecretCall(key: SecretKey, secret: Secret)
    | GetIngressCall(ingressKey: IngressKey)
    | UpdateIngressCall(ingress: Ingress)
    | IssueCall(request: CertRequest)

  /** `fails(n, c)`: the n-th call of the log, c, fails on the server side.
      `issue(n, q)`: what the authority answers to request q made as the n-th call. */
  datatype Oracle = Oracle(fails: (nat, Call) -> bool, issue: (nat, CertRequest) -> Option<KeyPair>)

  datatype World = World(secrets: map<SecretKey, Secret>,
                         ingresses: map<IngressKey, Ingress>,
                         calls: seq<Call>)
  {
    function Record(c: Call): World {
      this.(calls := calls + [c])
    }

    /** A Get succeeds only for a stored secret, and then only if the server does not fail it. */
    function GetSecret(o: Oracle, key: SecretKey): (Option<Secret>, World) {
      var c := GetSecretCall(key);
      (if key in secrets && !o.fails(|calls|, c) then Some(secrets[key]) else None, Record(c))
    }

    function Store(o: Oracle, c: Call, key: SecretKey, sec: Secret): (bool, World) {
      var ok := !o.fails(|calls|, c);
      (ok, Record(c).(secrets := if ok then secrets[key := sec] else secrets))
    }

    function CreateSecret(o: Oracle, key: SecretKey, sec: Secret): (bool, World) {
      Store(o, CreateSecretCall(key, sec), key, sec)
    }

    function UpdateSecret(o: Oracle, key: SecretKey, sec: Secret): (bool, World) {
      Store(o, UpdateSecretCall(key, sec), key, sec)
    }

    function GetIngress(o: Oracle, key: IngressKey): (Option<Ingress>, World) {
      var c := GetIngressCall(key);
      (if key in ingresses && !o.fails(|calls|, c) then Some(ingresses[key]) else None, Record(c))
    }

    /** A successful update stores the ingress and answers with the stored copy. */
    function UpdateIngress(o: Oracle, ing: Ingress): (Option<Ingress>, World) {
      var c := UpdateIngressCall(ing);
      if o.fails(|calls|, c) then (None, Record(c))
      else (Some(ing), Record(c).(ingresses := ingresses[KeyOf(ing) := ing]))
    }

    function Issue(o: Oracle, q: CertRequest): (Option<KeyPair>, World) {
      (o.issue(|calls|, q), Record(IssueCall(q)))
    }
  }

  /** The collaborators' state as a pass changes it, one call at a time. */
  class Backend {
    const oracle: Oracle
    var secrets: map<SecretKey, Secret>
    var ingresses: map<IngressKey, Ingress>
    var calls: seq<Call>

    function State(): World
      reads this
    {
      World(secrets, ingresses, calls)
    }

    constructor (oracle: Oracle, w: World)
      ensures this.oracle == oracle && State() == w
    {
      this.oracle := oracle;
      secrets, ingresses, calls := w.secrets, w.ingresses, w.calls;
    }

    method GetSecret(key: SecretKey) returns (r: Option<Secret>)
      modifies this
      ensures (r, State()) == old(State()).GetSecret(oracle, key)
    {
      var c := GetSecretCall(key);
      r := if key in secrets && !oracle.fails(|calls|, c) then Some(secrets[key]) else None;
      calls := calls + [c];
    }

    method CreateSecret(key: SecretKey, sec: Secret) returns (ok: bool)
      modifies this
      ensures (ok, State()) == old(State()).CreateSecret(oracle, key, sec)
    {
      var c := CreateSecretCall(key, sec);
      ok := !oracle.fails(|calls|, c);
      if ok {
        secrets := secrets[key := sec];
      }
      calls := calls + [c];
    }

    method UpdateSecret(key: SecretKey, sec: Secret) returns (ok: bool)
      modifies this
      ensures (ok, State()) == old(State()).UpdateSecret(oracle, key, sec)
    {
      var c := UpdateSecretCall(key, sec);
      ok := !oracle.fails(|calls|, c);
      if ok {
        secrets := secrets[key := sec];
      }
      calls := calls + [c];
    }

    method GetIngress(key: IngressKey) returns (r: Option<Ingress>)
      modifies this
      ensures (r, State()) == old(State()).GetIngress(oracle, key)
    {
      var c := GetIngressCall(key);
      r := if key in ingresses && !oracle.fails(|calls|, c) then Some(ingresses[key]) else None;
      calls := calls + [c];
    }

    method UpdateIngress(ing: Ingress) returns (r: Option<Ingress>)
      modifies this
      ensures (r, State()) == old(State()).UpdateIngress(oracle, ing)
    {
      var c := UpdateIngressCall(ing);
      if oracle.fails(|calls|, c) {
        r := None;
      } else {
        ingresses := ingresses[KeyOf(ing) := ing];
        r := Some(ing);
      }
      calls := calls + [c];
    }

    method Issue(q: CertRequest) returns (r: Option<KeyPair>)
      modifies this
      ensures (r, State()) == old(State()).Issue(oracle, q)
    {
      r := oracle.issue(|calls|, q);
      calls := calls + [IssueCall(q)];
    }
  }
}
