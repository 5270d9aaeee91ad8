# TLS secrets for Kubernetes ingresses, modelled in Dafny

The controller gives certificates to the hosts of a Kubernetes ingress. For
each TLS entry of the ingress, it gets a key pair from a certificate
authority and stores it in a secret under the data keys `tls.key` and
`tls.crt`. The repository contains two versions of this reconciliation pass,
and each is modelled in its own module:

- `Secrets` (secrets.go) is the annotation-gated pass. It runs when the
  ingress has TLS entries and carries the `kubernetes.io/tls-vault`
  annotation, or when TLS is forced.
  - It adds a single-host entry `h.tls` for every rule host that no entry
    covers, but only when the rule and entry counts are equal, and saves the
    ingress.
  - It then visits every entry:
    - a secret whose certificate parses and has not expired is left alone;
    - any other gets a fresh pair.
  - The first failure of the authority or of a secret write ends the pass.
- `AddTLSSecret` (addTLSSecret.go) is the older pass.
  - In force mode it appends an entry for every rule whose host no original
    entry claims.
  - It reissues every entry with hosts. A failure skips only that entry.
  - It re-reads the ingress. When the number of entries that succeeded
    differs from the ingress's number of TLS entries, it replaces the TLS
    list with the successful ones.

Shared definitions:

- `Kube` holds the resources: rules, TLS entries, ingresses, secrets and key
  pairs. It also holds the hosts a TLS list covers and the derived secret
  names.
- `Cluster` holds the collaborators.
  - The cluster API and the certificate authority are a `World` value: the
    stored secrets and ingresses, plus a log of every call made.
  - An `Oracle` decides each call's outcome from the call and its position in
    the log.
  - The class `Backend` is that world as the pass changes it: every API call
    is a method with `modifies this`.

Each pass is an imperative method on a `Backend`, proved equal to a pure
function of the old world: `Secrets.Pass` and `AddTLSSecret.Pass`. The
properties are lemmas about those functions.

Behaviour of the two files worth knowing, each proved about the model:

- **Gate result.** An ineligible ingress is reported as an error value
  (`NoIngressToUpdate`) by both passes, not as a silent no-op.
- **Failure isolation.** Only addTLSSecret.go confines a failure to its entry.
  In secrets.go the first authority or write failure ends the pass with an
  error (`Secrets.ReconcileErrors`, `Secrets.ReconcileAppend`).
- **Forcing TLS on an ingress with rules and no entries.** In secrets.go this
  adds nothing, because the rule and entry counts differ
  (`Secrets.ForcedPassLeavesBareIngress`). In addTLSSecret.go it adds an entry
  for each rule (`AddTLSSecret.ForcedBareIngressGetsEntries`).
- **Convergence by count.** addTLSSecret.go compares the number of successes
  with the number of TLS entries. Without force mode that is enough: the
  ingress ends up listing exactly the entries that succeeded
  (`AddTLSSecret.FailedEntriesArePrunedWithoutForce`). With force mode, one
  failed original entry and one appended success give equal counts. The
  ingress then keeps the failed entry and never lists the new one
  (`AddTLSSecret.CountConvergenceCanKeepFailedEntry`).
- **Idempotence.** Run secrets.go again on the ingress a pass returned, with
  every secret it names readable and valid. The second pass returns the same
  ingress, makes no ingress update, changes no secret and only reads secrets
  (`Secrets.SecondPassChangesNothing`). addTLSSecret.go has no expiry gate and
  requests new certificates on every pass (`AddTLSSecret.IssueOneWrites`).

## Model

| member | source | states |
|---|---|---|
| Secrets.MissingHosts | secrets.go:165-189 | If the rule and entry counts differ the result is empty. Otherwise it lists every rule host that no entry claims, each exactly once, and nothing else; repeated rule hosts collapse. |
| Secrets.HostSet | secrets.go:172-175 | The set built holds exactly the rule hosts. |
| Secrets.DeleteCovered | secrets.go:177-182 | Exactly the hosts that some entry claims are removed from the set. |
| Secrets.Drain | secrets.go:184-187 | Every host of the set is listed exactly once, in an order the method chooses. |
| Secrets.MissingListsArePermutations | secrets.go:184-187 | Any two possible results of the host enumeration are permutations of each other: only the order depends on map iteration. |
| Secrets.ModifySpec | secrets.go:143-163 | Reports a change exactly when a host was missing, and turns a nil list into an empty one. The original entries stay as a prefix, in order. Exactly one entry `{[h], h + ".tls"}` is appended per missing host, in enumeration order. The rules are unchanged. |
| Secrets.AugmentationCovers | secrets.go:149-160 | When the rule and entry counts agree, every rule host is covered by some entry after augmentation. |
| Secrets.AugmentationIsStable | secrets.go:145-169 | Augmenting an augmented spec adds nothing. |
| Secrets.AddNeededHosts | secrets.go:127-141 | The update call is made only when the spec changed. A failed update returns the ingress-update error. Otherwise the pass goes on with the server's copy, or with the local spec when nothing changed. |
| Secrets.TargetNamespace | secrets.go:50-53 | Secrets go to the controller's namespace, or to the ingress's own when the controller's is blank once trimmed. A non-blank ingress namespace therefore never yields a blank target. |
| Secrets.BlankIffTrimsToEmpty | secrets.go:51 | `strings.TrimSpace` leaves nothing exactly when every character is Unicode white space. |
| Secrets.RequestFor | secrets.go:85-99 | The Vault client gets a signing request with all the entry's hosts as DNS names and the first as common name. Any other certifier gets a single-host request for the first host. |
| Kube.Fetched | secrets.go:61-73 | A returned secret is used as is. After a failed Get, the pass uses a new secret with the wanted namespace and name and no data. |
| Secrets.MissingSecretIsReissued | secrets.go:61-81 | The secret built after a failed Get never passes the expiry gate, so its entry is always issued. |
| Secrets.SecondPassChangesNothing | secrets.go:22-125 | A second pass on the ingress a pass returned, with every named secret readable and valid, returns the same ingress. It makes no ingress update, changes no secret or ingress, and calls only secret reads. |
| Secrets.SyncSecret | secrets.go:42-122 | One loop iteration equals `SyncEntry`: the entry is skipped, or the error that ends the pass is returned. |
| Secrets.SyncSecrets | secrets.go:42-122 | The loop's outcome equals `Reconcile`: it stops at the first failing entry with that entry's error, or goes through every entry. |
| Secrets.AddTLSSecrets | secrets.go:22-125 | The result and the new store are those of `Secrets.Pass` under an enumeration of the missing hosts that meets `MissingHosts`' contract. |
| Secrets.EligibilityGate | secrets.go:23-30 | The pass answers "no ingress to update" exactly when the ingress is ineligible: no TLS entry or an empty annotation, and no force. In that case no call is made. The gate reads the list before augmentation. |
| Secrets.PersistFailureTouchesNoSecret | secrets.go:37-40 | When saving the augmented spec fails, the pass returns that error after the one update call, before any secret call. |
| Secrets.VisitsAugmentedEntries | secrets.go:37-42 | After a saved augmentation, the pass visits the original entries followed by the appended ones, in the server's copy, and returns that copy. |
| Secrets.SkipIffStillValid | secrets.go:61-81 | An entry with hosts has only its secret read, with no certificate request and no write, exactly when the fetched or newly built secret has a `tls.crt` that parses with a NotAfter after now. |
| Secrets.ReissueWritesNewPair | secrets.go:83-121 | A reissued entry requests a certificate for its hosts, with the first host as primary. A refusal aborts with the certificate error. Otherwise the new pair goes into `tls.key`/`tls.crt` with the other data kept. The secret is created exactly when the read failed, else updated. The entry succeeds exactly when that write does. |
| Secrets.ReconcileAppend | secrets.go:42-122 | Visiting a list visits its prefix first. An abort there ends the pass and no further entry is visited. |
| Secrets.ReconcileErrors | secrets.go:101-121 | A pass that aborts does so with the certificate or write error of one of its entries that has hosts. |
| Secrets.ReconcileFrame | secrets.go:42-122 | No secret other than the visited entries' is created or changed, and no ingress. |
| Secrets.ValidSecretsAreLeftAlone | secrets.go:75-81 | Suppose every visited secret is readable and valid. Then the pass completes, changes no secret or ingress, and makes only secret reads. |
| Secrets.ForcedPassLeavesBareIngress | secrets.go:165-169 | Forcing TLS on an ingress with rules and no entries adds none and makes no call. |
| Kube.SecretNameInjective | secrets.go:156-159 | Distinct hosts never get the same derived secret name. |
| Kube.EntriesForCover | secrets.go:155-160 | The entries derived from a host list cover exactly those hosts. |
| Kube.EntriesForDistinctSecrets | secrets.go:155-160 | Derived entries for distinct hosts have pairwise distinct secret names. |
| Kube.CoveredHostsMeaning | secrets.go:178-182 | A host counts as covered exactly when some entry lists it. |
| Kube.WithKeyPair | secrets.go:107-108 | The secret keeps its identity, `tls.key` holds the private key and `tls.crt` the certificate, and every other data key keeps its value. |
| AddTLSSecret.ClaimedHosts | addTLSSecret.go:23-29 | The keys collected into exTLS are exactly the hosts that the original entries name. |
| AddTLSSecret.AppendUncovered | addTLSSecret.go:31-44 | The list becomes the original entries followed by one `{[r.Host], r.Host + ".tls"}` per rule whose host is not in exTLS, in rule order. |
| AddTLSSecret.WorkingListShape | addTLSSecret.go:21-44 | Without force the working list is the ingress's TLS list. With force it starts with that list and covers every rule host. |
| AddTLSSecret.ForcedEntriesAreUncoveredRules | addTLSSecret.go:33-43 | Every appended entry is the derived single-host entry of some rule host that no original entry claims. |
| AddTLSSecret.ForcedKeepsRepeats | addTLSSecret.go:33-43 | An unclaimed host gets one appended entry per rule naming it, because exTLS is not updated while appending. |
| AddTLSSecret.IssueSecret | addTLSSecret.go:49-97 | One loop iteration equals `IssueOne`: the entry's success and the new store. |
| AddTLSSecret.IssueEntries | addTLSSecret.go:46-98 | The loop's final store and success list are those of `IssueAll`, the fold that starts from an empty success list. |
| AddTLSSecret.AddTLSSecrets | addTLSSecret.go:12-115 | The result and the new store are those of `AddTLSSecret.Pass`. |
| AddTLSSecret.ForceGate | addTLSSecret.go:13-15 | The pass answers "no ingresses to update" exactly when the TLS list is empty and TLS is not forced. In that case no call is made. |
| AddTLSSecret.IssueOneWrites | addTLSSecret.go:50-95 | An entry without hosts makes no call and fails. Any other is reissued regardless of its secret's content: the secret is read and a certificate is requested for the first host. With an answer, the pair is written with other data kept, created exactly when the read failed. The entry succeeds exactly when the write does, and no ingress changes. |
| AddTLSSecret.IssueAllAppend | addTLSSecret.go:49-98 | Issuing for a + b is issuing for a, then for b from the resulting store. The successes are a's followed by b's. |
| AddTLSSecret.FailureSkipsOnlyThatEntry | addTLSSecret.go:72-95 | When one entry fails, the loop continues. The successes are those before it followed by those after it. |
| AddTLSSecret.SuccessIsSubsequence | addTLSSecret.go:49-97 | The success list is an order-preserving subsequence of the working list, and each of its entries has hosts. |
| AddTLSSecret.SubsequenceLength | addTLSSecret.go:106-107 | A success list is never longer than the list it comes from. One of equal length is that list. |
| AddTLSSecret.IssueAllFrame | addTLSSecret.go:57-90 | No secret other than those of entries with hosts is created or changed, and no ingress. |
| AddTLSSecret.IssueAllKeepsIngresses | addTLSSecret.go:49-98 | Issuance writes no ingress. |
| AddTLSSecret.IssueAllWhenNothingFails | addTLSSecret.go:49-98 | When no call fails and the authority always answers, every entry with hosts succeeds and gets its secret stored. |
| AddTLSSecret.ConvergeOutcome | addTLSSecret.go:100-114 | A failed re-read returns an error. Equal counts return the latest ingress unchanged, with no write. Otherwise the TLS list of the latest copy is replaced by the successes and saved; a failed save returns an error. No secret changes. |
| AddTLSSecret.FailedEntriesArePrunedWithoutForce | addTLSSecret.go:100-112 | Without force, with the ingress stored as given and ingress calls succeeding, the final ingress lists exactly the entries that succeeded. |
| AddTLSSecret.CountConvergenceCanKeepFailedEntry | addTLSSecret.go:106-108 | Take rules b.com and a.com, one original entry for b.com, force on, an authority that refuses b.com and answers a.com, and no failing call. The only success is the appended a.com entry. The counts are then equal, so the pass returns the ingress unchanged, still listing b.com and not a.com. |
| AddTLSSecret.ForcedBareIngressGetsEntries | addTLSSecret.go:31-112 | Forcing TLS on an ingress with rules a.com and b.com and no entries, with no call failing and an authority that always answers, stores both secrets. The ingress ends with the two derived entries in rule order. |
| AddTLSSecret.ForcedBareIngressWrites | addTLSSecret.go:56-90 | In the same forced pass, each secret is read and then written, a.com's first. Each write is a create exactly when the secret was not stored before the pass, and an update otherwise. |
| AddTLSSecret.IssueOneCreatesIffAbsent | addTLSSecret.go:56-90 | With nothing failing, an entry with hosts makes a read, a request and a write of its secret. The write is a create exactly when the secret was not stored, and the stored keys grow by that secret's key alone. |
| AddTLSSecret.IssueTwoCreatesIffAbsent | addTLSSecret.go:49-98 | For two entries with distinct secrets and nothing failing, the loop makes six calls. Each entry's write is a create exactly when its secret was absent before the loop. |

## Left out

- Logging: every log and print call is output only and has no model.
- The Kubernetes client and the `vpki` certificate authority client: they are foreign code. Their outcomes come from an oracle of the call and its position in the call log.
  - Any failed secret read leads to a create. "Not found" is not told apart from other errors, as in the code.
- The client-type switch: it has two cases. The Vault client gets a signing request with all hosts and the first as common name; any other certifier gets a single-host request. The CSR encoding itself is not modelled.
- `x509.ParseCertificate` (the X.509 format of RFC 5280): an uninterpreted function from the certificate bytes to an optional NotAfter instant.
- `time.Now()`: an integer parameter, one instant for the whole pass. The Go code reads the clock once per entry, so a certificate that expires while the pass runs is not modelled. The process-wide `forceTLS` flag: a parameter.
- A successful ingress update: the model answers with the object sent. Defaulting or versioning done by the server is not modelled.
- Secrets.AddTLSSecrets: the model never shows changes to the caller's ingress object. In Go the pass writes through the pointer it was given in three cases. A failed save of the augmented spec leaves that spec there. When nothing is missing, a nil TLS list becomes an empty one. A successful save overwrites it with the server's copy, even when the entry loop then fails. The model returns the error alone, or the new ingress.
- Secrets.AddTLSSecrets: the order in which the missing hosts are appended is not produced by the method. It is a ghost output, constrained only by `IsMissingList`.
- Secret write errors: the model names the entry's secret. The Go message names whatever object the failed call returned.
- A fetched secret whose data map is nil: Go would panic when writing to it. The model treats it as an empty map.
- The aliasing between `ts` and the ingress's TLS slice in addTLSSecret.go is not modelled. Neither are the entry pointers stored as exTLS values: only exTLS's key set matters.
- Concurrency: passes are sequential, so there is none to model.
