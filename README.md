# assign-lb-ip, modelled in Dafny

`assign-lb-ip` gives a Kubernetes Service of type `LoadBalancer` an external address, for
clusters that have no cloud load-balancer controller. It writes the Service's
`status.loadBalancer.ingress` itself. It takes addresses from the `-ip` flag, a comma-separated
list. When that flag is empty it falls back to the Service's own `spec.loadBalancerIP`. It
refuses Services of any other type and stops at the first bad address.

This project models that procedure and proves what one run does to the API server.

- `text.dfy`, module `Text`: `strings.Split` and `strings.Join` on one separator. Proves both
  round trips, the piece count, that no piece holds the separator, and exactly when an empty
  piece appears.
- `kube.dfy`, module `Kube`: the part of the core/v1 Service object the tool touches.
- `store.dfy`, module `Store`: the API server as the class `Cluster`. It holds the Services,
  counts the `Get` and `UpdateStatus` calls, and records every call with the reply it got. A call on a missing Service always fails with
  `NotFound`. An `UpdateStatus` whose `resourceVersion` is not the stored one always fails with
  `Conflict`. Any other call either succeeds or fails with `Unavailable`, as the environment
  chooses. A successful status write keeps the stored spec, takes the submitted status and
  advances `resourceVersion`.
- `assign.dfy`, module `Assign`: the address check in `main` (`Run`) and `assignLbIP`
  (`AssignLbIP`), as methods on a `Cluster`. They use the validation loop `CheckAddresses`, the
  address step `ResolveAddresses` and the fill loop `BuildIngress`. Every `log.Fatal` becomes
  an `Outcome` value. The methods are proved against the pure functions `ParseFlag`, `Resolve`, `Prepare` and against the effect
  predicates `RunEffect` and `AssignEffect`.
- `properties.dfy`, module `Properties`: the guarantees of a run, stated over those predicates.

`net.ParseIP` is not modelled. Every operation that checks an address takes it as a parameter
`isIP: string -> bool`, where `isIP(s)` stands for `net.ParseIP(s) != nil`. The lemmas hold for
every such parser. A lemma that needs a fact about the parser states it as a precondition:
- `EmptyPieceTouchesNothing` assumes `!isIP("")`.
- `FallbackPairExample` assumes that `"10.0.0.1"` and `"10.0.0.2"` parse.
- `BadFlagTouchesNothing` and `BadFallbackNoWrite` assume that some piece does not parse.
- `ValidFlagPublishes` and `ValidFallbackPublishes` assume that every piece parses.

## Model

| member | source | states |
|---|---|---|
| `Text.Split` | cmd/assign-lb-ip/main.go:38 | splitting always yields at least one piece |
| `Text.SplitLength` | cmd/assign-lb-ip/main.go:38 | there is exactly one more piece than there are commas |
| `Text.SplitPiecesHaveNoSeparator` | cmd/assign-lb-ip/main.go:38 | no piece contains the separator |
| `Text.JoinSplit` | cmd/assign-lb-ip/main.go:38 | joining the pieces with the separator gives back the original string |
| `Text.SplitJoin` | cmd/assign-lb-ip/main.go:38 | a non-empty list of separator-free pieces, joined and split again, is the same list |
| `Text.EmptyPieceOnlyFromSeparators` | cmd/assign-lb-ip/main.go:38 | an empty piece comes only from an empty string, a leading or trailing separator, or two adjacent ones |
| `Text.SeparatorsGiveEmptyPiece` | cmd/assign-lb-ip/main.go:38 | each of those shapes does yield an empty piece |
| `Text.EmptyPieceIff` | cmd/assign-lb-ip/main.go:38 | there is an empty piece if and only if `HasEmptyPiece` holds |
| `Store.StatusWritten` | cmd/assign-lb-ip/main.go:102 | after a status write the stored spec and identity are kept, the status is the submitted one, and the resourceVersion grows |
| `Store.Cluster.Get` | cmd/assign-lb-ip/main.go:71 | the store invariant is kept; one read is counted and recorded with its reply; a missing Service gives NotFound; otherwise the stored Service or Unavailable |
| `Store.Cluster.UpdateStatus` | cmd/assign-lb-ip/main.go:102 | one write is counted and recorded with the submitted object and its reply; NotFound for a missing Service; Conflict for a stale resourceVersion; otherwise Unavailable with nothing changed, or the status written under the same key |
| `Assign.FirstInvalid` | cmd/assign-lb-ip/main.go:39-43 | every piece before the returned position parses, and the piece at it (if any) does not; the same position the fallback loop at main.go:88-92 stops at |
| `Assign.CheckAddresses` | cmd/assign-lb-ip/main.go:88-92 | the validation loop stops exactly at the first rejected piece: every piece before the stop parses, the piece it stops at (if any) does not, and the stop is `FirstInvalid`; the flag loop at main.go:39-43 is the same loop |
| `Assign.ParseAddressList` | cmd/assign-lb-ip/main.go:87-92 | succeeds, with the comma pieces, if and only if every piece parses; otherwise fails with InvalidAddress naming the first rejected piece |
| `Assign.ParseFlag` | cmd/assign-lb-ip/main.go:36-44 | an empty flag gives no addresses and no check; a non-empty flag is accepted if and only if every comma piece parses, and then gives exactly those pieces: comma-free, one more than its commas, rejoining to the flag; otherwise InvalidAddress naming the first rejected piece of the flag |
| `Assign.Resolve` | cmd/assign-lb-ip/main.go:81-93 | non-empty explicit addresses are used verbatim; otherwise NoAddress if and only if `loadBalancerIP` is empty; a non-empty `loadBalancerIP` succeeds if and only if every comma piece parses, then gives exactly those pieces, and otherwise fails with InvalidAddress naming the first rejected one; a success is never empty |
| `Assign.ResolveAddresses` | cmd/assign-lb-ip/main.go:81-93 | the address step of `assignLbIP`, with its fallback split and validation loop, computes exactly `Resolve` |
| `Assign.IngressFor` | cmd/assign-lb-ip/main.go:95-97 | one ingress record per address |
| `Assign.IngressForAt` | cmd/assign-lb-ip/main.go:98-100 | record `i` holds address `i` and an empty hostname |
| `Assign.BuildIngress` | cmd/assign-lb-ip/main.go:95-100 | the index-by-index fill yields exactly `IngressFor(ips)`: `len(ips)` records, record `i` is `{IP: ips[i]}` |
| `Assign.Prepare` | cmd/assign-lb-ip/main.go:76-100 | a non-LoadBalancer Service gives WrongType; a LoadBalancer Service succeeds if and only if its addresses resolve, and otherwise fails with the resolution error; on success the submitted object has the fetched identity, spec and conditions, and its ingress is one record per resolved address |
| `Assign.AssignLbIP` | cmd/assign-lb-ip/main.go:64-106 | the store invariant is kept and the run has the effect `AssignEffect` describes: one Get; a refused Get reported with its reason; `Prepare`'s decision on the fetched Service; when it succeeds one UpdateStatus of exactly `Prepare`'s object, whose reply is reported as Ok or UpdateFailed with its reason |
| `Assign.Run` | cmd/assign-lb-ip/main.go:36-46 | the store invariant is kept and the run has the effect `RunEffect` describes: a rejected flag ends the run with no call at all, otherwise `AssignEffect` on the parsed list |
| `Properties.IngressRoundTrip` | cmd/assign-lb-ip/main.go:98-100 | reading the addresses back from the built ingress list gives the input list, so nothing is reordered, deduplicated or rewritten |
| `Properties.BadFlagTouchesNothing` | cmd/assign-lb-ip/main.go:39-43 | a flag with a rejected piece ends with InvalidAddress naming the first such piece, and the server is not called |
| `Properties.EmptyPieceTouchesNothing` | cmd/assign-lb-ip/main.go:38-43 | if the empty string is not an IP, a flag with a leading, trailing or doubled comma ends with InvalidAddress, and the server is not called |
| `Properties.CallDiscipline` | cmd/assign-lb-ip/main.go:71-105 | one Get exactly when the flag is accepted; at most one UpdateStatus, and only after every check passed; stored Services change only on Ok; a failed Get writes nothing |
| `Properties.WrongTypeNeverWritten` | cmd/assign-lb-ip/main.go:76-79 | a Service not of type LoadBalancer is never written and the run never ends Ok |
| `Properties.ExplicitAddressesWin` | cmd/assign-lb-ip/main.go:81-83 | explicit addresses are published as given; changing `loadBalancerIP` changes nothing |
| `Properties.NoAddressNoWrite` | cmd/assign-lb-ip/main.go:83-86 | with no explicit addresses and an empty `loadBalancerIP` the run ends with NoAddress (or a failed Get) and nothing is written |
| `Properties.BadFallbackNoWrite` | cmd/assign-lb-ip/main.go:87-92 | a non-empty `loadBalancerIP` with a rejected piece ends with InvalidAddress naming the first such piece (or a failed Get) and nothing is written |
| `Properties.OutcomeReportsReplies` | cmd/assign-lb-ip/main.go:71-105 | GetFailed exactly when the Get was refused, with its reason; UpdateFailed only when the UpdateStatus was refused, with its reason; Ok only when the UpdateStatus was done; any other outcome comes after a Get that returned the stored Service |
| `Properties.ValidFlagPublishes` | cmd/assign-lb-ip/main.go:36-105 | a non-empty flag whose pieces all parse, on a LoadBalancer Service: GetFailed(Unavailable) exactly when the Get is refused; otherwise one UpdateStatus of the fetched object at its current resourceVersion with one ingress record per flag piece, in order, and Ok exactly when that write is done; on Ok that ingress is stored |
| `Properties.ValidFallbackPublishes` | cmd/assign-lb-ip/main.go:83-105 | the same for an empty flag and a LoadBalancer Service whose non-empty `loadBalancerIP` parses piece by piece, with one ingress record per piece of `loadBalancerIP` |
| `Properties.SuccessPublishesAddresses` | cmd/assign-lb-ip/main.go:95-105 | after Ok the stored ingress is exactly one `{IP: a}` record per resolved address, in order; spec, identity and conditions are unchanged |
| `Properties.FallbackPairExample` | cmd/assign-lb-ip/main.go:87-100 | fallback `"10.0.0.1,10.0.0.2"` gives the two records in that order |
| `Properties.PrepareIsStable` | cmd/assign-lb-ip/main.go:95-102 | preparing again from the Service stored after a successful write gives the same status |
| `Properties.RerunIsStable` | cmd/assign-lb-ip/main.go:64-106 | a second run with the same flag after an Ok run ends Ok with the same status and spec, or fails only on availability; it never meets a version conflict |

## Left out

- Flag parsing, the `-version` mode, the check that `-svc` is given, and `os.Exit` codes
  (main.go:21-34, :48): command-line plumbing outside the decision procedure.
- `getClientset` and its failure "Failed to create k8s client" (main.go:51-62, :65-68):
  configuration discovery and I/O. The model starts from a client that already exists.
- The Kubernetes client library: it is the `Store.Cluster` class, with failures chosen by the
  environment. Transport errors are not told apart beyond `NotFound`, `Conflict` and
  `Unavailable`.
- `net.ParseIP`: the parameter `isIP`, as described above. The model does not say which
  strings are IPv4 or IPv6 literals.
- `log.Fatal` printing and process termination: they become `Outcome` values. The diagnostic
  text is not modelled; the offending address is kept in `InvalidAddress`.
- Concurrent writers between the `Get` and the `UpdateStatus` of one run: a run is atomic
  against the store here. A stale object would give `Conflict`, as `UpdateStatus` states.
- Aliasing of the fetched `*Service`: Go changes the fetched object in place. The model updates
  a datatype value held in a local variable. Nothing else holds that object, so nothing can
  observe the difference.
- Byte strings: Go strings are byte sequences and may hold invalid UTF-8, while a Dafny
  `string` is a sequence of characters, so such a flag cannot be written down here. Splitting on
  the ASCII `,` gives the same pieces either way.
- The commented-out type definitions (main.go:108-139): they are documentation of the
  `Kube` datatypes.
