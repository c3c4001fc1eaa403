/** What a run of the tool guarantees, stated over `RunEffect` and `AssignEffect` and proved
    from the definitions in module Assign. */
module Properties {
  import opened Text
  import opened Kube
  import opened Store
  import opened Assign

  /** Reading a published ingress list back gives the addresses it was built from: nothing is
      reordered, dropped, duplicated or rewritten. */
  lemma {:induction false} IngressRoundTrip(ips: seq<string>)
    ensures IngressIPs(IngressFor(ips)) == ips
  {
    if ips != [] {
      IngressRoundTrip(ips[1..]);
      assert IngressFor(ips)[1..] == IngressFor(ips[1..]);
    }
  }

  /** A flag with a piece the parser rejects ends the run with InvalidAddress naming the first
      such piece, before the server is contacted at all. */
  lemma BadFlagTouchesNothing(s0: Snapshot, s1: Snapshot, key: Key, flag: string,
                              isIP: string -> bool, r: Outcome)
    requires flag != ""
    requires exists k :: 0 <= k < |Split(flag, ',')| && !isIP(Split(flag, ',')[k])
    requires RunEffect(s0, s1, key, flag, isIP, r)
    ensures r.InvalidAddress? && r.ip in Split(flag, ',') && !isIP(r.ip)
    ensures var pieces := Split(flag, ',');
            FirstInvalid(pieces, isIP) < |pieces| && r.ip == pieces[FirstInvalid(pieces, isIP)]
    ensures s1 == s0
  {
  }

  /** In particular an empty piece, from a leading, trailing or doubled comma, is refused, since
      the empty string is not an IP address. */
  lemma EmptyPieceTouchesNothing(s0: Snapshot, s1: Snapshot, key: Key, flag: string,
                                 isIP: string -> bool, r: Outcome)
    requires !isIP("")
    requires flag != "" && HasEmptyPiece(flag, ',')
    requires RunEffect(s0, s1, key, flag, isIP, r)
    ensures r.InvalidAddress? && s1 == s0
  {
    SeparatorsGiveEmptyPiece(flag, ',');
    var pieces := Split(flag, ',');
    var k :| 0 <= k < |pieces| && pieces[k] == [];
    assert !isIP(pieces[k]);
  }

  /** One `Get` per run that gets past the flag check, none otherwise; at most one
      `UpdateStatus`, and only once every check has passed; the stored Services change only on
      success; a failed `Get` ends the run with nothing written. */
  lemma CallDiscipline(s0: Snapshot, s1: Snapshot, key: Key, flag: string,
                      isIP: string -> bool, r: Outcome)
    requires RunEffect(s0, s1, key, flag, isIP, r)
    ensures s1.gets == s0.gets + (if ParseFlag(flag, isIP).Success? then 1 else 0)
    ensures s1.updates <= s0.updates + 1
    ensures s1.updates == s0.updates + 1 ==>
              key in s0.services && ParseFlag(flag, isIP).Success? &&
              Prepare(s0.services[key], ParseFlag(flag, isIP).value, isIP).Success?
    ensures r != Ok ==> s1.services == s0.services
    ensures r.GetFailed? ==> s1.updates == s0.updates
  {
    match ParseFlag(flag, isIP)
    case Failure(e) =>
    case Success(ips) =>
      if key in s0.services && r != GetFailed(Unavailable) {
        match Prepare(s0.services[key], ips, isIP)
        case Failure(e) =>
        case Success(submitted) =>
      }
  }

  /** A Service that is not of type LoadBalancer is never written, whatever the flag says. */
  lemma WrongTypeNeverWritten(s0: Snapshot, s1: Snapshot, key: Key, flag: string,
                              isIP: string -> bool, r: Outcome)
    requires key in s0.services && s0.services[key].spec.serviceType != LoadBalancer
    requires RunEffect(s0, s1, key, flag, isIP, r)
    ensures r != Ok
    ensures r == WrongType || r.InvalidAddress? || r == GetFailed(Unavailable)
    ensures s1.services == s0.services && s1.updates == s0.updates
  {
  }

  /** Explicit addresses win: they are published as given and `loadBalancerIP` is neither used
      nor checked, so replacing it by any other string gives the same object to submit. */
  lemma ExplicitAddressesWin(svc: Service, explicit: seq<string>, other: string,
                             isIP: string -> bool)
    requires |explicit| > 0 && svc.spec.serviceType == LoadBalancer
    ensures Prepare(svc, explicit, isIP).Success?
    ensures Prepare(svc, explicit, isIP).value.status.loadBalancer.ingress == IngressFor(explicit)
    ensures var altered := svc.(spec := svc.spec.(loadBalancerIP := other));
            Prepare(altered, explicit, isIP).Success? &&
            Prepare(altered, explicit, isIP).value.status == Prepare(svc, explicit, isIP).value.status
  {
  }

  /** Without explicit addresses and without `loadBalancerIP` the run fails with NoAddress (or
      earlier, on the `Get`), and nothing is written. */
  lemma NoAddressNoWrite(s0: Snapshot, s1: Snapshot, key: Key, isIP: string -> bool, r: Outcome)
    requires key in s0.services
    requires s0.services[key].spec.serviceType == LoadBalancer
    requires s0.services[key].spec.loadBalancerIP == ""
    requires RunEffect(s0, s1, key, "", isIP, r)
    ensures r == NoAddress || r == GetFailed(Unavailable)
    ensures s1.services == s0.services && s1.updates == s0.updates
  {
  }

  /** Without explicit addresses a non-empty `loadBalancerIP` with a piece the parser rejects
      ends the run with InvalidAddress naming the first such piece (or earlier, on the `Get`),
      and nothing is written. */
  lemma BadFallbackNoWrite(s0: Snapshot, s1: Snapshot, key: Key, isIP: string -> bool,
                           r: Outcome)
    requires key in s0.services
    requires s0.services[key].spec.serviceType == LoadBalancer
    requires var lb := s0.services[key].spec.loadBalancerIP;
             lb != "" && exists k :: 0 <= k < |Split(lb, ',')| && !isIP(Split(lb, ',')[k])
    requires RunEffect(s0, s1, key, "", isIP, r)
    ensures var pieces := Split(s0.services[key].spec.loadBalancerIP, ',');
            r == GetFailed(Unavailable) ||
            (r.InvalidAddress? && r.ip in pieces && !isIP(r.ip) &&
             r.ip == pieces[FirstInvalid(pieces, isIP)])
    ensures s1.services == s0.services && s1.updates == s0.updates
  {
  }

  /** The outcome reports what the server answered: `GetFailed` carries the reason the `Get`
      was refused, `UpdateFailed` the reason the `UpdateStatus` was refused, and `Ok` means the
      `UpdateStatus` was done. Any other outcome is one of the tool's own checks, made on the
      Service the `Get` returned, and nothing is written after it. */
  lemma OutcomeReportsReplies(s0: Snapshot, s1: Snapshot, key: Key, ips: seq<string>,
                              isIP: string -> bool, r: Outcome)
    requires AssignEffect(s0, s1, key, ips, isIP, r)
    ensures |s1.log| > |s0.log| && s1.log[|s0.log|] == GetCall(key, s1.log[|s0.log|].reply)
    ensures r.GetFailed? <==> s1.log[|s0.log|].reply.Refused?
    ensures r.GetFailed? ==> s1.log[|s0.log|].reply == Refused(r.reason)
    ensures !r.GetFailed? ==> key in s0.services && s1.log[|s0.log|].reply == Done(s0.services[key])
    ensures (r == Ok || r.UpdateFailed?) <==> |s1.log| == |s0.log| + 2
    ensures r.UpdateFailed? ==>
              |s1.log| == |s0.log| + 2 && s1.log[|s0.log| + 1].reply == Refused(r.reason)
    ensures r == Ok ==> |s1.log| == |s0.log| + 2 && s1.log[|s0.log| + 1].reply.Done?
  {
  }

  /** A non-empty flag whose every piece parses, on a Service of type LoadBalancer, is written:
      when the `Get` is answered, the one `UpdateStatus` submits the fetched object, at its
      current resourceVersion, with one ingress record per flag piece in order; the run ends
      Ok exactly when that write is done, and reports the refusal of either call otherwise. */
  lemma ValidFlagPublishes(s0: Snapshot, s1: Snapshot, key: Key, flag: string,
                           isIP: string -> bool, r: Outcome)
    requires flag != ""
    requires forall k :: 0 <= k < |Split(flag, ',')| ==> isIP(Split(flag, ',')[k])
    requires key in s0.services && s0.services[key].spec.serviceType == LoadBalancer
    requires RunEffect(s0, s1, key, flag, isIP, r)
    ensures |s1.log| > |s0.log| && s1.log[|s0.log|].GetCall?
    ensures r == Ok || r == GetFailed(Unavailable) || r == UpdateFailed(Unavailable)
    ensures r == GetFailed(Unavailable) <==> s1.log[|s0.log|].reply.Refused?
    ensures s1.log[|s0.log|].reply.Done? ==>
              |s1.log| == |s0.log| + 2 && s1.updates == s0.updates + 1 &&
              s1.log[|s0.log| + 1].UpdateCall? &&
              s1.log[|s0.log| + 1].submitted.meta == s0.services[key].meta &&
              s1.log[|s0.log| + 1].submitted.status.loadBalancer.ingress ==
              IngressFor(Split(flag, ',')) &&
              (r == Ok <==> s1.log[|s0.log| + 1].reply.Done?)
    ensures r == Ok ==>
              key in s1.services &&
              s1.services[key].status.loadBalancer.ingress == IngressFor(Split(flag, ','))
  {
  }

  /** With no explicit addresses, a LoadBalancer Service whose non-empty `loadBalancerIP` parses
      piece by piece is written the same way, with one record per piece of `loadBalancerIP`. */
  lemma ValidFallbackPublishes(s0: Snapshot, s1: Snapshot, key: Key, isIP: string -> bool,
                               r: Outcome)
    requires key in s0.services && s0.services[key].spec.serviceType == LoadBalancer
    requires var lb := s0.services[key].spec.loadBalancerIP;
             lb != "" && forall k :: 0 <= k < |Split(lb, ',')| ==> isIP(Split(lb, ',')[k])
    requires RunEffect(s0, s1, key, "", isIP, r)
    ensures |s1.log| > |s0.log| && s1.log[|s0.log|].GetCall?
    ensures r == Ok || r == GetFailed(Unavailable) || r == UpdateFailed(Unavailable)
    ensures r == GetFailed(Unavailable) <==> s1.log[|s0.log|].reply.Refused?
    ensures s1.log[|s0.log|].reply.Done? ==>
              |s1.log| == |s0.log| + 2 && s1.updates == s0.updates + 1 &&
              s1.log[|s0.log| + 1].UpdateCall? &&
              s1.log[|s0.log| + 1].submitted.meta == s0.services[key].meta &&
              s1.log[|s0.log| + 1].submitted.status.loadBalancer.ingress ==
              IngressFor(Split(s0.services[key].spec.loadBalancerIP, ',')) &&
              (r == Ok <==> s1.log[|s0.log| + 1].reply.Done?)
    ensures r == Ok ==>
              key in s1.services &&
              s1.services[key].status.loadBalancer.ingress ==
              IngressFor(Split(s0.services[key].spec.loadBalancerIP, ','))
  {
  }

  /** On success the stored Service has exactly one ingress record per resolved address, in
      order, with only the IP set; its spec, identity and status conditions are those it had. */
  lemma SuccessPublishesAddresses(s0: Snapshot, s1: Snapshot, key: Key, ips: seq<string>,
                                  isIP: string -> bool)
    requires AssignEffect(s0, s1, key, ips, isIP, Ok)
    ensures key in s0.services && key in s1.services
    ensures Resolve(ips, s0.services[key].spec, isIP).Success?
    ensures var resolved := Resolve(ips, s0.services[key].spec, isIP).value;
            var before, after := s0.services[key], s1.services[key];
            var ingress := after.status.loadBalancer.ingress;
            |ingress| == |resolved| &&
            (forall i :: 0 <= i < |resolved| ==> ingress[i] == Ingress(resolved[i], "")) &&
            IngressIPs(ingress) == resolved &&
            after.spec == before.spec &&
            after.status.conditions == before.status.conditions &&
            after.meta.namespace == before.meta.namespace && after.meta.name == before.meta.name
  {
    var resolved := Resolve(ips, s0.services[key].spec, isIP).value;
    forall i | 0 <= i < |resolved|
      ensures IngressFor(resolved)[i] == Ingress(resolved[i], "")
    {
      IngressForAt(resolved, i);
    }
    IngressRoundTrip(resolved);
  }

  /** The example's `loadBalancerIP` splits into its two addresses. */
  lemma SplitPair(lb: string)
    requires lb == "10.0.0.1,10.0.0.2"
    ensures Split(lb, ',') == ["10.0.0.1", "10.0.0.2"]
  {
    var pieces := ["10.0.0.1", "10.0.0.2"];
    assert Join(pieces, ',') == lb;
    SplitJoin(pieces, ',');
  }

  /** The fallback `loadBalancerIP: "10.0.0.1,10.0.0.2"` gives two records in that order. */
  lemma FallbackPairExample(svc: Service, isIP: string -> bool)
    requires svc.spec.serviceType == LoadBalancer
    requires svc.spec.loadBalancerIP == "10.0.0.1,10.0.0.2"
    requires isIP("10.0.0.1") && isIP("10.0.0.2")
    ensures Prepare(svc, [], isIP).Success?
    ensures Prepare(svc, [], isIP).value.status.loadBalancer.ingress ==
            [Ingress("10.0.0.1", ""), Ingress("10.0.0.2", "")]
  {
    var pieces := ["10.0.0.1", "10.0.0.2"];
    SplitPair(svc.spec.loadBalancerIP);
    FallbackGivesPieces(svc, pieces, isIP);
    IngressForPair(pieces[0], pieces[1]);
  }

  /** The records built for two addresses. */
  lemma IngressForPair(a: string, b: string)
    ensures IngressFor([a, b]) == [Ingress(a, ""), Ingress(b, "")]
  {
    assert [a, b][1..] == [b];
  }

  /** A fallback `loadBalancerIP` whose pieces all parse is published piece by piece. */
  lemma FallbackGivesPieces(svc: Service, pieces: seq<string>, isIP: string -> bool)
    requires svc.spec.serviceType == LoadBalancer && svc.spec.loadBalancerIP != ""
    requires Split(svc.spec.loadBalancerIP, ',') == pieces
    requires forall k :: 0 <= k < |pieces| ==> isIP(pieces[k])
    ensures Prepare(svc, [], isIP).Success?
    ensures Prepare(svc, [], isIP).value.status.loadBalancer.ingress == IngressFor(pieces)
  {
  }

  /** The object submitted depends only on the addresses and the spec: preparing again from the
      Service as stored after a successful write gives the same status. */
  lemma PrepareIsStable(svc: Service, ips: seq<string>, isIP: string -> bool)
    requires Prepare(svc, ips, isIP).Success?
    ensures var stored := StatusWritten(svc, Prepare(svc, ips, isIP).value);
            Prepare(stored, ips, isIP).Success? &&
            Prepare(stored, ips, isIP).value.status == stored.status
  {
  }

  /** Running the tool a second time with the same flag right after a successful run can only
      succeed with the same status or fail on the server's availability; it never meets a
      version conflict and never fails a check the first run passed. */
  lemma RerunIsStable(s0: Snapshot, s1: Snapshot, s2: Snapshot, key: Key, flag: string,
                      isIP: string -> bool, r2: Outcome)
    requires RunEffect(s0, s1, key, flag, isIP, Ok)
    requires RunEffect(s1, s2, key, flag, isIP, r2)
    ensures r2 == Ok || r2 == GetFailed(Unavailable) || r2 == UpdateFailed(Unavailable)
    ensures key in s1.services
    ensures r2 == Ok ==>
              key in s2.services &&
              s2.services[key].status == s1.services[key].status &&
              s2.services[key].spec == s1.services[key].spec
  {
    var ips := ParseFlag(flag, isIP).value;
    PrepareIsStable(s0.services[key], ips, isIP);
  }
}
