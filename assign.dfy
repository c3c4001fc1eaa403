/** The tool's decision procedure: the address check in `main` and the function `assignLbIP`
    of cmd/assign-lb-ip/main.go.

    The IP parser `net.ParseIP` is passed in as `isIP`, where `isIP(s)` stands for
    `net.ParseIP(s) != nil`; nothing is assumed about it unless a lemma says so. */
module Assign {
  import opened Text
  import opened Kube
  import opened Store

  /** How one run ends. Every case but `Ok` is a `log.Fatal` call in main.go. */
  datatype Outcome =
    | Ok
    | InvalidAddress(ip: string)
    | GetFailed(reason: StoreError)
    | WrongType
    | NoAddress
    | UpdateFailed(reason: StoreError)

  datatype Result<T> = Success(value: T) | Failure(error: Outcome)

  /** Position of the first piece that `isIP` rejects, or `|pieces|` when it accepts them all. */
  function FirstInvalid(pieces: seq<string>, isIP: string -> bool): (k: nat)
    ensures k <= |pieces|
    ensures forall j :: 0 <= j < k ==> isIP(pieces[j])
    ensures k < |pieces| ==> !isIP(pieces[k])
  {
    if pieces == [] then 0
    else if !isIP(pieces[0]) then 0
    else 1 + FirstInvalid(pieces[1..], isIP)
  }

  /** The validation loop: walks the pieces in order and stops at the first one the parser
      rejects; `k == |pieces|` means that every piece parsed. */
  method CheckAddresses(pieces: seq<string>, isIP: string -> bool) returns (k: nat)
    ensures k <= |pieces|
    ensures forall j :: 0 <= j < k ==> isIP(pieces[j])
    ensures k < |pieces| ==> !isIP(pieces[k])
    ensures k == FirstInvalid(pieces, isIP)
  {
    k := 0;
    while k < |pieces| && isIP(pieces[k])
      invariant k <= |pieces|
      invariant forall j :: 0 <= j < k ==> isIP(pieces[j])
    {
      k := k + 1;
    }
  }

  /** A comma-separated address list, split and checked piece by piece. */
  function ParseAddressList(s: string, isIP: string -> bool): (r: Result<seq<string>>)
    ensures r.Success? ==> forall k :: 0 <= k < |Split(s, ',')| ==> isIP(Split(s, ',')[k])
    ensures (forall k :: 0 <= k < |Split(s, ',')| ==> isIP(Split(s, ',')[k])) ==> r.Success?
    ensures r.Success? ==> r.value == Split(s, ',')
    ensures r.Failure? ==>
              r.error.InvalidAddress? && r.error.ip in Split(s, ',') && !isIP(r.error.ip)
    ensures r.Failure? ==>
              r.error == InvalidAddress(Split(s, ',')[FirstInvalid(Split(s, ','), isIP)])
  {
    var pieces := Split(s, ',');
    var k := FirstInvalid(pieces, isIP);
    if k < |pieces| then Failure(InvalidAddress(pieces[k]))
    else Success(pieces)
  }

  /** The explicit addresses of the `-ip` flag: none for an empty flag, otherwise its comma
      pieces, all of which must parse. */
  function ParseFlag(flag: string, isIP: string -> bool): (r: Result<seq<string>>)
    ensures flag == "" ==> r == Success([])
    ensures r.Success? ==> Join(r.value, ',') == flag
    ensures r.Success? ==> forall k :: 0 <= k < |r.value| ==> isIP(r.value[k])
    ensures r.Success? && flag != "" ==> |r.value| == Count(flag, ',') + 1
    ensures r.Success? ==> forall k :: 0 <= k < |r.value| ==> ',' !in r.value[k]
    ensures flag != "" && r.Success? ==>
              forall k :: 0 <= k < |Split(flag, ',')| ==> isIP(Split(flag, ',')[k])
    ensures flag != "" && (forall k :: 0 <= k < |Split(flag, ',')| ==> isIP(Split(flag, ',')[k])) ==>
              r.Success?
    ensures flag != "" && r.Success? ==> r.value == Split(flag, ',')
    ensures r.Failure? ==>
              flag != "" && r.error.InvalidAddress? && !isIP(r.error.ip) &&
              r.error.ip == Split(flag, ',')[FirstInvalid(Split(flag, ','), isIP)]
  {
    if flag == "" then Success([])
    else
      JoinSplit(flag, ',');
      SplitLength(flag, ',');
      SplitPiecesHaveNoSeparator(flag, ',');
      ParseAddressList(flag, isIP)
  }

  /** The addresses to publish: the explicit ones when there are any, otherwise the Service's
      own `loadBalancerIP`, which must be present and must parse piece by piece. */
  function Resolve(explicit: seq<string>, spec: ServiceSpec, isIP: string -> bool)
    : (r: Result<seq<string>>)
    ensures r.Success? ==> |r.value| >= 1
    ensures |explicit| > 0 ==> r == Success(explicit)
    ensures explicit == [] ==> (r == Failure(NoAddress) <==> spec.loadBalancerIP == "")
    ensures explicit == [] && r.Success? ==>
              Join(r.value, ',') == spec.loadBalancerIP &&
              forall k :: 0 <= k < |r.value| ==> isIP(r.value[k])
    ensures r.Failure? ==> r.error == NoAddress || (r.error.InvalidAddress? && !isIP(r.error.ip))
    ensures explicit == [] && spec.loadBalancerIP != "" ==>
              var pieces := Split(spec.loadBalancerIP, ',');
              (r.Success? ==> forall k :: 0 <= k < |pieces| ==> isIP(pieces[k])) &&
              ((forall k :: 0 <= k < |pieces| ==> isIP(pieces[k])) ==> r.Success?) &&
              (r.Success? ==> r.value == pieces) &&
              (r.Failure? ==> r.error == InvalidAddress(pieces[FirstInvalid(pieces, isIP)]))
  {
    if |explicit| > 0 then Success(explicit)
    else if spec.loadBalancerIP == "" then Failure(NoAddress)
    else
      JoinSplit(spec.loadBalancerIP, ',');
      ParseAddressList(spec.loadBalancerIP, isIP)
  }

  /** One ingress record per address, in order, each with only its IP set. */
  function IngressFor(ips: seq<string>): (ing: seq<Ingress>)
    ensures |ing| == |ips|
  {
    if ips == [] then [] else [Ingress(ips[0], "")] + IngressFor(ips[1..])
  }

  /** The addresses named by a list of ingress records. */
  function IngressIPs(ing: seq<Ingress>): (ips: seq<string>)
    ensures |ips| == |ing|
  {
    if ing == [] then [] else [ing[0].ip] + IngressIPs(ing[1..])
  }

  lemma {:induction false} IngressForAt(ips: seq<string>, i: nat)
    requires i < |ips|
    ensures IngressFor(ips)[i] == Ingress(ips[i], "")
  {
    if i > 0 {
      IngressForAt(ips[1..], i - 1);
    }
  }

  /** Building the ingress list: a fresh list of `|ips|` records filled index by index. */
  method BuildIngress(ips: seq<string>) returns (ing: seq<Ingress>)
    ensures |ing| == |ips|
    ensures forall i :: 0 <= i < |ips| ==> ing[i] == Ingress(ips[i], "")
    ensures ing == IngressFor(ips)
  {
    var records := new Ingress[|ips|];
    for i := 0 to |ips|
      invariant forall j :: 0 <= j < i ==> records[j] == Ingress(ips[j], "")
    {
      records[i] := Ingress(ips[i], "");
    }
    ing := records[..];
    forall i | 0 <= i < |ips| ensures ing[i] == IngressFor(ips)[i] {
      IngressForAt(ips, i);
    }
  }

  /** The object `assignLbIP` submits for a fetched Service `svc`, or the reason it stops:
      the type gate first, then address resolution; on success only the load-balancer part of
      the status is replaced. */
  function Prepare(svc: Service, explicit: seq<string>, isIP: string -> bool)
    : (r: Result<Service>)
    ensures svc.spec.serviceType != LoadBalancer ==> r == Failure(WrongType)
    ensures r.Failure? ==>
              r.error == WrongType || r.error == NoAddress || r.error.InvalidAddress?
    ensures svc.spec.serviceType == LoadBalancer ==>
              (r.Success? <==> Resolve(explicit, svc.spec, isIP).Success?) &&
              (r.Failure? ==> r.error == Resolve(explicit, svc.spec, isIP).error)
    ensures r.Success? ==>
              svc.spec.serviceType == LoadBalancer &&
              Resolve(explicit, svc.spec, isIP).Success? &&
              r.value.meta == svc.meta && r.value.spec == svc.spec &&
              r.value.status.conditions == svc.status.conditions &&
              r.value.status.loadBalancer.ingress == IngressFor(Resolve(explicit, svc.spec, isIP).value)
  {
    if svc.spec.serviceType != LoadBalancer then Failure(WrongType)
    else
      match Resolve(explicit, svc.spec, isIP)
      case Failure(e) => Failure(e)
      case Success(ips) =>
        Success(svc.(status := svc.status.(loadBalancer := LoadBalancerStatus(IngressFor(ips)))))
  }

  /** What one call of `assignLbIP(key, ips)` does to the server, given its outcome `r`:
      exactly one `Get`, whose reply decides what follows; a refused `Get` is reported as
      `GetFailed` with the server's reason; on the fetched Service the decision of `Prepare`;
      when `Prepare` succeeds, one `UpdateStatus` of exactly the object it built, whose reply
      is reported as `Ok` or `UpdateFailed` with the server's reason. The stored Services change
      only when that write is done. */
  ghost predicate AssignEffect(s0: Snapshot, s1: Snapshot, key: Key, ips: seq<string>,
                               isIP: string -> bool, r: Outcome)
  {
    var n := |s0.log|;
    s1.gets == s0.gets + 1 && n < |s1.log| && s1.log[n].GetCall? &&
    (var got := s1.log[n].reply;
     if got.Refused? then
       s1.log == s0.log + [GetCall(key, got)] && r == GetFailed(got.error) &&
       got.error == (if key in s0.services then Unavailable else NotFound) &&
       s1.services == s0.services && s1.updates == s0.updates
     else
       key in s0.services && got.svc == s0.services[key] &&
       (var svc := s0.services[key];
        match Prepare(svc, ips, isIP)
        case Failure(e) =>
          s1.log == s0.log + [GetCall(key, got)] && r == e &&
          s1.services == s0.services && s1.updates == s0.updates
        case Success(submitted) =>
          |s1.log| == n + 2 &&
          (var put := s1.log[n + 1].reply;
           s1.log == s0.log + [GetCall(key, got), UpdateCall(submitted, put)] &&
           s1.updates == s0.updates + 1 &&
           if put.Refused? then
             r == UpdateFailed(put.error) && put.error == Unavailable &&
             s1.services == s0.services
           else
             r == Ok && put.svc == StatusWritten(svc, submitted) &&
             s1.services == s0.services[key := StatusWritten(svc, submitted)])))
  }

  /** What one run of the tool with `-ip flag` does: a flag that does not parse ends the run
      with nothing sent to the server; otherwise `assignLbIP` runs on the parsed list. */
  ghost predicate RunEffect(s0: Snapshot, s1: Snapshot, key: Key, flag: string,
                            isIP: string -> bool, r: Outcome)
  {
    match ParseFlag(flag, isIP)
    case Failure(e) => r == e && s1 == s0
    case Success(ips) => AssignEffect(s0, s1, key, ips, isIP, r)
  }

  /** The address step of `assignLbIP`: the explicit addresses when there are any, otherwise
      `loadBalancerIP`, split and checked by the validation loop. */
  method ResolveAddresses(explicit: seq<string>, spec: ServiceSpec, isIP: string -> bool)
    returns (r: Result<seq<string>>)
    ensures r == Resolve(explicit, spec, isIP)
  {
    if |explicit| > 0 {
      return Success(explicit);
    }
    if spec.loadBalancerIP == "" {
      return Failure(NoAddress);
    }
    var addrs := Split(spec.loadBalancerIP, ',');
    var k := CheckAddresses(addrs, isIP);
    if k < |addrs| {
      return Failure(InvalidAddress(addrs[k]));
    }
    r := Success(addrs);
  }

  /** `assignLbIP(namespace, service, ips)`. */
  method AssignLbIP(cluster: Cluster, namespace: string, name: string, ips: seq<string>,
                    isIP: string -> bool) returns (r: Outcome)
    requires cluster.Valid()
    modifies cluster
    ensures cluster.Valid()
    ensures AssignEffect(old(cluster.View()), cluster.View(), Key(namespace, name), ips, isIP, r)
  {
    var got := cluster.Get(namespace, name);
    if got.Refused? {
      return GetFailed(got.error);
    }
    var svc := got.svc;
    if svc.spec.serviceType != LoadBalancer {
      return WrongType;
    }
    var resolved := ResolveAddresses(ips, svc.spec, isIP);
    if resolved.Failure? {
      return resolved.error;
    }
    var addrs := resolved.value;
    var ingress := BuildIngress(addrs);
    svc := svc.(status := svc.status.(loadBalancer := LoadBalancerStatus(ingress)));
    var put := cluster.UpdateStatus(svc);
    if put.Refused? {
      return UpdateFailed(put.error);
    }
    r := Ok;
  }

  /** `main` after flag parsing: split and check the `-ip` flag, then call `assignLbIP`. */
  method Run(cluster: Cluster, namespace: string, name: string, flag: string,
             isIP: string -> bool) returns (r: Outcome)
    requires cluster.Valid()
    modifies cluster
    ensures cluster.Valid()
    ensures RunEffect(old(cluster.View()), cluster.View(), Key(namespace, name), flag, isIP, r)
  {
    var ips: seq<string> := [];
    if flag != "" {
      ips := Split(flag, ',');
      var k := CheckAddresses(ips, isIP);
      if k < |ips| {
        return InvalidAddress(ips[k]);
      }
    }
    r := AssignLbIP(cluster, namespace, name, ips, isIP);
  }
}
