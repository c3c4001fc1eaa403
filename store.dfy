/** The Kubernetes API server, reduced to the two calls the tool makes on the Services of a
    namespace: `Get` and `UpdateStatus`. A call on a stored Service (for `UpdateStatus`, one
    whose resourceVersion is current) may still fail for reasons outside the tool: the server
    is unreachable, the request times out. The environment chooses whether such a call
    succeeds. Every call is recorded with its reply, so a caller's contract can say what it
    did with each answer. */
module Store {
  import opened Kube

  datatype StoreError = NotFound | Conflict | Unavailable

  /** The answer to a call: the Service as the server has it, or an error. */
  datatype Reply = Done(svc: Service) | Refused(error: StoreError)

  /** What the server keeps after a status write: the stored object with the status taken from
      the submitted one and a new resourceVersion; spec and identity stay as stored. */
  function StatusWritten(current: Service, submitted: Service): (after: Service)
    ensures after.spec == current.spec && after.status == submitted.status
    ensures after.meta.namespace == current.meta.namespace && after.meta.name == current.meta.name
    ensures after.meta.resourceVersion > current.meta.resourceVersion
  {
    Service(current.meta.(resourceVersion := current.meta.resourceVersion + 1), current.spec,
            submitted.status)
  }

  /** One call served, with the reply the server gave. */
  datatype Call = GetCall(key: Key, reply: Reply) | UpdateCall(submitted: Service, reply: Reply)

  /** The server's state as a value: the stored Services, the two call counters and the calls
      served so far, oldest first. */
  datatype Snapshot = Snapshot(services: map<Key, Service>, gets: nat, updates: nat,
                               log: seq<Call>)

  class Cluster {
    /** The Services the server holds, by namespace and name. */
    var services: map<Key, Service>
    /** Number of `Get` calls served so far. */
    var gets: nat
    /** Number of `UpdateStatus` calls served so far. */
    var updates: nat
    /** The calls served so far, oldest first. */
    var log: seq<Call>

    /** Every stored Service sits under its own namespace and name. */
    ghost predicate Valid()
      reads this
    {
      forall k :: k in services ==> KeyOf(services[k]) == k
    }

    function View(): Snapshot
      reads this
    {
      Snapshot(services, gets, updates, log)
    }

    constructor (initial: map<Key, Service>)
      requires forall k :: k in initial ==> KeyOf(initial[k]) == k
      ensures Valid()
      ensures services == initial && gets == 0 && updates == 0 && log == []
    {
      services := initial;
      gets, updates := 0, 0;
      log := [];
    }

    /** `Services(namespace).Get(name)`. */
    method Get(namespace: string, name: string) returns (r: Reply)
      requires Valid()
      modifies this`gets, this`log
      ensures Valid()
      ensures gets == old(gets) + 1
      ensures log == old(log) + [GetCall(Key(namespace, name), r)]
      ensures Key(namespace, name) !in services ==> r == Refused(NotFound)
      ensures Key(namespace, name) in services ==>
                r == Done(services[Key(namespace, name)]) || r == Refused(Unavailable)
    {
      gets := gets + 1;
      var key := Key(namespace, name);
      if key !in services {
        r := Refused(NotFound);
      } else if * {
        r := Done(services[key]);
      } else {
        r := Refused(Unavailable);
      }
      log := log + [GetCall(key, r)];
    }

    /** `Services(namespace).UpdateStatus(svc)`: replaces the stored status with that of `svc`,
        provided `svc` carries the resourceVersion the server holds. */
    method UpdateStatus(svc: Service) returns (r: Reply)
      requires Valid()
      modifies this`services, this`updates, this`log
      ensures Valid()
      ensures updates == old(updates) + 1
      ensures log == old(log) + [UpdateCall(svc, r)]
      ensures r.Refused? ==> services == old(services)
      ensures KeyOf(svc) !in old(services) ==> r == Refused(NotFound)
      ensures KeyOf(svc) in old(services) ==>
                var current := old(services)[KeyOf(svc)];
                if current.meta.resourceVersion != svc.meta.resourceVersion then
                  r == Refused(Conflict)
                else
                  r == Refused(Unavailable) ||
                  (r == Done(StatusWritten(current, svc)) &&
                   services == old(services)[KeyOf(svc) := StatusWritten(current, svc)])
    {
      updates := updates + 1;
      var key := KeyOf(svc);
      if key !in services {
        r := Refused(NotFound);
      } else if services[key].meta.resourceVersion != svc.meta.resourceVersion {
        r := Refused(Conflict);
      } else if * {
        var after := StatusWritten(services[key], svc);
        services := services[key := after];
        r := Done(after);
      } else {
        r := Refused(Unavailable);
      }
      log := log + [UpdateCall(svc, r)];
    }
  }
}
