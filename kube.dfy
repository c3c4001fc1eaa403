/** The part of the Kubernetes core/v1 Service object that the tool reads or writes. */
module Kube {

  /** `Spec.Type` of a Service. */
  datatype ServiceType = ClusterIP | NodePort | LoadBalancer | ExternalName

  /** One `LoadBalancerIngress` record: an ingress point given by address or by DNS name. */
  datatype Ingress = Ingress(ip: string, hostname: string)

  /** `Status.LoadBalancer`. */
  datatype LoadBalancerStatus = LoadBalancerStatus(ingress: seq<Ingress>)

  /** `Status`: the load-balancer part and the status conditions, which the tool never touches. */
  datatype ServiceStatus = ServiceStatus(loadBalancer: LoadBalancerStatus, conditions: seq<string>)

  /** `Spec`: the two fields the tool reads, and the rest of the spec as one opaque value. */
  datatype ServiceSpec = ServiceSpec(serviceType: ServiceType, loadBalancerIP: string, rest: seq<string>)

  /** Object metadata: the identity and the optimistic-concurrency token. */
  datatype ObjectMeta = ObjectMeta(namespace: string, name: string, resourceVersion: nat)

  datatype Service = Service(meta: ObjectMeta, spec: ServiceSpec, status: ServiceStatus)

  /** What the API server looks a Service up by. */
  datatype Key = Key(namespace: string, name: string)

  function KeyOf(svc: Service): Key
  {
    Key(svc.meta.namespace, svc.meta.name)
  }
}
