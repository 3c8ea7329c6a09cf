/** The runtime-agnostic description of one running service, as the bridge
    hands it to every adapter. Plain data: an immutable snapshot. */
module BridgeTypes {
  import opened Base

  /** The machine the container runs on. */
  datatype ServiceHost = ServiceHost(hostname: string, ip: string)

  /** The container behind the service; `meta` holds its `KEY=value`
      environment lines and labels. */
  datatype ServiceContainer = ServiceContainer(
    hostname: string,
    id: string,
    imageName: string,
    internalIp: string,
    meta: seq<string>)

  /** The exposed-port binding the service was built from. */
  datatype ServicePort = ServicePort(
    hostPort: string,
    hostIp: string,
    exposedPort: string,
    portType: string)

  /** One registerable service instance. `port == 0` is a host-level service
      (the container as a whole); any other value is one exposed port. */
  datatype Service = Service(
    id: string,
    name: string,
    port: Int64,
    ip: string,
    tags: seq<string>,
    attrs: map<string, string>,
    ttl: Int64,
    host: ServiceHost,
    container: ServiceContainer,
    origin: ServicePort)

  /** The adapter construction URI, `scheme://host/path`, reduced to the parts
      the adapters read. */
  datatype Uri = Uri(host: string, path: string)
}
