/**
 * The calls the service worker makes into its host (Cache Storage, Clients,
 * MessagePort), recorded as data in the order they are issued.
 */
module HostEffects {

  /** A reply channel handed over with a message (`event.ports[i]`). */
  datatype Port = Port(id: nat)

  datatype Effect =
    | DeleteCache(name: string)                 // caches.delete(name)
    | ClaimClients                              // self.clients.claim()
    | PostVersion(port: Port, version: string)  // port.postMessage({ version })
}
