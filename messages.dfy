/**
 * The `message` handler: the foreground page asks the worker to skip
 * waiting, to report its version, or to claim the open clients.
 */
module Messages {
  import opened Options
  import opened HostEffects
  import SkipWaiting

  /** The build's version token, substituted into the file at deployment. */
  const Version: string := "3869435683"

  const SkipWaitingType: string := "SKIP_WAITING"
  const GetVersionType: string := "GET_VERSION"
  const ClaimClientsType: string := "CLAIM_CLIENTS"

  /** `event.data` when it is truthy; `kind` is its `type` attribute when that is a string. */
  datatype Payload = Payload(kind: Option<string>)

  /** `data` is `None` when `event.data` is missing or falsy. */
  datatype MessageEvent = MessageEvent(data: Option<Payload>, ports: seq<Port>)

  /** `event.ports[0].postMessage` on an empty `ports` list throws a TypeError. */
  datatype Fault = NoReplyPort

  datatype Reaction =
    | SkipWaitingStarted            // skipWaiting() called once and the timer armed; the handler returns
    | Performed(effects: seq<Effect>)
    | Threw(fault: Fault)
  {
    /** The host calls of the reaction other than `skipWaiting()`, which the handshake counts. */
    function Calls(): seq<Effect> {
      if Performed? then effects else []
    }
  }

  /** `event.data && event.data.type === t` */
  predicate HasType(e: MessageEvent, t: string) {
    e.data.Some? && e.data.value.kind == Some(t)
  }

  /**
   * The handler's three checks, made one after another: the first returns
   * early, the other two fall through to each other.
   */
  function OnMessage(e: MessageEvent): (r: Reaction)
    ensures r.SkipWaitingStarted? <==> HasType(e, SkipWaitingType)
    ensures HasType(e, GetVersionType) ==>
              r == if |e.ports| > 0 then Performed([PostVersion(e.ports[0], Version)]) else Threw(NoReplyPort)
    ensures HasType(e, ClaimClientsType) ==> r == Performed([ClaimClients])
    ensures (!HasType(e, SkipWaitingType) && !HasType(e, GetVersionType) && !HasType(e, ClaimClientsType))
              ==> r == Performed([])
    ensures r.Threw? ==> HasType(e, GetVersionType) && e.ports == []
  {
    if HasType(e, SkipWaitingType) then SkipWaitingStarted
    else if HasType(e, GetVersionType) && |e.ports| == 0 then Threw(NoReplyPort)
    else
      var replies := if HasType(e, GetVersionType) then [PostVersion(e.ports[0], Version)] else [];
      var claims := if HasType(e, ClaimClientsType) then [ClaimClients] else [];
      Performed(replies + claims)
  }

  /**
   * A message never deletes a cache and makes at most one host call; the
   * version reply goes to the first port only and carries `Version`.
   */
  lemma MessageEffectsBounded(e: MessageEvent)
    ensures |OnMessage(e).Calls()| <= 1
    ensures forall c :: c in OnMessage(e).Calls() ==>
              !c.DeleteCache? && (c.PostVersion? ==> c == PostVersion(e.ports[0], Version))
  {
    if e.data.Some? && e.data.value.kind.Some? {
      var t := e.data.value.kind.value;
      assert t == GetVersionType ==> t != ClaimClientsType;
    }
  }

  /**
   * Handling one message: a `SKIP_WAITING` message starts a fresh
   * handshake; every other message only makes the calls of `OnMessage`.
   */
  method Dispatch(e: MessageEvent)
    returns (r: Reaction, handshake: SkipWaiting.SkipWaitingHandler?)
    ensures r == OnMessage(e)
    ensures handshake != null <==> HasType(e, SkipWaitingType)
    ensures handshake != null ==>
              fresh(handshake) && handshake.Valid() && handshake.events == []
              && handshake.skipWaitingCalls == 1 && !handshake.skippedWaitingComplete
  {
    r := OnMessage(e);
    if r.SkipWaitingStarted? {
      handshake := new SkipWaiting.SkipWaitingHandler();
    } else {
      handshake := null;
    }
  }
}
