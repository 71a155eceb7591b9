/**
 * `globalThis.AOConnect`: spawn, message and result calls routed either
 * through a one-shot connection built from per-call credentials, through the
 * shared connection stored by `connect`, or through the stateless SDK entry
 * points. The aoconnect SDK is a parameter; it receives the key that is
 * ambient when it signs, because its signer reads `__JWK__` through the
 * wallet shim at that moment.
 */
module AoConnect {
  import opened Wrappers
  import opened Runtime
  import WalletShim

  /** An `aoInstanceAction(instance, args)`, given the key ambient when it runs. */
  type InstanceAction = (Instance, Args, Value) -> SdkResult

  /** A stateless SDK entry point `action(args)`, given the key ambient when it runs. */
  type StatelessAction = (Args, Value) -> SdkResult

  /** The three connection-bound methods `instance[methodName]` can name. */
  datatype MethodName = SpawnMethod | MessageMethod | ResultMethod

  /** `instance[methodName](args)` on an aoconnect connection, given the ambient key. */
  type InstanceSdk = (Instance, MethodName, Args, Value) -> SdkResult

  /** The aoconnect module as the bridge imports it: the connection-bound methods and the stateless spawn, message and result. */
  datatype AoSdk = AoSdk(call: InstanceSdk, spawn: StatelessAction, message: StatelessAction, result: StatelessAction)

  /** createConnectedInstance: arms the wallet shim with `jwk` and connects to (hbUrl, operator). */
  function CreateConnectedInstance(g: Globals, jwk: Value, hbUrl: Value, operator: Value): (r: (Globals, Instance))
    ensures r.0.aoInstance == g.aoInstance
    ensures WalletShim.RequireJwk(r.0) == (if Truthy(jwk) then Success(jwk) else Failure(MissingCredential))
    ensures r.1.url == hbUrl && r.1.scheduler == operator
  {
    (g.(jwk := jwk), Instance(jwk, hbUrl, operator))
  }

  /** stripConnectionArgs: the arguments without their routing fields. */
  function StripConnectionArgs(args: Args): (r: Args)
    ensures "hbUrl" !in r && "operator" !in r
    ensures forall k :: k in r <==> k in args && k != "hbUrl" && k != "operator"
    ensures forall k :: k in r ==> r[k] == args[k]
  {
    args - {"hbUrl", "operator"}
  }

  /** Stripping is idempotent and only ever loses the two routing fields. */
  lemma StripConnectionArgsIdempotent(args: Args)
    ensures StripConnectionArgs(StripConnectionArgs(args)) == StripConnectionArgs(args)
    ensures "hbUrl" !in args && "operator" !in args ==> StripConnectionArgs(args) == args
  {
  }

  /** hasDirectConnectionArgs: `Boolean(jwk && args.hbUrl && args.operator)`. */
  function HasDirectConnectionArgs(jwk: Value, args: Args): (b: bool)
    ensures b <==> Truthy(jwk) && Truthy(Get(args, "hbUrl")) && Truthy(Get(args, "operator"))
  {
    Truthy(LogicalAnd(LogicalAnd(jwk, Get(args, "hbUrl")), Get(args, "operator")))
  }

  /** Which of the paths in doAction a call takes. */
  datatype Route = Ephemeral | Shared | Stateless | Unresolved

  /** The ordered decision of doAction: per-call credentials first, then the shared connection, then the stateless path. */
  function Resolve(g: Globals, hasInstanceAction: bool, jwk: Value, args: Args): (r: Route)
    ensures r == Ephemeral <==> HasDirectConnectionArgs(jwk, args) && hasInstanceAction
    ensures r == Shared <==> !HasDirectConnectionArgs(jwk, args) && g.aoInstance.Some? && hasInstanceAction
    ensures r == Stateless <==> HasDirectConnectionArgs(jwk, args) && !hasInstanceAction
    ensures r == Unresolved <==> !HasDirectConnectionArgs(jwk, args) && (g.aoInstance.None? || !hasInstanceAction)
  {
    if HasDirectConnectionArgs(jwk, args) && hasInstanceAction then Ephemeral
    else if g.aoInstance.Some? && hasInstanceAction then Shared
    else if HasDirectConnectionArgs(jwk, args) then Stateless
    else Unresolved
  }

  /** doAction: dispatch along the resolved route; the result pairs the new global cells with the outcome. */
  function DoAction(g: Globals, action: StatelessAction, instanceAction: Option<InstanceAction>,
                    jwk: Value, args: Option<Args>): (r: (Globals, SdkResult))
    ensures r.0.aoInstance == g.aoInstance
    ensures r.0.jwk == g.jwk || HasDirectConnectionArgs(jwk, args.GetOr(map[]))
    ensures r.0.jwk != g.jwk ==> r.0.jwk == jwk
    ensures var a := args.GetOr(map[]);
            Resolve(g, instanceAction.Some?, jwk, a) == Ephemeral ==>
              r.0 == g.(jwk := jwk) &&
              r.1 == instanceAction.value(Instance(jwk, Get(a, "hbUrl"), Get(a, "operator")), a, jwk)
    ensures var a := args.GetOr(map[]);
            Resolve(g, instanceAction.Some?, jwk, a) == Shared ==>
              r.0 == g && r.1 == instanceAction.value(g.aoInstance.value, a, g.jwk)
    ensures var a := args.GetOr(map[]);
            Resolve(g, instanceAction.Some?, jwk, a) == Stateless ==>
              r.0 == g.(jwk := jwk) && r.1 == action(a["signer" := WalletSigner], jwk)
    ensures Resolve(g, instanceAction.Some?, jwk, args.GetOr(map[])) == Unresolved ==>
              r == (g, Failure(NoConnectionAvailable))
  {
    var a := args.GetOr(map[]);
    if HasDirectConnectionArgs(jwk, a) && instanceAction.Some? then
      var (g', temp) := CreateConnectedInstance(g, jwk, Get(a, "hbUrl"), Get(a, "operator"));
      (g', instanceAction.value(temp, a, g'.jwk))
    else if g.aoInstance.Some? && instanceAction.Some? then
      (g, instanceAction.value(g.aoInstance.value, a, g.jwk))
    else if HasDirectConnectionArgs(jwk, a) then
      var g' := g.(jwk := jwk);
      (g', action(a["signer" := WalletSigner], g'.jwk))
    else
      (g, Failure(NoConnectionAvailable))
  }

  /** Every route that does not fail leaves the wallet shim armed with a key. */
  lemma DoActionArmsShim(g: Globals, action: StatelessAction, instanceAction: Option<InstanceAction>,
                         jwk: Value, args: Option<Args>)
    requires Resolve(g, instanceAction.Some?, jwk, args.GetOr(map[])) != Unresolved
    requires g.aoInstance.Some? ==> Truthy(g.jwk)
    ensures WalletShim.RequireJwk(DoAction(g, action, instanceAction, jwk, args).0).Success?
  {
  }

  /** The arguments doMethodAction hands to doAction: the payload with the routing fields written over it. */
  function MethodArgs(payload: Args, hbUrl: Value, operator: Value): (a: Args)
    ensures Get(a, "hbUrl") == hbUrl && Get(a, "operator") == operator
    ensures StripConnectionArgs(a) == StripConnectionArgs(payload)
  {
    payload["hbUrl" := hbUrl]["operator" := operator]
  }

  /**
   * The aoInstanceAction doMethodAction supplies: the named method on the
   * stripped arguments, so the routing fields written over a payload never
   * change what the method does.
   */
  function MethodAction(call: InstanceSdk, name: MethodName): (f: InstanceAction)
    ensures forall inst, p, hbUrl, operator, key :: f(inst, MethodArgs(p, hbUrl, operator), key) == f(inst, p, key)
  {
    (inst: Instance, a: Args, key: Value) => call(inst, name, StripConnectionArgs(a), key)
  }

  /** doMethodAction: doAction with a method-bound instance action; a failure is re-raised as it is. */
  function DoMethodAction(g: Globals, action: StatelessAction, call: InstanceSdk, name: MethodName,
                          payload: Args, jwk: Value, hbUrl: Value, operator: Value): (r: (Globals, SdkResult))
    ensures r.0.aoInstance == g.aoInstance
    ensures Truthy(jwk) && Truthy(hbUrl) && Truthy(operator) ==>
              r == (g.(jwk := jwk), call(Instance(jwk, hbUrl, operator), name, StripConnectionArgs(payload), jwk))
    ensures !(Truthy(jwk) && Truthy(hbUrl) && Truthy(operator)) && g.aoInstance.Some? ==>
              r == (g, call(g.aoInstance.value, name, StripConnectionArgs(payload), g.jwk))
    ensures !(Truthy(jwk) && Truthy(hbUrl) && Truthy(operator)) && g.aoInstance.None? ==>
              r == (g, Failure(NoConnectionAvailable))
  {
    var outcome := DoAction(g, action, Some(MethodAction(call, name)), jwk, Some(MethodArgs(payload, hbUrl, operator)));
    match outcome.1
    case Failure(error) => (outcome.0, Failure(error))
    case Success(v) => (outcome.0, Success(v))
  }

  /** The stateless SDK entry point is never reached from doMethodAction: the outcome does not depend on it. */
  lemma DoMethodActionNeverStateless(g: Globals, a1: StatelessAction, a2: StatelessAction, call: InstanceSdk,
                                     name: MethodName, payload: Args, jwk: Value, hbUrl: Value, operator: Value)
    ensures Resolve(g, true, jwk, MethodArgs(payload, hbUrl, operator)) != Stateless
    ensures DoMethodAction(g, a1, call, name, payload, jwk, hbUrl, operator)
         == DoMethodAction(g, a2, call, name, payload, jwk, hbUrl, operator)
  {
  }

  /** When a connection is available, the arguments reaching the connection-bound method are the payload without the routing fields. */
  lemma MethodPayloadStripped(g: Globals, action: StatelessAction, call: InstanceSdk, name: MethodName,
                              payload: Args, jwk: Value, hbUrl: Value, operator: Value)
    requires g.aoInstance.Some? || (Truthy(jwk) && Truthy(hbUrl) && Truthy(operator))
    ensures exists inst: Instance, key: Value ::
              DoMethodAction(g, action, call, name, payload, jwk, hbUrl, operator).1
                == call(inst, name, StripConnectionArgs(payload), key)
    ensures "hbUrl" !in StripConnectionArgs(payload) && "operator" !in StripConnectionArgs(payload)
  {
    var r := DoMethodAction(g, action, call, name, payload, jwk, hbUrl, operator);
    if Truthy(jwk) && Truthy(hbUrl) && Truthy(operator) {
      assert r.1 == call(Instance(jwk, hbUrl, operator), name, StripConnectionArgs(payload), jwk);
    } else {
      assert r.1 == call(g.aoInstance.value, name, StripConnectionArgs(payload), g.jwk);
    }
  }

  /** AOConnect.connect: a connection built from the arguments replaces the shared one. */
  function Connect(g: Globals, jwk: Value, hbUrl: Value, operator: Value): (r: (Globals, Instance))
    ensures r.0.aoInstance == Some(r.1)
    ensures WalletShim.RequireJwk(r.0) == (if Truthy(jwk) then Success(jwk) else Failure(MissingCredential))
    ensures r.1 == Instance(jwk, hbUrl, operator)
  {
    var (g', inst) := CreateConnectedInstance(g, jwk, hbUrl, operator);
    (g'.(aoInstance := Some(inst)), inst)
  }

  /**
   * Where a call with these credentials lands, stated without doAction: on a
   * connection built from complete per-call credentials (which become the
   * ambient key), else on the shared connection with the ambient key, else
   * nowhere.
   */
  function Routed(g: Globals, call: InstanceSdk, name: MethodName, payload: Args,
                  jwk: Value, hbUrl: Value, operator: Value): (Globals, SdkResult)
  {
    if Truthy(jwk) && Truthy(hbUrl) && Truthy(operator) then
      (g.(jwk := jwk), call(Instance(jwk, hbUrl, operator), name, payload, jwk))
    else
      match g.aoInstance
      case Some(shared) => (g, call(shared, name, payload, g.jwk))
      case None => (g, Failure(NoConnectionAvailable))
  }

  /** The per-call credentials of spawn, message and result. */
  predicate HasCredentials(params: Args) {
    HasDirectConnectionArgs(Get(params, "jwk"), params)
  }

  /** AOConnect.spawn: payload `{data}`, with data defaulting to the empty string. */
  function Spawn(g: Globals, sdk: AoSdk, params: Args): (r: (Globals, SdkResult))
    ensures r.0.aoInstance == g.aoInstance
    ensures r == Routed(g, sdk.call, SpawnMethod, SpawnPayload(params),
                        Get(params, "jwk"), Get(params, "hbUrl"), Get(params, "operator"))
  {
    StripConnectionArgsIdempotent(SpawnPayload(params));
    DoMethodAction(g, sdk.spawn, sdk.call, SpawnMethod, SpawnPayload(params),
                   Get(params, "jwk"), Get(params, "hbUrl"), Get(params, "operator"))
  }

  /** The payload of spawn: only the data, an empty string when it is not given. */
  function SpawnPayload(params: Args): (p: Args)
    ensures p.Keys == {"data"}
    ensures Get(params, "data").Undefined? ==> p["data"] == Str("")
    ensures !Get(params, "data").Undefined? ==> p["data"] == params["data"]
  {
    map["data" := WithDefault(Get(params, "data"), Str(""))]
  }

  /** AOConnect.message: payload `{process, tags, data}`, with tags defaulting to [] and data to "". */
  function Message(g: Globals, sdk: AoSdk, params: Args): (r: (Globals, SdkResult))
    ensures r.0.aoInstance == g.aoInstance
    ensures r == Routed(g, sdk.call, MessageMethod, MessagePayload(params),
                        Get(params, "jwk"), Get(params, "hbUrl"), Get(params, "operator"))
  {
    StripConnectionArgsIdempotent(MessagePayload(params));
    DoMethodAction(g, sdk.message, sdk.call, MessageMethod, MessagePayload(params),
                   Get(params, "jwk"), Get(params, "hbUrl"), Get(params, "operator"))
  }

  /** The payload of message: process as given, tags and data defaulted when they are not given. */
  function MessagePayload(params: Args): (p: Args)
    ensures p.Keys == {"process", "tags", "data"}
    ensures p["process"] == Get(params, "process")
    ensures Get(params, "tags").Undefined? ==> p["tags"] == Arr([])
    ensures !Get(params, "tags").Undefined? ==> p["tags"] == params["tags"]
    ensures Get(params, "data").Undefined? ==> p["data"] == Str("")
    ensures !Get(params, "data").Undefined? ==> p["data"] == params["data"]
  {
    map["process" := Get(params, "process"),
        "tags" := WithDefault(Get(params, "tags"), Arr([])),
        "data" := WithDefault(Get(params, "data"), Str(""))]
  }

  /** AOConnect.result: payload `{process, message}`. */
  function GetResult(g: Globals, sdk: AoSdk, params: Args): (r: (Globals, SdkResult))
    ensures r.0.aoInstance == g.aoInstance
    ensures r == Routed(g, sdk.call, ResultMethod, ResultPayload(params),
                        Get(params, "jwk"), Get(params, "hbUrl"), Get(params, "operator"))
  {
    StripConnectionArgsIdempotent(ResultPayload(params));
    DoMethodAction(g, sdk.result, sdk.call, ResultMethod, ResultPayload(params),
                   Get(params, "jwk"), Get(params, "hbUrl"), Get(params, "operator"))
  }

  /** The payload of result: the process and the message id, as given. */
  function ResultPayload(params: Args): (p: Args)
    ensures p.Keys == {"process", "message"}
    ensures p["process"] == Get(params, "process") && p["message"] == Get(params, "message")
  {
    map["process" := Get(params, "process"), "message" := Get(params, "message")]
  }

  /** The SDK never sees the routing fields of a message, however they were supplied. */
  lemma MessageCarriesNoRouting(g: Globals, sdk: AoSdk, params: Args)
    requires g.aoInstance.Some? || HasCredentials(params)
    ensures exists inst: Instance, key: Value, p: Args ::
              Message(g, sdk, params).1 == sdk.call(inst, MessageMethod, p, key) && "hbUrl" !in p && "operator" !in p
  {
    var p := MessagePayload(params);
    if HasCredentials(params) {
      var k := Get(params, "jwk");
      assert Message(g, sdk, params).1 == sdk.call(Instance(k, Get(params, "hbUrl"), Get(params, "operator")), MessageMethod, p, k);
    } else {
      assert Message(g, sdk, params).1 == sdk.call(g.aoInstance.value, MessageMethod, p, g.jwk);
    }
  }

  /** With neither a shared connection nor complete per-call credentials, every call fails and nothing changes. */
  lemma NoConnectionFails(g: Globals, sdk: AoSdk, params: Args)
    requires g.aoInstance.None? && !HasCredentials(params)
    ensures Spawn(g, sdk, params) == (g, Failure(NoConnectionAvailable))
    ensures Message(g, sdk, params) == (g, Failure(NoConnectionAvailable))
    ensures GetResult(g, sdk, params) == (g, Failure(NoConnectionAvailable))
  {
  }

  /**
   * After connect(k1, u1, o1) and then connect(k2, u2, o2), a call without
   * per-call credentials goes to the (k2, u2, o2) connection and signs with k2.
   */
  lemma ConnectLastWins(g: Globals, sdk: AoSdk, params: Args,
                        k1: Value, u1: Value, o1: Value, k2: Value, u2: Value, o2: Value)
    requires !HasCredentials(params)
    ensures var g2 := Connect(Connect(g, k1, u1, o1).0, k2, u2, o2).0;
            Message(g2, sdk, params) == (g2, sdk.call(Instance(k2, u2, o2), MessageMethod, MessagePayload(params), k2))
  {
    var g1 := Connect(g, k1, u1, o1).0;
    var g2 := Connect(g1, k2, u2, o2).0;
    assert g2 == Globals(Some(Instance(k2, u2, o2)), k2);
  }

  /**
   * A call with complete per-call credentials and no shared connection uses
   * its own connection and leaves the shared slot empty, so a following call
   * without credentials still finds no connection.
   */
  lemma EphemeralLeavesSlotEmpty(g: Globals, sdk: AoSdk, withCreds: Args, without: Args)
    requires g.aoInstance.None? && HasCredentials(withCreds) && !HasCredentials(without)
    ensures var jwk := Get(withCreds, "jwk");
            Message(g, sdk, withCreds).1
              == sdk.call(Instance(jwk, Get(withCreds, "hbUrl"), Get(withCreds, "operator")), MessageMethod, MessagePayload(withCreds), jwk)
    ensures Message(g, sdk, withCreds).0.aoInstance.None?
    ensures Message(Message(g, sdk, withCreds).0, sdk, without).1 == Failure(NoConnectionAvailable)
  {
    NoConnectionFails(Message(g, sdk, withCreds).0, sdk, without);
  }

  /**
   * The shared connection holds no key of its own: after connect(k1, ...) and
   * a call with per-call key k2, a call without credentials goes to the k1
   * connection but is signed with k2.
   */
  lemma SharedSignsWithLatestKey(g: Globals, sdk: AoSdk, k1: Value, u1: Value, o1: Value,
                                 withCreds: Args, without: Args)
    requires HasCredentials(withCreds) && !HasCredentials(without)
    ensures var g1 := Connect(g, k1, u1, o1).0;
            var g2 := Spawn(g1, sdk, withCreds).0;
            Message(g2, sdk, without).1
              == sdk.call(Instance(k1, u1, o1), MessageMethod, MessagePayload(without), Get(withCreds, "jwk"))
  {
    var g1 := Connect(g, k1, u1, o1).0;
    var g2 := Spawn(g1, sdk, withCreds).0;
    assert g2 == Globals(Some(Instance(k1, u1, o1)), Get(withCreds, "jwk"));
  }

  /** After a call with per-call credentials, the wallet shim hands out that call's key. */
  lemma CredentialsArmShim(g: Globals, sdk: AoSdk, params: Args)
    requires HasCredentials(params)
    ensures WalletShim.RequireJwk(Spawn(g, sdk, params).0) == Success(Get(params, "jwk"))
    ensures WalletShim.RequireJwk(Message(g, sdk, params).0) == Success(Get(params, "jwk"))
    ensures WalletShim.RequireJwk(GetResult(g, sdk, params).0) == Success(Get(params, "jwk"))
  {
  }
}
