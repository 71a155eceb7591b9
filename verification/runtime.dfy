/**
 * The slice of the JavaScript runtime the bridge relies on: the values it
 * inspects, their truthiness, the two process-wide cells it mutates
 * (`globalThis.aoInstance` and `globalThis.__JWK__`) and the errors it raises.
 */
module Runtime {
  import opened Wrappers

  /** An element of a Uint8Array. */
  type byte = x: int | 0 <= x < 256

  /** ECMAScript ToUint8: what storing the integer `x` into a `Uint8Array` element keeps. */
  function ByteOf(x: int): (b: byte)
    ensures 0 <= x < 256 ==> b == x
    ensures (x - b) % 256 == 0
  {
    x % 256
  }

  /** A JavaScript value, as far as the bridge looks into it. */
  datatype Value =
    | Undefined
    | Null
    | Bool(b: bool)
    | Num(n: int)
    | Str(s: string)
    | Bytes(bytes: seq<byte>)   // a Uint8Array
    | Buffer(data: seq<byte>)   // an ArrayBuffer
    | Arr(elems: seq<Value>)
    | Obj(ref: nat)             // any other object (a JWK record, a tag), known only by identity
    | WalletSigner              // the signer returned by createSigner(globalThis.arweaveWallet)

  /** JavaScript truthiness (ToBoolean); objects and arrays are always truthy. */
  predicate Truthy(v: Value) {
    match v
    case Undefined => false
    case Null => false
    case Bool(b) => b
    case Num(n) => n != 0
    case Str(s) => s != ""
    case _ => true
  }

  /** `a && b`: the first operand when it is falsy, otherwise the second. */
  function LogicalAnd(a: Value, b: Value): (r: Value)
    ensures r == a || r == b
    ensures Truthy(r) <==> Truthy(a) && Truthy(b)
  {
    if Truthy(a) then b else a
  }

  /** `a ?? b`: the second operand exactly when the first is null or undefined. */
  function Nullish(a: Value, b: Value): (r: Value)
    ensures r == a || r == b
    ensures Truthy(a) ==> r == a
    ensures r.Undefined? || r.Null? ==> r == b
  {
    if a.Undefined? || a.Null? then b else a
  }

  /** A destructuring default `{ x = d }`: applies only when the property reads as undefined (null is kept). */
  function WithDefault(a: Value, d: Value): (r: Value)
    ensures r == a || r == d
    ensures Truthy(a) ==> r == a
    ensures r.Undefined? ==> r == d
  {
    if a.Undefined? then d else a
  }

  /**
   * `??` and a destructuring default differ only on null: `??` replaces it,
   * the default keeps it. On undefined both give the default, and on any
   * other value both keep it.
   */
  lemma NullishVersusDefault(a: Value, d: Value)
    ensures a.Null? ==> Nullish(a, d) == d && WithDefault(a, d) == Null
    ensures a.Undefined? ==> Nullish(a, d) == d && WithDefault(a, d) == d
    ensures !a.Null? && !a.Undefined? ==> Nullish(a, d) == a && WithDefault(a, d) == a
  {
  }

  /** A plain JavaScript object used as a record of named arguments. */
  type Args = map<string, Value>

  /** Property read `m[key]`; a missing property reads as `undefined`. */
  function Get(m: Args, key: string): Value {
    if key in m then m[key] else Undefined
  }

  /**
   * An aoconnect connection, as returned by connect({MODE: "mainnet", signer, URL, SCHEDULER}).
   * It is opaque: the model only keeps the key that was ambient when it was
   * built, the hyperbeam URL and the scheduler (operator) it was built with.
   */
  datatype Instance = Instance(jwk: Value, url: Value, scheduler: Value)

  /** The two process-wide cells: `globalThis.aoInstance` and `globalThis.__JWK__`. */
  datatype Globals = Globals(aoInstance: Option<Instance>, jwk: Value)

  /** Both cells as the modules leave them when they are loaded: null. */
  const Initial: Globals := Globals(None, Null)

  /** What a bridge call can throw. */
  datatype Error =
    | MissingCredential       // requireJwk found no key
    | NoConnectionAvailable   // doAction found no route
    | UnsupportedDataType     // toUint8 got something that is not bytes or text
    | InvalidCharacter        // atob / btoa rejected their input
    | Sdk(reason: string)     // anything raised inside the external SDKs, passed on unchanged

  /** Outcome of a call into the external SDKs. */
  type SdkResult = Result<Value, Error>

  /** arweave.crypto.sign(jwk, bytes): an external RSA-PSS signature, left uninterpreted. */
  type SignFn = (Value, seq<byte>) -> Result<seq<byte>, Error>
}
