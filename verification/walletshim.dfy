/**
 * The Wander-style wallet object installed as `globalThis.arweaveWallet`.
 * Every signing member first insists on the ambient key `__JWK__`, then
 * normalises its input to bytes and hands both to an external library,
 * which is a function parameter here.
 */
module WalletShim {
  import opened Wrappers
  import opened Runtime
  import Utf8

  /** requireJwk: the ambient key when it is truthy, MissingCredential otherwise. */
  function RequireJwk(g: Globals): (r: Result<Value, Error>)
    ensures r.Success? ==> r.value == g.jwk && Truthy(r.value)
    ensures r.Failure? ==> r.error == MissingCredential && !Truthy(g.jwk)
  {
    if !Truthy(g.jwk) then Failure(MissingCredential) else Success(g.jwk)
  }

  /** The kinds of data toUint8 accepts: a Uint8Array, a string or an ArrayBuffer. */
  predicate IsByteSource(data: Value) {
    data.Bytes? || data.Str? || data.Buffer?
  }

  /** toUint8: bytes for a Uint8Array, a string (UTF-8, as TextEncoder) or an ArrayBuffer. */
  function ToUint8(data: Value): (r: Result<seq<byte>, Error>)
    ensures r.Success? <==> IsByteSource(data)
    ensures r.Failure? ==> r.error == UnsupportedDataType
    ensures data.Bytes? ==> r.value == data.bytes
    ensures data.Buffer? ==> r.value == data.data
    ensures data.Str? ==> Utf8.Decode(r.value) == Some(data.s)
    ensures data.Str? ==> |data.s| <= |r.value| <= 4 * |data.s|
  {
    match data
    case Bytes(b) => Success(b)
    case Str(s) => Utf8.DecodeEncode(s); Success(Utf8.Encode(s))
    case Buffer(d) => Success(d)
    case _ => Failure(UnsupportedDataType)
  }

  /** Text made only of ASCII characters reaches the signer as its character codes. */
  lemma ToUint8Ascii(s: string)
    requires forall i :: 0 <= i < |s| ==> s[i] as int < 0x80
    ensures ToUint8(Str(s)).Success?
    ensures |ToUint8(Str(s)).value| == |s|
    ensures forall i :: 0 <= i < |s| ==> ToUint8(Str(s)).value[i] == s[i] as int
  {
    Utf8.EncodeAscii(s);
  }

  /** arweave.wallets.jwkToAddress: external. */
  type AddressFn = Value -> Result<Value, Error>

  /** getActiveAddress: the address of the ambient key, which must be present. */
  function GetActiveAddress(g: Globals, toAddress: AddressFn): (r: Result<Value, Error>)
    ensures RequireJwk(g).Failure? ==> r == Failure(MissingCredential)
    ensures RequireJwk(g).Success? ==> r == toAddress(RequireJwk(g).value)
  {
    var jwk :- RequireJwk(g);
    toAddress(jwk)
  }

  /**
   * signMessage: signs the bytes of `data` with the ambient key and returns
   * the signature's ArrayBuffer. The options argument is read by nobody.
   */
  function SignMessage(g: Globals, data: Value, options: Value, sign: SignFn): (r: Result<Value, Error>)
    ensures !Truthy(g.jwk) ==> r == Failure(MissingCredential)
    ensures Truthy(g.jwk) && !IsByteSource(data) ==> r == Failure(UnsupportedDataType)
    ensures Truthy(g.jwk) && IsByteSource(data) ==>
              r == match sign(g.jwk, ToUint8(data).value)
                   case Failure(e) => Failure(e)
                   case Success(sig) => Success(Buffer(sig))
  {
    var jwk :- RequireJwk(g);
    var bytes :- ToUint8(data);
    var sig :- sign(jwk, bytes);
    Success(Buffer(sig))
  }

  /** hashAlgorithm and every other option have no effect on the signature. */
  lemma SignMessageIgnoresOptions(g: Globals, data: Value, o1: Value, o2: Value, sign: SignFn)
    ensures SignMessage(g, data, o1, sign) == SignMessage(g, data, o2, sign)
  {
  }

  /** A string is signed exactly as the Uint8Array of its UTF-8 encoding would be. */
  lemma SignMessageTextAsBytes(g: Globals, s: string, options: Value, sign: SignFn)
    ensures SignMessage(g, Str(s), options, sign) == SignMessage(g, Bytes(Utf8.Encode(s)), options, sign)
  {
  }

  /** The options object handed to createData. */
  datatype DataItemOptions = DataItemOptions(target: Value, anchor: Value, tags: Value)

  /** `new ArweaveSigner(jwk)`: external, and may reject the key. */
  type SignerFn = Value -> Result<Value, Error>

  /** createData(data, signer, options), then sign(signer), then getRaw(): external, given the signer. */
  type CreateSignedFn = (Value, seq<byte>, DataItemOptions) -> Result<seq<byte>, Error>

  /** The options signDataItem builds from a data item: tags default to the empty list. */
  function ItemOptions(item: Args): (o: DataItemOptions)
    ensures o.target == Get(item, "target") && o.anchor == Get(item, "anchor")
    ensures Get(item, "tags").Undefined? || Get(item, "tags").Null? ==> o.tags == Arr([])
    ensures !Get(item, "tags").Undefined? && !Get(item, "tags").Null? ==> o.tags == Get(item, "tags")
  {
    DataItemOptions(Get(item, "target"), Get(item, "anchor"), Nullish(Get(item, "tags"), Arr([])))
  }

  /**
   * signDataItem: the key first, then the signer built from it, then the
   * item's data as bytes, then the external bundler; the raw item comes back
   * as a Uint8Array.
   */
  function SignDataItem(g: Globals, item: Args, newSigner: SignerFn, create: CreateSignedFn): (r: Result<Value, Error>)
    ensures !Truthy(g.jwk) ==> r == Failure(MissingCredential)
    ensures Truthy(g.jwk) && newSigner(g.jwk).Failure? ==> r == Failure(newSigner(g.jwk).error)
    ensures Truthy(g.jwk) && newSigner(g.jwk).Success? && !IsByteSource(Get(item, "data")) ==>
              r == Failure(UnsupportedDataType)
    ensures Truthy(g.jwk) && newSigner(g.jwk).Success? && IsByteSource(Get(item, "data")) ==>
              r == match create(newSigner(g.jwk).value, ToUint8(Get(item, "data")).value, ItemOptions(item))
                   case Failure(e) => Failure(e)
                   case Success(raw) => Success(Bytes(raw))
  {
    var jwk :- RequireJwk(g);
    var signer :- newSigner(jwk);
    var bytes :- ToUint8(Get(item, "data"));
    var raw :- create(signer, bytes, ItemOptions(item));
    Success(Bytes(raw))
  }

  /** A key the signer constructor rejects fails signDataItem before the item is looked at. */
  lemma SignerRejectionPrecedesData(g: Globals, item1: Args, item2: Args, newSigner: SignerFn, create: CreateSignedFn)
    requires Truthy(g.jwk) && newSigner(g.jwk).Failure?
    ensures SignDataItem(g, item1, newSigner, create) == SignDataItem(g, item2, newSigner, create)
    ensures SignDataItem(g, item1, newSigner, create) == Failure(newSigner(g.jwk).error)
  {
  }

  /** With no ambient key none of the three signing members reaches the external libraries. */
  lemma NoKeyNoWork(g: Globals, data: Value, options: Value, item: Args,
                    toAddress: AddressFn, sign: SignFn, newSigner: SignerFn, create: CreateSignedFn)
    requires !Truthy(g.jwk)
    ensures GetActiveAddress(g, toAddress) == Failure(MissingCredential)
    ensures SignMessage(g, data, options, sign) == Failure(MissingCredential)
    ensures SignDataItem(g, item, newSigner, create) == Failure(MissingCredential)
  {
  }

  /** The shim as loaded, with `__JWK__` still null, refuses every signing request. */
  lemma InitialRefuses(data: Value, options: Value, item: Args,
                       toAddress: AddressFn, sign: SignFn, newSigner: SignerFn, create: CreateSignedFn)
    ensures GetActiveAddress(Initial, toAddress) == Failure(MissingCredential)
    ensures SignMessage(Initial, data, options, sign) == Failure(MissingCredential)
    ensures SignDataItem(Initial, item, newSigner, create) == Failure(MissingCredential)
  {
    NoKeyNoWork(Initial, data, options, item, toAddress, sign, newSigner, create);
  }

  /** connect(): a no-op that always succeeds. */
  function Connect(): (r: Result<(), Error>)
    ensures r.Success?
  {
    Success(())
  }

  /** getPermissions(): always the empty list. */
  function GetPermissions(): (r: seq<string>)
    ensures |r| == 0
  {
    []
  }
}
