# arweave_bridge, modelled in Dafny

The bridge is a browser-side adapter. A host application reaches three
small pieces of logic through globals, and this project models and proves
each of them:

- **The base64url codec** in `bridge.mjs`. `toBase64Url` and `fromBase64Url`
  move bytes across the host boundary. They use the URL-safe alphabet of
  section 5 of RFC 4648, with padding left off as section 3.2 allows.
  `btoa` and `atob` are not treated as black boxes:
  - `btoa` is the encoding of section 4 of RFC 4648.
  - `atob` is the forgiving-base64 decode of the WHATWG Infra standard:
    1. ASCII whitespace is removed.
    2. When the length is a multiple of four, one or two final `=` are dropped.
    3. A length of 1 mod 4 and any character outside the alphabet are errors.
    4. The bits a final partial group leaves over are ignored.

  The text encoding the wallet shim uses is UTF-8 as RFC 3629 defines it,
  with a validating decoder as its partner.
- **The wallet shim** in `wallet_shim.mjs`, the object installed as
  `globalThis.arweaveWallet`. It guards on the ambient key `__JWK__`
  (`requireJwk`), normalises input to bytes (`toUint8`) and exposes five
  members: `getActiveAddress`, `signMessage`, `signDataItem`, `connect` and
  `getPermissions`.
- **The connection resolution** in `aoconnect_bridge.mjs`. `doAction` tries
  three routes in order:
  1. an ephemeral connection built from per-call credentials;
  2. the shared connection stored by `AOConnect.connect`;
  3. the stateless SDK entry point.

  If none applies, it fails. `doMethodAction` and `spawn`, `message` and
  `result` are built on top of `doAction`.

The two process-wide cells, `globalThis.aoInstance` and `globalThis.__JWK__`,
are the record `Runtime.Globals`. Every operation that changes them takes the
cells and returns the new cells together with its outcome. JavaScript
exceptions become the `Failure` side of `Wrappers.Result`.

The external libraries are parameters of the functions that call them. These
are arweave's `crypto.sign` and `wallets.jwkToAddress`, the arbundles
`createData`/`sign`/`getRaw` chain, and aoconnect's connection methods and
stateless `spawn`/`message`/`result`. aoconnect's signer is
`createSigner(globalThis.arweaveWallet)`, and it reads `__JWK__` through the
shim when it signs. So every SDK parameter also receives the key that is
ambient at the moment of the call.

Modules, one per file:

| file | module | covers |
|---|---|---|
| wrappers.dfy | Wrappers | `Option`, `Result` |
| runtime.dfy | Runtime | bytes, JavaScript values and truthiness, `&&`, `??`, destructuring defaults, the global cells, errors |
| utf8.dfy | Utf8 | `TextEncoder.encode` and its inverse |
| base64.dfy | Base64 | `btoa`, `atob` |
| bridge.dfy | Bridge | `toBase64Url`, `fromBase64Url`, `sign` |
| walletshim.dfy | WalletShim | `requireJwk`, `toUint8`, the wallet object |
| aoconnect.dfy | AoConnect | `createConnectedInstance` through `AOConnect.result` |

Behaviours of the code worth knowing:

- **The ambient key outlives the call.** A call with per-call credentials
  leaves the shared slot `aoInstance` untouched, but it replaces the ambient
  key. A later call without credentials reaches the connection stored by
  `connect(k1, ...)` and signs with the per-call key, not `k1`
  (`AoConnect.SharedSignsWithLatestKey`).
- **When `connect` wins.** A call without credentials that directly follows
  two `connect` calls reaches the second connection with the second key
  (`AoConnect.ConnectLastWins`). A credentialed call in between changes the
  key, as above.
- **`fromBase64Url` accepts more than `toBase64Url` produces.** It also
  accepts the padded standard alphabet (`Bridge.AcceptsStandardEncoding`).
- **Whitespace counts toward the padding.** `atob` skips ASCII whitespace,
  but the re-padding loop counts it. Input whose length is a multiple of four
  reaches `atob` unpadded, so its whitespace is skipped
  (`Bridge.AlignedLengthNotPadded`). A single space between pieces that fill
  whole groups makes the length 1 mod 4: three `=` are appended and decoding
  fails. So "Zm9vZm9v" decodes and "Zm9v Zm9v" does not
  (`Bridge.WhitespaceCountsTowardPadding`, `Bridge.SpacedVector`).
- **Trailing bits.** Two encodings that differ only in their ignored
  trailing bits decode to the same bytes (`Bridge.DecodeIgnoresTrailingBits`).

## Model

| member | source | states |
|---|---|---|
| Bridge.RoundTrip | arweave_bridge/src/bridge.mjs:17-30 | for every byte sequence, decoding the encoding gives the same bytes back, whether the encoding dropped zero, one or two `=` |
| Bridge.ToBase64UrlShape | arweave_bridge/src/bridge.mjs:17-21 | the encoding uses only URL-safe symbols, never contains `+`, `/` or `=`, and has length 4*(n/3) plus 0, 2 or 3 for n % 3 = 0, 1, 2, so never 1 mod 4 |
| Bridge.ToBase64Url | arweave_bridge/src/bridge.mjs:17-21 | toBase64Url is the unpadded standard encoding of the bytes, written in the URL-safe alphabet: only URL-safe symbols, 4*(n/3) plus 0, 2 or 3 of them |
| Bridge.ToUrlAlphabet | arweave_bridge/src/bridge.mjs:20 | same length; every `+` becomes `-` and every `/` becomes `_`, every other character is kept, and no `+` or `/` is left |
| Bridge.FromUrlAlphabet | arweave_bridge/src/bridge.mjs:24 | same length; every `-` becomes `+` and every `_` becomes `/`, every other character is kept, and no `-` or `_` is left |
| Bridge.FromBase64Url | arweave_bridge/src/bridge.mjs:23-30 | succeeds exactly when the forgiving decode of the mapped and re-padded text does, with the same bytes; every failure is InvalidCharacter, and every input of length 1 mod 4 fails |
| Bridge.UrlVector | arweave_bridge/src/bridge.mjs:17-30 | the bytes 251, 255, whose values include 62 and 63, encode to "-_8", which decodes back to them |
| Bridge.AlignedLengthNotPadded | arweave_bridge/src/bridge.mjs:24-26 | on a length divisible by 4, fromBase64Url decodes the mapped text exactly as the forgiving decode does, whitespace included |
| Bridge.WhitespaceCountsTowardPadding | arweave_bridge/src/bridge.mjs:25-26 | atob skips a space between two whitespace-free pieces, but when the pieces fill whole groups, fromBase64Url fails on the spaced text |
| Bridge.SpacedVector | arweave_bridge/src/bridge.mjs:23-30 | "Zm9vZm9v" decodes and "Zm9v Zm9v" is rejected with InvalidCharacter |
| Bridge.UrlAlphabetInverse | arweave_bridge/src/bridge.mjs:20-24 | mapping `-`→`+`, `_`→`/` undoes `+`→`-`, `/`→`_` on strings free of `-` and `_`, and the other way round on strings free of `+` and `/` |
| Bridge.UrlAlphabetOfStd | arweave_bridge/src/bridge.mjs:20-24 | the two mappings are inverse bijections between standard-alphabet and URL-safe-alphabet strings |
| Bridge.StripTrailing | arweave_bridge/src/bridge.mjs:20 | removing `/c+$/` leaves a prefix, removes only `c`, and leaves no `c` at the end |
| Bridge.StripTrailingExact | arweave_bridge/src/bridge.mjs:20 | a string that does not end in `c`, followed by any run of `c`, loses exactly that run |
| Bridge.PadTo4 | arweave_bridge/src/bridge.mjs:25 | the result has a length divisible by 4, keeps the input as its prefix, and adds fewer than four characters, all `=` |
| Bridge.CharCodes | arweave_bridge/src/bridge.mjs:27-28 | one byte per character, each byte the character code modulo 256 |
| Bridge.FromBase64UrlOfUrlSymbols | arweave_bridge/src/bridge.mjs:23-30 | on URL-safe characters of a length not 1 mod 4, decoding maps the alphabet back and decodes the characters without any padding |
| Bridge.UrlSymbolsDecode | arweave_bridge/src/bridge.mjs:23-30 | on URL-safe characters, decoding succeeds exactly when the length is not 1 mod 4, and then gives 3 bytes per 4 characters plus 0, 1 or 2 |
| Bridge.LengthOneMod4Rejected | arweave_bridge/src/bridge.mjs:25-26 | every input of length 1 mod 4 is rejected with InvalidCharacter, whatever its characters |
| Bridge.TriplePaddingRejected | arweave_bridge/src/bridge.mjs:26 | atob rejects any string that ends in three `=` |
| Bridge.AcceptsStandardEncoding | arweave_bridge/src/bridge.mjs:23-30 | the padded standard encoding of any bytes decodes to those bytes as well |
| Bridge.DecodeIgnoresTrailingBits | arweave_bridge/src/bridge.mjs:26-28 | "AA" and "AB" both decode to the single byte 0, so decoding is not injective |
| Bridge.Sign | arweave_bridge/src/bridge.mjs:46-50 | succeeds exactly when the message decodes and the external signature succeeds; a decode or signing error is passed on; on success the result is toBase64Url of the signature, uses only URL-safe symbols, and decodes back to exactly that signature |
| Base64.Btoa | arweave_bridge/src/bridge.mjs:19 | btoa succeeds exactly on strings of code points below 256, fails with InvalidCharacter otherwise; its output is 4 characters per started group of 3, each a symbol or `=` |
| Base64.Rfc4648Vectors | arweave_bridge/src/bridge.mjs:19 | btoa gives the seven encodings of section 10 of RFC 4648, from "" to "foobar" |
| Base64.Rfc4648DecodeVectors | arweave_bridge/src/bridge.mjs:26 | atob reads "Zm9vYg==" and "Zm9vYmE=" as "foob" and "fooba" |
| Base64.EncodeHighPair | arweave_bridge/src/bridge.mjs:19 | the bytes 251, 255 encode to "+/8", the two symbols for 62 and 63 |
| Base64.SymbolIsTable | arweave_bridge/src/bridge.mjs:19 | each value 0 to 63 is written as its entry of Table 1 of RFC 4648 |
| Base64.SplitGroupBits | arweave_bridge/src/bridge.mjs:19 | the four values of a group carry the group's 24 bits, most significant first |
| Base64.SplitFinalBits | arweave_bridge/src/bridge.mjs:19 | a final one or two bytes are the leading 8 or 16 bits of their values, followed by 4 or 2 zero bits |
| Base64.SextetsGroup | arweave_bridge/src/bridge.mjs:19 | the k-th four values of the encoding are the split of the k-th three bytes |
| Base64.SextetsFinal | arweave_bridge/src/bridge.mjs:19 | after the whole groups, the values are those of the final one or two bytes |
| Base64.PadBitsZero | arweave_bridge/src/bridge.mjs:19 | the last value of an encoding that ends in a partial group is a multiple of 16 after one byte and of 4 after two, as section 3.5 of RFC 4648 requires |
| Base64.BinaryString | arweave_bridge/src/bridge.mjs:18 | one character per byte, whose code is the byte, so btoa always accepts it |
| Base64.RemoveWhitespace | arweave_bridge/src/bridge.mjs:26 | the result is no longer than the input and has no ASCII whitespace |
| Base64.RemoveWhitespaceKeeps | arweave_bridge/src/bridge.mjs:26 | the result holds exactly the input's characters that are not whitespace |
| Base64.NoWhitespaceUnchanged | arweave_bridge/src/bridge.mjs:26 | text without whitespace passes step 1 unchanged |
| Base64.RemoveWhitespaceAppend | arweave_bridge/src/bridge.mjs:26 | removing whitespace from a concatenation is removing it from each part |
| Base64.StripPadding | arweave_bridge/src/bridge.mjs:26 | the result is a prefix at most two shorter, only `=` are removed and only from a length divisible by 4, and one or two are removed whenever the text ends in them |
| Base64.ForgivingDecode | arweave_bridge/src/bridge.mjs:26 | decoding succeeds exactly when the cleaned input's length is not 1 mod 4 and all its characters are symbols; the byte count follows from the length; failures are InvalidCharacter |
| Base64.Atob | arweave_bridge/src/bridge.mjs:26 | atob succeeds exactly when the forgiving decode does, and returns a binary string whose character codes are the decoded bytes |
| Base64.AtobBtoa | arweave_bridge/src/bridge.mjs:19-26 | atob undoes btoa on every binary string |
| Base64.DecodeEncodeSymbols | arweave_bridge/src/bridge.mjs:19-26 | decoding the unpadded symbols of an encoding gives the bytes back, for every length |
| Base64.DecodePadded | arweave_bridge/src/bridge.mjs:26 | symbols followed by the `=` that complete their last group decode as the symbols alone |
| Base64.JoinSextets | arweave_bridge/src/bridge.mjs:19-26 | regrouping the 6-bit values of any byte sequence into 8-bit values gives the bytes back |
| Base64.Sextets | arweave_bridge/src/bridge.mjs:19 | n bytes give 4*(n/3) values plus 0, 2 or 3 |
| Base64.Join | arweave_bridge/src/bridge.mjs:26 | 4k values give 3k bytes, and a final 2 or 3 values give 1 or 2 more |
| Base64.SymbolValue | arweave_bridge/src/bridge.mjs:26 | reading a symbol of the standard alphabet gives the value that writes it |
| Base64.ValuesOfSpell | arweave_bridge/src/bridge.mjs:19-26 | reading back the symbols written for any values gives those values |
| Runtime.NullishVersusDefault | arweave_bridge/src/aoconnect_bridge.mjs:161 | a destructuring default such as `tags = []` replaces only undefined and keeps null, while `tags ?? []` in signDataItem replaces both; on any other value both keep it |
| Utf8.DecodeEncode | arweave_bridge/src/wallet_shim.mjs:32 | the validating RFC 3629 decoder recovers every string from its UTF-8 encoding |
| Utf8.EncodeScalar | arweave_bridge/src/wallet_shim.mjs:32 | one to four bytes per code point, a single byte exactly for ASCII and equal to its code, continuation bytes after the first |
| Utf8.Encode | arweave_bridge/src/wallet_shim.mjs:32 | a string of n code points encodes to between n and 4n bytes |
| Utf8.EncodeAscii | arweave_bridge/src/wallet_shim.mjs:32 | ASCII text encodes to its character codes, one byte each |
| WalletShim.RequireJwk | arweave_bridge/src/wallet_shim.mjs:25-28 | succeeds exactly when `__JWK__` is truthy, returning it unchanged; otherwise MissingCredential |
| WalletShim.ToUint8 | arweave_bridge/src/wallet_shim.mjs:30-36 | accepts exactly Uint8Array, string and ArrayBuffer: bytes unchanged, text as UTF-8 that decodes back to it, a buffer byte for byte; anything else is UnsupportedDataType |
| WalletShim.ToUint8Ascii | arweave_bridge/src/wallet_shim.mjs:32 | ASCII text becomes its character codes |
| WalletShim.GetActiveAddress | arweave_bridge/src/wallet_shim.mjs:41-44 | without a key it fails with MissingCredential before the address derivation runs; with one, it is the address of the ambient key |
| WalletShim.SignMessage | arweave_bridge/src/wallet_shim.mjs:46-53 | the key check comes first, then the data check; the signature is over the normalised bytes with the ambient key and comes back as an ArrayBuffer; signing errors pass through |
| WalletShim.SignMessageIgnoresOptions | arweave_bridge/src/wallet_shim.mjs:46-48 | the options argument, including hashAlgorithm, never changes the outcome |
| WalletShim.SignMessageTextAsBytes | arweave_bridge/src/wallet_shim.mjs:46-50 | signing a string is signing the Uint8Array of its UTF-8 encoding |
| WalletShim.ItemOptions | arweave_bridge/src/wallet_shim.mjs:60-64 | target and anchor are passed as given; tags that are null or undefined become the empty list, other tags are passed as given |
| WalletShim.SignDataItem | arweave_bridge/src/wallet_shim.mjs:56-72 | the key check comes first, then the ArweaveSigner constructor, then the data check; the raw signed item comes back as a Uint8Array; constructor and bundler errors pass through |
| WalletShim.SignerRejectionPrecedesData | arweave_bridge/src/wallet_shim.mjs:57-60 | when the ArweaveSigner constructor rejects the ambient key, signDataItem fails with that error whatever the item holds |
| WalletShim.NoKeyNoWork | arweave_bridge/src/wallet_shim.mjs:41-58 | without a truthy key, address lookup, message signing and data-item signing all fail with MissingCredential, whatever the external libraries would do |
| WalletShim.InitialRefuses | arweave_bridge/src/wallet_shim.mjs:23-28 | with `__JWK__` still null as loaded, every signing member refuses |
| WalletShim.Connect | arweave_bridge/src/wallet_shim.mjs:75 | connect always succeeds |
| WalletShim.GetPermissions | arweave_bridge/src/wallet_shim.mjs:76 | getPermissions is always the empty list |
| AoConnect.CreateConnectedInstance | arweave_bridge/src/aoconnect_bridge.mjs:63-73 | the shared slot is untouched, the shim afterwards hands out exactly this key (or refuses a falsy one), and the connection targets the given URL and scheduler |
| AoConnect.StripConnectionArgs | arweave_bridge/src/aoconnect_bridge.mjs:78-81 | removes exactly the keys hbUrl and operator; every other key keeps its value |
| AoConnect.StripConnectionArgsIdempotent | arweave_bridge/src/aoconnect_bridge.mjs:78-81 | stripping twice is stripping once, and arguments without routing keys are unchanged |
| AoConnect.HasDirectConnectionArgs | arweave_bridge/src/aoconnect_bridge.mjs:87-89 | true exactly when jwk, args.hbUrl and args.operator are all truthy |
| AoConnect.Resolve | arweave_bridge/src/aoconnect_bridge.mjs:94-111 | each route holds exactly under its own condition, so exactly one route is taken and failure happens only when neither credentials nor a usable shared connection exist |
| AoConnect.DoAction | arweave_bridge/src/aoconnect_bridge.mjs:94-112 | the shared slot never changes and the ambient key changes only to a jwk that passed the direct-credentials check. Per route: the ephemeral route calls the instance action on a new connection and sets the key; the shared route calls it on the stored connection and changes nothing; the stateless route gets the args unstripped plus signer and sets the key; otherwise NoConnectionAvailable with nothing changed |
| AoConnect.DoActionArmsShim | arweave_bridge/src/aoconnect_bridge.mjs:94-107 | every route that does not fail leaves the shim with a usable key, provided the shared connection was made with one |
| AoConnect.MethodArgs | arweave_bridge/src/aoconnect_bridge.mjs:125 | the routing fields written over the payload are the ones given, and stripping them gives back the stripped payload |
| AoConnect.DoMethodAction | arweave_bridge/src/aoconnect_bridge.mjs:117-131 | with full credentials, the named method runs on a fresh connection with the stripped payload and the per-call key; else it runs on the shared connection with the ambient key; else NoConnectionAvailable. The slot never changes and errors come back unchanged |
| AoConnect.DoMethodActionNeverStateless | arweave_bridge/src/aoconnect_bridge.mjs:117-126 | the stateless route is never chosen, so the outcome does not depend on the stateless action |
| AoConnect.MethodPayloadStripped | arweave_bridge/src/aoconnect_bridge.mjs:117-126 | whenever a connection is available, the method receives the payload without hbUrl and operator |
| AoConnect.Connect | arweave_bridge/src/aoconnect_bridge.mjs:139-142 | the shared slot holds the returned connection built from these arguments, and the shim hands out this key |
| AoConnect.ConnectLastWins | arweave_bridge/src/aoconnect_bridge.mjs:139-142 | after two connects, a call without credentials goes to the second connection and signs with the second key |
| AoConnect.Spawn | arweave_bridge/src/aoconnect_bridge.mjs:147-156 | spawn lands where the routing reference says, with payload `{data}` and without routing fields |
| AoConnect.SpawnPayload | arweave_bridge/src/aoconnect_bridge.mjs:147-151 | the payload has only data, which defaults to "" only when undefined |
| AoConnect.Message | arweave_bridge/src/aoconnect_bridge.mjs:161-170 | message lands where the routing reference says, with payload `{process, tags, data}` |
| AoConnect.MessagePayload | arweave_bridge/src/aoconnect_bridge.mjs:161-165 | the payload has exactly process, tags and data; tags default to [] and data to "" only when undefined |
| AoConnect.GetResult | arweave_bridge/src/aoconnect_bridge.mjs:175-184 | result lands where the routing reference says, with payload `{process, message}` |
| AoConnect.ResultPayload | arweave_bridge/src/aoconnect_bridge.mjs:175-179 | the payload has exactly process and message, as given |
| AoConnect.MessageCarriesNoRouting | arweave_bridge/src/aoconnect_bridge.mjs:117-170 | the arguments the SDK receives for a message never contain hbUrl or operator, however they were supplied |
| AoConnect.NoConnectionFails | arweave_bridge/src/aoconnect_bridge.mjs:100-111 | with no shared connection and incomplete credentials, spawn, message and result fail with NoConnectionAvailable and change nothing |
| AoConnect.EphemeralLeavesSlotEmpty | arweave_bridge/src/aoconnect_bridge.mjs:95-98 | with no shared connection, a call with credentials uses its own connection, leaves the slot empty, and a following call without credentials still fails |
| AoConnect.SharedSignsWithLatestKey | arweave_bridge/src/aoconnect_bridge.mjs:63-73 | after connect(k1, ...) and a call with per-call key k2, a call without credentials goes to the k1 connection but signs with k2 |
| AoConnect.CredentialsArmShim | arweave_bridge/src/aoconnect_bridge.mjs:63-65 | after a call with complete credentials, the shim hands out that call's key |

## Left out

- Cryptography, address derivation and bundling. `arweave.crypto.sign`,
  `wallets.jwkToAddress`, the `ArweaveSigner` constructor and arbundles
  `createData`/`sign`/`getRaw` are function parameters. Nothing is assumed
  about what they return. `wallets.generate` is not modelled, so `generateWallet` and
  `getAddress` (bridge.mjs:34-43) are not modelled beyond `sign`.
- External calls as functions. Every external call is a Dafny function, so
  it is deterministic in its arguments: the same arguments give the same
  result. Real signing may be randomised (RSA-PSS is), so lemmas that
  compare two calls are about the arguments handed to the library.
  WalletShim.SignMessageIgnoresOptions and WalletShim.SignMessageTextAsBytes
  say that the same key and the same bytes reach `crypto.sign`. They do not
  say two real signatures are equal.
- The aoconnect SDK. The connection-bound methods and the stateless
  `spawn`/`message`/`result` are parameters. Network behaviour is therefore
  out of reach. That includes a repeated `result` giving the same outcome.
- AoConnect.Connect: aoconnect's `connect` is modelled as building a
  connection value tagged with the key, URL and scheduler, and
  `createSigner(globalThis.arweaveWallet)` as a fixed signer value. Both are
  assumed never to throw. A throwing `connect` would leave `__JWK__` set
  and the old shared connection in place, which this contract (and those of
  AoConnect.CreateConnectedInstance and AoConnect.DoAction) does not cover.
- Concurrency. Calls are modelled one after another. The races on
  `__JWK__` and `aoInstance` between interleaved asynchronous calls are
  interleavings and are not modelled. Only their sequential consequence is
  (`AoConnect.SharedSignsWithLatestKey`).
- `console.error` in `doMethodAction`. The `Arweave.init` bootstrap, the
  host-facing global registration and `injectArweaveWalletShim` are also
  left out: they are logging and wiring.
- The build configuration `vite.config.js`, which has no logic.
- The argument-count limit of `String.fromCharCode(...bytes)` for very
  large arrays, because it is an engine limit.
- JavaScript numbers. They are integers only, with no NaN and no
  fractions. Only their truthiness matters to the code.
- Lone surrogates in strings. Dafny's `char` is a Unicode scalar value, so
  `TextEncoder`'s replacement of lone surrogates by U+FFFD cannot occur.
- WalletShim.SignMessage: `sigBytes.buffer ?? sigBytes` is modelled as an
  ArrayBuffer holding exactly the signature bytes. It does not model a
  Uint8Array view into a larger buffer, because that depends on how the
  crypto library allocates.
- AoConnect.Spawn: the contract does not model calling spawn, message or
  result with no argument object at all. That is a TypeError in the
  destructuring, not something the bridge handles. The same holds for
  AoConnect.Message and AoConnect.GetResult.
- WalletShim.SignDataItem: the contract does not model a data item that is
  itself null or undefined, for the same reason.
