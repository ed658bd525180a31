/** The optional value used for JavaScript's null and undefined. */
module Wrappers {

  datatype Option<+T> = None | Some(value: T)
}

/** Shared vocabulary: bytes, and the foreign primitives
    (viem, the browser's TextEncoder) that the client calls but that are not
    part of this model. Each primitive is a function value handed to the
    operations that use it, so every property below holds for ANY behaviour
    of those primitives unless a lemma states an assumption about them.
    A primitive that can throw on the inputs the client gives it returns an
    Option, None standing for the exception. */
module Platform {
  import opened Wrappers

  /** One octet, as held in a JavaScript Uint8Array. */
  newtype byte = x: int | 0 <= x < 256

  type Bytes = seq<byte>

  /** The JavaScript values that reach viem's `toBytes` from this client:
      a number (the selected move), a string (the secret or an address),
      or `undefined` (the account address before a wallet is known). */
  datatype JsValue = Undefined | Number(n: int) | Str(s: string)

  /** The foreign functions the client calls.
      - toBytes:    viem `toBytes`, any value to its byte encoding
      - keccak256:  viem `keccak256`, preimage bytes to digest bytes
      - textEncode: `TextEncoder.prototype.encode`, a string to its UTF-8 bytes
      - parseEther: viem `parseEther`, a decimal ether string to wei; None
                    when it throws (a string that is not a plain decimal)
      - formatEther: viem `formatEther`, wei to a decimal ether string */
  datatype Primitives = Primitives(
    toBytes: JsValue -> Bytes,
    keccak256: Bytes -> Bytes,
    textEncode: string -> Bytes,
    parseEther: string -> Option<int>,
    formatEther: int -> string)

  /** Two different inputs on which f agrees: what "breaking" a hash means. */
  predicate Collision<X(==), Y(==)>(f: X -> Y, x: X, y: X) {
    x != y && f(x) == f(y)
  }
}
