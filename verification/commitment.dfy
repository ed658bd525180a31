/** `generateCommitment` of app/src/utils/commitment.js: the move, the secret
    and the address are each converted by viem's `toBytes`, concatenated in
    that order with no separator or length prefix, and hashed with keccak256.
    Both foreign functions are parameters (see Platform.Primitives). */
module Commitment {
  import opened Wrappers
  import opened Platform

  /** The hashed bytes: move bytes, then secret bytes, then address bytes. */
  function Preimage(moveBytes: Bytes, secretBytes: Bytes, addressBytes: Bytes): (p: Bytes)
    ensures |p| == |moveBytes| + |secretBytes| + |addressBytes|
    ensures p[..|moveBytes|] == moveBytes
    ensures p[|moveBytes|..|moveBytes| + |secretBytes|] == secretBytes
    ensures p[|moveBytes| + |secretBytes|..] == addressBytes
  {
    moveBytes + secretBytes + addressBytes
  }

  datatype Parts = Parts(moveBytes: Bytes, secretBytes: Bytes, addressBytes: Bytes)

  /** Cuts a preimage back into its three parts, given the widths of the move
      and address encodings; None when the preimage is too short for them. */
  function Split(p: Bytes, moveWidth: nat, addressWidth: nat): (r: Option<Parts>)
    ensures r.Some? <==> moveWidth + addressWidth <= |p|
    ensures r.Some? ==> |r.value.moveBytes| == moveWidth && |r.value.addressBytes| == addressWidth
  {
    if moveWidth + addressWidth <= |p| then
      Some(Parts(p[..moveWidth], p[moveWidth..|p| - addressWidth], p[|p| - addressWidth..]))
    else None
  }

  /** `generateCommitment(move, secret, address)` for arbitrary JavaScript
      arguments: the digest of bytes that, cut at the widths of the move and
      address encodings, are exactly the three encodings in argument order. */
  function GenerateCommitment(lib: Primitives, move: JsValue, secret: JsValue, address: JsValue): (r: Bytes)
    ensures exists p: Bytes ::
              && lib.keccak256(p) == r
              && Split(p, |lib.toBytes(move)|, |lib.toBytes(address)|)
                 == Some(Parts(lib.toBytes(move), lib.toBytes(secret), lib.toBytes(address)))
  {
    var p := Preimage(lib.toBytes(move), lib.toBytes(secret), lib.toBytes(address));
    SplitPreimage(lib.toBytes(move), lib.toBytes(secret), lib.toBytes(address));
    lib.keccak256(p)
  }

  /** Splitting a preimage at the widths of its own parts recovers the parts. */
  lemma SplitPreimage(moveBytes: Bytes, secretBytes: Bytes, addressBytes: Bytes)
    ensures Split(Preimage(moveBytes, secretBytes, addressBytes), |moveBytes|, |addressBytes|)
         == Some(Parts(moveBytes, secretBytes, addressBytes))
  {
    var p := Preimage(moveBytes, secretBytes, addressBytes);
    assert p[|moveBytes|..|p| - |addressBytes|] == secretBytes;
    assert p[|p| - |addressBytes|..] == addressBytes;
  }

  /** Every split, put back together, is the preimage it came from. */
  lemma PreimageOfSplit(p: Bytes, moveWidth: nat, addressWidth: nat)
    requires moveWidth + addressWidth <= |p|
    ensures var parts := Split(p, moveWidth, addressWidth).value;
      Preimage(parts.moveBytes, parts.secretBytes, parts.addressBytes) == p
  {
    var parts := Split(p, moveWidth, addressWidth).value;
    assert parts.moveBytes + parts.secretBytes + parts.addressBytes == p;
  }

  /** With the move and address encodings of fixed width, the preimage determines
      all three parts: distinct triples give distinct preimages. */
  lemma PreimageInjective(m1: Bytes, s1: Bytes, a1: Bytes, m2: Bytes, s2: Bytes, a2: Bytes)
    requires |m1| == |m2| && |a1| == |a2|
    requires Preimage(m1, s1, a1) == Preimage(m2, s2, a2)
    ensures m1 == m2 && s1 == s2 && a1 == a2
  {
    SplitPreimage(m1, s1, a1);
    SplitPreimage(m2, s2, a2);
  }

  /** Without fixed widths the layout is ambiguous: moving a byte from the secret
      into the address leaves the preimage unchanged. */
  lemma PreimageAmbiguousWithoutFixedWidths(m: Bytes, s: Bytes, a: Bytes, x: byte)
    ensures Preimage(m, s + [x], a) == Preimage(m, s, [x] + a)
    ensures Parts(m, s + [x], a) != Parts(m, s, [x] + a)
  {
    assert (m + (s + [x])) + a == (m + s) + ([x] + a);
    assert |s + [x]| != |s|;
  }

  /** Commitment uniqueness reduces to the hash: when the move and address
      encodings have fixed widths, equal commitments come from equal move,
      secret and address encodings, or else the two preimages are a keccak256
      collision. */
  lemma CommitmentBinding(lib: Primitives, m1: JsValue, s1: JsValue, a1: JsValue,
                          m2: JsValue, s2: JsValue, a2: JsValue)
    requires |lib.toBytes(m1)| == |lib.toBytes(m2)| && |lib.toBytes(a1)| == |lib.toBytes(a2)|
    requires GenerateCommitment(lib, m1, s1, a1) == GenerateCommitment(lib, m2, s2, a2)
    ensures || (lib.toBytes(m1) == lib.toBytes(m2) && lib.toBytes(s1) == lib.toBytes(s2)
                && lib.toBytes(a1) == lib.toBytes(a2))
            || Collision(lib.keccak256, Preimage(lib.toBytes(m1), lib.toBytes(s1), lib.toBytes(a1)),
                         Preimage(lib.toBytes(m2), lib.toBytes(s2), lib.toBytes(a2)))
  {
    var p1 := Preimage(lib.toBytes(m1), lib.toBytes(s1), lib.toBytes(a1));
    var p2 := Preimage(lib.toBytes(m2), lib.toBytes(s2), lib.toBytes(a2));
    if p1 == p2 {
      PreimageInjective(lib.toBytes(m1), lib.toBytes(s1), lib.toBytes(a1),
                        lib.toBytes(m2), lib.toBytes(s2), lib.toBytes(a2));
    }
  }

  /** The commitment depends on its arguments only through their byte encodings,
      so two argument triples with the same encodings commit identically. */
  lemma CommitmentDeterministic(lib: Primitives, m1: JsValue, s1: JsValue, a1: JsValue,
                                m2: JsValue, s2: JsValue, a2: JsValue)
    requires lib.toBytes(m1) == lib.toBytes(m2)
    requires lib.toBytes(s1) == lib.toBytes(s2)
    requires lib.toBytes(a1) == lib.toBytes(a2)
    ensures GenerateCommitment(lib, m1, s1, a1) == GenerateCommitment(lib, m2, s2, a2)
  {
  }
}
