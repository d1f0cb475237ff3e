/**
 The hash and the signature scheme, named at the edge as in ts/src/hash.ts. Both are left
 uninterpreted: every theorem holds for whatever functions these are.
 */
module Crypto {
  import opened Bytes
  import opened Preimages

  /** Keccak-256: some function from byte strings to 32 bytes, about which nothing more is known. */
  const KECCAK256: Bytes -> Digest

  /** Verification of section 5.1.7 of RFC 8032 on a 32-byte key and a 64-byte signature. */
  const ED25519: (Bytes, Bytes, Bytes) -> bool

  predicate Ed25519Verify(publicKey: Bytes, message: Bytes, signature: Bytes) {
    |publicKey| == 32 && |signature| == 64 && ED25519(publicKey, message, signature)
  }

  function HashOf(m: Message): Digest
    requires WellFormed(m)
  {
    KECCAK256(Layout(m))
  }

  /**
   Two byte strings that break the hash, one out of each of two given lists of preimages. The sets
   are always those one particular computation hashed, so this is never true merely because a hash
   to 32 bytes has collisions somewhere.
   */
  ghost predicate CollisionBetween(xs: set<Bytes>, ys: set<Bytes>) {
    exists x, y :: x in xs && y in ys && Collide(x, y)
  }

  predicate Collide(x: Bytes, y: Bytes) {
    x != y && KECCAK256(x) == KECCAK256(y)
  }

  /** Two messages with one digest are one message, or their preimages are a collision. */
  lemma SameHash(m: Message, n: Message, xs: set<Bytes>, ys: set<Bytes>)
    requires WellFormed(m) && WellFormed(n) && HashOf(m) == HashOf(n)
    requires Layout(m) in xs && Layout(n) in ys
    ensures m == n || CollisionBetween(xs, ys)
  {
    if Layout(m) == Layout(n) {
      JointlyInjective(m, n);
    } else {
      assert Collide(Layout(m), Layout(n));
    }
  }

  lemma CollisionGrows(xs: set<Bytes>, ys: set<Bytes>, xs': set<Bytes>, ys': set<Bytes>)
    requires CollisionBetween(xs, ys) && xs <= xs' && ys <= ys'
    ensures CollisionBetween(xs', ys')
  {
    var x, y :| x in xs && y in ys && Collide(x, y);
    assert x in xs' && y in ys' && Collide(x, y);
  }
}
