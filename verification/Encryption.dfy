/**
 lib/encryption.js: temporary pages are XORed in place with a keystream chosen by
 the database key, the file name and the page index.
 */
module Encryption {
  import opened Common
  import opened Pages

  const TWO_64: nat := 0x1_0000_0000_0000_0000

  // libsodium, compact-encoding and Buffer.from, as functions: only their shape is known.
  datatype Primitives = Primitives(
    utf8: string -> Bytes,
    uint64: nat -> Bytes,
    genericHash: Bytes -> Bytes,
    stream: (Bytes, Bytes, nat) -> Bytes)
  {
    ghost predicate Lawful() {
      && (forall nonce, key, length :: |stream(nonce, key, length)| == length)
      && (forall a, b :: utf8(a) == utf8(b) ==> a == b)
      && (forall x :: |uint64(x)| == 8)
      && (forall x: nat, y: nat :: x < TWO_64 && y < TWO_64 && uint64(x) == uint64(y) ==> x == y)
    }
  }

  datatype Cipher = Cipher(key: Bytes, encryptionKey: Bytes, lib: Primitives) {
    function NonceInput(name: Name, index: nat): Bytes {
      key + lib.utf8(name) + lib.uint64(index)
    }

    function Keystream(name: Name, index: nat, length: nat): (ks: Bytes)
      requires lib.Lawful()
      ensures |ks| == length
    {
      lib.stream(lib.genericHash(NonceInput(name, index)), encryptionKey, length)
    }

    function Apply(page: Bytes, name: Name, index: nat): (r: Bytes)
      requires lib.Lawful()
      ensures |r| == |page|
    {
      Xor(page, Keystream(name, index, |page|))
    }
  }

  function Xor(a: Bytes, b: Bytes): (r: Bytes)
    requires |a| == |b|
    ensures |r| == |a|
  {
    seq(|a|, k requires 0 <= k < |a| => a[k] ^ b[k])
  }

  lemma XorTwice(x: Byte, y: Byte)
    ensures (x ^ y) ^ y == x
  {
  }

  /** Decrypting with the same name and index undoes encrypting. */
  lemma ApplyTwice(c: Cipher, page: Bytes, name: Name, index: nat)
    requires c.lib.Lawful()
    ensures c.Apply(c.Apply(page, name, index), name, index) == page
  {
    var ks := c.Keystream(name, index, |page|);
    var r := c.Apply(c.Apply(page, name, index), name, index);
    forall k | 0 <= k < |page| ensures r[k] == page[k] {
      XorTwice(page[k], ks[k]);
    }
  }

  /** Different pages of different temporary files hash different nonce inputs. */
  lemma NonceInputsDiffer(c: Cipher, n: Name, i: nat, m: Name, j: nat)
    requires c.lib.Lawful() && i < TWO_64 && j < TWO_64
    ensures c.NonceInput(n, i) == c.NonceInput(m, j) <==> n == m && i == j
  {
    if c.NonceInput(n, i) == c.NonceInput(m, j) {
      var a, b := c.NonceInput(n, i), c.NonceInput(m, j);
      assert a[|a| - 8..] == c.lib.uint64(i) && b[|b| - 8..] == c.lib.uint64(j);
      assert a[|c.key|..|a| - 8] == c.lib.utf8(n) && b[|c.key|..|b| - 8] == c.lib.utf8(m);
    }
  }

  class ParaQLEncryption {
    const cipher: Cipher

    constructor (cipher: Cipher)
      ensures this.cipher == cipher
    {
      this.cipher := cipher;
    }

    // Both directions XOR the buffer where it stands; to encrypt, it may be a slice page[from..to].
    method Encrypt(page: array<Byte>, from: nat, to: nat, name: Name, index: nat)
      requires cipher.lib.Lawful() && from <= to <= page.Length
      modifies page
      ensures page[..] == old(page[..from]) + cipher.Apply(old(page[from..to]), name, index) + old(page[to..])
      ensures var nonce := cipher.lib.genericHash(cipher.key + cipher.lib.utf8(name) + cipher.lib.uint64(index));
        var ks := cipher.lib.stream(nonce, cipher.encryptionKey, to - from);
        forall k :: 0 <= k < page.Length ==>
          page[k] == if from <= k < to then old(page[k]) ^ ks[k - from] else old(page[k])
    {
      XorInPlace(page, from, to, cipher.Keystream(name, index, to - from));
    }

    // Only whole buffers are decrypted.
    method Decrypt(page: array<Byte>, name: Name, index: nat)
      requires cipher.lib.Lawful()
      modifies page
      ensures page[..] == cipher.Apply(old(page[..]), name, index)
      ensures var nonce := cipher.lib.genericHash(cipher.key + cipher.lib.utf8(name) + cipher.lib.uint64(index));
        var ks := cipher.lib.stream(nonce, cipher.encryptionKey, page.Length);
        forall k :: 0 <= k < page.Length ==> page[k] == old(page[k]) ^ ks[k]
    {
      assert page[..0] == [] && page[0..page.Length] == page[..] && page[page.Length..] == [];
      XorInPlace(page, 0, page.Length, cipher.Keystream(name, index, page.Length));
    }

    method XorInPlace(page: array<Byte>, from: nat, to: nat, ks: Bytes)
      requires from <= to <= page.Length && |ks| == to - from
      modifies page
      ensures page[..] == old(page[..from]) + Xor(old(page[from..to]), ks) + old(page[to..])
      ensures forall k :: 0 <= k < page.Length ==>
        page[k] == if from <= k < to then old(page[k]) ^ ks[k - from] else old(page[k])
    {
      for k := from to to
        invariant forall j :: 0 <= j < page.Length ==>
          page[j] == if from <= j < k then old(page[j]) ^ ks[j - from] else old(page[j])
      {
        page[k] := page[k] ^ ks[k - from];
      }
    }
  }
}
