/** The XOR obfuscation of `encodedCode`: each UTF-8 byte is XORed with a
    cipher byte, and the generated array holds the scrambled bytes followed
    by the cipher. The cipher bytes, random in the source, are a parameter. */
module Cipher {

  /** Scrambles `plain` with `cipher`, byte by byte, as the source's
      `encrypted.indices.forEach` loop does. */
  method Encrypt(plain: seq<bv8>, cipher: seq<bv8>) returns (encrypted: seq<bv8>)
    requires |cipher| == |plain|
    ensures |encrypted| == |plain|
    ensures forall i :: 0 <= i < |plain| ==> encrypted[i] == plain[i] ^ cipher[i]
  {
    encrypted := plain;
    var i := 0;
    while i < |plain|
      invariant 0 <= i <= |plain|
      invariant |encrypted| == |plain|
      invariant forall j :: 0 <= j < i ==> encrypted[j] == plain[j] ^ cipher[j]
      invariant forall j :: i <= j < |plain| ==> encrypted[j] == plain[j]
    {
      encrypted := encrypted[i := encrypted[i] ^ cipher[i]];
      i := i + 1;
    }
  }

  /** The scrambled bytes as a value. */
  function Xor(plain: seq<bv8>, cipher: seq<bv8>): (r: seq<bv8>)
    requires |cipher| == |plain|
    ensures |r| == |plain|
    ensures forall i :: 0 <= i < |plain| ==> r[i] == plain[i] ^ cipher[i]
  {
    seq(|plain|, i requires 0 <= i < |plain| => plain[i] ^ cipher[i])
  }

  /** The array literal's contents: `[encrypted..., cipher...]`. */
  function Scramble(plain: seq<bv8>, cipher: seq<bv8>): (a: seq<bv8>)
    requires |cipher| == |plain|
    ensures |a| == 2 * |plain|
    ensures a[..|plain|] == Xor(plain, cipher)
    ensures a[|plain|..] == cipher
  {
    Xor(plain, cipher) + cipher
  }

  /** What the generated getter computes: with `count = a.count / 2`,
      byte `i` is `a[i] ^ a[i + count]`. */
  method Unscramble(a: seq<bv8>) returns (r: seq<bv8>)
    ensures |r| == |a| / 2
    ensures forall i :: 0 <= i < |r| ==> r[i] == a[i] ^ a[i + |a| / 2]
  {
    var count := |a| / 2;
    r := [];
    var i := 0;
    while i < count
      invariant 0 <= i <= count
      invariant |r| == i
      invariant forall j :: 0 <= j < i ==> r[j] == a[j] ^ a[j + count]
    {
      r := r + [a[i] ^ a[i + count]];
      i := i + 1;
    }
  }

  /** The getter's result as a value. */
  function Decode(a: seq<bv8>): (r: seq<bv8>)
    ensures |r| == |a| / 2
    ensures forall i :: 0 <= i < |r| ==> r[i] == a[i] ^ a[i + |a| / 2]
  {
    seq(|a| / 2, i requires 0 <= i < |a| / 2 => a[i] ^ a[i + |a| / 2])
  }

  /** The headline law: whatever the cipher bytes, the generated getter
      reproduces the plain bytes. */
  lemma RoundTrip(plain: seq<bv8>, cipher: seq<bv8>)
    requires |cipher| == |plain|
    ensures Decode(Scramble(plain, cipher)) == plain
  {
    var a := Scramble(plain, cipher);
    forall i | 0 <= i < |plain|
      ensures Decode(a)[i] == plain[i]
    {
      assert a[i + |plain|] == cipher[i];
      XorCancels(plain[i], cipher[i]);
    }
  }

  lemma XorCancels(p: bv8, c: bv8)
    ensures (p ^ c) ^ c == p
  {
  }

  /** The method versions compute what the functions describe, so the
      round trip holds of them too. */
  method EncodeThenDecode(plain: seq<bv8>, cipher: seq<bv8>) returns (decoded: seq<bv8>)
    requires |cipher| == |plain|
    ensures decoded == plain
  {
    var encrypted := Encrypt(plain, cipher);
    assert encrypted == Xor(plain, cipher);
    decoded := Unscramble(encrypted + cipher);
    assert decoded == Decode(Scramble(plain, cipher));
    RoundTrip(plain, cipher);
  }
}
