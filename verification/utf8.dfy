/** UTF-8, as `value.data(using: .utf8)` encodes a string and as the
    generated getter's `String(unsafeUninitializedCapacity:)` reads the
    bytes back. The arithmetic works on byte values as integers; the
    conversion to and from `bv8` is done once, at the edges. */
module Utf8 {
  import opened Wrappers

  predicate IsByte(x: int) {
    0 <= x < 0x100
  }

  /** The byte values of a Unicode scalar value: one to four of them. */
  function Code(c: char): (r: seq<int>)
    ensures 1 <= |r| <= 4
    ensures forall i :: 0 <= i < |r| ==> IsByte(r[i])
    ensures (c as int < 0x80) <==> |r| == 1
    ensures |r| == 1 ==> r[0] == c as int
  {
    var n := c as int;
    var m := n / 0x40;
    var k := m / 0x40;
    if n < 0x80 then [n]
    else if n < 0x800 then [0xC0 + m, 0x80 + n % 0x40]
    else if n < 0x10000 then [0xE0 + k, 0x80 + m % 0x40, 0x80 + n % 0x40]
    else [0xF0 + k / 0x40, 0x80 + k % 0x40, 0x80 + m % 0x40, 0x80 + n % 0x40]
  }

  /** The byte values of a string. */
  function Units(s: string): (r: seq<int>)
    ensures |s| <= |r| <= 4 * |s|
    ensures forall i :: 0 <= i < |r| ==> IsByte(r[i])
  {
    if |s| == 0 then [] else Code(s[0]) + Units(s[1..])
  }

  /** The byte whose value is `x`, counted up from zero so that the
      value is never reinterpreted as bits. */
  function ToByte(x: int): (b: bv8)
    requires 0 <= x < 0x100
    ensures b as int == x
  {
    if x == 0 then 0 else ToByte(x - 1) + 1
  }

  /** Narrowing a byte's value gives back the byte. */
  lemma ToByteOf(b: bv8)
    ensures ToByte(b as int) == b
  {
    SameValue(ToByte(b as int), b);
  }

  /** Bytes with the same value are the same byte. */
  lemma SameValue(b: bv8, c: bv8)
    requires b as int == c as int
    ensures b == c
  {
  }

  function ToBytes(xs: seq<int>): (r: seq<bv8>)
    requires forall i :: 0 <= i < |xs| ==> 0 <= xs[i] < 0x100
    ensures |r| == |xs|
    ensures forall i :: 0 <= i < |xs| ==> r[i] as int == xs[i]
  {
    seq(|xs|, i requires 0 <= i < |xs| => ToByte(xs[i]))
  }

  function FromBytes(bs: seq<bv8>): (r: seq<int>)
    ensures |r| == |bs|
    ensures forall i :: 0 <= i < |bs| ==> r[i] == bs[i] as int && IsByte(r[i])
  {
    seq(|bs|, i requires 0 <= i < |bs| => bs[i] as int)
  }

  /** `value.data(using: .utf8)` */
  function Encode(s: string): (r: seq<bv8>)
    ensures |s| <= |r| <= 4 * |s|
    ensures FromBytes(r) == Units(s)
  {
    ToBytes(Units(s))
  }

  predicate IsCont(b: int) {
    0x80 <= b < 0xC0
  }

  predicate IsScalar(n: int) {
    0 <= n < 0xD800 || 0xE000 <= n < 0x110000
  }

  /** Reads one scalar value off the front of `us`: the character and the
      number of bytes it took; `None` when the bytes are not well formed. */
  function DecodeChar(us: seq<int>): (r: Option<(char, nat)>)
    ensures r.Some? ==> 1 <= r.value.1 <= |us|
  {
    if |us| == 0 then None
    else
      var b0 := us[0];
      var n :=
        if 0 <= b0 < 0x80 then b0
        else if 0xC0 <= b0 < 0xE0 && |us| >= 2 && IsCont(us[1]) then
          (b0 - 0xC0) * 0x40 + (us[1] - 0x80)
        else if 0xE0 <= b0 < 0xF0 && |us| >= 3 && IsCont(us[1]) && IsCont(us[2]) then
          (b0 - 0xE0) * 0x1000 + (us[1] - 0x80) * 0x40 + (us[2] - 0x80)
        else if 0xF0 <= b0 < 0xF8 && |us| >= 4 && IsCont(us[1]) && IsCont(us[2]) && IsCont(us[3]) then
          (b0 - 0xF0) * 0x40000 + (us[1] - 0x80) * 0x1000 + (us[2] - 0x80) * 0x40 + (us[3] - 0x80)
        else -1;
      var len := if b0 < 0x80 then 1 else if b0 < 0xE0 then 2 else if b0 < 0xF0 then 3 else 4;
      if IsScalar(n) then Some((n as char, len)) else None
  }

  function DecodeUnits(us: seq<int>): Option<string>
    decreases |us|
  {
    if |us| == 0 then Some("")
    else match DecodeChar(us)
      case None => None
      case Some((c, len)) =>
        match DecodeUnits(us[len..])
        case None => None
        case Some(rest) => Some([c] + rest)
  }

  /** Reads a whole byte sequence as UTF-8. */
  function Decode(bs: seq<bv8>): Option<string>
  {
    DecodeUnits(FromBytes(bs))
  }

  lemma DecodeCode(c: char, rest: seq<int>)
    ensures DecodeChar(Code(c) + rest) == Some((c, |Code(c)|))
  {
    var n := c as int;
    var us := Code(c) + rest;
    var m := n / 0x40;
    var k := m / 0x40;
    assert us[..|Code(c)|] == Code(c);
    assert n == m * 0x40 + n % 0x40;
    assert m == k * 0x40 + m % 0x40;
    if 0x800 <= n < 0x10000 {
      assert n == k * 0x1000 + (m % 0x40) * 0x40 + n % 0x40;
    } else if 0x10000 <= n {
      assert k == (k / 0x40) * 0x40 + k % 0x40;
      assert n == (k / 0x40) * 0x40000 + (k % 0x40) * 0x1000 + (m % 0x40) * 0x40 + n % 0x40;
    }
  }

  lemma {:induction false} DecodeUnitsOf(s: string)
    ensures DecodeUnits(Units(s)) == Some(s)
  {
    if |s| > 0 {
      var e := Code(s[0]);
      var rest := Units(s[1..]);
      DecodeCode(s[0], rest);
      assert (e + rest)[|e|..] == rest;
      DecodeUnitsOf(s[1..]);
      assert [s[0]] + s[1..] == s;
    }
  }

  /** Decoding undoes encoding: the getter's bytes read back as the value. */
  lemma DecodeEncode(s: string)
    ensures Decode(Encode(s)) == Some(s)
  {
    DecodeUnitsOf(s);
  }
}
