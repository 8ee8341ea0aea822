/** The text of the `[UInt8]` array literal in a generated getter:
    `bytes.map { String($0) }.joined(separator: ", ")`, wrapped in brackets,
    and a strict reader for it. */
module ByteList {
  import opened Wrappers
  import opened Text
  import Decimal
  import Utf8

  /** `String(b)` for a byte: its decimal digits. */
  function ShowByte(b: bv8): (r: string)
    ensures |r| > 0
    ensures forall i :: 0 <= i < |r| ==> Decimal.IsDigit(r[i])
  {
    Decimal.Show(b as int)
  }

  function Shown(bs: seq<bv8>): (r: seq<string>)
    ensures |r| == |bs|
    ensures forall i :: 0 <= i < |bs| ==> r[i] == ShowByte(bs[i])
  {
    seq(|bs|, i requires 0 <= i < |bs| => ShowByte(bs[i]))
  }

  /** The comma-separated decimal list; empty for no bytes. */
  function ListText(bs: seq<bv8>): string
  {
    JoinWith(Shown(bs), ", ")
  }

  /** The array literal over all of `bs`. */
  function ArrayText(bs: seq<bv8>): string
  {
    "[" + ListText(bs) + "]"
  }

  /** The array literal as `encodedCode` writes it: the two lists are
      joined by a comma of their own, whether or not they are empty. */
  function AsWrittenArrayText(encrypted: seq<bv8>, cipher: seq<bv8>): string
  {
    "[" + ListText(encrypted) + ", " + ListText(cipher) + "]"
  }

  /** Number of leading decimal digits of `s`. */
  function DigitCount(s: string): (n: nat)
    ensures n <= |s|
    ensures forall i :: 0 <= i < n ==> Decimal.IsDigit(s[i])
    ensures n < |s| ==> !Decimal.IsDigit(s[n])
  {
    if |s| > 0 && Decimal.IsDigit(s[0]) then 1 + DigitCount(s[1..]) else 0
  }

  /** Reads a non-empty list of byte literals separated by `", "`; `None`
      when anything else is found or a literal exceeds 255. */
  function ParseList(s: string): (r: Option<seq<bv8>>)
    ensures r.Some? ==> |r.value| > 0
    decreases |s|
  {
    var n := DigitCount(s);
    if n == 0 then None
    else
      var v := Decimal.Read(s[..n]);
      if v >= 0x100 then None
      else if n == |s| then Some([Utf8.ToByte(v)])
      else if n + 2 <= |s| && s[n..n + 2] == ", " then
        match ParseList(s[n + 2..])
        case None => None
        case Some(rest) => Some([Utf8.ToByte(v)] + rest)
      else None
  }

  /** Reads an array literal: brackets around nothing or around a list. */
  function ParseArray(s: string): (r: Option<seq<bv8>>)
    ensures r.Some? ==> |s| >= 2 && s[0] == '[' && s[|s| - 1] == ']'
  {
    if |s| >= 2 && s[0] == '[' && s[|s| - 1] == ']' then
      var inner := s[1..|s| - 1];
      if inner == "" then Some([]) else ParseList(inner)
    else None
  }

  lemma {:induction false} DigitCountOf(a: string, b: string)
    requires forall i :: 0 <= i < |a| ==> Decimal.IsDigit(a[i])
    requires |b| > 0 ==> !Decimal.IsDigit(b[0])
    ensures DigitCount(a + b) == |a|
  {
    var s := a + b;
    if |a| > 0 {
      assert s[0] == a[0];
      assert s[1..] == a[1..] + b;
      DigitCountOf(a[1..], b);
    } else {
      assert s == b;
    }
  }

  /** A byte printed and read back, then narrowed, is the byte. */
  lemma ReadShowByte(b: bv8)
    ensures Decimal.Read(ShowByte(b)) == b as int
    ensures Utf8.ToByte(b as int) == b
  {
    Decimal.ReadShow(b as int);
    Utf8.ToByteOf(b);
  }

  lemma ListTextCons(bs: seq<bv8>)
    requires |bs| > 1
    ensures ListText(bs) == ShowByte(bs[0]) + ", " + ListText(bs[1..])
  {
    assert Shown(bs)[1..] == Shown(bs[1..]);
  }

  /** One byte literal reads as that byte. */
  lemma ParseListOne(b: bv8)
    ensures ParseList(ShowByte(b)) == Some([b])
  {
    var h := ShowByte(b);
    ReadShowByte(b);
    DigitCountOf(h, "");
    assert h + "" == h;
    assert h[..|h|] == h;
  }

  /** A byte literal and `", "` in front of a list add that byte in front
      of the list's bytes. */
  lemma ParseListCons(b: bv8, rest: string)
    requires ParseList(rest).Some?
    ensures ParseList(ShowByte(b) + ", " + rest) == Some([b] + ParseList(rest).value)
  {
    var h := ShowByte(b);
    ReadShowByte(b);
    var s := h + (", " + rest);
    assert ShowByte(b) + ", " + rest == s;
    DigitCountOf(h, ", " + rest);
    var n := DigitCount(s);
    assert n == |h| && n < |s|;
    assert s[..n] == h;
    assert Decimal.Read(s[..n]) == b as int < 0x100;
    assert s[n..n + 2] == ", ";
    assert s[n + 2..] == rest;
  }
  /** Every non-empty list reads back as the bytes it lists. */
  lemma {:induction false} ListRoundTrip(bs: seq<bv8>)
    requires |bs| > 0
    ensures ParseList(ListText(bs)) == Some(bs)
  {
    if |bs| == 1 {
      assert ListText(bs) == ShowByte(bs[0]);
      ParseListOne(bs[0]);
      assert bs == [bs[0]];
    } else {
      ListTextCons(bs);
      ListRoundTrip(bs[1..]);
      ParseListCons(bs[0], ListText(bs[1..]));
      assert [bs[0]] + bs[1..] == bs;
    }
  }

  /** The bracketed literal reads back as exactly the bytes it was written
      from, for any number of them. */
  lemma ArrayRoundTrip(bs: seq<bv8>)
    ensures ParseArray(ArrayText(bs)) == Some(bs)
  {
    var s := ArrayText(bs);
    assert s[1..|s| - 1] == ListText(bs);
    if |bs| > 0 {
      ListRoundTrip(bs);
      assert ListText(bs) != "" by {
        assert |ShowByte(bs[0])| > 0;
        if |bs| > 1 {
          ListTextCons(bs);
        }
      }
    }
  }

  /** Joining the two lists with a comma is the list of both, as long as
      neither is empty. */
  lemma ListAppend(a: seq<bv8>, b: seq<bv8>)
    requires |a| > 0 && |b| > 0
    ensures ListText(a + b) == ListText(a) + ", " + ListText(b)
  {
    assert Shown(a + b) == Shown(a) + Shown(b);
    JoinAppend(Shown(a), Shown(b), ", ");
  }

  /** For a non-empty value the literal as written is the literal of the
      scrambled bytes followed by the cipher bytes. */
  lemma AsWrittenAgrees(encrypted: seq<bv8>, cipher: seq<bv8>)
    requires |encrypted| > 0 && |cipher| > 0
    ensures AsWrittenArrayText(encrypted, cipher) == ArrayText(encrypted + cipher)
  {
    ListAppend(encrypted, cipher);
  }

  /** For an empty value the literal as written is `[, ]`, which is not an
      array literal at all. */
  lemma AsWrittenEmptyBroken()
    ensures AsWrittenArrayText([], []) == "[, ]"
    ensures ParseArray(AsWrittenArrayText([], [])) == None
  {
    var s := AsWrittenArrayText([], []);
    assert s == "[, ]";
    assert s[1..|s| - 1] == ", ";
    assert DigitCount(", ") == 0;
  }

  /** The literal is a single line. */
  lemma ArrayTextOneLine(bs: seq<bv8>)
    ensures '\n' !in ArrayText(bs)
  {
    var ps := Shown(bs);
    forall k | 0 <= k < |ps|
      ensures '\n' !in ps[k]
    {
      assert forall j :: 0 <= j < |ps[k]| ==> Decimal.IsDigit(ps[k][j]);
    }
    JoinWithout(ps, ", ", '\n');
  }
}
