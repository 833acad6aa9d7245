/** The hex rendering both components apply to an MD5 digest: for each byte,
    `Integer.toHexString(0xff & b)`, left-padded with '0' when it has one digit.
    The digest itself is not modelled: callers pass its bytes in. */
module Hex {
  import opened Common

  /** A Java `byte`: a signed 8-bit value. */
  type JByte = b: int | -128 <= b < 128

  /** `0xff & b`: the byte's bits read as an unsigned number. */
  function Unsigned(b: JByte): (u: nat)
    ensures u < 256
    ensures (u - b) % 256 == 0
  {
    if b < 0 then b + 256 else b
  }

  lemma UnsignedInjective(a: JByte, b: JByte)
    requires Unsigned(a) == Unsigned(b)
    ensures a == b
  {
  }

  predicate IsHexChar(c: char) {
    '0' <= c <= '9' || 'a' <= c <= 'f'
  }

  predicate AllHex(s: string) {
    forall i :: 0 <= i < |s| ==> IsHexChar(s[i])
  }

  /** The value of one lowercase hex digit. */
  function DigitValue(c: char): (d: nat)
    requires IsHexChar(c)
    ensures d < 16
  {
    if c <= '9' then c as int - '0' as int else c as int - 'a' as int + 10
  }

  /** The lowercase hex digit of a value below 16. */
  function DigitChar(d: nat): (c: char)
    requires d < 16
    ensures IsHexChar(c)
    ensures DigitValue(c) == d
  {
    if d < 10 then ('0' as int + d) as char else ('a' as int + d - 10) as char
  }

  /** The number a string of lowercase hex digits denotes (most significant first). */
  function ValueOf(s: string): nat
    requires AllHex(s)
  {
    if |s| == 0 then 0 else ValueOf(s[..|s| - 1]) * 16 + DigitValue(s[|s| - 1])
  }

  /** `Integer.toHexString(v)` for a non-negative `v`: lowercase, no leading zeros. */
  function ToHexString(v: nat): (s: string)
    ensures 1 <= |s| && AllHex(s)
    ensures ValueOf(s) == v
    ensures |s| == 1 <==> v < 16
    ensures v < 256 ==> |s| <= 2
    ensures v > 0 ==> s[0] != '0'
    decreases v
  {
    if v < 16 then [DigitChar(v)]
    else
      var high := ToHexString(v / 16);
      var s := high + [DigitChar(v % 16)];
      assert s[..|s| - 1] == high;
      s
  }

  /** The value of the two hex digits at positions `2i` and `2i+1`. */
  function PairValue(s: string, i: nat): nat
    requires 2 * i + 1 < |s| && IsHexChar(s[2 * i]) && IsHexChar(s[2 * i + 1])
  {
    DigitValue(s[2 * i]) * 16 + DigitValue(s[2 * i + 1])
  }

  /** One pass of the digest loop: the byte's hex, zero-padded to two digits. */
  function ByteHex(b: JByte): (s: string)
    ensures |s| == 2 && AllHex(s)
    ensures PairValue(s, 0) == Unsigned(b)
  {
    var h := ToHexString(Unsigned(b));
    if |h| == 1 then
      assert ValueOf(h) == ValueOf(h[..0]) * 16 + DigitValue(h[0]);
      "0" + h
    else
      assert h[..1][..0] == [];
      assert ValueOf(h[..1]) == DigitValue(h[0]);
      h
  }

  /** The hex string `md5` builds from the digest bytes, in order. */
  function HexOf(digest: seq<JByte>): (s: string)
    ensures |s| == 2 * |digest|
    ensures AllHex(s)
    ensures forall i :: 0 <= i < |digest| ==> PairValue(s, i) == Unsigned(digest[i])
  {
    if |digest| == 0 then ""
    else
      var n := |digest| - 1;
      var front := HexOf(digest[..n]);
      var last := ByteHex(digest[n]);
      AppendPairs(front, last);
      assert forall i :: 0 <= i < n ==> digest[..n][i] == digest[i];
      front + last
  }

  /** Appending two hex digits keeps the pairs before them and adds one pair. */
  lemma AppendPairs(front: string, last: string)
    requires |front| % 2 == 0 && AllHex(front) && |last| == 2 && AllHex(last)
    ensures AllHex(front + last)
    ensures forall i :: 0 <= i < |front| / 2 ==> PairValue(front + last, i) == PairValue(front, i)
    ensures PairValue(front + last, |front| / 2) == PairValue(last, 0)
  {
    var s := front + last;
    forall i | 0 <= i < |front| / 2
      ensures PairValue(s, i) == PairValue(front, i)
    {
      assert s[2 * i] == front[2 * i];
      assert s[2 * i + 1] == front[2 * i + 1];
    }
  }

  /** Reading an even-length hex string back as unsigned byte values. */
  function Unhex(s: string): (bytes: seq<nat>)
    requires |s| % 2 == 0 && AllHex(s)
    ensures |bytes| == |s| / 2
    ensures forall i :: 0 <= i < |bytes| ==> bytes[i] < 256
  {
    seq(|s| / 2, i requires 0 <= i < |s| / 2 => PairValue(s, i))
  }

  /** Decoding the rendering gives back every digest byte, unsigned. */
  lemma UnhexOfHexOf(digest: seq<JByte>)
    ensures Unhex(HexOf(digest)) == seq(|digest|, i requires 0 <= i < |digest| => Unsigned(digest[i]))
  {
  }

  /** Distinct digests render to distinct strings. */
  lemma HexOfInjective(a: seq<JByte>, b: seq<JByte>)
    requires HexOf(a) == HexOf(b)
    ensures a == b
  {
    assert |a| == |b|;
    forall i | 0 <= i < |a|
      ensures a[i] == b[i]
    {
      assert PairValue(HexOf(a), i) == PairValue(HexOf(b), i);
      UnsignedInjective(a[i], b[i]);
    }
  }

  /** An MD5 digest (16 bytes) renders to 32 lowercase hex characters. */
  lemma Md5HexLength(digest: seq<JByte>)
    requires |digest| == 16
    ensures |HexOf(digest)| == 32 && NoColon(HexOf(digest))
  {
  }
}
