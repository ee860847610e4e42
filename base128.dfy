/**
 * One base-128 subidentifier of an ASN.1 OBJECT IDENTIFIER, decoded as
 * parseBase128Int in cert/cert.go does it: big-endian groups of 7 value bits,
 * the 0x80 bit of each byte saying that another byte follows, and at most
 * four bytes per subidentifier.
 */
module Base128 {
  import opened Wrappers

  /** A Go `byte`. */
  type byte = x: int | 0 <= x < 0x100

  /** The two error types of cert/cert.go, each carrying its message. */
  datatype Asn1Error = StructuralError(msg: string) | SyntaxError(msg: string)

  const TooLarge: string := "base 128 integer too large"
  const Truncated: string := "truncated base 128 integer"

  /** The text `Error()` gives for an error. */
  function ErrorString(e: Asn1Error): (r: string)
    ensures |r| >= |e.msg| + 20 && r[..6] == "asn1: " && r[|r| - |e.msg|..] == e.msg
    ensures r[7] == (if e.StructuralError? then 't' else 'y')
  {
    match e
    case StructuralError(m) => "asn1: structure error: " + m
    case SyntaxError(m) => "asn1: syntax error: " + m
  }

  /** The bound below which every value of at most four bytes lies: 2^28. */
  const Cap: nat := 0x1000_0000

  /** `b & 0x80 != 0`: another byte of the same subidentifier follows. */
  predicate More(b: byte) { b >= 0x80 }

  /** `b & 0x7f`: the seven value bits of a byte. */
  function Low7(b: byte): nat { b % 0x80 }

  function Pow128(n: nat): (r: nat)
    ensures r > 0
  {
    if n == 0 then 1 else 0x80 * Pow128(n - 1)
  }

  /**
   * The big-endian concatenation of the low seven bits of every byte, as
   * `ret <<= 7; ret |= int(b & 0x7f)` accumulates it: n bytes give 7n bits.
   */
  function Value(bs: seq<byte>): (v: nat)
    ensures v < Pow128(|bs|)
    decreases |bs|
  {
    if bs == [] then 0 else Value(bs[..|bs| - 1]) * 0x80 + Low7(bs[|bs| - 1])
  }

  /** bytes[from..to] is one subidentifier: one to four bytes, only the last without the 0x80 bit. */
  predicate IsSubidentifier(bytes: seq<byte>, from: nat, to: nat)
  {
    from < to <= |bytes| && to - from <= 4 && !More(bytes[to - 1]) &&
    forall k :: from <= k < to - 1 ==> More(bytes[k])
  }

  /** Four bytes with the 0x80 bit from j on. */
  predicate FourHighAt(bytes: seq<byte>, j: nat)
  {
    j + 4 <= |bytes| && forall k :: j <= k < j + 4 ==> More(bytes[k])
  }

  /** Four bytes with the 0x80 bit from j on, and input left after them. */
  predicate LongRunAt(bytes: seq<byte>, j: nat)
  {
    FourHighAt(bytes, j) && j + 4 < |bytes|
  }

  /** From `from` on, the input ends (after at most four bytes) before any byte without the 0x80 bit. */
  predicate TruncatedAt(bytes: seq<byte>, from: nat)
  {
    |bytes| <= from + 4 && forall k :: from <= k < |bytes| ==> More(bytes[k])
  }

  lemma CapBound(bs: seq<byte>)
    requires |bs| <= 4
    ensures Value(bs) < Cap
  {
    assert Pow128(4) == Cap;
    if |bs| < 4 {
      assert Pow128(3) < Cap && Pow128(2) < Cap && Pow128(1) < Cap && Pow128(0) < Cap;
    }
  }

  /**
   * Decodes the subidentifier starting at initOffset and returns its value and
   * the offset just past it. On error ret and offset keep the values the loop
   * reached, as in Go.
   */
  method ParseBase128Int(bytes: seq<byte>, initOffset: nat) returns (ret: int, offset: nat, err: Option<Asn1Error>)
    ensures err.None? <==> !LongRunAt(bytes, initOffset) && !TruncatedAt(bytes, initOffset)
    ensures err.None? ==> IsSubidentifier(bytes, initOffset, offset) &&
                          ret == Value(bytes[initOffset..offset]) && 0 <= ret < Cap
    ensures LongRunAt(bytes, initOffset) ==>
              err == Some(StructuralError(TooLarge)) && offset == initOffset + 4 &&
              ret == Value(bytes[initOffset..offset])
    ensures TruncatedAt(bytes, initOffset) ==>
              err == Some(SyntaxError(Truncated)) &&
              offset == (if initOffset < |bytes| then |bytes| else initOffset) &&
              ret == (if initOffset < |bytes| then Value(bytes[initOffset..]) else 0)
  {
    offset, ret, err := initOffset, 0, None;
    var shifted := 0;
    while offset < |bytes|
      invariant 0 <= shifted <= 4 && offset == initOffset + shifted
      invariant shifted > 0 ==> offset <= |bytes|
      invariant ret == if shifted == 0 then 0 else Value(bytes[initOffset..offset])
      invariant forall k :: initOffset <= k < offset ==> More(bytes[k])
      invariant err.None?
    {
      if shifted == 4 {
        err := Some(StructuralError(TooLarge));
        return;
      }
      ret := ret * 0x80;
      var b := bytes[offset];
      ret := ret + Low7(b);
      assert bytes[initOffset..offset + 1][..offset - initOffset] == bytes[initOffset..offset];
      offset := offset + 1;
      if !More(b) {
        CapBound(bytes[initOffset..offset]);
        return;
      }
      shifted := shifted + 1;
    }
    err := Some(SyntaxError(Truncated));
    assert shifted > 0 ==> bytes[initOffset..] == bytes[initOffset..offset];
  }

  /** The bytes carrying the 0x80 bit that precede the last byte of the minimal encoding of v * 128 + x. */
  function Prefix(v: nat): (r: seq<byte>)
    decreases v
  {
    if v == 0 then [] else Prefix(v / 0x80) + [v % 0x80 + 0x80]
  }

  /** The minimal encoding of v, as encoding/asn1 writes a subidentifier. */
  function Encode(v: nat): seq<byte>
  {
    Prefix(v / 0x80) + [v % 0x80]
  }

  lemma {:induction false} PrefixFacts(v: nat, n: nat)
    requires v < Pow128(n)
    ensures Value(Prefix(v)) == v && |Prefix(v)| <= n
    ensures forall k :: 0 <= k < |Prefix(v)| ==> More(Prefix(v)[k])
    decreases v
  {
    if v != 0 {
      assert n > 0;
      PrefixFacts(v / 0x80, n - 1);
      var p := Prefix(v);
      assert p[..|p| - 1] == Prefix(v / 0x80);
    }
  }

  /** Every value below 2^28 is encoded in one to four bytes that decode back to it. */
  lemma EncodeDecode(v: nat)
    requires v < Cap
    ensures 1 <= |Encode(v)| <= 4 && IsSubidentifier(Encode(v), 0, |Encode(v)|)
    ensures Value(Encode(v)) == v
  {
    assert Pow128(3) * 0x80 == Cap;
    PrefixFacts(v / 0x80, 3);
    var e := Encode(v);
    assert e[..|e| - 1] == Prefix(v / 0x80);
  }

  /** The quotient and remainder of q * 128 + r, for r a seven-bit group. */
  lemma SplitGroup(v: nat, q: nat, r: nat)
    requires v == q * 0x80 + r && r < 0x80
    ensures v / 0x80 == q && v % 0x80 == r
  {
  }

  /** A run of bytes with the 0x80 bit that does not start with 0x80 is the prefix of its own value. */
  lemma {:induction false} HighRunPrefix(hs: seq<byte>)
    requires forall k :: 0 <= k < |hs| ==> More(hs[k])
    requires hs != [] ==> hs[0] != 0x80
    ensures Prefix(Value(hs)) == hs
    decreases |hs|
  {
    if hs != [] {
      var init, b := hs[..|hs| - 1], hs[|hs| - 1];
      assert hs == init + [b];
      HighRunPrefix(init);
      var w := Value(hs);
      SplitGroup(w, Value(init), Low7(b));
      assert w != 0 by {
        if init == [] {
          assert Low7(b) != 0;
        } else {
          assert Value(init) != 0;
        }
      }
      assert Low7(b) + 0x80 == b;
    }
  }

  /** A minimal subidentifier (no leading 0x80 group) is re-encoded to the same bytes. */
  lemma DecodeEncode(bs: seq<byte>)
    requires IsSubidentifier(bs, 0, |bs|) && bs[0] != 0x80
    ensures Encode(Value(bs)) == bs
  {
    var init, last := bs[..|bs| - 1], bs[|bs| - 1];
    HighRunPrefix(init);
    assert Low7(last) == last;
    assert Value(bs) == Value(init) * 0x80 + last;
    EncodeGroup(Value(bs), Value(init), last);
    LastSplit(bs);
  }

  /** The last group of an encoding is the value modulo 128, the rest is the prefix of the quotient. */
  lemma EncodeGroup(v: nat, q: nat, r: nat)
    requires v == q * 0x80 + r && r < 0x80
    ensures Encode(v) == Prefix(q) + [r]
  {
    SplitGroup(v, q, r);
  }

  lemma LastSplit(s: seq<byte>)
    requires s != []
    ensures s[..|s| - 1] + [s[|s| - 1]] == s
  {
  }

  /** A leading 0x80 byte adds nothing: non-minimal encodings decode to the same value. */
  lemma {:induction false} LeadingZeroGroup(bs: seq<byte>)
    ensures Value([0x80] + bs) == Value(bs)
    decreases |bs|
  {
    if bs != [] {
      var x := [0x80] + bs;
      assert x[..|x| - 1] == [0x80] + bs[..|bs| - 1];
      LeadingZeroGroup(bs[..|bs| - 1]);
    }
  }
}
