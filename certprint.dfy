/**
 * The two formatting helpers of cert/cert.go that compute something:
 * PublicKeyAlgorithm, the name of an x509.PublicKeyAlgorithm value, and
 * PrettyPrintBytes, which breaks bytes into lines of colon-separated
 * upper-case hex pairs.
 */
module CertPrint {
  import opened Wrappers
  import opened Base128

  /** The name PublicKeyAlgorithm gives each x509.PublicKeyAlgorithm value. */
  function PublicKeyAlgorithm(n: int): (r: string)
    ensures r == "RSA" <==> n == 1
    ensures r == "DSA" <==> n == 2
    ensures r == "ECDSA" <==> n == 3
    ensures r == "UnknownPublicKeyAlgorithm" <==> !(1 <= n <= 3)
  {
    match n
    case 1 => "RSA"
    case 2 => "DSA"
    case 3 => "ECDSA"
    case _ => "UnknownPublicKeyAlgorithm"
  }

  // ---------------------------------------------------------------------
  // Hex pairs, as fmt's "% X" verb prints a byte slice.
  // ---------------------------------------------------------------------

  /** The upper-case hex digit of a value below 16. */
  function HexDigit(n: nat): (c: char)
    requires n < 16
    ensures '0' <= c <= '9' || 'A' <= c <= 'F'
  {
    if n < 10 then ('0' as int + n) as char else ('A' as int + n - 10) as char
  }

  /** The value of an upper-case hex digit, if c is one. */
  function DigitValue(c: char): (r: Option<nat>)
    ensures r.Some? ==> r.value < 16
  {
    if '0' <= c <= '9' then Some(c as int - '0' as int)
    else if 'A' <= c <= 'F' then Some(c as int - 'A' as int + 10)
    else None
  }

  lemma DigitValueOfHexDigit(n: nat)
    requires n < 16
    ensures DigitValue(HexDigit(n)) == Some(n)
  {
  }

  /** The two hex digits of a byte, high nibble first. */
  function HexPair(b: byte): (r: string)
    ensures |r| == 2
  {
    [HexDigit(b / 16), HexDigit(b % 16)]
  }

  /** The hex pairs of bs, separated by sep. */
  function Joined(bs: seq<byte>, sep: char): (r: string)
    ensures |r| == if bs == [] then 0 else 3 * |bs| - 1
    decreases |bs|
  {
    if bs == [] then ""
    else if |bs| == 1 then HexPair(bs[0])
    else HexPair(bs[0]) + [sep] + Joined(bs[1..], sep)
  }

  /** strings.Replace(str, from, to, -1) for single characters. */
  function ReplaceAll(str: string, from: char, to: char): (r: string)
    ensures |r| == |str|
    ensures forall k :: 0 <= k < |str| ==> r[k] == if str[k] == from then to else str[k]
  {
    seq(|str|, k requires 0 <= k < |str| => if str[k] == from then to else str[k])
  }

  /** Hex digits hold neither a space nor a colon, so replacing one separator by the other changes only the separators. */
  lemma {:induction false} SpacesToColons(bs: seq<byte>)
    ensures ReplaceAll(Joined(bs, ' '), ' ', ':') == Joined(bs, ':')
    decreases |bs|
  {
    if |bs| > 1 {
      SpacesToColons(bs[1..]);
      var a := Joined(bs, ' ');
      var c := Joined(bs, ':');
      assert a[3..] == Joined(bs[1..], ' ');
      assert c[3..] == Joined(bs[1..], ':');
      forall k | 0 <= k < |a|
        ensures ReplaceAll(a, ' ', ':')[k] == c[k]
      {
        if k >= 3 {
          assert a[k] == a[3..][k - 3];
          assert c[k] == c[3..][k - 3];
          assert ReplaceAll(a[3..], ' ', ':')[k - 3] == c[3..][k - 3];
        }
      }
    }
  }

  /** The byte two hex digits spell, if they are hex digits. */
  function PairValue(hi: char, lo: char): Option<byte>
  {
    var h, l := DigitValue(hi), DigitValue(lo);
    if h.Some? && l.Some? then Some(h.value * 16 + l.value) else None
  }

  /** Reads back a line of colon-separated hex pairs. */
  function ParseColonHex(str: string): (r: Option<seq<byte>>)
    decreases |str|
  {
    if str == [] then Some([])
    else if |str| < 2 || PairValue(str[0], str[1]).None? then None
    else if |str| == 2 then Some([PairValue(str[0], str[1]).value])
    else if |str| == 3 || str[2] != ':' then None
    else
      var rest := ParseColonHex(str[3..]);
      if rest.None? then None else Some([PairValue(str[0], str[1]).value] + rest.value)
  }

  /** The first pair, the separator and the rest of a joined line. */
  lemma JoinedParts(bs: seq<byte>, sep: char)
    requires bs != []
    ensures Joined(bs, sep)[0] == HexPair(bs[0])[0] && Joined(bs, sep)[1] == HexPair(bs[0])[1]
    ensures |bs| > 1 ==> Joined(bs, sep)[2] == sep && Joined(bs, sep)[3..] == Joined(bs[1..], sep)
  {
  }

  /** Two hex digits spell the byte they were printed from. */
  lemma PairValueOf(b: byte)
    ensures PairValue(HexPair(b)[0], HexPair(b)[1]) == Some(b)
  {
    DigitValueOfHexDigit(b / 16);
    DigitValueOfHexDigit(b % 16);
  }

  /** A line of PrettyPrintBytes determines the bytes it was made from. */
  lemma {:induction false} ParseJoined(bs: seq<byte>)
    ensures ParseColonHex(Joined(bs, ':')) == Some(bs)
    decreases |bs|
  {
    if bs != [] {
      var str := Joined(bs, ':');
      JoinedParts(bs, ':');
      PairValueOf(bs[0]);
      assert PairValue(str[0], str[1]) == Some(bs[0]);
      if |bs| == 1 {
        assert bs == [bs[0]];
      } else {
        ParseJoined(bs[1..]);
        assert [bs[0]] + bs[1..] == bs;
      }
    }
  }

  // ---------------------------------------------------------------------
  // Lines.
  // ---------------------------------------------------------------------

  /**
   * The number of whole lines: len(b)/lineLength when that is positive. Go
   * truncates the quotient toward zero, which for the non-negative len(b)
   * is what Dafny's `/` gives too; a negative lineLength yields no whole line.
   */
  function WholeLines(len: nat, lineLength: int): nat
    requires lineLength != 0
  {
    if lineLength > 0 then len / lineLength else 0
  }

  /**
   * The slices the first loop of PrettyPrintBytes collects: for each whole
   * line i, b[i*L:(i+1)*L-1], then the bytes from (len(b)/L)*L on if
   * len(b)%L is positive.
   */
  function Groups(b: seq<byte>, lineLength: int): (t: seq<seq<byte>>)
    requires lineLength != 0
    ensures |t| == WholeLines(|b|, lineLength) + (if |b| % lineLength > 0 then 1 else 0)
  {
    var n := WholeLines(|b|, lineLength);
    LastLine(|b|, lineLength);
    seq(n, i requires 0 <= i < n => LineBound(|b|, lineLength, i); b[i * lineLength..(i + 1) * lineLength - 1]) +
    (if |b| % lineLength > 0 then [b[(|b| / lineLength) * lineLength..]] else [])
  }

  /** Whole line i ends within the input. */
  lemma LineBound(len: nat, lineLength: int, i: nat)
    requires lineLength > 0 && i < len / lineLength
    ensures 0 <= i * lineLength <= (i + 1) * lineLength - 1 < (i + 1) * lineLength <= len
    ensures (i + 1) * lineLength == i * lineLength + lineLength
  {
    var n := len / lineLength;
    MulLe(0, i, lineLength);
    MulLe(i + 1, n, lineLength);
    assert (i + 1) * lineLength == i * lineLength + lineLength;
    assert n * lineLength <= len;
  }

  lemma {:induction false} MulLe(a: nat, b: nat, c: nat)
    requires a <= b
    ensures a * c <= b * c
    decreases b - a
  {
    if a < b {
      MulLe(a + 1, b, c);
      assert (a + 1) * c == a * c + c;
    }
  }

  /** Dividing a length by a negative line length gives no positive quotient. */
  lemma QuotientSign(len: nat, lineLength: int)
    requires lineLength != 0
    ensures len / lineLength > 0 ==> lineLength > 0
    ensures WholeLines(len, lineLength) == if len / lineLength > 0 then len / lineLength else 0
  {
  }

  /** The partial last line starts within the input. */
  lemma LastLine(len: nat, lineLength: int)
    requires lineLength != 0
    ensures 0 <= (len / lineLength) * lineLength <= len
    ensures len - (len / lineLength) * lineLength == len % lineLength
  {
  }

  /**
   * PrettyPrintBytes: groups the bytes, prints each group with "% X" and
   * turns the spaces into colons in place.
   */
  method PrettyPrintBytes(b: seq<byte>, lineLength: int) returns (s: seq<string>)
    requires lineLength != 0
    ensures |s| == |Groups(b, lineLength)|
    ensures forall i :: 0 <= i < |s| ==> s[i] == Joined(Groups(b, lineLength)[i], ':')
  {
    var t: seq<seq<byte>> := [];
    var i := 0;
    QuotientSign(|b|, lineLength);
    while i < |b| / lineLength
      invariant 0 <= i <= WholeLines(|b|, lineLength)
      invariant t == Groups(b, lineLength)[..i]
    {
      LineBound(|b|, lineLength, i);
      t := t + [b[i * lineLength..(i + 1) * lineLength - 1]];
      i := i + 1;
    }
    LastLine(|b|, lineLength);
    if |b| % lineLength > 0 {
      var last := |b| / lineLength;
      t := t + [b[last * lineLength..]];
    }
    assert t == Groups(b, lineLength);
    s := [];
    i := 0;
    while i < |t|
      invariant 0 <= i <= |t| && |s| == i
      invariant forall j :: 0 <= j < i ==> s[j] == Joined(t[j], ':')
    {
      s := s + [Joined(t[i], ' ')];
      SpacesToColons(t[i]);
      s := s[i := ReplaceAll(s[i], ' ', ':')];
      i := i + 1;
    }
  }

  // ---------------------------------------------------------------------
  // Whole lines lose their last byte: (i+1)*L-1 is an exclusive bound.
  // ---------------------------------------------------------------------

  /** The lines the first loop evidently means to collect: L bytes each, then the rest. */
  function IntendedGroups(b: seq<byte>, lineLength: int): (t: seq<seq<byte>>)
    requires lineLength > 0
    ensures |t| == |Groups(b, lineLength)|
  {
    var n := |b| / lineLength;
    LastLine(|b|, lineLength);
    seq(n, i requires 0 <= i < n => LineBound(|b|, lineLength, i); b[i * lineLength..(i + 1) * lineLength]) +
    (if |b| % lineLength > 0 then [b[n * lineLength..]] else [])
  }

  /** The concatenation of a list of byte slices. */
  function Flatten(t: seq<seq<byte>>): seq<byte>
    decreases |t|
  {
    if t == [] then [] else Flatten(t[..|t| - 1]) + t[|t| - 1]
  }

  /**
   * As written, whole line i is the intended line without its last byte, so
   * it holds L-1 bytes.
   */
  lemma WholeLineDropsLastByte(b: seq<byte>, lineLength: int, i: nat)
    requires lineLength > 0 && i < |b| / lineLength
    ensures |IntendedGroups(b, lineLength)[i]| == lineLength
    ensures Groups(b, lineLength)[i] == IntendedGroups(b, lineLength)[i][..lineLength - 1]
    ensures |Groups(b, lineLength)[i]| == lineLength - 1
  {
    LineBound(|b|, lineLength, i);
  }

  /** The partial last line is as intended. */
  lemma LastLineIntact(b: seq<byte>, lineLength: int)
    requires lineLength > 0 && |b| % lineLength > 0
    ensures Groups(b, lineLength)[|b| / lineLength] == IntendedGroups(b, lineLength)[|b| / lineLength]
    ensures |Groups(b, lineLength)[|b| / lineLength]| == |b| % lineLength
  {
    LastLine(|b|, lineLength);
  }

  /** The first k intended lines hold exactly the first k*L bytes. */
  lemma {:induction false} IntendedPrefix(b: seq<byte>, lineLength: int, k: nat)
    requires lineLength > 0 && k <= |b| / lineLength
    ensures k * lineLength <= |b|
    ensures Flatten(IntendedGroups(b, lineLength)[..k]) == b[..k * lineLength]
  {
    var t := IntendedGroups(b, lineLength);
    if k > 0 {
      LineBound(|b|, lineLength, k - 1);
      IntendedPrefix(b, lineLength, k - 1);
      assert t[..k][..k - 1] == t[..k - 1];
      assert (k - 1) * lineLength + lineLength == k * lineLength;
      assert b[..(k - 1) * lineLength] + b[(k - 1) * lineLength..k * lineLength] == b[..k * lineLength];
    } else {
      assert t[..0] == [];
    }
  }

  /** With the bound corrected, the lines together are exactly the input. */
  lemma IntendedGroupsFlatten(b: seq<byte>, lineLength: int)
    requires lineLength > 0
    ensures Flatten(IntendedGroups(b, lineLength)) == b
    ensures forall i :: 0 <= i < |IntendedGroups(b, lineLength)| ==> 0 < |IntendedGroups(b, lineLength)[i]| <= lineLength
  {
    var t := IntendedGroups(b, lineLength);
    var n := |b| / lineLength;
    LastLine(|b|, lineLength);
    IntendedPrefix(b, lineLength, n);
    forall i | 0 <= i < n
      ensures |t[i]| == lineLength
    {
      LineBound(|b|, lineLength, i);
    }
    if |b| % lineLength > 0 {
      assert t[..n + 1][..n] == t[..n];
      assert t[..n + 1] == t;
      assert b[..n * lineLength] + b[n * lineLength..] == b;
    } else {
      assert t[..n] == t;
      assert b[..n * lineLength] == b;
    }
  }

  /** Two bytes in lines of two: the code prints "AB" where "AB:CD" is meant. */
  lemma TwoBytesOneLine()
    ensures Groups([0xAB, 0xCD], 2) == [[0xAB]]
    ensures IntendedGroups([0xAB, 0xCD], 2) == [[0xAB, 0xCD]]
    ensures Joined(Groups([0xAB, 0xCD], 2)[0], ':') == "AB"
    ensures Joined(IntendedGroups([0xAB, 0xCD], 2)[0], ':') == "AB:CD"
  {
    var b: seq<byte> := [0xAB, 0xCD];
    assert b[0..1] == [0xAB];
    assert b[0..2] == b;
  }
}
