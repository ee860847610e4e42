/**
 * What DecodeOid promises: when it succeeds, the shape of the arcs it
 * returns, how plain ASCII text decodes, and that it inverts the minimal
 * DER encoding of an OBJECT IDENTIFIER.
 */
module OidProperties {
  import opened Wrappers
  import opened Base128
  import opened ObjectIdentifier

  /** No window of four bytes that all carry the 0x80 bit. */
  predicate NoFourHigh(x: seq<byte>)
  {
    forall j :: 0 <= j < |x| ==> !FourHighAt(x, j)
  }

  /**
   * Decoding succeeds exactly when the input is non-empty, ends a
   * subidentifier, and no subidentifier is longer than four bytes.
   */
  lemma DecodeOidSucceeds(x: seq<byte>)
    ensures DecodeOid(x).err.None? <==> WellFormed(x)
    ensures WellFormed(x) <==> x != [] && !More(x[|x| - 1]) && NoFourHigh(x)
  {
    if x != [] && !More(x[|x| - 1]) && !NoFourHigh(x) {
      var j :| 0 <= j < |x| && FourHighAt(x, j);
      assert More(x[j + 3]);
      assert LongRunAt(x, j);
    }
    if HasLongRun(x) {
      var j :| 0 <= j < |x| && LongRunAt(x, j);
      assert FourHighAt(x, j);
    }
  }

  /** Every subidentifier of an input without a long run fits in 28 bits. */
  lemma {:induction false} SubIdsBelowCap(x: seq<byte>)
    requires Complete(x) && NoFourHigh(x)
    ensures forall k :: 0 <= k < |SubIds(x)| ==> SubIds(x)[k] < Cap
    decreases |x|
  {
    if x != [] {
      var y := x[..|x| - 1];
      var p := GroupStart(y);
      assert y[..p] == x[..p];
      if |x| - p > 4 {
        assert FourHighAt(x, p);
      }
      CapBound(x[p..]);
      var z := x[..p];
      forall j | 0 <= j < |z|
        ensures !FourHighAt(z, j)
      {
        if FourHighAt(z, j) {
          assert FourHighAt(x, j);
        }
      }
      SubIdsBelowCap(z);
    }
  }

  /**
   * The arcs of a well-formed input: at least two, the first 0, 1 or 2, the
   * second below 40 unless the first is 2, every later one below 2^28, and
   * one arc per byte without the 0x80 bit plus one.
   */
  lemma ArcsShape(x: seq<byte>)
    requires WellFormed(x)
    ensures var a := DecodeOid(x).arcs;
      |a| == 1 + CountLow(x) && 2 <= |a| <= |x| + 1 &&
      0 <= a[0] <= 2 && 0 <= a[1] && (a[0] < 2 ==> a[1] < 40) &&
      forall k :: 2 <= k < |a| ==> 0 <= a[k] < Cap
  {
    DecodeOidSucceeds(x);
    ArcsCount(x);
    SubIdsBelowCap(x);
    var ids := SubIds(x);
    assert forall k :: 2 <= k < |Arcs(x)| ==> Arcs(x)[k] == ids[k - 1];
  }

  /** The arcs always fit the len(x)+1 slice parseObjectIdentifier preallocates: all of it on a failure. */
  lemma DecodeOidLength(x: seq<byte>)
    ensures x == [] ==> DecodeOid(x).arcs == []
    ensures WellFormed(x) ==> 2 <= |DecodeOid(x).arcs| <= |x| + 1
    ensures x != [] && !WellFormed(x) ==> |DecodeOid(x).arcs| == |x| + 1
  {
    if WellFormed(x) {
      ArcsShape(x);
    }
  }

  /** Bytes below 0x80 are one subidentifier each. */
  lemma {:induction false} SubIdsOfAscii(x: seq<byte>)
    requires forall k :: 0 <= k < |x| ==> !More(x[k])
    ensures Complete(x) && |SubIds(x)| == |x|
    ensures forall k :: 0 <= k < |x| ==> SubIds(x)[k] == x[k]
    decreases |x|
  {
    if x != [] {
      var y := x[..|x| - 1];
      GroupStartAt(y, |y|);
      assert y[..|y|] == y == x[..|y|];
      assert x[|y|..] == [x[|y|]];
      assert Value([x[|y|]]) == x[|y|];
      SubIdsOfAscii(y);
    }
  }

  /**
   * A key of plain ASCII text, as the Names of a certificate usually are,
   * decodes to its first byte split into two arcs, then one arc per byte.
   */
  lemma AsciiArcs(x: seq<byte>)
    requires x != [] && forall k :: 0 <= k < |x| ==> !More(x[k])
    ensures DecodeOid(x).err.None?
    ensures var a := DecodeOid(x).arcs;
      |a| == |x| + 1 && a[..2] == PackFirst(x[0]) &&
      forall k :: 1 <= k < |x| ==> a[k + 1] == x[k]
  {
    SubIdsOfAscii(x);
    assert !HasLongRun(x) by {
      forall j | 0 <= j < |x|
        ensures !LongRunAt(x, j)
      {
        if j + 4 <= |x| {
          assert !More(x[j]);
        }
      }
    }
  }

  // ---------------------------------------------------------------------
  // The encoder DecodeOid inverts: the minimal encoding written by
  // encoding/asn1, arc by arc.
  // ---------------------------------------------------------------------

  /** Arcs that an OBJECT IDENTIFIER can carry within the decoder's 28-bit limit. */
  predicate ValidArcs(arcs: seq<nat>)
  {
    |arcs| >= 2 && arcs[0] <= 2 && (arcs[0] < 2 ==> arcs[1] < 40) &&
    40 * arcs[0] + arcs[1] < Cap &&
    forall k :: 2 <= k < |arcs| ==> arcs[k] < Cap
  }

  /** The subidentifiers, each in its minimal encoding, one after the other. */
  function EncodeIds(ids: seq<nat>): seq<byte>
    decreases |ids|
  {
    if ids == [] then [] else EncodeIds(ids[..|ids| - 1]) + Encode(ids[|ids| - 1])
  }

  /** The content octets of an OBJECT IDENTIFIER: 40 * arc0 + arc1, then the other arcs. */
  function EncodeOid(arcs: seq<nat>): seq<byte>
    requires ValidArcs(arcs)
  {
    EncodeIds([40 * arcs[0] + arcs[1]] + arcs[2..])
  }

  /** Appending the encoding of one subidentifier to a complete input appends its value. */
  lemma SubIdsConcat(z: seq<byte>, v: nat)
    requires Complete(z) && v < Cap
    ensures Complete(z + Encode(v))
    ensures SubIds(z + Encode(v)) == SubIds(z) + [v]
  {
    var e := Encode(v);
    EncodeDecode(v);
    var x := z + e;
    assert IsSubidentifier(x, |z|, |x|);
    assert x[..|z|] == z;
    assert x[..|x|] == x;
    assert x[|z|..|x|] == e;
    SubIdsAppend(x, |z|, |x|);
  }

  /** A run of four bytes with the 0x80 bit cannot straddle the last byte of a complete input. */
  lemma NoFourHighConcat(z: seq<byte>, v: nat)
    requires Complete(z) && NoFourHigh(z) && v < Cap
    ensures NoFourHigh(z + Encode(v))
  {
    var e := Encode(v);
    EncodeDecode(v);
    var x := z + e;
    forall j | 0 <= j < |x|
      ensures !FourHighAt(x, j)
    {
      if j + 4 <= |z| {
        assert !FourHighAt(z, j);
        assert forall k :: j <= k < j + 4 ==> x[k] == z[k];
      } else if j < |z| {
        assert x[|z| - 1] == z[|z| - 1];
      } else if j + 4 <= |x| {
        assert x[j + 3] == e[j + 3 - |z|];
      }
    }
  }

  lemma {:induction false} EncodeIdsDecode(ids: seq<nat>)
    requires forall k :: 0 <= k < |ids| ==> ids[k] < Cap
    ensures Complete(EncodeIds(ids)) && NoFourHigh(EncodeIds(ids))
    ensures SubIds(EncodeIds(ids)) == ids
    ensures ids != [] ==> EncodeIds(ids) != []
    decreases |ids|
  {
    if ids != [] {
      var init, last := ids[..|ids| - 1], ids[|ids| - 1];
      assert ids == init + [last];
      var z := EncodeIds(init);
      var x := z + Encode(last);
      assert EncodeIds(ids) == x;
      EncodeIdsDecode(init);
      assert SubIds(z) == init;
      SubIdsConcat(z, last);
      NoFourHighConcat(z, last);
      assert SubIds(x) == ids;
    }
  }

  /** The first subidentifier 40 * a0 + a1 unpacks to the two arcs it was packed from. */
  lemma PackFirstInverse(a0: nat, a1: nat)
    requires a0 <= 2 && (a0 < 2 ==> a1 < 40)
    ensures PackFirst(40 * a0 + a1) == [a0, a1]
  {
    if a0 == 1 {
      assert 40 * a0 + a1 == 40 + a1;
    }
  }

  /** A non-empty run of encoded subidentifiers decodes to the arcs they pack. */
  lemma DecodeEncodedIds(ids: seq<nat>)
    requires ids != [] && forall k :: 0 <= k < |ids| ==> ids[k] < Cap
    ensures DecodeOid(EncodeIds(ids)) == OidResult(PackFirst(ids[0]) + ids[1..], None)
  {
    EncodeIdsDecode(ids);
    var x := EncodeIds(ids);
    DecodeOidSucceeds(x);
    assert DecodeOid(x) == OidResult(Arcs(x), None);
  }

  /** DecodeOid inverts EncodeOid: every valid list of arcs survives the round trip. */
  lemma EncodeOidDecode(arcs: seq<nat>)
    requires ValidArcs(arcs)
    ensures DecodeOid(EncodeOid(arcs)) == OidResult(arcs, None)
  {
    var ids := [40 * arcs[0] + arcs[1]] + arcs[2..];
    assert EncodeOid(arcs) == EncodeIds(ids);
    PackFirstInverse(arcs[0], arcs[1]);
    assert PackFirst(ids[0]) + ids[1..] == arcs;
    DecodeEncodedIds(ids);
  }

  /** Every well-formed input decodes to valid arcs, so re-encoding and decoding again is stable. */
  lemma DecodeOidValid(x: seq<byte>)
    requires WellFormed(x)
    ensures forall k :: 0 <= k < |DecodeOid(x).arcs| ==> DecodeOid(x).arcs[k] >= 0
    ensures ValidArcs(seq(|DecodeOid(x).arcs|, k requires 0 <= k < |DecodeOid(x).arcs| => DecodeOid(x).arcs[k] as nat))
  {
    ArcsShape(x);
    DecodeOidSucceeds(x);
    var a := DecodeOid(x).arcs;
    var ids := SubIds(x);
    SubIdsBelowCap(x);
    assert a[..2] == PackFirst(ids[0]);
  }

  /** Three bytes with the 0x80 bit, such as the UTF-8 encoding of "中", end inside a subidentifier. */
  lemma TruncatedZeros(x: seq<byte>)
    requires |x| == 3 && More(x[0]) && More(x[1]) && More(x[2])
    ensures DecodeOid(x) == OidResult([0, 0, 0, 0], Some(SyntaxError(Truncated)))
  {
    assert x[..0] == [];
    TruncatedFailure(x, 0);
    assert Filled(x, 0) == [0, 0, 0, 0];
  }

  /** Three zero bytes: the arcs 0.0, then 0 and 0. */
  lemma ZeroBytes()
    ensures DecodeOid([0, 0, 0]) == OidResult([0, 0, 0, 0], None)
  {
    AsciiArcs([0, 0, 0]);
  }

  /**
   * The decoder does not insist on minimal encodings: a leading 0x80 byte in
   * a subidentifier gives the same arcs.
   */
  lemma NonMinimalAlias()
    ensures DecodeOid([0x80, 0x01]) == DecodeOid([0x01]) == OidResult([0, 1], None)
  {
    LeadingZeroGroup([0x01]);
    assert GroupStart([0x80]) == 0;
    assert [0x80, 0x01][0..] == [0x80] + [0x01];
  }
}
