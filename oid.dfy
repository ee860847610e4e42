/**
 * ASN.1 OBJECT IDENTIFIER decoding as parseObjectIdentifier in cert/cert.go
 * does it. The specification is DecodeOid: the arcs of a well-formed input,
 * and for a malformed one the error together with the slice the Go code
 * preallocated and had filled when it gave up.
 */
module ObjectIdentifier {
  import opened Wrappers
  import opened Base128

  const ZeroLength: string := "zero length OBJECT IDENTIFIER"

  /** x is empty or ends with a byte that closes a subidentifier. */
  predicate Complete(x: seq<byte>)
  {
    x == [] || !More(x[|x| - 1])
  }

  /** Where the trailing run of bytes carrying the 0x80 bit begins. */
  function GroupStart(x: seq<byte>): (p: nat)
    ensures p <= |x| && Complete(x[..p])
    ensures forall k :: p <= k < |x| ==> More(x[k])
    decreases |x|
  {
    if x == [] || !More(x[|x| - 1]) then |x|
    else
      var y := x[..|x| - 1];
      var p := GroupStart(y);
      assert y[..p] == x[..p];
      p
  }

  /** The subidentifier values of a complete input, left to right. */
  function SubIds(x: seq<byte>): (ids: seq<nat>)
    requires Complete(x)
    ensures x != [] ==> |ids| > 0
    decreases |x|
  {
    if x == [] then []
    else
      var y := x[..|x| - 1];
      var p := GroupStart(y);
      assert y[..p] == x[..p];
      SubIds(x[..p]) + [Value(x[p..])]
  }

  /** The first subidentifier packs two arcs: 40 * arc0 + arc1, with every value from 80 on in arc 2. */
  function PackFirst(v: nat): (arcs: seq<int>)
    ensures |arcs| == 2
  {
    if v < 80 then [v / 40, v % 40] else [2, v - 80]
  }

  /** The arcs of a complete, non-empty input. */
  function Arcs(x: seq<byte>): (arcs: seq<int>)
    requires x != [] && Complete(x)
  {
    var ids := SubIds(x);
    PackFirst(ids[0]) + ids[1..]
  }

  /** Somewhere four bytes with the 0x80 bit are followed by more input. */
  predicate HasLongRun(x: seq<byte>)
  {
    exists j | 0 <= j < |x| :: LongRunAt(x, j)
  }

  function FirstLongRunFrom(x: seq<byte>, from: nat): (j: nat)
    requires from <= |x|
    ensures from <= j <= |x|
    ensures j < |x| ==> LongRunAt(x, j)
    ensures forall k :: from <= k < j ==> !LongRunAt(x, k)
    decreases |x| - from
  {
    if from == |x| || LongRunAt(x, from) then from else FirstLongRunFrom(x, from + 1)
  }

  /** Where the first run of four bytes with the 0x80 bit and input after them begins, or |x|. */
  function FirstLongRun(x: seq<byte>): (j: nat)
    ensures j <= |x|
    ensures j < |x| ==> LongRunAt(x, j)
    ensures forall k :: 0 <= k < j ==> !LongRunAt(x, k)
  {
    FirstLongRunFrom(x, 0)
  }

  /**
   * The slice `make([]int, len(x)+1)` once the arcs of the complete prefix
   * x[..p] have been written into it: those arcs, then zeros.
   */
  function Filled(x: seq<byte>, p: nat): (s: seq<int>)
    requires p <= |x| && Complete(x[..p])
    ensures |s| == |x| + 1
  {
    var done := if p == 0 then [] else Arcs(x[..p]);
    seq(|x| + 1, i requires 0 <= i <= |x| => if i < |done| then done[i] else 0)
  }

  /**
   * The slice parseObjectIdentifier returns on a malformed input: filled
   * with the arcs of the subidentifiers it completed before the one that
   * failed.
   */
  function Preallocated(x: seq<byte>): (s: seq<int>)
    requires x != []
    ensures |s| == |x| + 1
  {
    var f := FirstLongRun(x);
    var p := GroupStart(x[..f]);
    assert x[..f][..p] == x[..p];
    Filled(x, p)
  }

  /** What parseObjectIdentifier returns: its named results s and err. */
  datatype OidResult = OidResult(arcs: seq<int>, err: Option<Asn1Error>)

  /**
   * The specification of parseObjectIdentifier: the empty input, a run of
   * four bytes with the 0x80 bit and input after it, an input ending inside
   * a subidentifier, and otherwise the arcs of all subidentifiers.
   */
  function DecodeOid(x: seq<byte>): OidResult
  {
    if x == [] then OidResult([], Some(SyntaxError(ZeroLength)))
    else if HasLongRun(x) then OidResult(Preallocated(x), Some(StructuralError(TooLarge)))
    else if More(x[|x| - 1]) then OidResult(Preallocated(x), Some(SyntaxError(Truncated)))
    else OidResult(Arcs(x), None)
  }

  /** A well-formed input: what DecodeOid accepts. */
  predicate WellFormed(x: seq<byte>)
  {
    x != [] && !More(x[|x| - 1]) && !HasLongRun(x)
  }

  lemma {:induction false} GroupStartAt(x: seq<byte>, p: nat)
    requires p <= |x| && Complete(x[..p])
    requires forall k :: p <= k < |x| ==> More(x[k])
    ensures GroupStart(x) == p
    decreases |x|
  {
    if |x| > p {
      var y := x[..|x| - 1];
      assert y[..p] == x[..p];
      GroupStartAt(y, p);
    }
  }

  /** Appending one subidentifier to a complete prefix appends its value. */
  lemma SubIdsAppend(x: seq<byte>, from: nat, to: nat)
    requires IsSubidentifier(x, from, to) && Complete(x[..from])
    ensures Complete(x[..to])
    ensures SubIds(x[..to]) == SubIds(x[..from]) + [Value(x[from..to])]
  {
    var z := x[..to];
    var y := z[..|z| - 1];
    assert y[..from] == x[..from];
    GroupStartAt(y, from);
    assert z[..from] == x[..from];
    assert z[from..] == x[from..to];
  }

  lemma ArcsAppend(x: seq<byte>, from: nat, to: nat)
    requires IsSubidentifier(x, from, to) && Complete(x[..from])
    ensures Complete(x[..to])
    ensures from == 0 ==> Arcs(x[..to]) == PackFirst(Value(x[..to]))
    ensures from > 0 ==> Arcs(x[..to]) == Arcs(x[..from]) + [Value(x[from..to])]
  {
    SubIdsAppend(x, from, to);
    if from == 0 {
      assert x[..0] == [];
      assert x[0..to] == x[..to];
    }
  }

  /** The subidentifier starting at the group boundary `offset` is too long: the Go code gives up there. */
  lemma StructuralFailure(x: seq<byte>, offset: nat)
    requires offset < |x| && Complete(x[..offset]) && LongRunAt(x, offset)
    requires forall j :: 0 <= j < offset ==> !LongRunAt(x, j)
    ensures DecodeOid(x) == OidResult(Filled(x, offset), Some(StructuralError(TooLarge)))
  {
    assert HasLongRun(x);
    assert FirstLongRun(x) == offset;
    GroupStartAt(x[..offset], offset);
    assert Preallocated(x) == Filled(x, offset);
  }

  /** The input ends inside the subidentifier starting at the group boundary `offset`. */
  lemma TruncatedFailure(x: seq<byte>, offset: nat)
    requires offset < |x| && Complete(x[..offset]) && TruncatedAt(x, offset)
    requires forall j :: 0 <= j < offset ==> !LongRunAt(x, j)
    ensures DecodeOid(x) == OidResult(Filled(x, offset), Some(SyntaxError(Truncated)))
  {
    assert !HasLongRun(x) by {
      forall j | 0 <= j < |x| ensures !LongRunAt(x, j) {
        if offset <= j { assert j + 4 >= |x|; }
      }
    }
    assert More(x[|x| - 1]);
    assert FirstLongRun(x) == |x|;
    assert x[..|x|] == x;
    GroupStartAt(x, offset);
    assert Preallocated(x) == Filled(x, offset);
  }

  /** The number of bytes without the 0x80 bit: the number of subidentifiers a complete input holds. */
  function CountLow(x: seq<byte>): (n: nat)
    ensures n <= |x|
    decreases |x|
  {
    if x == [] then 0 else CountLow(x[..|x| - 1]) + (if More(x[|x| - 1]) then 0 else 1)
  }

  lemma {:induction false} CountLowHighSuffix(x: seq<byte>, p: nat)
    requires p <= |x| && forall k :: p <= k < |x| ==> More(x[k])
    ensures CountLow(x) == CountLow(x[..p])
    decreases |x|
  {
    if |x| > p {
      var y := x[..|x| - 1];
      assert y[..p] == x[..p];
      CountLowHighSuffix(y, p);
    } else {
      assert x[..p] == x;
    }
  }

  lemma {:induction false} SubIdsCount(x: seq<byte>)
    requires Complete(x)
    ensures |SubIds(x)| == CountLow(x)
    decreases |x|
  {
    if x != [] {
      var y := x[..|x| - 1];
      var p := GroupStart(y);
      assert y[..p] == x[..p];
      SubIdsCount(x[..p]);
      CountLowHighSuffix(y, p);
    }
  }

  /** One arc per byte without the 0x80 bit, plus one for the packed first subidentifier. */
  lemma ArcsCount(x: seq<byte>)
    requires x != [] && Complete(x)
    ensures |Arcs(x)| == 1 + CountLow(x)
    ensures 2 <= |Arcs(x)| <= |x| + 1
  {
    SubIdsCount(x);
  }

  /** The arcs after the first subidentifier: the two it packs. */
  lemma FirstArcs(x: seq<byte>, to: nat) returns (arcs: seq<int>)
    requires IsSubidentifier(x, 0, to)
    ensures Complete(x[..to]) && arcs == Arcs(x[..to]) && arcs == PackFirst(Value(x[..to]))
  {
    assert x[..0] == [];
    ArcsAppend(x, 0, to);
    arcs := Arcs(x[..to]);
  }

  /** A subidentifier of at most four bytes holds no run of four bytes with the 0x80 bit. */
  lemma NoLongRunThrough(x: seq<byte>, from: nat, to: nat)
    requires IsSubidentifier(x, from, to)
    requires forall j :: 0 <= j < from ==> !LongRunAt(x, j)
    ensures forall j :: 0 <= j < to ==> !LongRunAt(x, j)
  {
    forall j | from <= j < to
      ensures !LongRunAt(x, j)
    {
      assert !More(x[to - 1]);
    }
  }

  /** The loop consumed the whole input without finding a fault. */
  lemma Completed(x: seq<byte>, offset: nat)
    requires 0 < offset == |x| && Complete(x[..offset])
    requires forall j :: 0 <= j < offset ==> !LongRunAt(x, j)
    ensures |Arcs(x[..offset])| <= |x| + 1
    ensures DecodeOid(x) == OidResult(Filled(x, offset)[..|Arcs(x[..offset])|], None)
  {
    assert x[..offset] == x;
    assert !HasLongRun(x);
    ArcsCount(x);
  }

  /** Appending one subidentifier writes its value into the next free slot of the slice. */
  lemma FilledNext(x: seq<byte>, from: nat, to: nat)
    requires 0 < from && IsSubidentifier(x, from, to) && Complete(x[..from])
    ensures Complete(x[..to])
    ensures |Arcs(x[..from])| <= |x| && |Arcs(x[..to])| == |Arcs(x[..from])| + 1
    ensures Filled(x, to) == Filled(x, from)[|Arcs(x[..from])| := Value(x[from..to])]
  {
    ArcsAppend(x, from, to);
    ArcsCount(x[..to]);
  }

  /** The first subidentifier fills the first two slots of the zeroed slice. */
  lemma FilledFirst(x: seq<byte>, to: nat)
    requires IsSubidentifier(x, 0, to)
    ensures Complete(x[..to]) && |Arcs(x[..to])| == 2
    ensures Filled(x, to) == Filled(x, 0)[0 := PackFirst(Value(x[..to]))[0]][1 := PackFirst(Value(x[..to]))[1]]
  {
    var arcs := FirstArcs(x, to);
  }

  /**
   * The first call of parseBase128Int in parseObjectIdentifier, with what
   * its outcome means for the arcs.
   */
  method FirstArc(bytes: seq<byte>) returns (v: int, offset: nat, err: Option<Asn1Error>)
    requires bytes != []
    ensures err.Some? ==> DecodeOid(bytes) == OidResult(Filled(bytes, 0), err)
    ensures err.None? ==> 0 < offset <= |bytes| && Complete(bytes[..offset])
    ensures err.None? ==> 0 <= v && |Arcs(bytes[..offset])| == 2
    ensures err.None? ==> Filled(bytes, offset) == Filled(bytes, 0)[0 := PackFirst(v)[0]][1 := PackFirst(v)[1]]
    ensures err.None? ==> forall j :: 0 <= j < offset ==> !LongRunAt(bytes, j)
  {
    v, offset, err := ParseBase128Int(bytes, 0);
    assert bytes[..0] == [];
    if err.Some? {
      if LongRunAt(bytes, 0) {
        StructuralFailure(bytes, 0);
      } else {
        TruncatedFailure(bytes, 0);
      }
    } else {
      FilledFirst(bytes, offset);
      NoLongRunThrough(bytes, 0, offset);
    }
  }

  /**
   * One turn of the loop of parseObjectIdentifier: parseBase128Int at the
   * group boundary `offset`, with what its outcome means for the arcs.
   */
  method NextArc(bytes: seq<byte>, offset: nat) returns (v: int, next: nat, err: Option<Asn1Error>)
    requires 0 < offset < |bytes| && Complete(bytes[..offset])
    requires forall j :: 0 <= j < offset ==> !LongRunAt(bytes, j)
    ensures err.Some? ==> DecodeOid(bytes) == OidResult(Filled(bytes, offset), err)
    ensures err.None? ==> offset < next <= |bytes| && Complete(bytes[..next])
    ensures err.None? ==> |Arcs(bytes[..offset])| <= |bytes| && |Arcs(bytes[..next])| == |Arcs(bytes[..offset])| + 1
    ensures err.None? ==> Filled(bytes, next) == Filled(bytes, offset)[|Arcs(bytes[..offset])| := v]
    ensures err.None? ==> forall j :: 0 <= j < next ==> !LongRunAt(bytes, j)
  {
    v, next, err := ParseBase128Int(bytes, offset);
    if err.Some? {
      if LongRunAt(bytes, offset) {
        StructuralFailure(bytes, offset);
      } else {
        TruncatedFailure(bytes, offset);
      }
    } else {
      FilledNext(bytes, offset, next);
      NoLongRunThrough(bytes, offset, next);
    }
  }

  /**
   * Decodes an OBJECT IDENTIFIER into the preallocated slice s of
   * len(bytes)+1 arcs; returns the filled prefix on success, the whole slice
   * with the error otherwise.
   */
  method ParseObjectIdentifier(bytes: seq<byte>) returns (s: seq<int>, err: Option<Asn1Error>)
    ensures OidResult(s, err) == DecodeOid(bytes)
  {
    if |bytes| == 0 {
      s, err := [], Some(SyntaxError(ZeroLength));
      return;
    }
    var buf := new int[|bytes| + 1](_ => 0);
    assert buf[..] == Filled(bytes, 0);
    var v, offset;
    v, offset, err := FirstArc(bytes);
    if err.Some? {
      s := buf[..];
      return;
    }
    if v < 80 {
      buf[0] := v / 40;
      buf[1] := v % 40;
    } else {
      buf[0] := 2;
      buf[1] := v - 80;
    }
    var i := 2;
    while offset < |bytes|
      invariant 0 < offset <= |bytes| && Complete(bytes[..offset])
      invariant i == |Arcs(bytes[..offset])|
      invariant buf[..] == Filled(bytes, offset)
      invariant forall j :: 0 <= j < offset ==> !LongRunAt(bytes, j)
      invariant err.None?
      decreases |bytes| - offset
    {
      var next;
      v, next, err := NextArc(bytes, offset);
      if err.Some? {
        s := buf[..];
        return;
      }
      buf[i] := v;
      i := i + 1;
      offset := next;
    }
    Completed(bytes, offset);
    s := buf[..i];
  }
}
