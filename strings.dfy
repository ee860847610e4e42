/**
 * SplitFunc and Split of utils/strings.go: cut a string at every character
 * a predicate picks, dropping that character. Strings are sequences of
 * characters here (see README for what that leaves out).
 */
module Utils {

  /** strings.IndexFunc: the index of the first character f picks, or -1. */
  function IndexFunc(s: string, f: char -> bool): (i: int)
    ensures -1 <= i < |s|
    ensures i == -1 <==> forall k :: 0 <= k < |s| ==> !f(s[k])
    ensures i >= 0 ==> f(s[i]) && forall k :: 0 <= k < i ==> !f(s[k])
    decreases |s|
  {
    if s == [] then -1
    else if f(s[0]) then 0
    else
      var j := IndexFunc(s[1..], f);
      assert forall k :: 1 <= k < |s| ==> s[1..][k - 1] == s[k];
      if j == -1 then -1 else j + 1
  }

  /**
   * The pieces of s between the characters f picks, defined character by
   * character: a separator starts a new piece, any other character extends
   * the first one.
   */
  function Fields(s: string, f: char -> bool): (r: seq<string>)
    ensures |r| >= 1
    decreases |s|
  {
    if s == [] then [""]
    else
      var rest := Fields(s[1..], f);
      if f(s[0]) then [""] + rest else [[s[0]] + rest[0]] + rest[1..]
  }

  /** The characters of s that f picks, in order. */
  function Separators(s: string, f: char -> bool): (seps: string)
    ensures forall k :: 0 <= k < |seps| ==> f(seps[k])
    decreases |s|
  {
    if s == [] then ""
    else if f(s[0]) then [s[0]] + Separators(s[1..], f)
    else Separators(s[1..], f)
  }

  /** The pieces with the separators put back between them. */
  function Interleave(pieces: seq<string>, seps: string): string
    requires |pieces| == |seps| + 1
    decreases |seps|
  {
    if seps == [] then pieces[0]
    else pieces[0] + [seps[0]] + Interleave(pieces[1..], seps[1..])
  }

  /** A string without separators is a single piece. */
  lemma {:induction false} FieldsOfSeparatorFree(s: string, f: char -> bool)
    requires forall k :: 0 <= k < |s| ==> !f(s[k])
    ensures Fields(s, f) == [s]
    decreases |s|
  {
    if s != [] {
      FieldsOfSeparatorFree(s[1..], f);
      assert [s[0]] + s[1..] == s;
    }
  }

  /** Cutting at the first separator i: the piece before it, then the pieces of what follows it. */
  lemma {:induction false} FieldsCut(s: string, f: char -> bool, i: nat)
    requires i < |s| && f(s[i]) && forall k :: 0 <= k < i ==> !f(s[k])
    ensures Fields(s, f) == [s[..i]] + Fields(s[i + 1..], f)
    decreases i
  {
    if i > 0 {
      FieldsCut(s[1..], f, i - 1);
      assert s[1..][i..] == s[i + 1..];
      assert [s[0]] + s[1..][..i - 1] == s[..i];
    }
  }

  /** One piece more than there are separators. */
  lemma {:induction false} FieldsCount(s: string, f: char -> bool)
    ensures |Fields(s, f)| == |Separators(s, f)| + 1
    decreases |s|
  {
    if s != [] {
      FieldsCount(s[1..], f);
    }
  }

  /** No piece holds a separator. */
  lemma {:induction false} FieldsSeparatorFree(s: string, f: char -> bool)
    ensures forall j, k :: 0 <= j < |Fields(s, f)| && 0 <= k < |Fields(s, f)[j]| ==> !f(Fields(s, f)[j][k])
    decreases |s|
  {
    if s != [] {
      FieldsSeparatorFree(s[1..], f);
      var rest := Fields(s[1..], f);
      if !f(s[0]) {
        var first := [s[0]] + rest[0];
        assert forall k :: 1 <= k < |first| ==> first[k] == rest[0][k - 1];
      }
    }
  }

  /** Putting the separators back between the pieces gives s again. */
  lemma {:induction false} FieldsInterleave(s: string, f: char -> bool)
    ensures |Fields(s, f)| == |Separators(s, f)| + 1
    ensures Interleave(Fields(s, f), Separators(s, f)) == s
    decreases |s|
  {
    FieldsCount(s, f);
    if s != [] {
      FieldsInterleave(s[1..], f);
      var rest, seps := Fields(s[1..], f), Separators(s[1..], f);
      if f(s[0]) {
        assert ([""] + rest)[1..] == rest;
        assert ([s[0]] + seps)[1..] == seps;
      } else {
        var r := Fields(s, f);
        assert r[1..] == rest[1..];
        if seps == [] {
          assert s == [s[0]] + s[1..];
        } else {
          assert Interleave(rest, seps) == rest[0] + [seps[0]] + Interleave(rest[1..], seps[1..]);
          assert s == [s[0]] + s[1..];
        }
      }
    }
  }

  /**
   * The pieces are the only way to write s as separator-free strings joined
   * by single separators.
   */
  lemma {:induction false} FieldsUnique(s: string, f: char -> bool, pieces: seq<string>, seps: string)
    requires |pieces| == |seps| + 1 && Interleave(pieces, seps) == s
    requires forall k :: 0 <= k < |seps| ==> f(seps[k])
    requires forall j, k :: 0 <= j < |pieces| && 0 <= k < |pieces[j]| ==> !f(pieces[j][k])
    ensures pieces == Fields(s, f)
    decreases |seps|
  {
    if seps == [] {
      FieldsOfSeparatorFree(s, f);
      assert pieces == [pieces[0]];
    } else {
      var first, tail := pieces[0], Interleave(pieces[1..], seps[1..]);
      assert s == first + [seps[0]] + tail;
      assert forall k :: 0 <= k < |first| ==> s[k] == first[k];
      FieldsCut(s, f, |first|);
      assert s[..|first|] == first && s[|first| + 1..] == tail;
      FieldsUnique(tail, f, pieces[1..], seps[1..]);
      assert pieces == [first] + pieces[1..];
    }
  }

  /**
   * SplitFunc: nothing for the empty string, otherwise the pieces between
   * separators, cut one at a time at the first separator left.
   */
  method SplitFunc(s: string, f: char -> bool) returns (sa: seq<string>)
    ensures sa == if s == [] then [] else Fields(s, f)
  {
    sa := [];
    if |s| <= 0 {
      return;
    }
    var rest := s;
    var i := IndexFunc(rest, f);
    while i != -1
      invariant i == IndexFunc(rest, f)
      invariant Fields(s, f) == sa + Fields(rest, f)
      decreases |rest|
    {
      FieldsCut(rest, f, i);
      sa := sa + [rest[0..i]];
      rest := rest[i + 1..];
      i := IndexFunc(rest, f);
    }
    FieldsOfSeparatorFree(rest, f);
    sa := sa + [rest];
  }

  /** The separators of Split: ';' and ','. */
  predicate IsListSeparator(c: char)
  {
    c == ';' || c == ','
  }

  /** Split: SplitFunc at ';' and ','. */
  method Split(s: string) returns (sa: seq<string>)
    ensures sa == if s == [] then [] else Fields(s, IsListSeparator)
  {
    sa := SplitFunc(s, IsListSeparator);
  }

  /** The first case the tests print: "a;b,c" gives three pieces. */
  lemma SplitThreeItems()
    ensures Fields("a;b,c", IsListSeparator) == ["a", "b", "c"]
  {
    FieldsCut("a;b,c", IsListSeparator, 1);
    assert "a;b,c"[..1] == "a" && "a;b,c"[2..] == "b,c";
    FieldsCut("b,c", IsListSeparator, 1);
    assert "b,c"[..1] == "b" && "b,c"[2..] == "c";
    FieldsOfSeparatorFree("c", IsListSeparator);
  }

  /** The second case: a trailing separator leaves an empty last piece. */
  lemma SplitTrailingSeparator()
    ensures Fields("a;中文,", IsListSeparator) == ["a", "中文", ""]
  {
    FieldsCut("a;中文,", IsListSeparator, 1);
    assert "a;中文,"[..1] == "a" && "a;中文,"[2..] == "中文,";
    FieldsCut("中文,", IsListSeparator, 2);
    assert "中文,"[..2] == "中文" && "中文,"[3..] == "";
  }
}
