/** Splitting a string at a separator (includes/util/string.h:98-139). */
module Paths {
  import opened Memory
  import opened CStrings

  /** The pieces between separators, as a left fold over the bytes. */
  function Split(s: Str, sep: Byte): (pieces: seq<Str>)
    ensures |pieces| > 0
  {
    if s == [] then [[]] else
    var before, c := Split(s[..|s| - 1], sep), s[|s| - 1];
    if c == sep then before + [[]] else before[..|before| - 1] + [before[|before| - 1] + [c]]
  }

  /** One more byte starts a piece or makes the last one longer. */
  lemma SplitSnoc(s: Str, c: Byte, sep: Byte)
    ensures var before, pieces := Split(s, sep), Split(s + [c], sep);
            var last := |before| - 1;
            if c == sep then pieces[..|pieces| - 1] == before && pieces[|pieces| - 1] == []
            else |pieces| == |before| && pieces[..last] == before[..last] && pieces[last] == before[last] + [c]
  {
    assert (s + [c])[..|s|] == s;
  }

  /** The pieces with a separator between each two. */
  function Join(pieces: seq<Str>, sep: Byte): Str
    requires |pieces| > 0
  {
    if |pieces| == 1 then pieces[0] else Join(pieces[..|pieces| - 1], sep) + [sep] + pieces[|pieces| - 1]
  }

  ghost predicate SepFree(pieces: seq<Str>, sep: Byte) {
    forall i :: 0 <= i < |pieces| ==> sep !in pieces[i]
  }

  /** Splitting yields separator-free pieces that join back to the string. */
  lemma {:induction false} SplitJoins(s: Str, sep: Byte)
    ensures SepFree(Split(s, sep), sep) && Join(Split(s, sep), sep) == s
  {
    if s != [] {
      var init, c := s[..|s| - 1], s[|s| - 1];
      SplitJoins(init, sep);
      var before, pieces := Split(init, sep), Split(s, sep);
      assert s == init + [c];
      if c == sep {
        assert pieces[..|pieces| - 1] == before;
      } else if |before| > 1 {
        assert pieces[..|pieces| - 1] == before[..|before| - 1];
      }
    }
  }

  /** Nothing else does: joining separator-free pieces and splitting again gives them back. */
  lemma {:induction false} JoinSplits(pieces: seq<Str>, sep: Byte)
    requires |pieces| > 0 && SepFree(pieces, sep)
    ensures Split(Join(pieces, sep), sep) == pieces
    decreases |pieces|, |pieces[|pieces| - 1]|
  {
    var last := pieces[|pieces| - 1];
    var s := Join(pieces, sep);
    if last == [] {
      if |pieces| > 1 {
        var init := pieces[..|pieces| - 1];
        JoinSplits(init, sep);
        assert s[..|s| - 1] == Join(init, sep);
        assert pieces == init + [[]];
      }
    } else {
      var shorter := pieces[|pieces| - 1 := last[..|last| - 1]];
      assert last == last[..|last| - 1] + [last[|last| - 1]];
      assert shorter[..|pieces| - 1] == pieces[..|pieces| - 1];
      JoinSplits(shorter, sep);
      assert s[..|s| - 1] == Join(shorter, sep) && s[|s| - 1] == last[|last| - 1];
      assert pieces == shorter[..|pieces| - 1] + [shorter[|pieces| - 1] + [last[|last| - 1]]];
    }
  }

  lemma SplitStep(s: Str, i: nat, sep: Byte, out: seq<Str>, piece: Str)
    requires i < |s| && out + [piece] == Split(s[..i], sep)
    ensures Split(s[..i + 1], sep) == if s[i] == sep then out + [piece] + [[]] else out + [piece + [s[i]]]
  {
    assert s[..i + 1][..i] == s[..i];
    assert (out + [piece])[..|out|] == out;
  }

  /** `split` (includes/util/string.h:112-139). */
  method SplitString(s: Str, sep: Byte) returns (out: seq<Str>)
    ensures out == Split(s, sep)
  {
    hide Split;
    out := [];
    var secSize: nat, secStart: nat := 0, 0;
    EmptySplit(s, sep);
    for i := 0 to |s|
      invariant secStart + secSize == i
      invariant out + [s[secStart..i]] == Split(s[..i], sep)
    {
      SplitStep(s, i, sep, out, s[secStart..i]);
      if s[i] == sep {
        out := out + [s[secStart..secStart + secSize]];
        secSize, secStart := 0, i + 1;
        assert s[i + 1..i + 1] == [];
      } else {
        assert s[secStart..i + 1] == s[secStart..i] + [s[i]];
        secSize := secSize + 1;
      }
    }
    assert s[..|s|] == s;
    out := out + [s[secStart..secStart + secSize]];
  }

  lemma EmptySplit(s: Str, sep: Byte)
    ensures Split(s[..0], sep) == [[]]
  {
  }
}
