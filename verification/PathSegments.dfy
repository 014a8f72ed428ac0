/** Segments of a byte string by position, and the pieces that cutting at slashes gives. */
module PathSegments {
  import opened Prelude
  import opened PathText

  /** The bytes as characters. */
  function Text(s: Bytes): (t: string)
    ensures |t| == |s| && forall i :: 0 <= i < |s| ==> t[i] == s[i] as char
    decreases |s|
  {
    if s == [] then [] else [s[0] as char] + Text(s[1..])
  }

  // ----- Segments by position -----

  /** From `i` up to `j` the text has one whole segment: no slash inside, a slash or an end on both sides. */
  predicate SegmentAt(s: Bytes, i: nat, j: nat) {
    && i <= j <= |s| && NoSlash(s[i..j])
    && (i == 0 || s[i - 1] == SLASH) && (j == |s| || s[j] == SLASH)
  }

  function Slashes(s: Bytes): nat { multiset(s)[SLASH] }

  lemma {:induction false} SlashesSep(a: Bytes, b: Bytes)
    ensures Slashes(Sep(a, b)) == Slashes(a) + 1 + Slashes(b)
  {
  }

  /** A text has one segment more than slashes. */
  lemma {:induction false} PiecesAndSlashes(s: Bytes)
    ensures |Split(s)| == Slashes(s) + 1
    decreases |s|
  {
    if NoSlash(s) {
      SplitPlain(s);
      assert SLASH !in multiset(s);
    } else {
      var i :| 0 <= i < |s| && s[i] == SLASH;
      assert s == Sep(s[..i], s[i + 1..]);
      SplitSep(s[..i], s[i + 1..]);
      SlashesSep(s[..i], s[i + 1..]);
      PiecesAndSlashes(s[..i]);
      PiecesAndSlashes(s[i + 1..]);
    }
  }

  /** A segment by position is the piece after as many others as there are slashes before it. */
  lemma {:induction false} SegmentIsPiece(s: Bytes, i: nat, j: nat)
    requires SegmentAt(s, i, j)
    ensures Slashes(s[..i]) < |Split(s)| && Split(s)[Slashes(s[..i])] == s[i..j]
  {
    hide Split;
    var rest := s[i..];
    SplitPlain(s[i..j]);
    if j == |s| {
      assert rest == s[i..j];
    } else {
      assert rest == Sep(s[i..j], s[j + 1..]);
      SplitSep(s[i..j], s[j + 1..]);
    }
    if i == 0 {
      assert rest == s && s[..i] == [];
    } else {
      var front := s[..i - 1];
      assert s == Sep(front, rest);
      SplitSep(front, rest);
      PiecesAndSlashes(front);
      assert s[..i] == Sep(front, []);
      SlashesSep(front, []);
    }
  }

  /** Every piece is a segment at some position. */
  lemma {:induction false} PieceIsSegment(s: Bytes, k: nat) returns (i: nat, j: nat)
    requires k < |Split(s)|
    ensures SegmentAt(s, i, j) && Slashes(s[..i]) == k && s[i..j] == Split(s)[k]
    decreases |s|
  {
    hide Split;
    if NoSlash(s) {
      SplitPlain(s);
      i, j := 0, |s|;
      assert s[i..j] == s && s[..i] == [];
    } else {
      i := FirstSlash(s);
      var head, rest := s[..i], s[i + 1..];
      assert s == Sep(head, rest);
      SplitSep(head, rest);
      SplitPlain(head);
      if k == 0 {
        i, j := 0, i;
        assert s[..0] == [];
      } else {
        var a, b := PieceIsSegment(rest, k - 1);
        i, j := a + |head| + 1, b + |head| + 1;
        ShiftedSegment(head, rest, a, b);
      }
    }
  }

  lemma {:induction false} ShiftedSegment(head: Bytes, rest: Bytes, a: nat, b: nat)
    requires NoSlash(head) && SegmentAt(rest, a, b)
    ensures var s, d := Sep(head, rest), |head| + 1;
            SegmentAt(s, a + d, b + d) && s[a + d..b + d] == rest[a..b] && Slashes(s[..a + d]) == Slashes(rest[..a]) + 1
  {
    var s, d := Sep(head, rest), |head| + 1;
    assert s[a + d..b + d] == rest[a..b];
    assert s[..a + d] == Sep(head, rest[..a]);
    SlashesSep(head, rest[..a]);
    assert SLASH !in multiset(head);
  }

  lemma {:induction false} FirstSlash(s: Bytes) returns (i: nat)
    requires !NoSlash(s)
    ensures i < |s| && s[i] == SLASH && NoSlash(s[..i])
    decreases |s|
  {
    var front := s[..|s| - 1];
    if NoSlash(front) {
      i := |s| - 1;
    } else {
      i := FirstSlash(front);
      assert front[..i] == s[..i];
    }
  }

  /** Segments that start later come after more slashes. */
  lemma {:induction false} LaterSegment(s: Bytes, i: nat, k: nat)
    requires i < k <= |s| && s[k - 1] == SLASH
    ensures Slashes(s[..i]) < Slashes(s[..k])
  {
    assert s[..k] == s[..i] + s[i..k - 1] + [SLASH];
  }
}
