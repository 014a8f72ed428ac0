/** Byte strings cut at slashes, and the two percent scanners. */
module PathText {
  import opened Prelude

  const SLASH: Byte := 0x2f
  const PERCENT: Byte := 0x25
  const DOT: Byte := 0x2e
  const BACKSLASH: Byte := 0x5c

  // ----- Segments -----

  /** `a/b`. */
  function Sep(a: Bytes, b: Bytes): Bytes { a + [SLASH] + b }

  /** `str::split('/')`: always at least one piece. */
  function Split(s: Bytes): (r: seq<Bytes>)
    ensures |r| >= 1
    decreases |s|
  {
    if s == [] then [[]]
    else if s[0] == SLASH then [[]] + Split(s[1..])
    else
      var r := Split(s[1..]);
      [[s[0]] + r[0]] + r[1..]
  }

  /** The inverse of `Split`. */
  function Unsplit(r: seq<Bytes>): Bytes
    requires |r| >= 1
    decreases |r|
  {
    if |r| == 1 then r[0] else Sep(r[0], Unsplit(r[1..]))
  }

  predicate NoSlash(s: Bytes) { SLASH !in s }

  lemma {:induction false} SplitSep(a: Bytes, b: Bytes)
    ensures Split(Sep(a, b)) == Split(a) + Split(b)
    decreases |a|
  {
    var s := Sep(a, b);
    if a == [] {
      assert s[1..] == b;
    } else {
      assert s[0] == a[0] && s[1..] == Sep(a[1..], b);
      SplitSep(a[1..], b);
    }
  }

  lemma {:induction false} SplitPlain(s: Bytes)
    requires NoSlash(s)
    ensures Split(s) == [s]
    decreases |s|
  {
    if s != [] {
      SplitPlain(s[1..]);
      assert s == [s[0]] + s[1..];
    }
  }

  lemma {:induction false} SplitPieces(s: Bytes)
    ensures forall i :: 0 <= i < |Split(s)| ==> NoSlash(Split(s)[i])
    decreases |s|
  {
    if s != [] {
      SplitPieces(s[1..]);
    }
  }

  /** Cutting and gluing back changes nothing, so a string is determined by its segments. */
  lemma {:induction false} UnsplitSplit(s: Bytes)
    ensures Unsplit(Split(s)) == s
    decreases |s|
  {
    if s != [] {
      UnsplitSplit(s[1..]);
      var r := Split(s[1..]);
      if s[0] == SLASH {
        assert ([[]] + r)[1..] == r;
        assert Sep([], s[1..]) == s;
      } else if |r| == 1 {
        assert s == [s[0]] + s[1..];
      } else {
        var t := [[s[0]] + r[0]] + r[1..];
        assert t[1..] == r[1..];
        assert Sep([s[0]] + r[0], Unsplit(r[1..])) == [s[0]] + Sep(r[0], Unsplit(r[1..]));
        assert s == [s[0]] + s[1..];
      }
    }
  }

  lemma {:induction false} SplitUnsplit(r: seq<Bytes>)
    requires |r| >= 1 && forall i :: 0 <= i < |r| ==> NoSlash(r[i])
    ensures Split(Unsplit(r)) == r
    decreases |r|
  {
    SplitPlain(r[0]);
    if |r| == 1 {
      assert r == [r[0]];
    } else {
      SplitUnsplit(r[1..]);
      SplitSep(r[0], Unsplit(r[1..]));
      assert r == [r[0]] + r[1..];
    }
  }

  /** A string with two or more segments is its leading segments, a slash and its last segment. */
  lemma SplitLast(s: Bytes) returns (front: Bytes, last: Bytes)
    requires |Split(s)| >= 2
    ensures s == Sep(front, last) && NoSlash(last)
    ensures Split(front) == Split(s)[..|Split(s)| - 1] && last == Split(s)[|Split(s)| - 1]
  {
    var r := Split(s);
    var k := |r| - 1;
    SplitPieces(s);
    front, last := Unsplit(r[..k]), r[k];
    SplitUnsplit(r[..k]);
    SplitPlain(last);
    SplitSep(front, last);
    assert r == r[..k] + [r[k]];
    UnsplitSplit(s);
    UnsplitSplit(Sep(front, last));
  }

  lemma {:induction false} SplitLength(s: Bytes)
    ensures s == [] || |Split(s)| <= |s| + 1
    ensures (Split(s) == [[]]) <==> s == []
    decreases |s|
  {
    if s != [] { SplitLength(s[1..]); }
  }

  // ----- Hexadecimal and escapes -----

  function HexValue(b: Byte): (r: Option<Byte>)
    ensures r.Some? ==> r.value < 16
  {
    if 0x30 <= b <= 0x39 then Some(b - 0x30)
    else if 0x61 <= b <= 0x66 then Some(b - 0x61 + 10)
    else if 0x41 <= b <= 0x46 then Some(b - 0x41 + 10)
    else None
  }

  function HexPair(a: Byte, b: Byte): Option<Byte> {
    match (HexValue(a), HexValue(b))
    case (Some(h), Some(l)) => Some(h * 16 + l)
    case _ => None
  }

  /** The bytes an escape must not stand for: NUL, dot, slash, backslash. */
  predicate Unsafe(b: Byte) { b == 0x00 || b == 0x2e || b == 0x2f || b == 0x5c }

  /** A `%XX` escape starts here; it stands for `HexPair` of its digits. */
  predicate EscapeAt(s: Bytes, i: nat) {
    i + 2 < |s| && s[i] == PERCENT && HexPair(s[i + 1], s[i + 2]).Some?
  }

  /** What the scanner refuses at one index: an unsafe escape, or an escaped percent followed by unsafe digits. */
  predicate RefusedAt(s: Bytes, i: nat) {
    EscapeAt(s, i) &&
    var v := HexPair(s[i + 1], s[i + 2]).value;
    || Unsafe(v)
    || (v == PERCENT && i + 4 < |s| && HexPair(s[i + 3], s[i + 4]).Some? && Unsafe(HexPair(s[i + 3], s[i + 4]).value))
  }

  ghost predicate SafeEscapes(s: Bytes) { forall i: nat :: !RefusedAt(s, i) }

  /** reject_encoded_unsafe_components: looks at every index. */
  method RejectEncodedUnsafeComponents(input: Bytes) returns (ok: bool)
    ensures ok <==> SafeEscapes(input)
  {
    var index := 0;
    while index + 2 < |input|
      invariant 0 <= index
      invariant forall i: nat :: i < index ==> !RefusedAt(input, i)
    {
      if input[index] == PERCENT {
        var value := HexPair(input[index + 1], input[index + 2]);
        if value.None? {
          assert !RefusedAt(input, index);
          index := index + 1;
          continue;
        }
        var nestedUnsafe := false;
        if value.value == PERCENT && index + 4 < |input| {
          var nested := HexPair(input[index + 3], input[index + 4]);
          nestedUnsafe := nested.Some? && Unsafe(nested.value);
        }
        if Unsafe(value.value) || nestedUnsafe {
          assert RefusedAt(input, index);
          return false;
        }
      }
      assert !RefusedAt(input, index);
      index := index + 1;
    }
    ok := true;
  }

  /** Every percent sign, met from the left, starts an escape. */
  predicate WellEncoded(s: Bytes)
    decreases |s|
  {
    if s == [] then true
    else if s[0] == PERCENT then EscapeAt(s, 0) && WellEncoded(s[3..])
    else WellEncoded(s[1..])
  }

  /** validate_percent_encoding. */
  method ValidatePercentEncoding(input: Bytes) returns (ok: bool)
    ensures ok <==> WellEncoded(input)
  {
    var index := 0;
    while index < |input|
      invariant 0 <= index <= |input|
      invariant WellEncoded(input) <==> WellEncoded(input[index..])
    {
      if input[index] == PERCENT {
        if index + 2 >= |input| || HexValue(input[index + 1]).None? || HexValue(input[index + 2]).None? {
          assert !EscapeAt(input[index..], 0);
          return false;
        }
        assert EscapeAt(input[index..], 0);
        assert input[index..][3..] == input[index + 3..];
        index := index + 3;
      } else {
        assert input[index..][1..] == input[index + 1..];
        index := index + 1;
      }
    }
    ok := true;
  }

  /** percent_decode_str: one left-to-right pass; a percent sign that starts no escape stays. */
  function Decode(s: Bytes): Bytes
    decreases |s|
  {
    if s == [] then []
    else if EscapeAt(s, 0) then [HexPair(s[1], s[2]).value] + Decode(s[3..])
    else [s[0]] + Decode(s[1..])
  }
}
