/**
 Decoding twice. The scanner refuses an escaped percent sign before two digits that spell an
 unsafe byte; what is left after it are escapes whose digits are themselves escaped.
 */
module PathTwice {
  import opened Prelude
  import opened PathText
  import opened PathDecode
  import opened VaultPaths

  /** A byte of the decoded text, and whether an escape stood for it. */
  datatype Token = Token(value: Byte, escaped: bool)

  function Tokens(s: Bytes): (r: seq<Token>)
    ensures |r| == |Decode(s)| && forall i :: 0 <= i < |r| ==> r[i].value == Decode(s)[i]
    decreases |s|
  {
    if s == [] then []
    else if EscapeAt(s, 0) then [Token(HexPair(s[1], s[2]).value, true)] + Tokens(s[3..])
    else [Token(s[0], false)] + Tokens(s[1..])
  }

  /** Three bytes of the decoded text spell an escape of an unsafe byte. */
  predicate SpellsUnsafe(t: seq<Token>, i: nat) {
    && i + 2 < |t| && t[i].value == PERCENT && HexPair(t[i + 1].value, t[i + 2].value).Some?
    && Unsafe(HexPair(t[i + 1].value, t[i + 2].value).value)
  }

  /** And one of its two digits was written as an escape. */
  predicate Assembled(t: seq<Token>, i: nat) {
    SpellsUnsafe(t, i) && (t[i + 1].escaped || t[i + 2].escaped)
  }

  ghost predicate NothingAssembled(s: Bytes) { forall i: nat :: !Assembled(Tokens(s), i) }

  lemma SafeTail(s: Bytes, k: nat)
    requires SafeEscapes(s) && k <= |s|
    ensures SafeEscapes(s[k..])
  {
    forall i: nat
      ensures !RefusedAt(s[k..], i)
    {
      assert !RefusedAt(s, i + k);
    }
  }

  /** The first byte that no escape stands for is the first byte of the text. */
  lemma RawHead(s: Bytes)
    requires Tokens(s) != [] && !Tokens(s)[0].escaped
    ensures s != [] && !EscapeAt(s, 0) && Tokens(s)[0].value == s[0] && Tokens(s)[1..] == Tokens(s[1..])
  {
  }

  lemma TwoRawHeads(s: Bytes)
    requires |Tokens(s)| >= 2 && !Tokens(s)[0].escaped && !Tokens(s)[1].escaped
    ensures |s| >= 2 && s[0] == Tokens(s)[0].value && s[1] == Tokens(s)[1].value
  {
    RawHead(s);
    assert Tokens(s[1..])[0] == Tokens(s)[1];
    RawHead(s[1..]);
  }

  /** After the first token come the tokens of the rest of the text. */
  lemma TokensTail(s: Bytes)
    requires s != []
    ensures var k := if EscapeAt(s, 0) then 3 else 1; k <= |s| && Tokens(s)[1..] == Tokens(s[k..])
  {
  }

  /** The digits of the first token's escape are where the text says so. */
  lemma RawDigits(s: Bytes)
    requires |Tokens(s)| >= 3 && !Tokens(s)[1].escaped && !Tokens(s)[2].escaped
    ensures var k := if EscapeAt(s, 0) then 3 else 1;
            k + 1 < |s| && s[k] == Tokens(s)[1].value && s[k + 1] == Tokens(s)[2].value
  {
    TokensTail(s);
    var k := if EscapeAt(s, 0) then 3 else 1;
    assert Tokens(s[k..])[0] == Tokens(s)[1] && Tokens(s[k..])[1] == Tokens(s)[2];
    TwoRawHeads(s[k..]);
  }

  /** An unsafe escape at the start with raw digits is what the nested check refuses. */
  lemma RawDigitsAreRefused(s: Bytes)
    requires SpellsUnsafe(Tokens(s), 0) && !Tokens(s)[1].escaped && !Tokens(s)[2].escaped
    ensures RefusedAt(s, 0)
  {
    RawDigits(s);
  }

  /** In a text that the scanner accepts, an unsafe escape can only come out of escaped digits. */
  lemma {:induction false} OnlyAssembled(s: Bytes, i: nat)
    requires SafeEscapes(s) && SpellsUnsafe(Tokens(s), i)
    ensures Assembled(Tokens(s), i)
    decreases |s|
  {
    hide RefusedAt, Tokens;
    if i > 0 {
      var k := if EscapeAt(s, 0) then 3 else 1;
      TokensTail(s);
      SafeTail(s, k);
      OnlyAssembled(s[k..], i - 1);
    } else {
      assert !RefusedAt(s, 0);
      if !Tokens(s)[1].escaped && !Tokens(s)[2].escaped { RawDigitsAreRefused(s); }
    }
  }

  /**
   What the nested check buys. On a text that the scanner accepts, two decodes in a row
   introduce no slash, backslash, dot or NUL exactly when no escape is assembled out of
   escaped digits.
   */
  lemma SecondDecodeIntroducesNothingIff(s: Bytes)
    requires SafeEscapes(s)
    ensures NothingAssembled(s) <==> forall b: Byte :: Unsafe(b) ==> Count(Decode(Decode(s)), b) == Count(s, b)
  {
    ScannerImpliesNoUnsafeEscape(s);
    DecodeIntroducesNothingIff(s);
    DecodeIntroducesNothingIff(Decode(s));
    assert (forall b: Byte :: Unsafe(b) ==> Count(Decode(Decode(s)), b) == Count(s, b)) <==> NoUnsafeEscape(Decode(s)) by {
      assert forall b: Byte :: Unsafe(b) ==> Count(Decode(s), b) == Count(s, b);
    }
    UnsafeIsAssembled(s);
  }

  lemma UnsafeIsAssembled(s: Bytes)
    requires SafeEscapes(s)
    ensures NoUnsafeEscape(Decode(s)) <==> NothingAssembled(s)
  {
    var d, t := Decode(s), Tokens(s);
    forall i: nat
      ensures Assembled(t, i) <==> EscapeAt(d, i) && Unsafe(HexPair(d[i + 1], d[i + 2]).value)
    {
      if SpellsUnsafe(t, i) { OnlyAssembled(s, i); }
    }
  }

  /** Then the two decodes also move no segment boundary. */
  lemma SecondDecodeKeepsSegments(s: Bytes)
    requires SafeEscapes(s) && NothingAssembled(s)
    ensures Split(Decode(Decode(s))) == DecodeEach(DecodeEach(Split(s)))
  {
    ScannerImpliesNoUnsafeEscape(s);
    DecodeKeepsSegments(s);
    UnsafeIsAssembled(s);
    DecodeKeepsSegments(Decode(s));
  }

  lemma {:induction false} StemWithoutDot(s: Bytes)
    requires DOT !in s
    ensures Stem(s) == s
    decreases |s|
  {
    if s != [] {
      StemWithoutDot(s[1..]);
      assert s == [s[0]] + s[1..];
    }
  }

  lemma {:induction false} ShapedIfSimple(s: Bytes)
    requires 5 <= |s| <= MAX_SEGMENT_BYTES && SLASH !in s && DOT !in s && s[|s| - 1] != SPACE
    requires forall i :: 0 <= i < |s| ==> !PlatformCharacter(s[i])
    ensures Shaped(s)
  {
    SplitPlain(s);
    StemWithoutDot(s);
  }

  lemma {:induction false} DottedDecodes(s: Bytes)
    requires s == [0x25, 0x32, 0x35, 0x25, 0x33, 0x32, 0x25, 0x36, 0x35]
    ensures SafeEscapes(s) && Decode(s) == [0x25, 0x32, 0x65] && Decode(Decode(s)) == [DOT]
  {
    assert s[3..] == [0x25, 0x33, 0x32, 0x25, 0x36, 0x35] && s[3..][3..] == [0x25, 0x36, 0x35] && s[3..][3..][3..] == [];
    assert Decode(s[3..][3..]) == [0x65];
    assert Decode(s[3..]) == [0x32, 0x65];
    assert Decode([0x25, 0x32, 0x65]) == [0x2e] + Decode([0x25, 0x32, 0x65][3..]);
  }

  /** `%25%32%65` is a Vault path as it stands, decodes to `%2e`, and that to a dot. */
  lemma {:induction false} TwoDecodesCanMakeADot()
    ensures var s: Bytes := [0x25, 0x32, 0x35, 0x25, 0x33, 0x32, 0x25, 0x36, 0x35];
            Clean(s) && Shaped(s) && Decode(s) == [0x25, 0x32, 0x65] && Decode(Decode(s)) == [DOT]
  {
    hide SafeEscapes, Decode, Shaped;
    var s: Bytes := [0x25, 0x32, 0x35, 0x25, 0x33, 0x32, 0x25, 0x36, 0x35];
    assert forall i :: 0 <= i < |s| ==> s[i] >= 0x20 && s[i] <= 0x36 && !PlatformCharacter(s[i]) && s[i] != SLASH && s[i] != DOT;
    DottedDecodes(s);
    ShapedIfSimple(s);
    assert !HasControl(s);
  }
}
