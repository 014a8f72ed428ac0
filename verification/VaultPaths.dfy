/** Vault paths: what `parse` and `from_url_path` accept, and the invariant of every path. */
module VaultPaths {
  import opened Prelude
  import opened PathText

  const MAX_PATH_BYTES := 4096
  const MAX_SEGMENTS := 64
  const MAX_SEGMENT_BYTES := 255
  const SPACE: Byte := 0x20

  datatype PathError =
    | EncodedUnsafeComponent
    | Absolute
    | Backslash
    | Nul
    | ControlCharacter
    | TooLong
    | TooDeep
    | EmptySegment
    | Traversal
    | SegmentTooLong
    | TrailingSpaceOrPeriod
    | InvalidPlatformCharacter
    | ReservedPlatformName
    | InvalidPercentEncoding
    | InvalidUtf8

  /** A path is its text; the empty text is the Vault root. */
  datatype VaultPath = VaultPath(text: Bytes) {
    predicate IsRoot() { text == [] }

    function Segments(): seq<Bytes> { if text == [] then [] else Split(text) }

    function Depth(): nat { |Segments()| }
  }

  const Root := VaultPath([])

  // ----- Parsing -----

  /** `char::is_control` on UTF-8: C0, DEL, and C1, which takes two bytes. */
  predicate ControlAt(s: Bytes, i: nat) {
    i < |s| && (s[i] < 0x20 || s[i] == 0x7f || (s[i] == 0xc2 && i + 1 < |s| && 0x80 <= s[i + 1] <= 0x9f))
  }

  predicate HasControl(s: Bytes) { exists i: nat :: i < |s| && ControlAt(s, i) }

  predicate PlatformCharacter(b: Byte) {
    b == 0x3a || b == 0x2a || b == 0x3f || b == 0x22 || b == 0x3c || b == 0x3e || b == 0x7c
  }

  /** The part before the first dot. */
  function Stem(s: Bytes): Bytes { if s == [] || s[0] == DOT then [] else [s[0]] + Stem(s[1..]) }

  function Upper(b: Byte): Byte { if 0x61 <= b <= 0x7a then b - 0x20 else b }

  /** CON, PRN, AUX, NUL, COM1 to COM9 and LPT1 to LPT9, in any ASCII case. */
  predicate ReservedName(segment: Bytes) {
    var stem := Stem(segment);
    || (|stem| == 3 &&
        var u := [Upper(stem[0]), Upper(stem[1]), Upper(stem[2])];
        u == [0x43, 0x4f, 0x4e] || u == [0x50, 0x52, 0x4e] || u == [0x41, 0x55, 0x58] || u == [0x4e, 0x55, 0x4c])
    || (|stem| == 4 && 0x31 <= stem[3] <= 0x39 &&
        var u := [Upper(stem[0]), Upper(stem[1]), Upper(stem[2])];
        u == [0x43, 0x4f, 0x4d] || u == [0x4c, 0x50, 0x54])
  }

  function ValidateSegment(s: Bytes): Option<PathError> {
    if s == [DOT] || s == [DOT, DOT] then Some(Traversal)
    else if |s| > MAX_SEGMENT_BYTES then Some(SegmentTooLong)
    else if s != [] && (s[|s| - 1] == SPACE || s[|s| - 1] == DOT) then Some(TrailingSpaceOrPeriod)
    else if exists i :: 0 <= i < |s| && PlatformCharacter(s[i]) then Some(InvalidPlatformCharacter)
    else if ReservedName(s) then Some(ReservedPlatformName)
    else None
  }

  function FirstSegmentError(r: seq<Bytes>): (e: Option<PathError>)
    ensures e.None? <==> forall i :: 0 <= i < |r| ==> ValidateSegment(r[i]).None?
    decreases |r|
  {
    if r == [] then None
    else
      var e := ValidateSegment(r[0]);
      if e.Some? then e else FirstSegmentError(r[1..])
  }

  /** VaultPath::parse. `nfc` stands for Unicode normalization form C. */
  ghost function Parse(nfc: Bytes -> Bytes, input: Bytes): Result<VaultPath, PathError> {
    if input == [] then Ok(Root)
    else if !SafeEscapes(input) then Err(EncodedUnsafeComponent)
    else if input[0] == SLASH then Err(Absolute)
    else if BACKSLASH in input then Err(Backslash)
    else if 0 in input then Err(Nul)
    else if HasControl(input) then Err(ControlCharacter)
    else
      var n := nfc(input);
      var r := Split(n);
      if |n| > MAX_PATH_BYTES then Err(TooLong)
      else if |r| > MAX_SEGMENTS then Err(TooDeep)
      else if [] in r then Err(EmptySegment)
      else
        var e := FirstSegmentError(r);
        if e.Some? then Err(e.value) else Ok(VaultPath(n))
  }

  /** VaultPath::from_url_path. `utf8` says whether decoded bytes are valid UTF-8. */
  ghost function FromUrlPath(nfc: Bytes -> Bytes, utf8: Bytes -> bool, input: Bytes): Result<VaultPath, PathError> {
    var stripped := if input != [] && input[0] == SLASH then input[1..] else input;
    if !WellEncoded(stripped) then Err(InvalidPercentEncoding)
    else if !utf8(Decode(stripped)) then Err(InvalidUtf8)
    else Parse(nfc, Decode(stripped))
  }

  // ----- What a parsed path is -----

  /** What `parse` demands before it normalizes. */
  ghost predicate Clean(s: Bytes) {
    SafeEscapes(s) && (s == [] || s[0] != SLASH) && BACKSLASH !in s && 0 !in s && !HasControl(s)
  }

  predicate SegmentOk(s: Bytes) { s != [] && ValidateSegment(s).None? }

  /** What `parse` demands after it normalizes. */
  predicate Shaped(n: Bytes) {
    |n| <= MAX_PATH_BYTES && |Split(n)| <= MAX_SEGMENTS && forall i :: 0 <= i < |Split(n)| ==> SegmentOk(Split(n)[i])
  }

  lemma ParseAccepts(nfc: Bytes -> Bytes, input: Bytes)
    requires input != []
    ensures Parse(nfc, input).Ok? <==> Clean(input) && Shaped(nfc(input))
    ensures Parse(nfc, input).Ok? ==> Parse(nfc, input).value == VaultPath(nfc(input))
  {
  }

  /** The invariant of every `VaultPath`: the root, or a clean, normalized, well-shaped text. */
  ghost predicate Parsed(nfc: Bytes -> Bytes, p: VaultPath) {
    p.IsRoot() || (Clean(p.text) && nfc(p.text) == p.text && Shaped(p.text))
  }

  /** Equivalently, parsing the path's own text gives the path back. */
  lemma ParsedMeans(nfc: Bytes -> Bytes, p: VaultPath)
    ensures Parsed(nfc, p) <==> Parse(nfc, p.text) == Ok(p)
  {
  }
}
