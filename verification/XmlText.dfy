/**
  Character-level layer of the XML library: whitespace, names, entities, escaped text.

  A `const char*` into a NUL-terminated buffer is modelled by the text from that address on;
  `Ptr` adds the NULL pointer. A C byte is a Dafny `char`, and everything is stated for the
  byte-per-character encodings (TIXML_ENCODING_UNKNOWN and TIXML_ENCODING_LEGACY).
  */
module XmlText {

  datatype Ptr = Null | At(rest: string)

  /** `!*p` */
  predicate Ended(s: string) {
    s == "" || s[0] == '\0'
  }

  predicate NoNul(s: string) {
    forall i :: 0 <= i < |s| ==> s[i] != '\0'
  }

  function Drop(s: string, n: nat): string {
    if n <= |s| then s[n..] else ""
  }

  /** What a reader through `const char*` sees of a string. */
  function CStr(s: string): string {
    if Ended(s) then "" else [s[0]] + CStr(s[1..])
  }

  lemma {:induction false} CStrIff(s: string)
    ensures NoNul(CStr(s)) && (CStr(s) == s <==> NoNul(s))
  {
    if !Ended(s) {
      CStrIff(s[1..]);
      assert s == [s[0]] + s[1..];
      assert NoNul(s) <==> NoNul(s[1..]) by {
        assert forall i :: 1 <= i < |s| ==> s[i] == s[1..][i - 1];
      }
    }
  }

  predicate IsWhiteSpace(c: char) {
    9 <= c as int <= 13 || c == ' '
  }

  predicate IsAsciiLetter(c: char) {
    'a' <= c <= 'z' || 'A' <= c <= 'Z'
  }

  predicate IsAlpha(c: char) {
    if c as int < 127 then IsAsciiLetter(c) else true
  }

  predicate IsAlphaNum(c: char) {
    if c as int < 127 then IsAsciiLetter(c) || '0' <= c <= '9' else true
  }

  predicate NameStart(c: char) {
    IsAlpha(c) || c == '_'
  }

  predicate NameChar(c: char) {
    IsAlphaNum(c) || c == '_' || c == '-' || c == '.' || c == ':'
  }

  function SkipWs(s: string): (r: string)
    ensures |r| <= |s|
  {
    if s != "" && IsWhiteSpace(s[0]) then SkipWs(s[1..]) else s
  }

  function SkipWhiteSpace(p: Ptr): Ptr {
    if p.Null? || Ended(p.rest) then Null else At(SkipWs(p.rest))
  }

  predicate StringEqual(s: string, tag: string) {
    !Ended(s) && tag <= s
  }

  function ToLower(c: char): char {
    if 'A' <= c <= 'Z' then (c as int + 32) as char else c
  }

  predicate StringEqualNoCase(s: string, tag: string) {
    !Ended(s) && |tag| <= |s| && forall i :: 0 <= i < |tag| ==> ToLower(s[i]) == ToLower(tag[i])
  }

  // ---------------------------------------------------------------- names

  function NameLength(s: string): (n: nat)
    ensures n <= |s|
  {
    if s != "" && NameChar(s[0]) then 1 + NameLength(s[1..]) else 0
  }

  datatype NameResult = NoName | Name(name: string, rest: string)

  function ReadName(p: Ptr): NameResult {
    if p.Null? || Ended(p.rest) || !NameStart(p.rest[0]) then NoName
    else var n := NameLength(p.rest); Name(p.rest[..n], p.rest[n..])
  }

  predicate ValidName(name: string) {
    name != "" && NameStart(name[0]) && forall i :: 0 <= i < |name| ==> NameChar(name[i])
  }

  // ---------------------------------------------------------------- entities

  /** `strchr(s, c)`: offset of the first `c` before the terminator. */
  function StrChr(s: string, c: char): (n: int)
    ensures -1 <= n < |s|
    ensures n >= 0 ==> s[n] == c
    ensures n >= 0 ==> forall i :: 0 <= i < n ==> s[i] != c && s[i] != '\0'
  {
    if Ended(s) then -1
    else if s[0] == c then 0
    else var n := StrChr(s[1..], c); if n < 0 then -1 else n + 1
  }

  function HexDigit(c: char): (d: int)
    ensures -1 <= d < 16
  {
    if '0' <= c <= '9' then c as int - '0' as int
    else if 'a' <= c <= 'f' then c as int - 'a' as int + 10
    else if 'A' <= c <= 'F' then c as int - 'A' as int + 10
    else -1
  }

  function DecDigit(c: char): (d: int)
    ensures -1 <= d < 10
  {
    if '0' <= c <= '9' then c as int - '0' as int else -1
  }

  datatype Base = Hex | Dec {
    function Radix(): nat { if Hex? then 16 else 10 }
    function Mark(): char { if Hex? then 'x' else '#' }
    function Digit(c: char): (d: int) ensures -1 <= d < Radix() { if Hex? then HexDigit(c) else DecDigit(c) }
  }

  const WORD: nat := 0x1_0000_0000

  /** The loop that walks back from the semicolon to the nearest mark, least significant digit first.
      `mult` is a 32-bit unsigned that wraps; -1 stands for the `return 0` on a character that is no digit. */
  function CodeBack(digits: string, base: Base, mult: nat): (code: int)
    ensures code >= -1
    decreases |digits|
  {
    if digits == "" || digits[|digits| - 1] == base.Mark() then 0
    else
      var d := base.Digit(digits[|digits| - 1]);
      if d < 0 then -1
      else
        var more := CodeBack(digits[..|digits| - 1], base, mult * base.Radix() % WORD);
        if more < 0 then -1 else (mult * d) % WORD + more
  }

  datatype CharResult = NoChar | Char(chars: string, rest: string)

  /** `(char)ucs` */
  function ByteOf(code: nat): char { (code % 256) as char }

  function NumericEntity(s: string, base: Base, skip: nat): (r: CharResult)
    requires skip <= |s|
    ensures r.Char? ==> |r.rest| < |s| && |r.chars| <= 1
  {
    var q := StrChr(s[skip..], ';');
    if q < 0 then NoChar
    else
      var code := CodeBack(s[skip..skip + q], base, 1);
      if code < 0 then NoChar else Char([ByteOf(code)], s[skip + q + 1..])
  }

  const AMP := "&amp;"
  const LT := "&lt;"
  const GT := "&gt;"
  const QUOT := "&quot;"
  const APOS := "&apos;"

  /** An unrecognised `&` is skipped and yields no character, because `*length` stays 0. */
  function GetEntity(s: string): (r: CharResult)
    requires s != ""
    ensures r.Char? ==> |r.rest| < |s| && |r.chars| <= 1
  {
    if |s| >= 3 && s[1] == '#' && s[2] != '\0' then
      if s[2] == 'x' then
        if |s| == 3 || s[3] == '\0' then NoChar else NumericEntity(s, Hex, 3)
      else NumericEntity(s, Dec, 2)
    else if AMP <= s then Char("&", s[5..])
    else if LT <= s then Char("<", s[4..])
    else if GT <= s then Char(">", s[4..])
    else if QUOT <= s then Char("\"", s[6..])
    else if APOS <= s then Char("'", s[6..])
    else Char("", s[1..])
  }

  function GetChar(s: string): (r: CharResult)
    requires s != ""
    ensures r.Char? ==> |r.rest| < |s| && |r.chars| <= 1
  {
    if s[0] == '&' then GetEntity(s) else Char([s[0]], s[1..])
  }

  // ---------------------------------------------------------------- text

  /** Text read so far and where the reading loop stopped. */
  datatype TextResult = Read(text: string, stop: Ptr)

  function Prepend(s: string, r: TextResult): TextResult { Read(s + r.text, r.stop) }

  predicate Less(p: Ptr, s: string) { p.At? ==> |p.rest| < |s| }
  predicate LessEq(p: Ptr, s: string) { p.At? ==> |p.rest| <= |s| }

  function ReadKept(s: string, endTag: string): (r: TextResult)
    ensures LessEq(r.stop, s)
    ensures !Ended(s) && !StringEqual(s, endTag) ==> Less(r.stop, s)
    decreases |s|
  {
    if Ended(s) || StringEqual(s, endTag) then Read("", At(s))
    else
      match GetChar(s)
      case NoChar => Read("", Null)
      case Char(cs, rest) => Prepend(cs, ReadKept(rest, endTag))
  }

  function ReadCondensed(s: string, endTag: string, white: bool): (r: TextResult)
    ensures LessEq(r.stop, s)
    ensures !Ended(s) && !StringEqual(s, endTag) ==> Less(r.stop, s)
    decreases |s|
  {
    if Ended(s) || StringEqual(s, endTag) then Read("", At(s))
    else if IsWhiteSpace(s[0]) then ReadCondensed(s[1..], endTag, true)
    else
      var gap := if white then " " else "";
      match GetChar(s)
      case NoChar => Read(gap, Null)
      case Char(cs, rest) => Prepend(gap + cs, ReadCondensed(rest, endTag, false))
  }

  /** `ReadText` before the final step over the end tag. */
  function ReadStop(s: string, trim: bool, condense: bool, endTag: string): (r: TextResult)
    ensures LessEq(r.stop, s)
  {
    if !trim || !condense then ReadKept(s, endTag)
    else
      match SkipWhiteSpace(At(s))
      case Null => Read("", Null)
      case At(t) => ReadCondensed(t, endTag, false)
  }

  /** Steps over the end tag even when the terminator stopped the loop. */
  function ReadText(s: string, trim: bool, condense: bool, endTag: string): (r: TextResult)
    ensures LessEq(r.stop, s)
  {
    var r := ReadStop(s, trim, condense, endTag);
    if r.stop.Null? then r else Read(r.text, At(Drop(r.stop.rest, |endTag|)))
  }

  // ---------------------------------------------------------------- escaping

  const HEX_REF := "&#x"

  /** Length of the stretch that is copied unchanged once "&#x" has been met. */
  function RawLength(v: string): (n: nat)
    requires v != ""
    ensures n < |v|
    ensures forall i :: 1 <= i < n ==> v[i] != ';'
    ensures n < |v| - 1 ==> v[n] == ';'
    decreases |v|
  {
    if |v| == 1 then 0
    else if v[1] == ';' then 1
    else 1 + RawLength(v[1..])
  }

  function HexChar(d: nat): char
    requires d < 16
  {
    if d < 10 then ('0' as int + d) as char else ('A' as int + d - 10) as char
  }

  function EncodeChar(c: char): (e: string)
    ensures e != ""
  {
    if c == '&' then AMP
    else if c == '<' then LT
    else if c == '>' then GT
    else if c == '\"' then QUOT
    else if c == '\'' then APOS
    else if c as int < 32 then HEX_REF + [HexChar(c as int / 16), HexChar(c as int % 16)] + ";"
    else [c]
  }

  function Encode(v: string): string
    decreases |v|
  {
    if v == "" then ""
    else if HEX_REF <= v then
      assert v[0..3] == HEX_REF;
      assert v[1] == '#';
      var n := RawLength(v); v[..n] + Encode(v[n..])
    else EncodeChar(v[0]) + Encode(v[1..])
  }
}
