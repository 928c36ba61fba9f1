/**
  The syntax of the XML library written out: entities, character classes, numeric references, and the forms that the
  parser reads although the printer never writes them.
  */
module XmlSyntax {
  import opened XmlText
  import opened XmlTree
  import XmlEscaping
  import XmlPrinter
  import XmlRoundTrip
  import Seqs

  // ---- Entities ----

  lemma AmpRead(rest: string)
    ensures GetChar("&amp;" + rest) == Char("&", rest)
  {
    hide NumericEntity;
    Seqs.Split("&amp;", rest);
  }

  lemma LtRead(rest: string)
    ensures GetChar("&lt;" + rest) == Char("<", rest)
  {
    hide NumericEntity;
    Seqs.Split("&lt;", rest);
  }

  lemma GtRead(rest: string)
    ensures GetChar("&gt;" + rest) == Char(">", rest)
  {
    hide NumericEntity;
    Seqs.Split("&gt;", rest);
  }

  lemma QuotRead(rest: string)
    ensures GetChar("&quot;" + rest) == Char("\"", rest)
  {
    hide NumericEntity;
    Seqs.Split("&quot;", rest);
  }

  lemma AposRead(rest: string)
    ensures GetChar("&apos;" + rest) == Char("'", rest)
  {
    hide NumericEntity;
    var s := "&apos;" + rest;
    Seqs.Split("&apos;", rest);
    assert s[1] == 'a' && s[2] == 'p' && AMP[2] == 'm' && LT[1] == 'l' && GT[1] == 'g' && QUOT[1] == 'q';
  }

  lemma NamedEntities(rest: string)
    ensures GetChar("&amp;" + rest) == Char("&", rest)
    ensures GetChar("&lt;" + rest) == Char("<", rest)
    ensures GetChar("&gt;" + rest) == Char(">", rest)
    ensures GetChar("&quot;" + rest) == Char("\"", rest)
    ensures GetChar("&apos;" + rest) == Char("'", rest)
  {
    hide *;
    AmpRead(rest);
    LtRead(rest);
    GtRead(rest);
    QuotRead(rest);
    AposRead(rest);
  }

  /** Any other ampersand is dropped. */
  lemma LoneAmpersand(c: char, rest: string)
    requires c != '#' && c != 'a' && c != 'l' && c != 'g' && c != 'q'
    ensures GetChar("&" + [c] + rest) == Char("", [c] + rest)
  {
    var s := "&" + [c] + rest;
    assert s[1] == c && s[1..] == [c] + rest;
  }

  /** Every other character stands for itself. */
  lemma PlainCharacters(c: char, rest: string)
    requires c != '&'
    ensures GetChar([c] + rest) == Char([c], rest)
  {
  }

  lemma EscapedCharacters()
    ensures Encode("&") == "&amp;" && Encode("<") == "&lt;" && Encode(">") == "&gt;"
    ensures Encode("\"") == "&quot;" && Encode("'") == "&apos;"
  {
  }

  /** Control characters become references with two upper-case hexadecimal digits, all others stay. */
  lemma EscapedOthers(c: char)
    requires c !in "&<>\"'"
    ensures EncodeChar(c) ==
            if c as int < 32 then "&#x" + ["0123456789ABCDEF"[c as int / 16]] + ["0123456789ABCDEF"[c as int % 16]] + ";" else [c]
  {
    if c as int < 32 {
      HexCharIs(c as int / 16);
      HexCharIs(c as int % 16);
    }
  }

  lemma HexCharIs(d: nat)
    requires d < 16
    ensures HexChar(d) == "0123456789ABCDEF"[d]
  {
  }

  /** Away from "&#x" a text is escaped character by character. */
  lemma EscapedInOrder(c: char, v: string)
    requires !("&#x" <= [c] + v)
    ensures Encode([c] + v) == EncodeChar(c) + Encode(v)
  {
    hide EncodeChar;
    assert ([c] + v)[1..] == v;
  }

  // ---- Numeric references ----

  /** A number written with the given digits. */
  function Numeral(n: nat, digits: string): (s: string)
    requires |digits| == 10 || |digits| == 16
    ensures s != ""
    decreases n
  {
    if n < |digits| then [digits[n]] else Numeral(n / |digits|, digits) + [digits[n % |digits|]]
  }

  predicate DigitsOf(digits: string, base: Base) {
    if base.Hex? then digits == "0123456789ABCDEF" || digits == "0123456789abcdef" else digits == "0123456789"
  }

  lemma DigitCount(digits: string, base: Base)
    requires DigitsOf(digits, base)
    ensures |digits| == base.Radix() && (|digits| == 10 || |digits| == 16)
  {
  }

  lemma DigitIs(digits: string, base: Base, d: nat)
    requires DigitsOf(digits, base) && d < |digits|
    ensures |digits| == base.Radix() && base.Digit(digits[d]) == d && digits[d] != base.Mark() && digits[d] != ';' && digits[d] != '\0'
  {
  }

  lemma NumeralIs(n: nat, digits: string)
    requires |digits| == 10 || |digits| == 16
    ensures var s := Numeral(n, digits);
      && s[|s| - 1] == digits[n % |digits|]
      && s[..|s| - 1] == if n < |digits| then "" else Numeral(n / |digits|, digits)
  {
  }

  /** Walking back over a numeral gives its number, as long as 32 bits hold it. */
  lemma {:induction false} NumeralReadsBack(n: nat, digits: string, base: Base, mult: nat)
    requires DigitsOf(digits, base) && mult >= 1 && mult * n < WORD
    ensures (|digits| == 10 || |digits| == 16) && CodeBack(Numeral(n, digits), base, mult) == mult * n
    decreases n
  {
    hide *;
    DigitCount(digits, base);
    var r := |digits|;
    var q, d := n / r, n % r;
    var s := Numeral(n, digits);
    DivideDigit(n, r);
    DigitIs(digits, base, d);
    NumeralIs(n, digits);
    if n < r {
      LastDigit(s, base, mult, n);
    } else {
      Products(n, q, d, r, mult);
      NumeralReadsBack(q, digits, base, mult * r);
      MoreDigits(s, base, mult, d, mult * r * q);
    }
  }

  lemma DivideDigit(n: nat, r: nat)
    requires r == 10 || r == 16
    ensures n == n / r * r + n % r && n % r < r && (n < r ==> n % r == n) && (n >= r ==> 1 <= n / r < n)
  {
  }

  lemma Products(n: nat, q: nat, d: nat, r: nat, mult: nat)
    requires n == q * r + d && q >= 1 && r >= 1 && mult >= 1 && mult * n < WORD
    ensures mult * r * q + mult * d == mult * n && mult * d < WORD && mult * r < WORD && mult * r >= 1
    ensures mult * r * q < WORD
  {
    assert mult * n == mult * (q * r) + mult * d;
    assert mult * (q * r) == mult * r * q;
    assert mult * r * q >= mult * r;
    assert mult * r >= r;
  }

  lemma LastDigit(s: string, base: Base, mult: nat, d: nat)
    requires |s| == 1 && base.Digit(s[0]) == d && s[0] != base.Mark() && mult * d < WORD
    ensures CodeBack(s, base, mult) == mult * d
  {
    assert CodeBack(s[..0], base, mult * base.Radix() % WORD) == 0;
  }

  lemma MoreDigits(s: string, base: Base, mult: nat, d: nat, more: nat)
    requires s != "" && base.Digit(s[|s| - 1]) == d && s[|s| - 1] != base.Mark() && mult * d < WORD && mult * base.Radix() < WORD
    requires CodeBack(s[..|s| - 1], base, mult * base.Radix()) == more
    ensures CodeBack(s, base, mult) == mult * d + more
  {
    hide Base.Digit, Base.Radix, Base.Mark;
    Wrapped(mult * d);
    Wrapped(mult * base.Radix());
  }

  lemma Wrapped(n: nat)
    requires n < WORD
    ensures n % WORD == n
  {
  }

  lemma {:induction false} NumeralEnds(n: nat, digits: string, base: Base, rest: string)
    requires DigitsOf(digits, base)
    ensures StrChr(Numeral(n, digits) + (";" + rest), ';') == |Numeral(n, digits)|
    ensures var s := Numeral(n, digits); s[0] in digits && s[0] != '\0' && s[0] != 'x' && s[0] != '#'
  {
    DigitCount(digits, base);
    NumeralChars(n, digits, base);
    hide Numeral, DigitsOf;
    SemicolonAt(Numeral(n, digits), rest);
  }

  lemma {:induction false} NumeralChars(n: nat, digits: string, base: Base)
    requires DigitsOf(digits, base) && (|digits| == 10 || |digits| == 16)
    ensures forall i :: 0 <= i < |Numeral(n, digits)| ==> DigitChar(digits, Numeral(n, digits)[i])
    decreases n
  {
    DivideDigit(n, |digits|);
    DigitCharIs(digits, base, n % |digits|);
    NumeralIs(n, digits);
    hide *;
    var s := Numeral(n, digits);
    if n >= |digits| { NumeralChars(n / |digits|, digits, base); }
    forall i | 0 <= i < |s| ensures DigitChar(digits, s[i]) {
      if i < |s| - 1 { assert s[i] == s[..|s| - 1][i]; }
    }
  }

  predicate DigitChar(digits: string, c: char) { c in digits && c != ';' && c != '\0' && c != 'x' && c != '#' }

  lemma DigitCharIs(digits: string, base: Base, d: nat)
    requires DigitsOf(digits, base) && d < |digits|
    ensures DigitChar(digits, digits[d])
  {
  }

  lemma {:induction false} SemicolonAt(s: string, rest: string)
    requires forall i :: 0 <= i < |s| ==> s[i] != ';' && s[i] != '\0'
    ensures StrChr(s + (";" + rest), ';') == |s|
  {
    if s == "" {
      assert s + (";" + rest) == ";" + rest;
    } else {
      assert (s + (";" + rest))[1..] == s[1..] + (";" + rest);
      SemicolonAt(s[1..], rest);
    }
  }

  lemma ReferenceRead(base: Base, n: nat, digits: string, s: string, skip: nat, rest: string)
    requires DigitsOf(digits, base) && n < WORD && (|digits| == 10 || |digits| == 16)
    requires skip <= |s| && s[skip..] == Numeral(n, digits) + (";" + rest)
    ensures NumericEntity(s, base, skip) == Char([(n % 256) as char], rest)
  {
    hide *;
    NumeralEnds(n, digits, base, rest);
    NumeralReadsBack(n, digits, base, 1);
    var d := Numeral(n, digits);
    Front(s[..skip], d, ";" + rest);
    Seqs.Split(d, ";" + rest);
    Seqs.Split(";", rest);
    DropMore(s, skip, |d|);
    NumericIs(s, base, skip, |d|, n);
  }

  lemma DropMore(s: string, a: nat, b: nat)
    requires a + b < |s|
    ensures s[a..a + b] == s[a..][..b] && s[a + b + 1..] == s[a..][b..][1..]
  {
  }

  lemma NumericIs(s: string, base: Base, skip: nat, q: nat, code: nat)
    requires skip <= |s| && StrChr(s[skip..], ';') == q && CodeBack(s[skip..skip + q], base, 1) == code
    ensures NumericEntity(s, base, skip) == Char([(code % 256) as char], s[skip + q + 1..])
  {
    hide StrChr, CodeBack;
  }

  lemma DecIsNumeric(s: string)
    requires |s| > 2 && s[0] == '&' && s[1] == '#' && s[2] != 'x' && s[2] != '\0'
    ensures GetChar(s) == NumericEntity(s, Dec, 2)
  {
    hide NumericEntity;
  }

  /** A decimal reference of any number that fits in 32 bits; the character is its lowest byte. */
  lemma DecimalReference(n: nat, digits: string, rest: string)
    requires n < 0x1_0000_0000 && DigitsOf(digits, Dec) && |digits| == 10
    ensures GetChar("&#" + Numeral(n, digits) + ";" + rest) == Char([(n % 256) as char], rest)
  {
    NumeralEnds(n, digits, Dec, rest);
    hide *;
    var d := Numeral(n, digits);
    var p := "&#";
    Front(p, d, ";" + rest);
    assert p + d + (";" + rest) == p + d + ";" + rest;
    DecIsNumeric(p + d + ";" + rest);
    ReferenceRead(Dec, n, digits, p + d + ";" + rest, 2, rest);
  }

  lemma Front(p: string, d: string, tail: string)
    requires d != ""
    ensures var s := p + d + tail;
      |s| > |p| && (forall i :: 0 <= i < |p| ==> s[i] == p[i]) && s[|p|] == d[0] && s[|p|..] == d + tail
  {
  }

  lemma HexIsNumeric(s: string)
    requires |s| > 3 && s[0] == '&' && s[1] == '#' && s[2] == 'x' && s[3] != '\0'
    ensures GetChar(s) == NumericEntity(s, Hex, 3)
  {
    hide NumericEntity;
  }

  /** A hexadecimal reference, in upper or lower case. */
  lemma HexReference(n: nat, digits: string, rest: string)
    requires n < 0x1_0000_0000 && DigitsOf(digits, Hex) && |digits| == 16
    ensures GetChar("&#x" + Numeral(n, digits) + ";" + rest) == Char([(n % 256) as char], rest)
  {
    NumeralEnds(n, digits, Hex, rest);
    hide *;
    var d := Numeral(n, digits);
    var p := "&#x";
    Front(p, d, ";" + rest);
    assert p + d + (";" + rest) == p + d + ";" + rest;
    HexIsNumeric(p + d + ";" + rest);
    ReferenceRead(Hex, n, digits, p + d + ";" + rest, 3, rest);
  }

  // ---- Character classes ----

  /** The letters and digits of ASCII, some marks, and everything from 127 on. */
  lemma NameCharacters(c: char)
    ensures NameStart(c) <==> 'a' <= c <= 'z' || 'A' <= c <= 'Z' || c == '_' || c as int >= 127
    ensures NameChar(c) <==> NameStart(c) || '0' <= c <= '9' || c == '-' || c == '.' || c == ':'
  {
  }

  /** `isspace` of the C locale. */
  lemma WhiteSpace(c: char)
    ensures IsWhiteSpace(c) <==> c in " \t\n\r" || c as int == 11 || c as int == 12
  {
  }

  // ---- Kinds of tags ----

  /** What a tag is goes by its first characters, where only the declaration does not mind the case. */
  lemma TagKinds(x: char, m: char, l: char, rest: string)
    requires x in "xX" && m in "mM" && l in "lL"
    ensures Identify("<?" + [x, m, l] + rest) == IsDeclaration
    ensures Identify("<!--" + rest) == IsComment && Identify("<![CDATA[" + rest) == IsCData
  {
    var s := "<?" + [x, m, l] + rest;
    assert s[0] == '<' && s[1] == '?' && s[2] == x && s[3] == m && s[4] == l;
    var c, d := "<!--" + rest, "<![CDATA[" + rest;
    assert c[1] == d[1] == '!' && c[2] == '-' && c[..4] == "<!--" && d[..9] == "<![CDATA[";
  }

  /** A letter, an underline or anything from 127 on starts an element; what is left is an unknown tag. */
  lemma OtherKinds(c: char, rest: string)
    requires c != '?' && c != '!'
    ensures Identify("<" + [c] + rest) ==
            if 'a' <= c <= 'z' || 'A' <= c <= 'Z' || c == '_' || c as int >= 127 then IsElement else IsUnknown
  {
    var s := "<" + [c] + rest;
    assert s[0] == '<' && s[1] == c;
  }

  lemma MarkedKinds(c: char, rest: string)
    ensures c != '-' && c != '[' ==> Identify("<!" + [c] + rest) == IsUnknown
    ensures c !in "xX" ==> Identify("<?" + [c] + rest) == IsUnknown
  {
    var s, t := "<!" + [c] + rest, "<?" + [c] + rest;
    assert s[0] == t[0] == '<' && s[1] == '!' && t[1] == '?' && s[2] == t[2] == c;
  }

  // ---- Attributes ----

  predicate Spaces(s: string) {
    forall i :: 0 <= i < |s| ==> IsWhiteSpace(s[i])
  }

  lemma {:induction false} SpacesSkipped(spaces: string, t: string)
    requires Spaces(spaces) && t != "" && !IsWhiteSpace(t[0]) && t[0] != '\0'
    ensures SkipWhiteSpace(At(spaces + t)) == At(t)
  {
    SpacesGo(spaces, t);
    if spaces == "" {
      assert spaces + t == t;
    } else {
      assert (spaces + t)[0] == spaces[0];
    }
  }

  lemma {:induction false} SpacesGo(spaces: string, t: string)
    requires Spaces(spaces) && t != "" && !IsWhiteSpace(t[0])
    ensures SkipWs(spaces + t) == t
  {
    if spaces == "" {
      assert spaces + t == t;
    } else {
      assert (spaces + t)[1..] == spaces[1..] + t;
      SpacesGo(spaces[1..], t);
    }
  }

  /** White space may stand before the name and on both sides of the equals sign, and either quote may be used. */
  lemma SpacedAttribute(s1: string, name: string, s2: string, s3: string, q: char, v: string, tail: string, condense: bool)
    requires Spaces(s1) && Spaces(s2) && Spaces(s3) && ValidName(name) && !XmlEscaping.HasHexRef(v) && (q == '\"' || q == '\'')
    ensures ParseAttribute(s1 + (name + (s2 + ("=" + (s3 + ([q] + (Encode(v) + [q] + tail)))))), condense) == GotAttr(Attr(name, v), tail)
  {
    SpacedAssignment(name, s2, s3, q, v, tail, condense);
    var assignment := "=" + (s3 + ([q] + (Encode(v) + [q] + tail)));
    EqualsEnds(s2, s3 + ([q] + (Encode(v) + [q] + tail)));
    NameAhead(s1, name, s2 + assignment);
    hide *;
    ParsedAs(s1 + (name + (s2 + assignment)), name, s2 + assignment, condense);
  }

  lemma ParsedAs(s: string, name: string, rest: string, condense: bool)
    requires ReadName(SkipWhiteSpace(At(s))) == Name(name, rest)
    ensures ParseAttribute(s, condense) == ParseAssignment(rest, name, condense)
  {
    hide ParseAssignment, ReadName, SkipWhiteSpace;
  }

  lemma EqualsEnds(s2: string, t: string)
    requires Spaces(s2)
    ensures var r := s2 + ("=" + t); r != "" && !NameChar(r[0])
  {
  }

  lemma SpacedAssignment(name: string, s2: string, s3: string, q: char, v: string, tail: string, condense: bool)
    requires Spaces(s2) && Spaces(s3) && !XmlEscaping.HasHexRef(v) && (q == '\"' || q == '\'')
    ensures ParseAssignment(s2 + ("=" + (s3 + ([q] + (Encode(v) + [q] + tail)))), name, condense) == GotAttr(Attr(name, v), tail)
  {
    var value := [q] + (Encode(v) + [q] + tail);
    XmlRoundTrip.QuotedValueReadsBack(name, v, q, tail, condense);
    SpacesSkipped(s3, value);
    SpacesSkipped(s2, "=" + (s3 + value));
    hide *;
    AssignedAs(s2 + ("=" + (s3 + value)), s3 + value, value, name, condense);
  }

  lemma AssignedAs(s: string, t: string, value: string, name: string, condense: bool)
    requires SkipWhiteSpace(At(s)) == At("=" + t) && SkipWhiteSpace(At(t)) == At(value) && !Ended(value)
    ensures ParseAssignment(s, name, condense) == ParseAttrValue(value, name, condense)
  {
    hide ParseAttrValue, SkipWhiteSpace;
    assert ("=" + t)[1..] == t;
  }

  lemma NameAhead(s1: string, name: string, t: string)
    requires Spaces(s1) && ValidName(name) && t != "" && !NameChar(t[0])
    ensures ReadName(SkipWhiteSpace(At(s1 + (name + t)))) == Name(name, t)
  {
    assert (name + t)[0] == name[0];
    SpacesSkipped(s1, name + t);
    XmlRoundTrip.NameReadsBack(name, t);
    SpacesSkipped("", name + t);
    assert "" + (name + t) == name + t;
  }

  predicate Unquoted(v: string) {
    forall i :: 0 <= i < |v| ==> !IsWhiteSpace(v[i]) && v[i] != '\0' && v[i] != '/' && v[i] != '>' && v[i] != '\"' && v[i] != '\''
  }

  lemma {:induction false} UnquotedLengthIs(v: string, tail: string)
    requires Unquoted(v)
    ensures UnquotedEnd(tail) ==> UnquotedLength(v + tail) == |v|
    ensures tail != "" && (tail[0] == '\"' || tail[0] == '\'') ==> UnquotedLength(v + tail) == -1
  {
    if v == "" {
      assert v + tail == tail;
    } else {
      assert (v + tail)[1..] == v[1..] + tail;
      UnquotedLengthIs(v[1..], tail);
    }
  }

  /** What ends such a value. */
  lemma UnquotedEnds(s: string)
    ensures UnquotedEnd(s) <==> s == "" || s[0] in "\0 \t\n\r/>" || s[0] as int == 11 || s[0] as int == 12
  {
  }

  /** Without quotes a value goes up to white space, a slash or a bracket, and is taken as it stands. */
  lemma UnquotedAttribute(name: string, v: string, tail: string, condense: bool)
    requires ValidName(name) && v != "" && Unquoted(v) && UnquotedEnd(tail)
    ensures ParseAttribute(name + ("=" + (v + tail)), condense) == GotAttr(Attr(name, v), tail)
  {
    UnquotedLengthIs(v, tail);
    assert (v + tail)[0] == v[0];
    UnquotedShape(name, v, tail, condense);
    Seqs.Split(v, tail);
  }

  lemma UnquotedShape(name: string, v: string, tail: string, condense: bool)
    requires ValidName(name) && v != "" && !IsWhiteSpace(v[0]) && v[0] != '\0'
    ensures ParseAttribute(name + ("=" + (v + tail)), condense) == ParseAttrValue(v + tail, name, condense)
  {
    hide ParseAttrValue;
    assert (v + tail)[0] == v[0];
    SpacesSkipped("", v + tail);
    assert "" + (v + tail) == v + tail;
    SpacesSkipped("", "=" + (v + tail));
    assert "" + ("=" + (v + tail)) == "=" + (v + tail);
    assert ("=" + (v + tail))[1..] == v + tail;
    NameAhead("", name, "=" + (v + tail));
    assert "" + (name + ("=" + (v + tail))) == name + ("=" + (v + tail));
  }

  /** A quote inside such a value is an error. */
  lemma UnquotedRefused(name: string, v: string, q: char, tail: string, condense: bool)
    requires ValidName(name) && v != "" && Unquoted(v) && (q == '\"' || q == '\'')
    ensures ParseAttribute(name + ("=" + (v + ([q] + tail))), condense) == NoAttr
  {
    UnquotedLengthIs(v, [q] + tail);
    assert (v + ([q] + tail))[0] == v[0];
    UnquotedShape(name, v, [q] + tail, condense);
  }

  // ---- A document written out ----

  predicate Plain(v: string) {
    forall i :: 0 <= i < |v| ==> v[i] !in "&<>\"'" && v[i] as int >= 32
  }

  lemma {:induction false} PlainStays(v: string)
    requires Plain(v)
    ensures Encode(v) == v && !XmlEscaping.HasHexRef(v)
  {
    if v != "" {
      assert v[0] == v[..1][0];
      PlainStays(v[1..]);
      assert [v[0]] + v[1..] == v;
    }
  }

  lemma ShownWhole(name: string)
    requires NoNul(name)
    ensures CStr(name) == name
  {
    CStrIff(name);
  }

  lemma ValidHasNoNul(name: string)
    requires ValidName(name)
    ensures NoNul(name)
  {
  }

  lemma AttributeWritten(attr: string, v: string)
    requires ValidName(attr)
    ensures PrintAttr(Attr(attr, v)) ==
            if '\"' in v then attr + "=" + "'" + Encode(v) + "'" else attr + "=" + "\"" + Encode(v) + "\""
  {
    XmlRoundTrip.NameIsPlain(attr);
    hide Encode, CStr;
  }

  lemma AttributeShown(name: string, e: string, v: string)
    requires Encode(name) == e && Encode(v) == v && '\"' !in v
    ensures PrintAttr(Attr(name, v)) == e + "=" + "\"" + v + "\""
  {
    hide Encode;
  }

  lemma EncodedMark(c: char, e: string, s: string)
    requires c in "<&>" && EncodeChar(c) == e && !("&#x" <= [c] + s)
    ensures Encode([c] + s) == e + Encode(s)
  {
    assert ([c] + s)[1..] == s;
  }

  lemma EncodedMarks()
    ensures Encode("<&>") == "&lt;&amp;&gt;"
  {
    PlainStays("");
    assert EncodeChar('<') == "&lt;" && EncodeChar('>') == "&gt;" && EncodeChar('&') == "&amp;";
    hide Encode, EncodeChar;
    assert (['<'] + "&>")[1] == '&';
    EncodedMark('>', "&gt;", "");
    EncodedMark('&', "&amp;", ">");
    EncodedMark('<', "&lt;", "&>");
    assert ['>'] + "" == ">" && ['&'] + ">" == "&>" && ['<'] + "&>" == "<&>";
  }

  /** The name is escaped like the value. */
  lemma NamesEscaped(v: string)
    requires Plain(v)
    ensures PrintAttr(Attr("<&>", v)) == "&lt;&amp;&gt;=\"" + v + "\""
  {
    EncodedMarks();
    PlainStays(v);
    assert '\"' !in v;
    AttributeShown("<&>", "&lt;&amp;&gt;", v);
    hide *;
    assert "&lt;&amp;&gt;" + "=" + "\"" == "&lt;&amp;&gt;=\"";
  }

  lemma OneAttribute(a: Attr)
    ensures PrintAttrs([a]) == " " + PrintAttr(a)
  {
    hide PrintAttr;
    assert [a][1..] == [];
    assert PrintMore([]) == "";
  }

  lemma AttributesWritten(attr: string, v: string)
    requires ValidName(attr) && Plain(v)
    ensures PrintAttrs([Attr(attr, v)]) == " " + attr + "=\"" + v + "\""
  {
    PlainStays(v);
    assert '\"' !in v;
    hide *;
    AttributeWritten(attr, v);
    OneAttribute(Attr(attr, v));
    AttributeText(attr, v);
  }

  lemma AttributeText(attr: string, v: string)
    ensures " " + (attr + "=" + "\"" + v + "\"") == " " + attr + "=\"" + v + "\""
  {
  }

  /** The pieces of a printout. */
  lemma Pieces(text: string, comment: string, cdata: string, empty: string)
    requires ValidName(empty) && Plain(text) && NoNul(comment) && NoNul(cdata)
    ensures Print(Text(text, false)) == text && Print(Comment(comment)) == "<!--" + comment + "-->"
    ensures Print(Text(cdata, true)) == "<![CDATA[" + cdata + "]]>" && Print(Element(empty, [], [])) == "<" + empty + " />"
  {
    PlainStays(text);
    ValidHasNoNul(empty);
    ShownWhole(empty);
    ShownWhole(comment);
    ShownWhole(cdata);
    hide Encode, CStr, Plain, ValidName, NoNul;
    NoAttributes();
    Seqs.Nothing("<" + empty);
  }

  lemma NoAttributes()
    ensures PrintAttrs([]) == ""
  {
  }

  /** What is known of a list of nodes from its first node and the others. */
  lemma OneMore(n: Node, more: seq<Node>)
    ensures PrintAll([n] + more) == Print(n) + PrintAll(more)
    ensures XmlRoundTrip.WellFormed(n) && XmlRoundTrip.AllWellFormed(more)
            && (more != [] ==> !(XmlRoundTrip.PlainText(n) && XmlRoundTrip.PlainText(more[0])))
            ==> XmlRoundTrip.AllWellFormed([n] + more)
    ensures XmlRoundTrip.NoHexRefs(n) && XmlRoundTrip.AllNoHexRefs(more) ==> XmlRoundTrip.AllNoHexRefs([n] + more)
  {
    hide Print, XmlRoundTrip.WellFormed, XmlRoundTrip.NoHexRefs;
    assert ([n] + more)[1..] == more;
  }

  lemma NoMore()
    ensures PrintAll([]) == "" && XmlRoundTrip.AllWellFormed([]) && XmlRoundTrip.AllNoHexRefs([])
  {
  }

  lemma FourNodes(a: Node, b: Node, c: Node, d: Node)
    ensures [a, b, c, d] == [a] + ([b] + ([c] + ([d] + [])))
  {
  }

  lemma FourPrinted(a: Node, b: Node, c: Node, d: Node)
    ensures PrintAll([a, b, c, d]) == Print(a) + Print(b) + Print(c) + Print(d)
  {
    hide *;
    FourNodes(a, b, c, d);
    NoMore();
    OneMore(d, []);
    OneMore(c, [d] + []);
    OneMore(b, [c] + ([d] + []));
    OneMore(a, [b] + ([c] + ([d] + [])));
    Seqs.Nothing(Print(d));
    XmlRoundTrip.Regroup(Print(a), Print(b), Print(c), Print(d));
  }

  lemma ElementWritten(name: string, attrs: seq<Attr>, kids: seq<Node>)
    requires ValidName(name) && kids != []
    ensures Print(Element(name, attrs, kids)) == "<" + name + PrintAttrs(attrs) + ">" + PrintAll(kids) + "</" + name + ">"
  {
    ValidHasNoNul(name);
    ShownWhole(name);
    hide PrintAttrs, PrintAll, CStr;
    var a, k := PrintAttrs(attrs), PrintAll(kids);
    assert Print(Element(name, attrs, kids)) == "<" + name + a + (">" + k + "</" + name + ">");
  }

  /** An element with an attribute, a text, a comment, a CDATA text and an empty element, as it stands in a file. */
  lemma DocumentParsed(name: string, attr: string, v: string, text: string, comment: string, cdata: string, empty: string, rest: string)
    requires ValidName(name) && ValidName(attr) && ValidName(empty) && Plain(v) && Plain(text) && !Blank(text)
    requires NoNul(comment) && !XmlRoundTrip.Occurs("-->", comment) && NoNul(cdata) && !XmlRoundTrip.Occurs("]]>", cdata)
    ensures ParseElement("<" + name + " " + attr + "=\"" + v + "\">" + text + "<!--" + comment + "--><![CDATA[" + cdata + "]]><" + empty
                         + " /></" + name + ">" + rest, false)
            == Got(Element(name, [Attr(attr, v)], [Text(text, false), Comment(comment), Text(cdata, true), Element(empty, [], [])]), rest)
  {
    var kids := [Text(text, false), Comment(comment), Text(cdata, true), Element(empty, [], [])];
    var e := Element(name, [Attr(attr, v)], kids);
    Pieces(text, comment, cdata, empty);
    AttributesWritten(attr, v);
    FourPrinted(kids[0], kids[1], kids[2], kids[3]);
    ElementWritten(name, [Attr(attr, v)], kids);
    DocumentSurvives(name, attr, v, text, comment, cdata, empty);
    hide *;
    XmlRoundTrip.PrintParseNormal(e, rest, false);
    XmlRoundTrip.KeptIsNormal(e);
    Flattened(name, attr, v, text, comment, cdata, empty);
  }

  lemma DocumentSurvives(name: string, attr: string, v: string, text: string, comment: string, cdata: string, empty: string)
    requires ValidName(name) && ValidName(attr) && ValidName(empty) && Plain(v) && Plain(text) && !Blank(text)
    requires NoNul(comment) && !XmlRoundTrip.Occurs("-->", comment) && NoNul(cdata) && !XmlRoundTrip.Occurs("]]>", cdata)
    ensures var e := Element(name, [Attr(attr, v)], [Text(text, false), Comment(comment), Text(cdata, true), Element(empty, [], [])]);
      XmlRoundTrip.WellFormed(e) && XmlRoundTrip.NoHexRefs(e)
  {
    PlainStays(v);
    PlainStays(text);
    var a, b, c, d := Text(text, false), Comment(comment), Text(cdata, true), Element(empty, [], []);
    NoMore();
    Leaves(text, comment, cdata, empty);
    hide XmlRoundTrip.AllWellFormed, XmlRoundTrip.AllNoHexRefs, ValidName, XmlEscaping.HasHexRef, Plain, Blank;
    FourNodes(a, b, c, d);
    OneMore(d, []);
    OneMore(c, [d] + []);
    OneMore(b, [c] + ([d] + []));
    OneMore(a, [b] + ([c] + ([d] + [])));
  }

  lemma Leaves(text: string, comment: string, cdata: string, empty: string)
    requires ValidName(empty) && !Blank(text) && !XmlEscaping.HasHexRef(text)
    requires NoNul(comment) && !XmlRoundTrip.Occurs("-->", comment) && NoNul(cdata) && !XmlRoundTrip.Occurs("]]>", cdata)
    ensures XmlRoundTrip.WellFormed(Text(text, false)) && XmlRoundTrip.WellFormed(Comment(comment))
    ensures XmlRoundTrip.WellFormed(Text(cdata, true)) && XmlRoundTrip.WellFormed(Element(empty, [], []))
    ensures XmlRoundTrip.NoHexRefs(Text(text, false)) && XmlRoundTrip.NoHexRefs(Comment(comment))
    ensures XmlRoundTrip.NoHexRefs(Text(cdata, true)) && XmlRoundTrip.NoHexRefs(Element(empty, [], []))
  {
    NoMore();
    hide ValidName, XmlRoundTrip.Occurs, XmlEscaping.HasHexRef, Blank;
  }

  lemma Flattened(name: string, attr: string, v: string, text: string, comment: string, cdata: string, empty: string)
    ensures "<" + name + (" " + attr + "=\"" + v + "\"") + ">"
            + (text + ("<!--" + comment + "-->") + ("<![CDATA[" + cdata + "]]>") + ("<" + empty + " />")) + "</" + name + ">"
            == "<" + name + " " + attr + "=\"" + v + "\">" + text + "<!--" + comment + "--><![CDATA[" + cdata + "]]><" + empty
               + " /></" + name + ">"
  {
  }

  // ---- The default layout ----

  lemma LaidOut(a: Node, b: Node, depth: nat, indent: string, lineBreak: string)
    ensures XmlPrinter.LayoutAll([a, b], depth, indent, lineBreak, false)
            == XmlPrinter.Layout(a, depth, indent, lineBreak, false) + XmlPrinter.Layout(b, depth, indent, lineBreak, false)
  {
    hide XmlPrinter.Layout;
    assert [a, b][1..] == [b] && [b][1..] == [];
    assert XmlPrinter.LayoutAll([], depth, indent, lineBreak, false) == "";
    assert XmlPrinter.LayoutAll([b], depth, indent, lineBreak, false) == XmlPrinter.Layout(b, depth, indent, lineBreak, false) + "";
  }

  lemma Indented(indent: string)
    ensures XmlPrinter.Indentation(indent, 0) == "" && XmlPrinter.Indentation(indent, 1) == indent
  {
    assert XmlPrinter.Indentation(indent, 1) == XmlPrinter.Indentation(indent, 0) + indent;
  }

  /** An element with nothing but a text stays on one line. */
  lemma TextOnOneLine(name: string, text: string, indent: string, lineBreak: string)
    requires ValidName(name) && Plain(text)
    ensures XmlPrinter.Layout(Element(name, [], [Text(text, false)]), 1, indent, lineBreak, false)
            == indent + "<" + name + ">" + text + "</" + name + ">" + lineBreak
  {
    var n := Element(name, [], [Text(text, false)]);
    ValidHasNoNul(name);
    ShownWhole(name);
    PlainStays(text);
    NoAttributes();
    Indented(indent);
    OneText(text, indent, lineBreak);
    hide Encode, CStr, XmlPrinter.Indentation, PrintAttrs, XmlPrinter.LayoutAll;
    assert XmlPrinter.EnterText(n, 1, indent, lineBreak) == indent + "<" + name + "" + ">";
    assert XmlPrinter.ExitText(n, 1, indent, lineBreak) == "" + "</" + name + ">" + lineBreak;
    assert XmlPrinter.Layout(n, 1, indent, lineBreak, false) == indent + "<" + name + "" + ">" + text + ("" + "</" + name + ">" + lineBreak);
  }

  lemma OneText(text: string, indent: string, lineBreak: string)
    requires Plain(text)
    ensures XmlPrinter.LayoutAll([Text(text, false)], 2, indent, lineBreak, true) == text
  {
    PlainStays(text);
    hide Encode;
    assert [Text(text, false)][1..] == [];
    assert XmlPrinter.LayoutAll([], 2, indent, lineBreak, true) == "";
  }

  /** An element with an element and a comment, as the printer lays it out by default. */
  lemma DefaultLayout(name: string, inner: string, text: string, comment: string)
    requires ValidName(name) && ValidName(inner) && Plain(text) && NoNul(comment)
    ensures XmlPrinter.Layout(Element(name, [], [Element(inner, [], [Text(text, false)]), Comment(comment)]), 0, "    ", "\n", false)
            == "<" + name + ">\n    <" + inner + ">" + text + "</" + inner + ">\n    <!--" + comment + "-->\n</" + name + ">\n"
  {
    var a, b := Element(inner, [], [Text(text, false)]), Comment(comment);
    TextOnOneLine(inner, text, "    ", "\n");
    LaidOut(a, b, 1, "    ", "\n");
    CommentLine(comment);
    Framed(name, [a, b]);
    hide *;
    Assembled(name, inner, text, comment);
  }

  lemma CommentLine(comment: string)
    requires NoNul(comment)
    ensures XmlPrinter.Layout(Comment(comment), 1, "    ", "\n", false) == "    " + ("<!--" + comment + "-->") + "\n"
  {
    ShownWhole(comment);
    Indented("    ");
    hide CStr, XmlPrinter.Indentation;
  }

  /** Children that are not put on the line of their parent. */
  predicate InLines(kids: seq<Node>) {
    |kids| == 2 || (|kids| == 1 && (kids[0].Text? ==> kids[0].cdata))
  }

  lemma Framed(name: string, kids: seq<Node>)
    requires ValidName(name) && InLines(kids)
    ensures XmlPrinter.Layout(Element(name, [], kids), 0, "    ", "\n", false)
            == "<" + name + ">\n" + XmlPrinter.LayoutAll(kids, 1, "    ", "\n", false) + "</" + name + ">\n"
  {
    hide *;
    Entered(name, kids, "    ", "\n");
    Exited(name, kids, "    ", "\n");
    LaidOutBetween(name, kids, "    ", "\n");
    Closing(name, XmlPrinter.LayoutAll(kids, 1, "    ", "\n", false));
  }

  lemma LaidOutBetween(name: string, kids: seq<Node>, indent: string, lineBreak: string)
    requires InLines(kids)
    ensures XmlPrinter.Layout(Element(name, [], kids), 0, indent, lineBreak, false)
            == XmlPrinter.EnterText(Element(name, [], kids), 0, indent, lineBreak) + XmlPrinter.LayoutAll(kids, 1, indent, lineBreak, false)
               + XmlPrinter.ExitText(Element(name, [], kids), 0, indent, lineBreak)
  {
    hide XmlPrinter.EnterText, XmlPrinter.ExitText, XmlPrinter.LayoutAll;
  }

  lemma Closing(name: string, all: string)
    ensures ("<" + name + (">" + "\n")) + all + ("</" + name + ">" + "\n") == "<" + name + ">\n" + all + "</" + name + ">\n"
  {
  }

  lemma Entered(name: string, kids: seq<Node>, indent: string, lineBreak: string)
    requires ValidName(name) && InLines(kids)
    ensures XmlPrinter.EnterText(Element(name, [], kids), 0, indent, lineBreak) == "<" + name + (">" + lineBreak)
  {
    ValidHasNoNul(name);
    ShownWhole(name);
    NoAttributes();
    Indented(indent);
    Seqs.Nothing("<" + name);
    Seqs.Nothing("<");
    hide CStr, XmlPrinter.Indentation, PrintAttrs, ValidName, NoNul;
    assert "" + "<" + name + "" == "<" + name;
  }

  lemma Exited(name: string, kids: seq<Node>, indent: string, lineBreak: string)
    requires ValidName(name) && InLines(kids)
    ensures XmlPrinter.ExitText(Element(name, [], kids), 0, indent, lineBreak) == "</" + name + ">" + lineBreak
  {
    ValidHasNoNul(name);
    ShownWhole(name);
    Indented(indent);
    hide CStr, XmlPrinter.Indentation, ValidName, NoNul;
    assert "" + "</" == "</";
  }

  /** Anything else that stands alone in an element has a line of its own. */
  lemma OwnLine(name: string, value: string)
    requires ValidName(name) && NoNul(value)
    ensures XmlPrinter.Layout(Element(name, [], [Comment(value)]), 0, "    ", "\n", false)
            == "<" + name + ">\n" + "    " + ("<!--" + value + "-->") + "\n" + "</" + name + ">\n"
    ensures XmlPrinter.Layout(Element(name, [], [Text(value, true)]), 0, "    ", "\n", false)
            == "<" + name + ">\n" + "    " + ("<![CDATA[" + value + "]]>") + "\n" + "</" + name + ">\n"
  {
    Alone(name, Comment(value), "<!--" + value + "-->") by { ShownWhole(value); }
    Alone(name, Text(value, true), "<![CDATA[" + value + "]]>") by { ShownWhole(value); }
  }

  lemma Alone(name: string, kid: Node, text: string)
    requires ValidName(name) && !kid.Element? && (kid.Text? ==> kid.cdata) && Print(kid) == text
    ensures XmlPrinter.Layout(Element(name, [], [kid]), 0, "    ", "\n", false)
            == "<" + name + ">\n" + "    " + text + "\n" + "</" + name + ">\n"
  {
    OneLine(kid, text);
    hide *;
    Entered(name, [kid], "    ", "\n");
    Exited(name, [kid], "    ", "\n");
    LaidOutBetween(name, [kid], "    ", "\n");
    Closing(name, "    " + text + "\n");
    Around(name, text);
  }

  lemma Around(name: string, text: string)
    ensures "<" + name + ">\n" + ("    " + text + "\n") + "</" + name + ">\n"
            == "<" + name + ">\n" + "    " + text + "\n" + "</" + name + ">\n"
  {
  }

  lemma OneLine(kid: Node, text: string)
    requires !kid.Element? && Print(kid) == text
    ensures XmlPrinter.LayoutAll([kid], 1, "    ", "\n", false) == "    " + text + "\n"
  {
    Indented("    ");
    hide XmlPrinter.Indentation, Print;
    assert [kid][1..] == [];
    assert XmlPrinter.LayoutAll([], 1, "    ", "\n", false) == "";
  }

  lemma Assembled(name: string, inner: string, text: string, comment: string)
    ensures "<" + name + ">\n" + ("    " + "<" + inner + ">" + text + "</" + inner + ">" + "\n" + ("    " + ("<!--" + comment + "-->") + "\n"))
            + "</" + name + ">\n"
            == "<" + name + ">\n    <" + inner + ">" + text + "</" + inner + ">\n    <!--" + comment + "-->\n</" + name + ">\n"
  {
  }
}
