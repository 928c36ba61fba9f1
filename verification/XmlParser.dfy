/**
  The parser's loops over a text buffer, proved against the functions of XmlText and XmlTree.
  An address is an index into the buffer; -1 is NULL. A step past the terminator stays at the end.
  */
module XmlParser {
  import X = XmlText
  import T = XmlTree
  import Seqs

  function PtrTo(s: string, p: int): X.Ptr
    requires -1 <= p <= |s|
  {
    if p < 0 then X.Null else X.At(s[p..])
  }

  predicate Stopped(s: string, p: int)
    requires -1 <= p <= |s|
  {
    p < 0 || p == |s| || s[p] == '\0'
  }

  method SkipWhiteSpace(s: string, p: int) returns (q: int)
    requires -1 <= p <= |s|
    ensures -1 <= q <= |s| && (q >= 0 ==> p <= q) && PtrTo(s, q) == X.SkipWhiteSpace(PtrTo(s, p))
  {
    if Stopped(s, p) { return -1; }
    q := p;
    while q < |s| && X.IsWhiteSpace(s[q])
      invariant p <= q <= |s| && X.SkipWs(s[q..]) == X.SkipWs(s[p..])
    {
      assert s[q..][1..] == s[q + 1..];
      q := q + 1;
    }
  }

  method StringEqual(s: string, p: nat, tag: string) returns (equal: bool)
    requires p <= |s| && X.NoNul(tag)
    ensures equal == X.StringEqual(s[p..], tag)
  {
    if Stopped(s, p) { return false; }
    var q, t := p, 0;
    while q < |s| && s[q] != '\0' && t < |tag| && s[q] == tag[t]
      invariant t <= |tag| && q == p + t <= |s| && s[p..q] == tag[..t]
    {
      q, t := q + 1, t + 1;
    }
    if t == |tag| {
      assert s[p..][..|tag|] == s[p..q];
      return true;
    }
    if |s[p..]| >= |tag| { assert s[p..][t] == s[q]; }
    return false;
  }

  method ReadName(s: string, p: int) returns (name: string, q: int)
    requires -1 <= p <= |s|
    ensures -1 <= q <= |s|
    ensures match X.ReadName(PtrTo(s, p))
            case NoName => q == -1
            case Name(n, rest) => p < q && name == n && s[q..] == rest
    ensures X.NoNul(name)
  {
    name, q := "", -1;
    if !Stopped(s, p) && X.NameStart(s[p]) {
      hide X.NameLength;
      q := p;
      while q < |s| && X.NameChar(s[q])
        invariant p <= q <= |s| && q - p + X.NameLength(s[q..]) == X.NameLength(s[p..])
        invariant forall i :: p <= i < q ==> s[i] != '\0'
      {
        NameGoesOn(s, q);
        q := q + 1;
      }
      NameStops(s, q);
      NameStarts(s, p);
      name := s[p..q];
      SliceSplit(s, p, q);
    }
  }

  lemma NameGoesOn(s: string, q: nat)
    requires q < |s| && X.NameChar(s[q])
    ensures X.NameLength(s[q..]) == 1 + X.NameLength(s[q + 1..])
  {
    assert s[q..][1..] == s[q + 1..];
  }

  lemma NameStops(s: string, q: nat)
    requires q <= |s| && (q < |s| ==> !X.NameChar(s[q]))
    ensures X.NameLength(s[q..]) == 0
  {
  }

  lemma NameStarts(s: string, p: nat)
    requires p < |s| && X.NameStart(s[p])
    ensures X.NameLength(s[p..]) >= 1
  {
  }

  lemma SliceSplit(s: string, p: nat, q: nat)
    requires p <= q <= |s|
    ensures s[p..][..q - p] == s[p..q] && s[p..][q - p..] == s[q..]
  {
  }

  // ---------------------------------------------------------------- entities

  method StrChr(s: string, p: nat, c: char) returns (q: int)
    requires p <= |s|
    ensures q == (if X.StrChr(s[p..], c) < 0 then -1 else p + X.StrChr(s[p..], c))
  {
    q := p;
    while q < |s| && s[q] != '\0' && s[q] != c
      invariant p <= q <= |s|
      invariant X.StrChr(s[p..], c) == if X.StrChr(s[q..], c) < 0 then -1 else q - p + X.StrChr(s[q..], c)
    {
      assert s[q..][1..] == s[q + 1..];
      q := q + 1;
    }
    if q == |s| || s[q] == '\0' { q := -1; }
  }

  /** The digits between the mark and the semicolon, read backwards. */
  method CodeBack(s: string, lo: nat, semi: nat, base: X.Base) returns (code: int)
    requires 1 <= lo <= semi <= |s| && s[lo - 1] == base.Mark()
    ensures code == X.CodeBack(s[lo..semi], base, 1)
  {
    ghost var digits := s[lo..semi];
    var i, mult := semi - 1, 1;
    code := 0;
    assert s[lo..i + 1] == digits;
    while s[i] != base.Mark()
      invariant lo - 1 <= i < semi && code >= 0 && mult >= 0
      invariant var more := X.CodeBack(s[lo..i + 1], base, mult);
                X.CodeBack(digits, base, 1) == if more < 0 then -1 else code + more
      decreases i
    {
      ghost var ds := s[lo..i + 1];
      assert ds[|ds| - 1] == s[i] && ds[..|ds| - 1] == s[lo..i];
      var d := base.Digit(s[i]);
      if d < 0 { return -1; }
      code := code + mult * d % X.WORD;
      mult := mult * base.Radix() % X.WORD;
      i := i - 1;
    }
    ghost var ds := s[lo..i + 1];
    assert ds == "" || ds[|ds| - 1] == s[i];
  }

  method NumericEntity(s: string, p: nat, base: X.Base, skip: nat) returns (value: string, q: int)
    requires p + skip <= |s| && skip >= 1 && s[p + skip - 1] == base.Mark()
    ensures -1 <= q <= |s|
    ensures match X.NumericEntity(s[p..], base, skip)
            case NoChar => q == -1
            case Char(cs, rest) => value == cs && p < q && s[q..] == rest
  {
    value, q := "", -1;
    assert s[p..][skip..] == s[p + skip..];
    var semi := StrChr(s, p + skip, ';');
    if semi < 0 { return; }
    assert s[p..][skip..semi - p] == s[p + skip..semi];
    var code := CodeBack(s, p + skip, semi, base);
    if code < 0 { return; }
    value, q := [X.ByteOf(code)], semi + 1;
    assert s[p..][semi - p + 1..] == s[q..];
  }

  method NamedEntity(s: string, p: nat) returns (value: string, q: int)
    requires p < |s| && s[p] == '&'
    requires !(|s[p..]| >= 3 && s[p..][1] == '#' && s[p..][2] != '\0')
    ensures p < q <= |s| && X.GetEntity(s[p..]) == X.Char(value, s[q..])
  {
    ghost var t := s[p..];
    var names := [X.AMP, X.LT, X.GT, X.QUOT, X.APOS];
    var chars := "&<>\"'";
    var i := 0;
    while i < |names|
      invariant i <= |names|
      invariant forall k :: 0 <= k < i ==> !(names[k] <= t)
    {
      if names[i] <= s[p..] {
        value, q := [chars[i]], p + |names[i]|;
        assert t[|names[i]|..] == s[q..];
        return;
      }
      i := i + 1;
    }
    assert names[0] == X.AMP && names[1] == X.LT && names[2] == X.GT && names[3] == X.QUOT && names[4] == X.APOS;
    value, q := "", p + 1;
    assert t[1..] == s[q..];
  }

  method GetEntity(s: string, p: nat) returns (value: string, q: int)
    requires p < |s| && s[p] == '&'
    ensures -1 <= q <= |s|
    ensures match X.GetEntity(s[p..])
            case NoChar => q == -1
            case Char(cs, rest) => value == cs && p < q && s[q..] == rest
  {
    ghost var t := s[p..];
    assert |t| >= 3 ==> t[1] == s[p + 1] && t[2] == s[p + 2];
    if p + 2 < |s| && s[p + 1] == '#' && s[p + 2] != '\0' {
      if s[p + 2] == 'x' {
        assert |t| > 3 ==> t[3] == s[p + 3];
        if p + 3 == |s| || s[p + 3] == '\0' { return "", -1; }
        value, q := NumericEntity(s, p, X.Hex, 3);
      } else {
        value, q := NumericEntity(s, p, X.Dec, 2);
      }
    } else {
      value, q := NamedEntity(s, p);
    }
  }

  method GetChar(s: string, p: nat) returns (value: string, q: int)
    requires p < |s|
    ensures -1 <= q <= |s|
    ensures match X.GetChar(s[p..])
            case NoChar => q == -1
            case Char(cs, rest) => value == cs && p < q && s[q..] == rest
  {
    if s[p] == '&' {
      value, q := GetEntity(s, p);
    } else {
      value, q := [s[p]], p + 1;
      assert s[p..][1..] == s[q..];
    }
  }

  // ---------------------------------------------------------------- text

  lemma PrependTwice(a: string, b: string, r: X.TextResult)
    ensures X.Prepend(a, X.Prepend(b, r)) == X.Prepend(a + b, r)
    ensures X.Prepend("", r) == r
  {
  }

  method ReadKept(s: string, p: nat, endTag: string) returns (text: string, q: int)
    requires p <= |s| && X.NoNul(endTag)
    ensures -1 <= q <= |s| && (q >= 0 ==> p <= q) && X.ReadKept(s[p..], endTag) == X.Read(text, PtrTo(s, q))
  {
    text, q := "", p;
    ghost var whole := X.ReadKept(s[p..], endTag);
    ghost var left := whole;
    PrependTwice("", "", whole);
    while !Stopped(s, q)
      invariant -1 <= q <= |s| && (q >= 0 ==> p <= q)
      invariant left == if q >= 0 then X.ReadKept(s[q..], endTag) else X.Read("", X.Null)
      invariant whole == X.Prepend(text, left)
      decreases if q >= 0 then |s| + 1 - q else 0
    {
      var atEnd := StringEqual(s, q, endTag);
      if atEnd { break; }
      var value;
      value, q := GetChar(s, q);
      if q < 0 { break; }
      left := X.ReadKept(s[q..], endTag);
      PrependTwice(text, value, left);
      text := text + value;
    }
    assert text + "" == text;
  }

  lemma VisibleChar(t: string, endTag: string, white: bool)
    requires !X.Ended(t) && !X.StringEqual(t, endTag) && !X.IsWhiteSpace(t[0])
    ensures var gap, g := if white then " " else "", X.GetChar(t);
            X.ReadCondensed(t, endTag, white) ==
            if g.NoChar? then X.Read(gap, X.Null) else X.Prepend(gap + g.chars, X.ReadCondensed(g.rest, endTag, false))
  {
  }

  lemma HiddenChar(t: string, endTag: string, white: bool)
    requires !X.Ended(t) && !X.StringEqual(t, endTag) && X.IsWhiteSpace(t[0])
    ensures X.ReadCondensed(t, endTag, white) == X.ReadCondensed(t[1..], endTag, true)
  {
  }

  lemma TextStops(t: string, endTag: string, white: bool)
    requires X.Ended(t) || X.StringEqual(t, endTag)
    ensures X.ReadCondensed(t, endTag, white) == X.Read("", X.At(t))
  {
  }

  lemma AddPiece(before: string, white: bool, value: string)
    ensures before + ((if white then " " else "") + value) == (if white then before + " " else before) + value
  {
  }

  method ReadCondensed(s: string, p: nat, endTag: string) returns (text: string, q: int)
    requires p <= |s| && X.NoNul(endTag)
    ensures -1 <= q <= |s| && (q >= 0 ==> p <= q) && X.ReadCondensed(s[p..], endTag, false) == X.Read(text, PtrTo(s, q))
  {
    hide X.ReadCondensed, X.GetChar, X.StringEqual;
    text, q := "", p;
    var white := false;
    ghost var whole := X.ReadCondensed(s[p..], endTag, false);
    ghost var left := whole;
    PrependTwice("", "", whole);
    while !Stopped(s, q)
      invariant 0 <= q <= |s| && p <= q
      invariant left == X.ReadCondensed(s[q..], endTag, white)
      invariant whole == X.Prepend(text, left)
      decreases |s| - q
    {
      var atEnd := StringEqual(s, q, endTag);
      if atEnd { break; }
      if X.IsWhiteSpace(s[q]) {
        assert s[q..][1..] == s[q + 1..];
        HiddenChar(s[q..], endTag, white);
        white, q := true, q + 1;
      } else {
        ghost var before, t, gap := text, s[q..], if white then " " else "";
        if white { text := text + " "; }
        var value;
        value, q := GetChar(s, q);
        VisibleChar(t, endTag, white);
        if q < 0 { PrependTwice(before, gap, left); return; }
        left := X.ReadCondensed(s[q..], endTag, false);
        PrependTwice(before, gap + value, left);
        AddPiece(before, white, value);
        white := false;
        text := text + value;
      }
    }
    TextStops(s[q..], endTag, white);
    assert text + "" == text;
  }

  /** `ReadText` up to the step over the end tag. */
  method ReadStop(s: string, p: nat, trim: bool, condense: bool, endTag: string) returns (text: string, q: int)
    requires p <= |s| && X.NoNul(endTag)
    ensures -1 <= q <= |s| && (q >= 0 ==> p <= q)
    ensures X.ReadStop(s[p..], trim, condense, endTag) == X.Read(text, PtrTo(s, q))
  {
    if !trim || !condense {
      text, q := ReadKept(s, p, endTag);
    } else {
      text := "";
      q := SkipWhiteSpace(s, p);
      if q >= 0 { text, q := ReadCondensed(s, q, endTag); }
    }
  }

  method ReadText(s: string, p: nat, trim: bool, condense: bool, endTag: string) returns (text: string, q: int)
    requires p <= |s| && X.NoNul(endTag)
    ensures -1 <= q <= |s| && (q >= 0 ==> p <= q)
    ensures X.ReadText(s[p..], trim, condense, endTag) == X.Read(text, PtrTo(s, q))
  {
    text, q := ReadStop(s, p, trim, condense, endTag);
    if q >= 0 { q := Advance(s, q, |endTag|); }
  }

  /** `p += n`, kept inside the buffer. */
  method Advance(s: string, p: nat, n: nat) returns (q: nat)
    requires p <= |s|
    ensures p <= q <= |s| && s[q..] == X.Drop(s[p..], n)
  {
    if p + n <= |s| {
      q := p + n;
      assert s[p..][n..] == s[q..];
    } else {
      q := |s|;
    }
  }

  /** The inner loop of `EncodeString`, which copies from "&#x" up to a semicolon or the last character. */
  method CopyRaw(str: string, start: nat) returns (raw: string, i: nat)
    requires start < |str|
    ensures i == start + X.RawLength(str[start..]) && i < |str| && raw == str[start..i]
  {
    i, raw := start, "";
    while i < |str| - 1
      invariant start <= i <= |str| - 1 && raw == str[start..i]
      invariant i - start + X.RawLength(str[i..]) == X.RawLength(str[start..])
    {
      ghost var t := str[i..];
      assert t[1] == str[i + 1] && t[1..] == str[i + 1..];
      raw := raw + [str[i]];
      i := i + 1;
      if str[i] == ';' { return; }
    }
  }

  /** `EncodeString`. */
  method EncodeString(str: string) returns (out: string)
    ensures out == X.Encode(str)
  {
    var i := 0;
    out := "";
    while i < |str|
      invariant i <= |str| && X.Encode(str) == out + X.Encode(str[i..])
    {
      ghost var v, before := str[i..], out;
      ghost var piece;
      if i + 2 < |str| && str[i] == '&' && str[i + 1] == '#' && str[i + 2] == 'x' {
        assert v[..3] == X.HEX_REF by { assert v[..3] == [v[0], v[1], v[2]]; }
        ghost var start := i;
        var raw;
        raw, i := CopyRaw(str, i);
        assert v[..i - start] == str[start..i] && v[i - start..] == str[i..];
        assert v[1] == '#';
        out, piece := out + raw, raw;
      } else {
        assert !(X.HEX_REF <= v) by { if X.HEX_REF <= v { HexRefAt(str, i); } }
        assert v[1..] == str[i + 1..];
        piece := X.EncodeChar(str[i]);
        out := out + X.EncodeChar(str[i]);
        i := i + 1;
      }
      assert X.Encode(v) == piece + X.Encode(str[i..]);
      Seqs.Assoc(before, piece, X.Encode(str[i..]));
    }
  }

  lemma HexRefAt(str: string, i: nat)
    requires i <= |str| && X.HEX_REF <= str[i..]
    ensures i + 2 < |str| && str[i] == '&' && str[i + 1] == '#' && str[i + 2] == 'x'
  {
    var v := str[i..];
    assert v[..3] == X.HEX_REF;
    assert v[0] == '&' && v[1] == '#' && v[2] == 'x';
  }

  // ---------------------------------------------------------------- leaves

  /** What a `Parse` that returned address `q` says about the parse function's result. */
  ghost predicate Parsed(r: T.NodeResult, s: string, n: T.Node, q: int) {
    -1 <= q <= |s| && r == if q < 0 then T.NoNode else T.Got(n, s[q..])
  }

  method UntilTag(s: string, p: nat, tag: string) returns (value: string, q: nat)
    requires p <= |s| && X.NoNul(tag)
    ensures q == p + T.UntilTag(s[p..], tag) && q <= |s| && value == s[p..q]
  {
    hide X.StringEqual;
    value, q := "", p;
    while q < |s| && s[q] != '\0'
      invariant p <= q <= |s| && value == s[p..q]
      invariant T.UntilTag(s[p..], tag) == q - p + T.UntilTag(s[q..], tag)
    {
      var atEnd := StringEqual(s, q, tag);
      if atEnd { return; }
      assert s[q..][1..] == s[q + 1..];
      value := value + [s[q]];
      q := q + 1;
    }
  }

  method ParseComment(s: string, p: nat) returns (n: T.Node, q: int)
    requires p < |s| && X.StringEqual(s[p..], "<!--")
    ensures Parsed(T.ParseComment(s[p..]), s, n, q) && q > p
  {
    var value, stop := UntilTag(s, p + 4, "-->");
    assert s[p..][4..] == s[p + 4..];
    assert s[p + 4..][..stop - (p + 4)] == value && s[p + 4..][stop - (p + 4)..] == s[stop..];
    n := T.Comment(value);
    q := Advance(s, stop, 3);
  }

  lemma CDataAt(u: string, value: string, rest: string, condense: bool)
    requires X.StringEqual(u, "<![CDATA[")
    requires |value| == T.UntilTag(u[9..], "]]>") && value + rest == u[9..]
    ensures var r := X.ReadText(rest, false, condense, "]]>");
            T.ParseCData(u, condense) == if r.stop.Null? then T.NoNode else T.Got(T.Text(value, true), r.stop.rest)
  {
    assert u[9..][..|value|] == value && u[9..][|value|..] == rest;
  }

  method ParseCData(s: string, p: nat, condense: bool) returns (n: T.Node, q: int)
    requires p < |s| && X.StringEqual(s[p..], "<![CDATA[")
    ensures Parsed(T.ParseCData(s[p..], condense), s, n, q) && (q >= 0 ==> q > p)
  {
    assert s[p..][9..] == s[p + 9..];
    var value, stop := UntilTag(s, p + 9, "]]>");
    assert value + s[stop..] == s[p + 9..];
    CDataAt(s[p..], value, s[stop..], condense);
    n := T.Text(value, true);
    var dummy;
    dummy, q := ReadText(s, stop, false, condense, "]]>");
  }

  method ParseUnknown(s: string, p: nat) returns (n: T.Node, q: int)
    requires p < |s| && s[p] == '<'
    ensures Parsed(T.ParseUnknown(s[p..]), s, n, q) && q > p
  {
    var value, stop := UntilTag(s, p + 1, ">");
    assert s[p..][1..] == s[p + 1..];
    assert s[p + 1..][..stop - (p + 1)] == value && s[p + 1..][stop - (p + 1)..] == s[stop..];
    n, q := T.Unknown(value), stop;
    var closed := StringEqual(s, stop, ">");
    if closed {
      q := stop + 1;
      assert s[p + 1..][stop - (p + 1) + 1..] == s[q..];
    }
  }

  // ---------------------------------------------------------------- attributes

  ghost predicate ParsedAttr(r: T.AttrResult, s: string, a: T.Attr, q: int) {
    -1 <= q <= |s| && r == if q < 0 then T.NoAttr else T.GotAttr(a, s[q..])
  }

  method UnquotedValue(s: string, p: nat) returns (value: string, q: int)
    requires p <= |s|
    ensures -1 <= q <= |s|
    ensures var n := T.UnquotedLength(s[p..]);
            if n < 0 then q == -1 else q == p + n && value == s[p..q]
  {
    value, q := "", p;
    while !T.UnquotedEnd(s[q..])
      invariant p <= q <= |s| && value == s[p..q]
      invariant var n := T.UnquotedLength(s[q..]);
                T.UnquotedLength(s[p..]) == if n < 0 then -1 else q - p + n
      decreases |s| - q
    {
      if s[q] == '\'' || s[q] == '\"' { return "", -1; }
      assert s[q..][1..] == s[q + 1..];
      value := value + [s[q]];
      q := q + 1;
    }
  }

  method ParseAttrValue(s: string, p: nat, name: string, condense: bool) returns (a: T.Attr, q: int)
    requires p <= |s| && !Stopped(s, p)
    ensures ParsedAttr(T.ParseAttrValue(s[p..], name, condense), s, a, q) && (q >= 0 ==> q >= p)
  {
    var value;
    if s[p] == '\'' || s[p] == '\"' {
      assert s[p..][1..] == s[p + 1..];
      value, q := ReadText(s, p + 1, false, condense, [s[p]]);
    } else {
      value, q := UnquotedValue(s, p);
      if q >= 0 { assert s[p..][..q - p] == value && s[p..][q - p..] == s[q..]; }
    }
    a := T.Attr(name, value);
  }

  /** From the name of an attribute to the end of its value. */
  method ParseAssignment(s: string, p: nat, name: string, condense: bool) returns (a: T.Attr, q: int)
    requires p <= |s|
    ensures ParsedAttr(T.ParseAssignment(s[p..], name, condense), s, a, q) && (q >= 0 ==> q >= p)
  {
    a := T.Attr("", "");
    q := SkipWhiteSpace(s, p);
    if Stopped(s, q) || s[q] != '=' { q := -1; return; }
    assert s[q..][1..] == s[q + 1..];
    q := SkipWhiteSpace(s, q + 1);
    if Stopped(s, q) { q := -1; return; }
    a, q := ParseAttrValue(s, q, name, condense);
  }

  method ParseAttribute(s: string, p: nat, condense: bool) returns (a: T.Attr, q: int)
    requires p <= |s|
    ensures ParsedAttr(T.ParseAttribute(s[p..], condense), s, a, q) && (q >= 0 ==> q > p)
  {
    a := T.Attr("", "");
    q := SkipWhiteSpace(s, p);
    var name;
    name, q := ReadName(s, q);
    if q < 0 { return; }
    a, q := ParseAssignment(s, q, name, condense);
  }

  method Find(attrs: seq<T.Attr>, name: string) returns (found: bool)
    ensures found == T.HasName(attrs, name)
  {
    for i := 0 to |attrs|
      invariant forall k :: 0 <= k < i ==> attrs[k].name != name
    {
      if attrs[i].name == name { return true; }
    }
    return false;
  }

  // ---------------------------------------------------------------- elements

  method StringEqualNoCase(s: string, p: nat, tag: string) returns (equal: bool)
    requires p <= |s| && X.NoNul(tag)
    ensures equal == X.StringEqualNoCase(s[p..], tag)
  {
    if Stopped(s, p) { return false; }
    var q, t := p, 0;
    while q < |s| && s[q] != '\0' && t < |tag| && X.ToLower(s[q]) == X.ToLower(tag[t])
      invariant t <= |tag| && q == p + t <= |s|
      invariant forall i :: 0 <= i < t ==> X.ToLower(s[p..][i]) == X.ToLower(tag[i])
    {
      q, t := q + 1, t + 1;
    }
    if t < |tag| && q < |s| {
      assert s[p..][t] == s[q];
      if s[q] == '\0' { LowerNul(tag[t]); }
    }
    return t == |tag|;
  }

  lemma LowerNul(c: char)
    requires c != '\0'
    ensures X.ToLower(c) != X.ToLower('\0')
  {
  }

  method Identify(s: string, p: nat) returns (kind: T.Kind)
    requires p < |s| && s[p] == '<'
    ensures kind == T.Identify(s[p..])
  {
    var declaration := StringEqualNoCase(s, p, "<?xml");
    if declaration { return T.IsDeclaration; }
    var comment := StringEqual(s, p, "<!--");
    if comment { return T.IsComment; }
    var cdata := StringEqual(s, p, "<![CDATA[");
    if cdata { return T.IsCData; }
    var dtd := StringEqual(s, p, "<!");
    if dtd { return T.IsUnknown; }
    return if p + 1 < |s| && X.NameStart(s[p + 1]) then T.IsElement else T.IsUnknown;
  }

  lemma KindTag(s: string)
    requires s != "" && s[0] == '<'
    ensures T.Identify(s) == T.IsComment ==> X.StringEqual(s, "<!--")
    ensures T.Identify(s) == T.IsCData ==> X.StringEqual(s, "<![CDATA[")
  {
  }

  method ParseNode(s: string, p: nat, condense: bool) returns (n: T.Node, q: int)
    requires p < |s| && s[p] == '<'
    ensures Parsed(T.ParseNode(s[p..], condense), s, n, q) && (q >= 0 ==> q > p)
    decreases |s| - p, 2
  {
    KindTag(s[p..]);
    var kind := Identify(s, p);
    n, q := T.Unknown(""), -1;
    match kind {
      case IsDeclaration =>
      case IsComment => n, q := ParseComment(s, p);
      case IsCData => n, q := ParseCData(s, p, condense);
      case IsUnknown => n, q := ParseUnknown(s, p);
      case IsElement => n, q := ParseElement(s, p, condense);
    }
  }

  /** `TiXmlElement::Parse`. */
  method ParseElement(s: string, p: nat, condense: bool) returns (n: T.Node, q: int)
    requires p <= |s|
    ensures Parsed(T.ParseElement(s[p..], condense), s, n, q) && (q >= 0 ==> q > p)
    decreases |s| - p, 1
  {
    n := T.Unknown("");
    q := SkipWhiteSpace(s, p);
    if Stopped(s, q) || s[q] != '<' { q := -1; return; }
    assert s[q..][1..] == s[q + 1..];
    q := SkipWhiteSpace(s, q + 1);
    var name;
    name, q := ReadName(s, q);
    if Stopped(s, q) { q := -1; return; }
    n, q := ParseAttributes(s, q, name, condense);
  }

  /** The attribute loop of `TiXmlElement::Parse`. */
  method ParseAttributes(s: string, p: nat, name: string, condense: bool) returns (n: T.Node, q: int)
    requires p <= |s| && X.NoNul(name)
    ensures Parsed(T.ParseAttributes(s[p..], name, [], condense), s, n, q) && (q >= 0 ==> q > p)
    decreases |s| - p, 1
  {
    n := T.Unknown("");
    var attrs := [];
    q := p;
    while true
      invariant p <= q <= |s|
      invariant T.ParseAttributes(s[q..], name, attrs, condense) == T.ParseAttributes(s[p..], name, [], condense)
      decreases |s| - q
    {
      q := SkipWhiteSpace(s, q);
      if Stopped(s, q) { q := -1; return; }
      if s[q] == '/' {
        if q + 1 < |s| && s[q + 1] == '>' {
          n := T.Element(name, attrs, []);
          assert s[q..][2..] == s[q + 2..];
          q := q + 2;
        } else {
          q := -1;
        }
        return;
      }
      if s[q] == '>' {
        n, q := ParseContent(s, q, name, attrs, condense);
        return;
      }
      var a;
      a, q := ParseAttribute(s, q, condense);
      if Stopped(s, q) { q := -1; return; }
      var duplicate := Find(attrs, a.name);
      if duplicate { q := -1; return; }
      attrs := attrs + [a];
    }
  }

  /** From the '>' of a start tag through the end tag. */
  method ParseContent(s: string, p: nat, name: string, attrs: seq<T.Attr>, condense: bool) returns (n: T.Node, q: int)
    requires p < |s| && s[p] == '>' && X.NoNul(name)
    ensures Parsed(T.ParseAttributes(s[p..], name, attrs, condense), s, n, q) && (q >= 0 ==> q > p)
    decreases |s| - p, 0
  {
    hide T.ParseAttributes, T.ReadValue, X.StringEqual;
    ContentAt(s[p..], name, attrs, condense);
    SliceSplit(s, p, p + 1);
    var children;
    children, q := ReadValue(s, p + 1, condense);
    n := T.Element(name, attrs, children);
    if q < 0 { return; }
    var endTag := "</" + name + ">";
    var closed := StringEqual(s, q, endTag);
    if !closed { q := -1; return; }
    EndTagFits(s[q..], endTag);
    SliceSplit(s, q, q + |endTag|);
    q := q + |endTag|;
  }

  lemma EndTagFits(s: string, endTag: string)
    requires X.StringEqual(s, endTag)
    ensures |endTag| <= |s|
  {
  }

  /** What follows the '>' of a start tag. */
  lemma ContentAt(s: string, name: string, attrs: seq<T.Attr>, condense: bool)
    requires s != "" && s[0] == '>'
    ensures var c, endTag, r := T.ReadValue(s[1..], condense), "</" + name + ">", T.ParseAttributes(s, name, attrs, condense);
      if c.Content? && X.StringEqual(c.rest, endTag)
      then |endTag| <= |c.rest| && r == T.Got(T.Element(name, attrs, c.children), c.rest[|endTag|..])
      else r == T.NoNode
  {
    hide T.ReadValue;
    assert X.SkipWhiteSpace(X.At(s)) == X.At(s);
  }

  ghost predicate Collected(whole: T.ContentResult, nodes: seq<T.Node>, left: T.ContentResult) {
    whole == if left.NoContent? then left else T.Content(nodes + left.children, left.rest)
  }

  lemma Collect(whole: T.ContentResult, nodes: seq<T.Node>, n: T.Node, left: T.ContentResult)
    requires Collected(whole, nodes, T.Cons(n, left))
    ensures Collected(whole, nodes + [n], left)
  {
    if left.Content? { assert nodes + ([n] + left.children) == nodes + [n] + left.children; }
  }

  method Blank(value: string) returns (blank: bool)
    ensures blank == T.Blank(value)
  {
    for i := 0 to |value|
      invariant forall k :: 0 <= k < i ==> X.IsWhiteSpace(value[k])
    {
      if !X.IsWhiteSpace(value[i]) { return false; }
    }
    return true;
  }

  lemma TextAt(s: string, p: string, condense: bool)
    requires X.SkipWhiteSpace(X.At(s)) == X.At(p) && !X.Ended(p) && p[0] != '<'
    ensures var t := X.ReadStop(if condense then p else s, true, condense, "<");
            if t.stop.Null? then T.ReadValue(s, condense) == T.NoContent
            else var left := T.ReadValue(t.stop.rest, condense);
                 |t.stop.rest| < |s| &&
                 T.ReadValue(s, condense) == if T.Blank(t.text) then left else T.Cons(T.Text(t.text, false), left)
  {
  }

  lemma TagAt(s: string, p: string, condense: bool)
    requires X.SkipWhiteSpace(X.At(s)) == X.At(p) && !X.Ended(p) && p[0] == '<'
    ensures var r := T.ParseNode(p, condense);
            T.ReadValue(s, condense) ==
            if X.StringEqual(p, "</") then T.Content([], p)
            else if r.NoNode? then T.NoContent
            else T.Cons(r.node, T.ReadValue(r.rest, condense))
  {
  }

  lemma EndAt(s: string)
    requires var p := X.SkipWhiteSpace(X.At(s)); p.Null? || X.Ended(p.rest)
    ensures forall condense :: T.ReadValue(s, condense) == T.NoContent
  {
  }

  /** `TiXmlElement::ReadValue`; -1 also when the text ends before a closing tag. */
  method ReadValue(s: string, p: nat, condense: bool) returns (children: seq<T.Node>, q: int)
    requires p <= |s|
    ensures -1 <= q <= |s| && (q >= 0 ==> q >= p)
    ensures T.ReadValue(s[p..], condense) == if q < 0 then T.NoContent else T.Content(children, s[q..])
    decreases |s| - p, 3
  {
    hide T.ReadValue, X.SkipWhiteSpace, T.ParseNode, X.ReadStop, T.Blank;
    ghost var whole := T.ReadValue(s[p..], condense);
    var withSpace := p;
    children := [];
    assert whole.Content? ==> [] + whole.children == whole.children;
    q := SkipWhiteSpace(s, p);
    while !Stopped(s, q)
      invariant p <= withSpace <= |s| && -1 <= q <= |s| && (q >= 0 ==> withSpace <= q)
      invariant PtrTo(s, q) == X.SkipWhiteSpace(X.At(s[withSpace..]))
      invariant Collected(whole, children, T.ReadValue(s[withSpace..], condense))
      decreases |s| - withSpace
    {
      var n, keep := T.Unknown(""), true;
      if s[q] != '<' {
        TextAt(s[withSpace..], s[q..], condense);
        var text;
        text, q := ReadStop(s, if condense then q else withSpace, true, condense, "<");
        if q < 0 { return; }
        n := T.Text(text, false);
        var blank := Blank(text);
        keep := !blank;
      } else {
        TagAt(s[withSpace..], s[q..], condense);
        var closing := StringEqual(s, q, "</");
        if closing { assert children + [] == children; return; }
        n, q := ParseNode(s, q, condense);
        if q < 0 { return; }
      }
      if keep {
        Collect(whole, children, n, T.ReadValue(s[q..], condense));
        children := children + [n];
      }
      withSpace := q;
      q := SkipWhiteSpace(s, q);
    }
    EndAt(s[withSpace..]);
    q := -1;
  }

  /** The loop of `TiXmlDocument::Parse`. */
  method ParseTop(s: string, condense: bool) returns (children: seq<T.Node>, failed: bool, q: nat)
    ensures q <= |s|
    ensures T.ParseTop(s, condense) == if failed then T.NoContent else T.Content(children, s[q..])
  {
    ghost var whole := T.ParseTop(s, condense);
    children, failed := [], false;
    assert s[0..] == s;
    assert whole.Content? ==> [] + whole.children == whole.children;
    ghost var from := 0;
    var p: int := SkipWhiteSpace(s, 0);
    while !Stopped(s, p) && s[p] == '<'
      invariant 0 <= from <= |s| && -1 <= p <= |s| && (p >= 0 ==> from <= p)
      invariant PtrTo(s, p) == X.SkipWhiteSpace(X.At(s[from..]))
      invariant Collected(whole, children, T.ParseTop(s[from..], condense))
      decreases |s| - from
    {
      var n;
      n, p := ParseNode(s, p, condense);
      if p < 0 { return children, true, 0; }
      Collect(whole, children, n, T.ParseTop(s[p..], condense));
      children := children + [n];
      from := p;
      p := SkipWhiteSpace(s, p);
    }
    q := if p < 0 then |s| else p;
    assert children + [] == children;
  }
}
