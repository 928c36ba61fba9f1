/**
  What can be said of any tree the parser returns, on any input: it is well formed. Hence the exact condition for a
  tree to come back from its printout, and a normal form for whatever was parsed.
  */
module XmlParsed {
  import opened XmlText
  import opened XmlTree
  import opened XmlEscaping
  import opened XmlRoundTrip
  import P = XmlParser

  // ---------------------------------------------------------------- names and leaves

  lemma {:induction false} NameLengthChars(s: string)
    ensures forall i :: 0 <= i < NameLength(s) ==> NameChar(s[i])
  {
    if s != "" && NameChar(s[0]) {
      NameLengthChars(s[1..]);
      forall i | 0 <= i < NameLength(s) ensures NameChar(s[i]) {
        if i > 0 { assert s[i] == s[1..][i - 1]; }
      }
    }
  }

  lemma NameIsValid(p: Ptr)
    requires ReadName(p).Name?
    ensures ValidName(ReadName(p).name)
  {
    NameLengthChars(p.rest);
  }

  /** What is skipped in search of a tag holds neither the tag nor a terminator. */
  lemma {:induction false} SearchedPart(s: string, tag: string)
    requires tag != ""
    ensures var v := s[..UntilTag(s, tag)]; NoNul(v) && !Occurs(tag, v)
    decreases |s|
  {
    if Ended(s) || StringEqual(s, tag) {
      assert s[..0] == "";
    } else {
      var n := UntilTag(s[1..], tag);
      SearchedPart(s[1..], tag);
      var v, t := s[..n + 1], s[1..][..n];
      assert v[1..] == t && v[0] == s[0];
      assert forall i :: 0 <= i < |v| ==> v[i] == if i == 0 then s[0] else t[i - 1];
    }
  }

  lemma {:induction false} NoBracket(v: string)
    requires !Occurs(">", v)
    ensures '>' !in v
  {
    if v != "" {
      NoBracket(v[1..]);
      assert v[0] == '>' ==> ">" <= v;
      assert v == [v[0]] + v[1..];
    }
  }

  lemma CommentParsed(s: string)
    requires StringEqual(s, "<!--") && ParseComment(s).Got?
    ensures WellFormed(ParseComment(s).node)
  {
    SearchedPart(s[4..], "-->");
  }

  lemma CDataParsed(s: string, condense: bool)
    requires StringEqual(s, "<![CDATA[") && ParseCData(s, condense).Got?
    ensures WellFormed(ParseCData(s, condense).node)
  {
    SearchedPart(s[9..], "]]>");
  }

  lemma NotPrefix(t: string, n: nat, tag: string)
    requires n <= |t| && !("<" + tag <= "<" + t)
    ensures !(tag <= t[..n])
  {
    assert |tag| <= n ==> t[..n][..|tag|] == t[..|tag|];
    assert |tag| <= |t| ==> ("<" + t)[..1 + |tag|] == "<" + t[..|tag|];
  }

  lemma NotHeaderNoCase(t: string, n: nat)
    requires n <= |t| && !StringEqualNoCase("<" + t, "<?xml")
    ensures !NoCasePrefix("?xml", t[..n])
  {
    var s := "<" + t;
    assert forall i :: 0 <= i < |t| ==> s[i + 1] == t[i];
    assert forall i :: 1 <= i < 5 ==> "<?xml"[i] == "?xml"[i - 1];
    if n >= 4 {
      assert forall i :: 0 <= i < 4 ==> t[..n][i] == s[i + 1];
    }
  }

  lemma UnknownParsed(s: string)
    requires s != "" && s[0] == '<' && Identify(s) == IsUnknown && !("</" <= s)
    ensures WellFormed(ParseUnknown(s).node)
  {
    var t := s[1..];
    var n := UntilTag(t, ">");
    SearchedPart(t, ">");
    NoBracket(t[..n]);
    assert s == "<" + t;
    assert "<" + "!--" == "<!--" && "<" + "![CDATA[" == "<![CDATA[";
    UnknownHeader(t, n);
    hide UntilTag, Occurs, Identify;
  }

  lemma UnknownHeader(t: string, n: nat)
    requires n <= |t| && Identify("<" + t) == IsUnknown && !("</" <= "<" + t)
    ensures var v := t[..n];
      && !NoCasePrefix("?xml", v) && !("!--" <= v) && !("![CDATA[" <= v)
      && (v != "" ==> v[0] != '/' && !NameStart(v[0]))
  {
    var s := "<" + t;
    assert "<" + "!--" == "<!--" && "<" + "![CDATA[" == "<![CDATA[";
    hide NameStart, NoCasePrefix, StringEqualNoCase;
    NotPrefix(t, n, "!--");
    NotPrefix(t, n, "![CDATA[");
    NotHeaderNoCase(t, n);
    if n > 0 { assert s[1] == t[0] == t[..n][0]; }
  }

  // ---------------------------------------------------------------- elements

  lemma {:induction false} NodeParsed(s: string, condense: bool)
    requires s != "" && s[0] == '<' && !("</" <= s) && ParseNode(s, condense).Got?
    ensures WellFormed(ParseNode(s, condense).node) && !PlainText(ParseNode(s, condense).node)
    decreases |s|, 2
  {
    hide WellFormed, ParseElement;
    match Identify(s)
    case IsComment => CommentParsed(s);
    case IsCData => CDataParsed(s, condense);
    case IsUnknown => UnknownParsed(s);
    case IsElement => ElementParsed(s, condense);
    case IsDeclaration =>
  }

  /** Whatever the input, a parsed element is well formed. */
  lemma {:induction false} ElementParsed(s: string, condense: bool)
    requires ParseElement(s, condense).Got?
    ensures WellFormed(ParseElement(s, condense).node) && ParseElement(s, condense).node.Element?
    decreases |s|, 1
  {
    hide WellFormed, ParseAttributes, ReadName, SkipWhiteSpace;
    var p := SkipWhiteSpace(At(s));
    SkipShortens(s);
    var q := SkipWhiteSpace(At(p.rest[1..]));
    NameIsValid(q);
    ReadNameShortens(q);
    SkipShortens(p.rest[1..]);
    AttributesParsed(ReadName(q).rest, ReadName(q).name, [], condense);
  }

  lemma SkipShortens(s: string)
    ensures var p := SkipWhiteSpace(At(s)); p.At? ==> |p.rest| <= |s|
  {
  }

  lemma ReadNameShortens(p: Ptr)
    requires ReadName(p).Name?
    ensures p.At? && |ReadName(p).rest| <= |p.rest|
  {
  }

  lemma {:induction false} AttributesParsed(s: string, name: string, attrs: seq<Attr>, condense: bool)
    requires ParseAttributes(s, name, attrs, condense).Got? && ValidName(name) && NamesOk(attrs)
    ensures WellFormed(ParseAttributes(s, name, attrs, condense).node) && ParseAttributes(s, name, attrs, condense).node.Element?
    decreases |s|, 1
  {
    hide ReadValue, ParseAttribute, ValidName, NamesOk, SkipWhiteSpace;
    var p := SkipWhiteSpace(At(s));
    SkipShortens(s);
    if p.rest[0] == '/' {
    } else if p.rest[0] == '>' {
      ContentParsed(p.rest[1..], condense);
    } else {
      var a := ParseAttribute(p.rest, condense);
      AttributeNamed(p.rest, condense);
      NamesGrow(attrs, a.attr);
      AttributesParsed(a.rest, name, attrs + [a.attr], condense);
    }
  }

  lemma AttributeNamed(s: string, condense: bool)
    requires ParseAttribute(s, condense).GotAttr?
    ensures ValidName(ParseAttribute(s, condense).attr.name)
  {
    hide ReadName, SkipWhiteSpace, ReadText, UnquotedLength;
    NameIsValid(SkipWhiteSpace(At(s)));
  }

  lemma NamesGrow(attrs: seq<Attr>, a: Attr)
    requires NamesOk(attrs) && ValidName(a.name) && !HasName(attrs, a.name)
    ensures NamesOk(attrs + [a])
  {
    hide ValidName;
  }

  predicate AtTag(s: string) {
    Ended(s) || s[0] == '<'
  }

  lemma {:induction false} KeptStopsAtTag(s: string)
    ensures var r := ReadKept(s, "<"); r.stop.At? ==> AtTag(r.stop.rest)
    decreases |s|
  {
    hide GetChar;
    if !Ended(s) && !StringEqual(s, "<") && GetChar(s).Char? { KeptStopsAtTag(GetChar(s).rest); }
  }

  lemma {:induction false} CondensedStopsAtTag(s: string, white: bool)
    ensures var r := ReadCondensed(s, "<", white); r.stop.At? ==> AtTag(r.stop.rest)
    decreases |s|
  {
    hide GetChar;
    if !Ended(s) && !StringEqual(s, "<") {
      if IsWhiteSpace(s[0]) {
        CondensedStopsAtTag(s[1..], true);
      } else if GetChar(s).Char? {
        CondensedStopsAtTag(GetChar(s).rest, false);
      }
    }
  }

  /** Text between tags is read up to the next '<', or to the end. */
  lemma TextStopsAtTag(s: string, condense: bool)
    ensures var r := ReadStop(s, true, condense, "<"); r.stop.At? ==> AtTag(r.stop.rest)
  {
    hide ReadKept, ReadCondensed;
    KeptStopsAtTag(s);
    var p := SkipWhiteSpace(At(s));
    if p.At? { CondensedStopsAtTag(p.rest, false); }
  }

  lemma TagIsFound(s: string, condense: bool)
    requires AtTag(s) && ReadValue(s, condense).Content?
    ensures SkipWhiteSpace(At(s)) == At(s) && s != "" && s[0] == '<'
  {
  }

  lemma ConsWellFormed(n: Node, kids: seq<Node>)
    requires WellFormed(n) && AllWellFormed(kids) && (PlainText(n) ==> kids == [] || !PlainText(kids[0]))
    ensures AllWellFormed([n] + kids)
  {
    hide WellFormed;
    assert ([n] + kids)[1..] == kids;
  }

  /** The children of a parsed element are well formed, and a plain text comes first only before any tag. */
  lemma {:induction false} ContentParsed(s: string, condense: bool)
    requires ReadValue(s, condense).Content?
    ensures AllWellFormed(ReadValue(s, condense).children)
    ensures var kids, p := ReadValue(s, condense).children, SkipWhiteSpace(At(s));
      kids != [] && PlainText(kids[0]) ==> p.At? && p.rest != "" && p.rest[0] != '<'
    decreases |s|, 3
  {
    var p := SkipWhiteSpace(At(s));
    SkipShortens(s);
    if p.Null? || Ended(p.rest) {
      P.EndAt(s);
    } else if p.rest[0] != '<' {
      P.TextAt(s, p.rest, condense);
      hide ReadValue, ReadStop, SkipWhiteSpace, Blank;
      var t := ReadStop(if condense then p.rest else s, true, condense, "<");
      TextStopsAtTag(if condense then p.rest else s, condense);
      var left := ReadValue(t.stop.rest, condense);
      ContentParsed(t.stop.rest, condense);
      TagIsFound(t.stop.rest, condense);
      if !Blank(t.text) { ConsWellFormed(Text(t.text, false), left.children); }
    } else {
      P.TagAt(s, p.rest, condense);
      hide ReadValue, ParseNode, SkipWhiteSpace, WellFormed;
      if !StringEqual(p.rest, "</") {
        var r := ParseNode(p.rest, condense);
        NodeParsed(p.rest, condense);
        ContentParsed(r.rest, condense);
        ConsWellFormed(r.node, ReadValue(r.rest, condense).children);
      }
    }
  }

  /**
    An element without "&#x", of whatever names and values, comes back from its printout if and only if it is well
    formed and, when white space is condensed, its texts are squeezed.
    */
  lemma {:induction false} RoundTripIff(e: Node, rest: string, condense: bool)
    requires e.Element? && NoHexRefs(e)
    ensures ParseElement(Print(e) + rest, condense) == Got(e, rest) <==> WellFormed(e) && Normal(e, condense) == e
  {
    hide ParseElement, Print, WellFormed, NoHexRefs, Normal;
    if ParseElement(Print(e) + rest, condense) == Got(e, rest) { ElementParsed(Print(e) + rest, condense); }
    if WellFormed(e) { PrintParseNormal(e, rest, condense); }
  }

  /** An element read from any input is read again from its printout in its normal form, if it is free of "&#x". */
  lemma {:induction false} ParsedRoundTrip(s: string, condense: bool, tail: string)
    requires ParseElement(s, condense).Got? && NoHexRefs(ParseElement(s, condense).node)
    ensures var e := ParseElement(s, condense).node;
      ParseElement(Print(e) + tail, condense) == Got(Normal(e, condense), tail)
  {
    hide ParseElement, Print, WellFormed, NoHexRefs, Normal;
    ElementParsed(s, condense);
    PrintParseNormal(ParseElement(s, condense).node, tail, condense);
  }

  // ---------------------------------------------------------------- leaves, exactly

  lemma PrintedTag(n: Node, tail: string)
    requires n.Comment? || (n.Text? && n.cdata)
    ensures var s := Print(n) + tail; s != "" && s[0] == '<' && !("</" <= s)
  {
    var s := Print(n) + tail;
    assert s[0] == '<' && s[1] == '!';
  }

  /** A comment of any characters comes back if and only if it holds neither "-->" nor NUL. */
  lemma {:induction false} CommentRoundTripIff(v: string, tail: string, condense: bool)
    ensures ParseNode(Print(Comment(v)) + tail, condense) == Got(Comment(v), tail) <==> NoNul(v) && !Occurs("-->", v)
  {
    hide ParseNode, Print, Occurs;
    PrintedTag(Comment(v), tail);
    if ParseNode(Print(Comment(v)) + tail, condense) == Got(Comment(v), tail) {
      NodeParsed(Print(Comment(v)) + tail, condense);
    }
    if NoNul(v) && !Occurs("-->", v) { CommentReadsBack(v, tail, condense); }
  }

  /** A CDATA section of any characters comes back if and only if it holds neither "]]>" nor NUL. */
  lemma {:induction false} CDataRoundTripIff(v: string, tail: string, condense: bool)
    ensures ParseNode(Print(Text(v, true)) + tail, condense) == Got(Text(v, true), tail) <==> NoNul(v) && !Occurs("]]>", v)
  {
    hide ParseNode, Print, Occurs;
    PrintedTag(Text(v, true), tail);
    if ParseNode(Print(Text(v, true)) + tail, condense) == Got(Text(v, true), tail) {
      NodeParsed(Print(Text(v, true)) + tail, condense);
    }
    if NoNul(v) && !Occurs("]]>", v) { CDataReadsBack(v, tail, condense); }
  }

  /** An unknown tag comes back, and not as an end tag, if and only if nothing in it makes it another kind of node. */
  lemma {:induction false} UnknownRoundTripIff(v: string, tail: string, condense: bool)
    ensures var s := Print(Unknown(v)) + tail;
      s != "" && s[0] == '<' && (ParseNode(s, condense) == Got(Unknown(v), tail) && !("</" <= s) <==> UnknownOk(v))
  {
    StartsTag(Unknown(v));
    hide ParseNode, Print, UnknownOk;
    var s := Print(Unknown(v)) + tail;
    if ParseNode(s, condense) == Got(Unknown(v), tail) && !("</" <= s) { NodeParsed(s, condense); }
    if UnknownOk(v) { UnknownReadsBack(v, tail, condense); }
  }
}
