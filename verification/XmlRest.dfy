/**
  What a parse leaves: always the end of the text it got, right behind the tag that closes what was read.
  */
module XmlRest {
  import opened XmlText
  import opened XmlTree

  /** t is the end of s. */
  predicate Ends(s: string, t: string) {
    |t| <= |s| && s[|s| - |t|..] == t
  }

  predicate EndsAt(s: string, p: Ptr) { p.At? ==> Ends(s, p.rest) }

  lemma Itself(s: string)
    ensures Ends(s, s)
  {
  }

  lemma Dropped(s: string, n: nat)
    requires n <= |s|
    ensures Ends(s, s[n..])
  {
  }

  lemma Through(s: string, t: string, u: string)
    requires Ends(s, t) && Ends(t, u)
    ensures Ends(s, u)
  {
    assert s[|s| - |u|..] == s[|s| - |t|..][|t| - |u|..];
  }

  lemma BeyondPrefix(p: string, s: string)
    requires p <= s
    ensures Ends(s, s[|p|..]) && s == p + s[|p|..]
  {
  }

  // ---- Characters and text ----

  lemma {:induction false} SkipWsRest(s: string)
    ensures Ends(s, SkipWs(s))
  {
    if s != "" && IsWhiteSpace(s[0]) {
      SkipWsRest(s[1..]);
      Through(s, s[1..], SkipWs(s[1..]));
    } else {
      Itself(s);
    }
  }

  lemma SkipRest(s: string)
    ensures EndsAt(s, SkipWhiteSpace(At(s)))
  {
    SkipWsRest(s);
  }

  lemma NameRest(s: string)
    ensures ReadName(At(s)).Name? ==> Ends(s, ReadName(At(s)).rest)
  {
    Dropped(s, NameLength(s));
  }

  lemma CharRest(s: string)
    requires s != ""
    ensures GetChar(s).Char? ==> Ends(s, GetChar(s).rest)
  {
    hide StrChr, CodeBack;
  }

  lemma {:induction false} KeptRest(s: string, endTag: string)
    ensures EndsAt(s, ReadKept(s, endTag).stop)
    decreases |s|
  {
    hide GetChar, StringEqual;
    if Ended(s) || StringEqual(s, endTag) {
      Itself(s);
    } else if GetChar(s).Char? {
      var t := GetChar(s).rest;
      CharRest(s);
      KeptRest(t, endTag);
      if ReadKept(t, endTag).stop.At? { Through(s, t, ReadKept(t, endTag).stop.rest); }
    }
  }

  lemma {:induction false} CondensedRest(s: string, endTag: string, white: bool)
    ensures EndsAt(s, ReadCondensed(s, endTag, white).stop)
    decreases |s|
  {
    hide GetChar, StringEqual, IsWhiteSpace;
    if Ended(s) || StringEqual(s, endTag) {
      Itself(s);
    } else if IsWhiteSpace(s[0]) {
      var r := ReadCondensed(s[1..], endTag, true);
      CondensedRest(s[1..], endTag, true);
      if r.stop.At? { Through(s, s[1..], r.stop.rest); }
    } else if GetChar(s).Char? {
      var t := GetChar(s).rest;
      CharRest(s);
      CondensedRest(t, endTag, false);
      if ReadCondensed(t, endTag, false).stop.At? { Through(s, t, ReadCondensed(t, endTag, false).stop.rest); }
    }
  }

  lemma StopRest(s: string, trim: bool, condense: bool, endTag: string)
    ensures EndsAt(s, ReadStop(s, trim, condense, endTag).stop)
  {
    KeptRest(s, endTag);
    SkipRest(s);
    hide ReadKept, ReadCondensed, SkipWhiteSpace;
    var p := SkipWhiteSpace(At(s));
    if p.At? {
      CondensedRest(p.rest, endTag, false);
      var r := ReadCondensed(p.rest, endTag, false);
      if r.stop.At? { Through(s, p.rest, r.stop.rest); }
    }
  }

  lemma DropRest(s: string, n: nat)
    ensures Ends(s, Drop(s, n))
  {
  }

  lemma TextRest(s: string, trim: bool, condense: bool, endTag: string)
    ensures EndsAt(s, ReadText(s, trim, condense, endTag).stop)
  {
    hide ReadStop, Drop;
    StopRest(s, trim, condense, endTag);
    var r := ReadStop(s, trim, condense, endTag);
    if r.stop.At? {
      DropRest(r.stop.rest, |endTag|);
      Through(s, r.stop.rest, Drop(r.stop.rest, |endTag|));
    }
  }

  // ---- Attributes ----

  lemma ValueRest(s: string, name: string, condense: bool)
    requires !Ended(s)
    ensures ParseAttrValue(s, name, condense).GotAttr? ==> Ends(s, ParseAttrValue(s, name, condense).rest)
  {
    hide ReadText, UnquotedLength;
    if s[0] == '\'' || s[0] == '\"' {
      TextRest(s[1..], false, condense, [s[0]]);
      var r := ReadText(s[1..], false, condense, [s[0]]);
      if r.stop.At? { Through(s, s[1..], r.stop.rest); }
    }
  }

  lemma AssignmentRest(s: string, name: string, condense: bool)
    ensures ParseAssignment(s, name, condense).GotAttr? ==> Ends(s, ParseAssignment(s, name, condense).rest)
  {
    hide SkipWhiteSpace, ParseAttrValue;
    if ParseAssignment(s, name, condense).GotAttr? {
      SkipRest(s);
      var p := SkipWhiteSpace(At(s)).rest;
      SkipRest(p[1..]);
      var q := SkipWhiteSpace(At(p[1..])).rest;
      ValueRest(q, name, condense);
      Dropped(p, 1);
      Through(s, p, p[1..]);
      Through(s, p[1..], q);
      Through(s, q, ParseAttrValue(q, name, condense).rest);
    }
  }

  lemma AttributeRest(s: string, condense: bool)
    ensures ParseAttribute(s, condense).GotAttr? ==> Ends(s, ParseAttribute(s, condense).rest)
  {
    hide SkipWhiteSpace, ReadName, ParseAssignment;
    var p := SkipWhiteSpace(At(s));
    if p.At? && ReadName(p).Name? {
      SkipRest(s);
      NameRest(p.rest);
      var n := ReadName(p);
      AssignmentRest(n.rest, n.name, condense);
      Through(s, p.rest, n.rest);
      if ParseAssignment(n.rest, n.name, condense).GotAttr? { Through(s, n.rest, ParseAssignment(n.rest, n.name, condense).rest); }
    } else {
      NoNameAtNull();
    }
  }

  lemma NoNameAtNull()
    ensures ReadName(Null).NoName?
  {
  }

  // ---- Leaves ----

  lemma CommentRest(s: string)
    requires StringEqual(s, "<!--")
    ensures ParseComment(s).Got? ==> Ends(s, ParseComment(s).rest)
  {
    hide UntilTag;
    var t := s[4..];
    var n := UntilTag(t, "-->");
    DropRest(t[n..], 3);
    Dropped(s, 4);
    Dropped(t, n);
    Through(s, t, t[n..]);
    Through(s, t[n..], Drop(t[n..], 3));
  }

  lemma CDataRest(s: string, condense: bool)
    requires StringEqual(s, "<![CDATA[")
    ensures ParseCData(s, condense).Got? ==> Ends(s, ParseCData(s, condense).rest)
  {
    hide UntilTag, ReadText;
    var t := s[9..];
    var n := UntilTag(t, "]]>");
    TextRest(t[n..], false, condense, "]]>");
    Dropped(s, 9);
    Dropped(t, n);
    Through(s, t, t[n..]);
    var r := ReadText(t[n..], false, condense, "]]>");
    if r.stop.At? { Through(s, t[n..], r.stop.rest); }
  }

  lemma UnknownRest(s: string)
    requires s != "" && s[0] == '<'
    ensures ParseUnknown(s).Got? ==> Ends(s, ParseUnknown(s).rest)
  {
    hide UntilTag;
  }

  // ---- Elements ----

  /** Right before what is left stands the end of an empty tag, or the end tag of the element itself. */
  predicate Closed(s: string, r: NodeResult) {
    r.Got? && r.node.Element? ==> Ends(s, "/>" + r.rest) || Ends(s, "</" + r.node.name + ">" + r.rest)
  }

  predicate NodeEnds(s: string, r: NodeResult) {
    r.Got? ==> Ends(s, r.rest)
  }

  lemma ClosedThrough(s: string, t: string, r: NodeResult)
    requires Ends(s, t) && NodeEnds(t, r) && Closed(t, r)
    ensures NodeEnds(s, r) && Closed(s, r)
  {
    hide Ends;
    if r.Got? {
      Through(s, t, r.rest);
      if r.node.Element? {
        if Ends(t, "/>" + r.rest) { Through(s, t, "/>" + r.rest); } else { Through(s, t, "</" + r.node.name + ">" + r.rest); }
      }
    }
  }

  lemma {:induction false} NodeRest(s: string, condense: bool)
    requires s != "" && s[0] == '<'
    ensures NodeEnds(s, ParseNode(s, condense)) && Closed(s, ParseNode(s, condense))
    decreases |s|, 2
  {
    hide ParseElement, ParseComment, ParseCData, ParseUnknown, Ends;
    match Identify(s)
    case IsDeclaration =>
    case IsComment => CommentRest(s); NotAnElement(s, condense);
    case IsCData => CDataRest(s, condense); NotAnElement(s, condense);
    case IsUnknown => UnknownRest(s); NotAnElement(s, condense);
    case IsElement => ElementRest(s, condense);
  }

  lemma NotAnElement(s: string, condense: bool)
    requires s != "" && s[0] == '<'
    ensures StringEqual(s, "<!--") ==> !(ParseComment(s).Got? && ParseComment(s).node.Element?)
    ensures StringEqual(s, "<![CDATA[") ==> !(ParseCData(s, condense).Got? && ParseCData(s, condense).node.Element?)
    ensures !(ParseUnknown(s).Got? && ParseUnknown(s).node.Element?)
  {
    hide UntilTag, ReadText;
  }

  /** Parsing an element leaves the text right behind its closing tag. */
  lemma {:induction false} ElementRest(s: string, condense: bool)
    ensures NodeEnds(s, ParseElement(s, condense)) && Closed(s, ParseElement(s, condense))
    decreases |s|, 1
  {
    hide ParseAttributes, ReadName, SkipWhiteSpace, Ends;
    if ParseElement(s, condense).Got? {
      var p := SkipWhiteSpace(At(s)).rest;
      SkipRest(s);
      SkipRest(p[1..]);
      NoNameAtNull();
      var q := SkipWhiteSpace(At(p[1..])).rest;
      NameRest(q);
      var n := ReadName(At(q));
      Dropped(p, 1);
      Through(s, p, p[1..]);
      Through(s, p[1..], q);
      Through(s, q, n.rest);
      Through(p[1..], q, n.rest);
      Shorter(s, p[1..]);
      Shorter(p[1..], n.rest);
      AttributesRest(n.rest, n.name, [], condense);
      ClosedThrough(s, n.rest, ParseAttributes(n.rest, n.name, [], condense));
    }
  }

  lemma Shorter(s: string, t: string)
    requires Ends(s, t)
    ensures |t| <= |s|
  {
  }

  lemma {:induction false} AttributesRest(s: string, name: string, attrs: seq<Attr>, condense: bool)
    ensures NodeEnds(s, ParseAttributes(s, name, attrs, condense)) && Closed(s, ParseAttributes(s, name, attrs, condense))
    decreases |s|, 1
  {
    hide ReadValue, ParseAttribute, SkipWhiteSpace, Ends, StringEqual;
    var r := ParseAttributes(s, name, attrs, condense);
    if r.Got? {
      var p := SkipWhiteSpace(At(s)).rest;
      SkipRest(s);
      if p[0] == '/' {
        BeyondPrefix("/>", p);
        Itself(p);
        ClosedThrough(s, p, r);
      } else if p[0] == '>' {
        var c := ReadValue(p[1..], condense);
        Dropped(p, 1);
        Shorter(s, p);
        ValueEnds(p[1..], condense);
        Through(s, p, p[1..]);
        Through(s, p[1..], c.rest);
        TagAhead(c.rest, "</" + name + ">");
        Itself(c.rest);
        ClosedThrough(s, c.rest, r);
      } else {
        AttributeRest(p, condense);
        var a := ParseAttribute(p, condense);
        Through(s, p, a.rest);
        Shorter(s, p);
        AttributesRest(a.rest, name, attrs + [a.attr], condense);
        ClosedThrough(s, a.rest, r);
      }
    }
  }

  lemma TagAhead(s: string, tag: string)
    requires StringEqual(s, tag)
    ensures tag <= s && s == tag + s[|tag|..] && Ends(s, s[|tag|..])
  {
  }

  lemma {:induction false} ValueEnds(s: string, condense: bool)
    ensures ReadValue(s, condense).Content? ==> Ends(s, ReadValue(s, condense).rest)
    decreases |s|, 3
  {
    hide ReadStop, ParseNode, SkipWhiteSpace, Ends, StringEqual, Blank;
    var p := SkipWhiteSpace(At(s));
    SkipRest(s);
    if p.At? && !Ended(p.rest) {
      Shorter(s, p.rest);
      if p.rest[0] != '<' {
        var from := if condense then p.rest else s;
        Itself(s);
        StopRest(from, true, condense, "<");
        var t := ReadStop(from, true, condense, "<");
        if t.stop.At? {
          Through(s, from, t.stop.rest);
          TextShorter(s, condense);
          ValueEnds(t.stop.rest, condense);
          var r := ReadValue(t.stop.rest, condense);
          if r.Content? { Through(s, t.stop.rest, r.rest); }
        }
      } else if !StringEqual(p.rest, "</") {
        NodeRest(p.rest, condense);
        var n := ParseNode(p.rest, condense);
        if n.Got? {
          Through(s, p.rest, n.rest);
          ValueEnds(n.rest, condense);
          var r := ReadValue(n.rest, condense);
          if r.Content? { Through(s, n.rest, r.rest); }
        }
      }
    }
  }

  /** A text takes at least one character. */
  lemma TextShorter(s: string, condense: bool)
    requires var p := SkipWhiteSpace(At(s)); p.At? && !Ended(p.rest) && p.rest[0] != '<'
    ensures var p := SkipWhiteSpace(At(s));
      var t := ReadStop(if condense then p.rest else s, true, condense, "<");
      t.stop.At? ==> |t.stop.rest| < |s|
  {
  }
}
