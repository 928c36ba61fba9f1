/**
  Printing a tree and parsing the printout gives the tree back and consumes exactly the printout.
  */
module XmlRoundTrip {
  import opened XmlText
  import opened XmlTree
  import opened XmlEscaping
  import Seqs

  // ---------------------------------------------------------------- the trees that survive

  predicate Occurs(tag: string, v: string)
    decreases |v|
  {
    tag <= v || (v != "" && Occurs(tag, v[1..]))
  }

  predicate AttrOk(a: Attr) {
    ValidName(a.name) && !HasHexRef(a.value)
  }

  predicate NoCasePrefix(tag: string, v: string) {
    |tag| <= |v| && forall i :: 0 <= i < |tag| ==> ToLower(tag[i]) == ToLower(v[i])
  }

  /** What the parser classifies as an unknown tag once printed between angle brackets. */
  predicate UnknownOk(v: string) {
    && NoNul(v) && '>' !in v
    && !NoCasePrefix("?xml", v) && !("!--" <= v) && !("![CDATA[" <= v)
    && (v != "" ==> v[0] != '/' && !NameStart(v[0]))
  }

  predicate NamesOk(attrs: seq<Attr>) {
    DistinctNames(attrs) && forall i :: 0 <= i < |attrs| ==> ValidName(attrs[i].name)
  }

  predicate PlainText(n: Node) { n.Text? && !n.cdata }

  /** The trees that a printout can be a printout of: valid distinct names, no blank text, no end marks inside. */
  predicate WellFormed(n: Node)
    decreases n, 1
  {
    match n
    case Element(name, attrs, children) => ValidName(name) && NamesOk(attrs) && AllWellFormed(children)
    case Text(v, cdata) => if cdata then NoNul(v) && !Occurs("]]>", v) else !Blank(v)
    case Comment(v) => NoNul(v) && !Occurs("-->", v)
    case Unknown(v) => UnknownOk(v)
  }

  /** Every node is well formed and no two plain texts are neighbours. */
  predicate AllWellFormed(nodes: seq<Node>)
    decreases nodes, 0
  {
    nodes == [] || (WellFormed(nodes[0]) && AllWellFormed(nodes[1..])
                    && (|nodes| > 1 ==> !(PlainText(nodes[0]) && PlainText(nodes[1]))))
  }

  /** "&#x" occurs in no attribute value and no plain text. */
  predicate NoHexRefs(n: Node)
    decreases n, 1
  {
    match n
    case Element(_, attrs, children) =>
      (forall i :: 0 <= i < |attrs| ==> !HasHexRef(attrs[i].value)) && AllNoHexRefs(children)
    case Text(v, cdata) => cdata || !HasHexRef(v)
    case Comment(_) => true
    case Unknown(_) => true
  }

  predicate AllNoHexRefs(nodes: seq<Node>)
    decreases nodes, 0
  {
    nodes == [] || (NoHexRefs(nodes[0]) && AllNoHexRefs(nodes[1..]))
  }

  function NormalText(v: string, condense: bool): string {
    if condense then Squeeze(v) else v
  }

  /** The tree with its plain texts squeezed, when white space is condensed. */
  function Normal(n: Node, condense: bool): Node
    decreases n, 1
  {
    match n
    case Element(name, attrs, children) => Element(name, attrs, NormalAll(children, condense))
    case Text(v, cdata) => if cdata then n else Text(NormalText(v, condense), false)
    case Comment(_) => n
    case Unknown(_) => n
  }

  function NormalAll(nodes: seq<Node>, condense: bool): seq<Node>
    decreases nodes, 0
  {
    if nodes == [] then [] else [Normal(nodes[0], condense)] + NormalAll(nodes[1..], condense)
  }

  /** The trees that come back unchanged. */
  predicate Survives(n: Node, condense: bool) {
    WellFormed(n) && NoHexRefs(n) && Normal(n, condense) == n
  }

  // ---------------------------------------------------------------- names

  lemma Regroup(a: string, b: string, c: string, d: string)
    ensures a + b + c + d == a + (b + (c + d))
  {
    Seqs.Assoc(b, c, d);
    Seqs.Assoc(a, b, c + d);
    Seqs.Assoc(a + b, c, d);
  }

  lemma {:induction false} NameLengthOf(name: string, tail: string)
    requires forall i :: 0 <= i < |name| ==> NameChar(name[i])
    requires tail != "" && !NameChar(tail[0])
    ensures NameLength(name + tail) == |name|
  {
    if name == "" {
      assert name + tail == tail;
    } else {
      assert (name + tail)[1..] == name[1..] + tail;
      NameLengthOf(name[1..], tail);
    }
  }

  lemma {:induction false} NameReadsBack(name: string, tail: string)
    requires ValidName(name) && tail != "" && !NameChar(tail[0])
    ensures ReadName(SkipWhiteSpace(At(name + tail))) == Name(name, tail)
  {
    var s := name + tail;
    assert s[0] == name[0];
    assert !IsWhiteSpace(s[0]) && s[0] != '\0';
    NameLengthOf(name, tail);
    assert s[..|name|] == name && s[|name|..] == tail;
  }

  lemma {:induction false} NameIsPlain(name: string)
    requires forall i :: 0 <= i < |name| ==> NameChar(name[i])
    ensures Encode(name) == name && CStr(name) == name
  {
    if name != "" {
      NameIsPlain(name[1..]);
      assert [name[0]] + name[1..] == name;
      assert NameChar(name[0]);
      assert !(HEX_REF <= name);
    }
  }

  // ---------------------------------------------------------------- attributes

  lemma {:induction false} QuotedValueReadsBack(name: string, v: string, q: char, tail: string, condense: bool)
    requires !HasHexRef(v) && (q == '\"' || q == '\'')
    ensures ParseAttrValue([q] + (Encode(v) + [q] + tail), name, condense) == GotAttr(Attr(name, v), tail)
  {
    QuotedRoundTrip(v, tail, q, condense);
    hide Encode, ReadText, ReadStop, HasHexRef;
    Seqs.Split([q], Encode(v) + [q] + tail);
  }

  /** One visible character is not skipped as white space. */
  lemma StaysAt(c: char, t: string)
    requires !IsWhiteSpace(c) && c != '\0'
    ensures var s := [c] + t; SkipWhiteSpace(At(s)) == At(s) && !Ended(s) && s[0] == c && s[1..] == t
  {
    Seqs.Split([c], t);
  }

  lemma {:induction false} AssignmentReadsBack(name: string, v: string, q: char, tail: string, condense: bool)
    requires !HasHexRef(v) && (q == '\"' || q == '\'')
    ensures ParseAssignment("=" + ([q] + (Encode(v) + [q] + tail)), name, condense) == GotAttr(Attr(name, v), tail)
  {
    var value := [q] + (Encode(v) + [q] + tail);
    StaysAt('=', value);
    StaysAt(q, Encode(v) + [q] + tail);
    QuotedValueReadsBack(name, v, q, tail, condense);
    hide Encode, ParseAttrValue, SkipWhiteSpace, HasHexRef;
  }

  lemma {:induction false} AttrReadsBack(a: Attr, tail: string, condense: bool)
    requires AttrOk(a)
    ensures ParseAttribute(PrintAttr(a) + tail, condense) == GotAttr(a, tail)
  {
    var q, e := QuoteFor(a.value), Encode(a.value);
    var assignment := "=" + ([q] + (e + [q] + tail));
    NameIsPlain(a.name);
    AttrPrinted(a.name, q, e, tail);
    NameReadsBack(a.name, assignment);
    AssignmentReadsBack(a.name, a.value, q, tail, condense);
  }

  lemma AttrPrinted(name: string, q: char, e: string, tail: string)
    ensures name + "=" + [q] + e + [q] + tail == name + ("=" + ([q] + (e + [q] + tail)))
  {
  }

  /** One round of the attribute loop. */
  lemma {:induction false} AttrStep(p: string, name: string, seen: seq<Attr>, a: Attr, rest: string, condense: bool)
    requires p != "" && NameStart(p[0])
    requires ParseAttribute(p, condense) == GotAttr(a, rest) && !Ended(rest) && !HasName(seen, a.name)
    ensures ParseAttributes(" " + p, name, seen, condense) == ParseAttributes(rest, name, seen + [a], condense)
  {
    assert (" " + p)[1..] == p;
    assert SkipWhiteSpace(At(" " + p)) == At(p);
  }

  /** With names, nothing in the list is taken for its end. */
  lemma {:induction false} NamedAttrs(attrs: seq<Attr>)
    requires forall i :: 0 <= i < |attrs| ==> attrs[i].name != ""
    ensures PrintMore(attrs) == PrintAttrs(attrs)
  {
  }

  lemma {:induction false} AttrsHead(attrs: seq<Attr>, tail: string)
    requires attrs != [] && (forall i :: 0 <= i < |attrs| ==> attrs[i].name != "") && !Ended(tail)
    ensures PrintAttrs(attrs) + tail == " " + (PrintAttr(attrs[0]) + (PrintAttrs(attrs[1..]) + tail))
    ensures !Ended(PrintAttrs(attrs[1..]) + tail)
  {
    NamedAttrs(attrs[1..]);
    hide PrintAttr;
    var printed := PrintAttrs(attrs[1..]);
    Regroup(" ", PrintAttr(attrs[0]), printed, tail);
    assert (printed + tail)[0] == if printed == "" then tail[0] else ' ';
  }

  lemma {:induction false} AttrsReadBack(attrs: seq<Attr>, name: string, seen: seq<Attr>, tail: string, condense: bool)
    requires forall i :: 0 <= i < |attrs| ==> AttrOk(attrs[i])
    requires DistinctNames(seen + attrs)
    requires !Ended(tail)
    ensures ParseAttributes(PrintAttrs(attrs) + tail, name, seen, condense)
            == ParseAttributes(tail, name, seen + attrs, condense)
    decreases |attrs|
  {
    hide ParseAttributes, PrintAttr;
    if attrs == [] {
      assert PrintAttrs(attrs) + tail == tail;
      assert seen + attrs == seen;
    } else {
      hide PrintAttrs;
      NamedAll(attrs);
      AttrsHead(attrs, tail);
      var rest := PrintAttrs(attrs[1..]) + tail;
      FirstAttrReadBack(attrs, name, seen, rest, condense);
      assert attrs == [attrs[0]] + attrs[1..];
      Seqs.Assoc(seen, [attrs[0]], attrs[1..]);
      hide AttrOk, DistinctNames;
      AttrsReadBack(attrs[1..], name, seen + [attrs[0]], tail, condense);
    }
  }

  lemma NamedAll(attrs: seq<Attr>)
    requires forall i :: 0 <= i < |attrs| ==> AttrOk(attrs[i])
    ensures forall i :: 0 <= i < |attrs| ==> attrs[i].name != ""
    ensures forall i :: 0 <= i < |attrs| - 1 ==> AttrOk(attrs[1..][i])
  {
  }

  lemma {:induction false} FirstAttrReadBack(attrs: seq<Attr>, name: string, seen: seq<Attr>, rest: string, condense: bool)
    requires attrs != [] && AttrOk(attrs[0]) && DistinctNames(seen + attrs) && !Ended(rest)
    ensures ParseAttributes(" " + (PrintAttr(attrs[0]) + rest), name, seen, condense)
            == ParseAttributes(rest, name, seen + [attrs[0]], condense)
  {
    var a := attrs[0];
    AttrReadsBack(a, rest, condense);
    NameIsPlain(a.name);
    var p := PrintAttr(a) + rest;
    assert p[0] == PrintAttr(a)[0] == a.name[0];
    assert !HasName(seen, a.name) by {
      assert (seen + attrs)[|seen|] == a;
      assert forall i :: 0 <= i < |seen| ==> (seen + attrs)[i] == seen[i];
    }
    AttrStep(p, name, seen, a, rest, condense);
  }

  // ---------------------------------------------------------------- leaves

  predicate ClosingTag(tag: string) {
    |tag| == 3 && tag[2] == '>' && tag[0] != '>' && tag[1] != '>' && tag[0] != '\0'
  }

  lemma {:induction false} TagNotYet(v: string, tag: string, tail: string)
    requires ClosingTag(tag) && v != "" && !(tag <= v)
    ensures !(tag <= v + tag + tail)
  {
    var s := v + tag + tail;
    if |v| == 1 {
      assert s[2] == tag[1];
    } else if |v| == 2 {
      assert s[2] == tag[0];
    } else {
      assert s[..3] == v[..3];
    }
  }

  lemma {:induction false} TagFirstSeenAtEnd(v: string, tag: string, tail: string)
    requires ClosingTag(tag) && NoNul(v) && !Occurs(tag, v)
    ensures UntilTag(v + tag + tail, tag) == |v|
    decreases |v|
  {
    var s := v + tag + tail;
    if v == "" {
      assert s == tag + tail;
    } else {
      TagNotYet(v, tag, tail);
      assert s[1..] == v[1..] + tag + tail;
      TagFirstSeenAtEnd(v[1..], tag, tail);
    }
  }

  lemma {:induction false} BracketFirstSeenAtEnd(v: string, tail: string)
    requires NoNul(v) && '>' !in v
    ensures UntilTag(v + ">" + tail, ">") == |v|
    decreases |v|
  {
    var s := v + ">" + tail;
    if v == "" {
      assert s == ">" + tail;
    } else {
      assert s[0] == v[0];
      assert s[1..] == v[1..] + ">" + tail;
      BracketFirstSeenAtEnd(v[1..], tail);
    }
  }

  lemma {:induction false} CommentReadsBack(v: string, tail: string, condense: bool)
    requires NoNul(v) && !Occurs("-->", v)
    ensures ParseNode(Print(Comment(v)) + tail, condense) == Got(Comment(v), tail)
    ensures !("</" <= Print(Comment(v)) + tail)
  {
    CommentPrinted(v, tail);
    CommentIdentified(v + "-->" + tail);
    CommentBody(v, tail);
    hide Print, Identify, ParseComment, Occurs;
  }

  lemma CommentPrinted(v: string, tail: string)
    requires NoNul(v)
    ensures Print(Comment(v)) + tail == "<!--" + (v + "-->" + tail)
  {
    CStrIff(v);
    Regroup("<!--", v, "-->", tail);
    Regroup("", v, "-->", tail);
  }

  lemma {:induction false} CommentIdentified(t: string)
    ensures Identify("<!--" + t) == IsComment && StringEqual("<!--" + t, "<!--") && !("</" <= "<!--" + t)
  {
    var s := "<!--" + t;
    assert s[1] == '!';
  }

  lemma {:induction false} CommentBody(v: string, tail: string)
    requires NoNul(v) && !Occurs("-->", v)
    ensures StringEqual("<!--" + (v + "-->" + tail), "<!--")
    ensures ParseComment("<!--" + (v + "-->" + tail)) == Got(Comment(v), tail)
  {
    TagFirstSeenAtEnd(v, "-->", tail);
    hide UntilTag, Occurs;
    var t := v + "-->" + tail;
    CommentIdentified(t);
    Seqs.Split("<!--", t);
    Seqs.Split(v, "-->" + tail);
    Seqs.Split("-->", tail);
    Seqs.Assoc(v, "-->", tail);
  }

  lemma {:induction false} CDataBody(v: string, tail: string, condense: bool)
    requires NoNul(v) && !Occurs("]]>", v)
    ensures ParseCData("<![CDATA[" + (v + "]]>" + tail), condense) == Got(Text(v, true), tail)
  {
    TagFirstSeenAtEnd(v, "]]>", tail);
    var t, w := v + "]]>" + tail, "]]>" + tail;
    assert ("<![CDATA[" + t)[9..] == t && t[..|v|] == v;
    assert t[|v|..] == w && w[3..] == tail;
    assert ReadStop(w, false, condense, "]]>") == Read("", At(w));
  }

  lemma {:induction false} CDataIdentified(t: string)
    ensures Identify("<![CDATA[" + t) == IsCData && !("</" <= "<![CDATA[" + t)
  {
    var s := "<![CDATA[" + t;
    assert s[1] == '!' && s[2] == '[';
  }

  lemma {:induction false} CDataReadsBack(v: string, tail: string, condense: bool)
    requires NoNul(v) && !Occurs("]]>", v)
    ensures ParseNode(Print(Text(v, true)) + tail, condense) == Got(Text(v, true), tail)
    ensures !("</" <= Print(Text(v, true)) + tail)
  {
    CDataPrinted(v, tail);
    CDataIdentified(v + "]]>" + tail);
    CDataBody(v, tail, condense);
  }

  lemma CDataPrinted(v: string, tail: string)
    requires NoNul(v)
    ensures Print(Text(v, true)) + tail == "<![CDATA[" + (v + "]]>" + tail)
  {
    CStrIff(v);
    Regroup("<![CDATA[", v, "]]>", tail);
    Regroup("", v, "]]>", tail);
  }

  lemma {:induction false} UnknownIdentified(v: string, tail: string)
    requires UnknownOk(v)
    ensures Identify("<" + (v + ">" + tail)) == IsUnknown
    ensures !("</" <= "<" + (v + ">" + tail))
  {
    var t := v + ">" + tail;
    var s := "<" + t;
    assert s[1] == t[0] == if v == "" then '>' else v[0];
    NotHeader(v, "!--", tail);
    NotHeader(v, "![CDATA[", tail);
    NotDeclaration(v, tail);
    assert "<" + "!--" == "<!--" && "<" + "![CDATA[" == "<![CDATA[";
    hide NoCasePrefix, StringEqualNoCase, NameStart;
  }

  lemma {:induction false} NotDeclaration(v: string, tail: string)
    requires !NoCasePrefix("?xml", v)
    ensures !StringEqualNoCase("<" + (v + ">" + tail), "<?xml")
  {
    var t := v + ">" + tail;
    var s := "<" + t;
    assert forall i :: 0 <= i < |t| ==> s[i + 1] == t[i];
    assert forall i :: 1 <= i < 5 ==> "<?xml"[i] == "?xml"[i - 1];
    if |v| < 4 {
      assert s[|v| + 1] == '>';
    } else {
      assert forall i :: 0 <= i < 4 ==> s[i + 1] == v[i];
    }
  }

  lemma {:induction false} NotHeader(v: string, tag: string, tail: string)
    requires '>' !in tag && !(tag <= v)
    ensures !("<" + tag <= "<" + (v + ">" + tail))
  {
    var t := v + ">" + tail;
    if |tag| <= |v| { assert t[..|tag|] == v[..|tag|]; } else { assert t[|v|] == '>'; }
    assert !(tag <= t);
    assert ("<" + t)[1..] == t && ("<" + tag)[1..] == tag;
    assert |tag| <= |t| ==> ("<" + t)[..1 + |tag|][1..] == t[..|tag|];
  }

  lemma {:induction false} UnknownReadsBack(v: string, tail: string, condense: bool)
    requires UnknownOk(v)
    ensures ParseNode(Print(Unknown(v)) + tail, condense) == Got(Unknown(v), tail)
    ensures !("</" <= Print(Unknown(v)) + tail)
  {
    hide Identify, ParseUnknown, ParseElement;
    CStrIff(v);
    UnknownBody(v, tail);
    UnknownIdentified(v, tail);
    Regroup("<", v, ">", tail);
    Regroup("", v, ">", tail);
    assert Print(Unknown(v)) + tail == "<" + (v + ">" + tail);
  }

  lemma {:induction false} UnknownBody(v: string, tail: string)
    requires UnknownOk(v)
    ensures ParseUnknown("<" + (v + ">" + tail)) == Got(Unknown(v), tail)
  {
    var t := v + ">" + tail;
    BracketFirstSeenAtEnd(v, tail);
    hide UntilTag, UnknownOk;
    Seqs.Split("<", t);
    Seqs.Split(v, ">" + tail);
    Seqs.Split(v + ">", tail);
    Seqs.Assoc(v, ">", tail);
  }

  // ---------------------------------------------------------------- elements

  lemma {:induction false} ElementIdentified(name: string, tail: string)
    requires ValidName(name)
    ensures Identify("<" + (name + tail)) == IsElement && !("</" <= "<" + (name + tail))
  {
    var s := "<" + (name + tail);
    assert s[1] == name[0] && NameStart(s[1]);
  }

  lemma {:induction false} ElementStart(name: string, tail: string, condense: bool)
    requires ValidName(name) && !Ended(tail) && !NameChar(tail[0])
    ensures ParseElement("<" + (name + tail), condense) == ParseAttributes(tail, name, [], condense)
  {
    hide ReadName, ParseAttributes, ValidName, NameChar;
    var s := "<" + (name + tail);
    assert SkipWs(s) == s && s[1..] == name + tail;
    NameReadsBack(name, tail);
  }

  lemma {:induction false} EmptyTag(name: string, attrs: seq<Attr>, tail: string, condense: bool)
    ensures ParseAttributes(" />" + tail, name, attrs, condense) == Got(Element(name, attrs, []), tail)
  {
    var s := " />" + tail;
    assert s[1..] == "/>" + tail;
    assert SkipWs(s) == "/>" + tail;
    assert ("/>" + tail)[2..] == tail;
  }

  lemma {:induction false} ContentTag(name: string, attrs: seq<Attr>, inner: string, kids: seq<Node>, tail: string, condense: bool)
    requires ReadValue(inner, condense) == Content(kids, "</" + name + ">" + tail)
    ensures ParseAttributes(">" + inner, name, attrs, condense) == Got(Element(name, attrs, kids), tail)
  {
    var s, endTag := ">" + inner, "</" + name + ">";
    assert SkipWs(s) == s && s[1..] == inner;
    assert endTag <= endTag + tail && (endTag + tail)[|endTag|..] == tail;
  }

  lemma {:induction false} NonBlankStripped(v: string)
    requires !Blank(v)
    ensures !Blank(StripSpaces(v)) && StripSpaces(v) != ""
  {
    if v != "" && v[0] == ' ' {
      var i :| 0 <= i < |v| && !IsWhiteSpace(v[i]);
      assert v[1..][i - 1] == v[i];
      NonBlankStripped(v[1..]);
    }
  }

  /** A plain text starts with neither a tag nor, once its leading spaces are skipped, white space. */
  lemma {:induction false} TextStarts(v: string, rest: string)
    requires v != "" && !Blank(v) && Closes(rest, '<')
    ensures var s, p := Encode(v) + rest, Encode(StripSpaces(v)) + rest;
      !Ended(s) && SkipWhiteSpace(At(s)) == At(p) && !Ended(p) && p[0] != '<' && StripSpaces(v) != ""
  {
    hide Encode, StripSpaces, Blank, SkipWs;
    NonBlankStripped(v);
    EncodedStart(v);
    EncodedStart(StripSpaces(v));
    SkipLeadingSpaces(v, rest);
  }

  lemma {:induction false} CondenseKeeps(v: string, white: bool)
    requires !Blank(v)
    ensures !Blank(Condense(v, white))
  {
    var i :| 0 <= i < |v| && !IsWhiteSpace(v[i]);
    CondenseStep(v, white);
    hide Condense;
    if i > 0 {
      assert v[1..][i - 1] == v[i];
      CondenseKeeps(v[1..], v[0] == ' ');
      NotBlankAfter(if v[0] == ' ' then "" else (if white then " " else "") + [v[0]], Condense(v[1..], v[0] == ' '));
    } else {
      NotBlankAt(if white then " " else "", v[0], Condense(v[1..], false));
    }
  }

  lemma NotBlankAfter(a: string, b: string)
    requires !Blank(b)
    ensures !Blank(a + b)
  {
    var i :| 0 <= i < |b| && !IsWhiteSpace(b[i]);
    assert (a + b)[|a| + i] == b[i];
  }

  lemma NotBlankAt(a: string, c: char, b: string)
    requires !IsWhiteSpace(c)
    ensures !Blank(a + [c] + b)
  {
    assert (a + [c] + b)[|a|] == c;
  }

  /** A text that is not blank stays so when it is squeezed. */
  lemma SqueezeNotBlank(v: string)
    requires !Blank(v)
    ensures !Blank(Squeeze(v))
  {
    WordsOfStripped(v);
    NonBlankStripped(v);
    CondenseIsJoin(StripSpaces(v), false);
    CondenseKeeps(StripSpaces(v), false);
  }

  lemma {:induction false} TextReads(v: string, rest: string, condense: bool)
    requires !HasHexRef(v) && Closes(rest, '<')
    ensures var s, p := Encode(v) + rest, Encode(StripSpaces(v)) + rest;
      ReadStop(if condense then p else s, true, condense, "<") == Read(NormalText(v, condense), At(rest))
  {
    hide Encode, StripSpaces, ReadCondensed, ReadKept, HasHexRef, Words, Join;
    var sv := StripSpaces(v);
    WordsOfStripped(v);
    if condense {
      CondensedRoundTrip(sv, rest[1..]);
      assert "<" + rest[1..] == rest;
      Seqs.Assoc(Encode(sv), "<", rest[1..]);
    } else {
      KeptReadsBack(v, rest, '<');
    }
  }

  lemma TextValue(s: string, p: string, v: string, rest: string, condense: bool)
    requires !Ended(s) && SkipWhiteSpace(At(s)) == At(p) && !Ended(p) && p[0] != '<' && !Blank(v)
    requires ReadStop(if condense then p else s, true, condense, "<") == Read(v, At(rest))
    ensures ReadValue(s, condense) == Cons(Text(v, false), ReadValue(rest, condense))
  {
    hide Blank, SkipWhiteSpace, ReadStop;
  }

  /** A plain text becomes one text child, squeezed when white space is condensed. */
  lemma {:induction false} TextStep(v: string, rest: string, condense: bool)
    requires !HasHexRef(v) && !Blank(v) && Closes(rest, '<')
    ensures ReadValue(Encode(v) + rest, condense) == Cons(Text(NormalText(v, condense), false), ReadValue(rest, condense))
  {
    NormalNotBlank(v, condense);
    hide *;
    TextStarts(v, rest);
    TextReads(v, rest, condense);
    TextValue(Encode(v) + rest, Encode(StripSpaces(v)) + rest, NormalText(v, condense), rest, condense);
  }

  lemma NormalNotBlank(v: string, condense: bool)
    requires !Blank(v)
    ensures v != "" && !Blank(NormalText(v, condense))
  {
    SqueezeNotBlank(v);
  }

  lemma {:induction false} NodeStep(printed: string, n: Node, rest: string, condense: bool)
    requires printed != "" && printed[0] == '<' && !("</" <= printed + rest)
    requires ParseNode(printed + rest, condense) == Got(n, rest)
    ensures ReadValue(printed + rest, condense) == Cons(n, ReadValue(rest, condense))
  {
    var s := printed + rest;
    assert SkipWhiteSpace(At(s)) == At(s);
  }

  lemma StartsTag(n: Node)
    requires !PlainText(n)
    ensures Print(n) != "" && Print(n)[0] == '<'
  {
  }

  lemma {:induction false} NodeReadsBack(n: Node, rest: string, condense: bool)
    requires WellFormed(n) && NoHexRefs(n) && !PlainText(n)
    ensures !("</" <= Print(n) + rest)
    ensures ParseNode(Print(n) + rest, condense) == Got(Normal(n, condense), rest)
    decreases n, 2
  {
    hide ParseNode, Print, UnknownOk, Occurs, AllWellFormed, AllNoHexRefs, NormalAll;
    match n
    case Element(name, attrs, children) => ElementReadsBack(name, attrs, children, rest, condense);
    case Text(v, _) => CDataReadsBack(v, rest, condense);
    case Comment(v) => CommentReadsBack(v, rest, condense);
    case Unknown(v) => UnknownReadsBack(v, rest, condense);
  }

  function TagBody(name: string, children: seq<Node>): string {
    if children == [] then " />" else ">" + PrintAll(children) + "</" + name + ">"
  }

  lemma ElementShape(name: string, attrs: seq<Attr>, children: seq<Node>)
    requires CStr(name) == name
    ensures Print(Element(name, attrs, children)) == "<" + name + PrintAttrs(attrs) + TagBody(name, children)
  {
  }

  lemma {:induction false} ElementPrinted(name: string, attrs: seq<Attr>, children: seq<Node>, rest: string)
    requires ValidName(name)
    ensures Print(Element(name, attrs, children)) + rest
            == "<" + (name + (PrintAttrs(attrs) + (TagBody(name, children) + rest)))
  {
    hide PrintAttrs, TagBody, Print;
    NameIsPlain(name);
    var a, b := PrintAttrs(attrs), TagBody(name, children);
    ElementShape(name, attrs, children);
    Regroup("<" + name, a, b, rest);
    Seqs.Assoc("<", name, a + (b + rest));
  }

  lemma {:induction false} BodyReadsBack(name: string, attrs: seq<Attr>, children: seq<Node>, rest: string, condense: bool)
    requires AllWellFormed(children) && AllNoHexRefs(children)
    ensures ParseAttributes(TagBody(name, children) + rest, name, attrs, condense)
            == Got(Element(name, attrs, NormalAll(children, condense)), rest)
    decreases children, 1
  {
    hide ParseAttributes, PrintAll, WellFormed, NoHexRefs, Normal, TagBody;
    if children == [] {
      EmptyBody(name, rest);
      EmptyTag(name, attrs, rest, condense);
    } else {
      var tail := "</" + name + ">" + rest;
      FilledBody(name, children, rest);
      ContentReadsBack(children, tail, condense);
      ContentTag(name, attrs, PrintAll(children) + tail, NormalAll(children, condense), rest, condense);
    }
  }

  lemma EmptyBody(name: string, rest: string)
    ensures TagBody(name, []) + rest == " />" + rest
  {
  }

  lemma FilledBody(name: string, children: seq<Node>, rest: string)
    requires children != []
    ensures TagBody(name, children) + rest == ">" + (PrintAll(children) + ("</" + name + ">" + rest))
    ensures "</" <= "</" + name + ">" + rest
  {
    hide PrintAll;
    var inner := PrintAll(children);
    Regroup(">", inner, "</", name + ">" + rest);
    Regroup(">" + inner + "</", name, ">", rest);
    assert "</" + name + ">" + rest == "</" + (name + ">" + rest);
    assert name + ">" + rest == name + (">" + rest);
  }

  lemma {:induction false} TagGoesOn(name: string, attrs: seq<Attr>, children: seq<Node>, rest: string)
    ensures var body := TagBody(name, children) + rest;
            var tail := PrintAttrs(attrs) + body;
            !Ended(body) && !Ended(tail) && !NameChar(tail[0])
  {
    var body := TagBody(name, children) + rest;
    assert body[0] == if children == [] then ' ' else '>';
    assert (PrintAttrs(attrs) + body)[0] == if PrintAttrs(attrs) == "" then body[0] else ' ';
  }

  lemma {:induction false} ElementReadsBack(name: string, attrs: seq<Attr>, children: seq<Node>, rest: string, condense: bool)
    requires WellFormed(Element(name, attrs, children)) && NoHexRefs(Element(name, attrs, children))
    ensures var s, e := Print(Element(name, attrs, children)) + rest, Element(name, attrs, NormalAll(children, condense));
            && ParseElement(s, condense) == ParseNode(s, condense) == Got(e, rest)
            && !("</" <= s)
    decreases children, 2
  {
    hide ParseAttributes, PrintAttrs, TagBody, Identify, Print, AllWellFormed, AllNoHexRefs, NormalAll, ParseElement;
    var body := TagBody(name, children) + rest;
    var tail := PrintAttrs(attrs) + body;
    ElementPrinted(name, attrs, children, rest);
    TagGoesOn(name, attrs, children, rest);
    ElementIdentified(name, tail);
    ElementStart(name, tail, condense);
    assert [] + attrs == attrs;
    AttrsReadBack(attrs, name, [], body, condense);
    BodyReadsBack(name, attrs, children, rest, condense);
  }

  lemma {:induction false} ContentReadsBack(kids: seq<Node>, tail: string, condense: bool)
    requires AllWellFormed(kids) && AllNoHexRefs(kids) && "</" <= tail
    ensures ReadValue(PrintAll(kids) + tail, condense) == Content(NormalAll(kids, condense), tail)
    decreases kids, 0
  {
    if kids == [] {
      assert PrintAll(kids) + tail == tail;
      assert tail[0] == "</"[0];
    } else {
      hide ReadValue;
      var n, rest := kids[0], PrintAll(kids[1..]) + tail;
      Seqs.Assoc(Print(n), PrintAll(kids[1..]), tail);
      ContentReadsBack(kids[1..], tail, condense);
      if PlainText(n) {
        NextTag(kids, tail);
        TextStep(n.value, rest, condense);
      } else {
        StartsTag(n);
        NodeReadsBack(n, rest, condense);
        NodeStep(Print(n), Normal(n, condense), rest, condense);
      }
    }
  }

  lemma {:induction false} NextTag(kids: seq<Node>, tail: string)
    requires kids != [] && PlainText(kids[0]) && AllWellFormed(kids) && "</" <= tail
    ensures Closes(PrintAll(kids[1..]) + tail, '<')
  {
    assert tail[0] == "</"[0];
    if |kids| > 1 {
      StartsTag(kids[1]);
      assert PrintAll(kids[1..]) == Print(kids[1]) + PrintAll(kids[1..][1..]);
    } else {
      assert PrintAll(kids[1..]) + tail == tail;
    }
  }

  /**
    For every well-formed element without "&#x", parsing its stream printout consumes exactly the printout and
    gives the element in its normal form.
    */
  lemma {:induction false} PrintParseNormal(e: Node, rest: string, condense: bool)
    requires e.Element? && WellFormed(e) && NoHexRefs(e)
    ensures ParseElement(Print(e) + rest, condense) == Got(Normal(e, condense), rest)
  {
    ElementReadsBack(e.name, e.attrs, e.children, rest, condense);
  }

  /** So the printout of a surviving element parses to that element. */
  lemma {:induction false} PrintParseRoundTrip(e: Node, rest: string, condense: bool)
    requires e.Element? && Survives(e, condense)
    ensures ParseElement(Print(e) + rest, condense) == Got(e, rest)
  {
    hide WellFormed, NoHexRefs, Normal, ParseElement, Print;
    PrintParseNormal(e, rest, condense);
  }

  lemma KeptIsNormal(n: Node)
    ensures Normal(n, false) == n
    decreases n, 1
  {
    if n.Element? { KeptAreNormal(n.children); }
  }

  lemma KeptAreNormal(nodes: seq<Node>)
    ensures NormalAll(nodes, false) == nodes
    decreases nodes, 0
  {
    if nodes != [] {
      KeptIsNormal(nodes[0]);
      KeptAreNormal(nodes[1..]);
    }
  }

  /** The same for a whole document, which holds anything but plain text. */
  lemma {:induction false} DocumentRoundTrip(nodes: seq<Node>, condense: bool)
    requires AllWellFormed(nodes) && AllNoHexRefs(nodes)
    requires forall i :: 0 <= i < |nodes| ==> !PlainText(nodes[i])
    ensures nodes != [] ==> ParseDocument(PrintAll(nodes), condense) == Content(NormalAll(nodes, condense), "")
    ensures ParseTop(PrintAll(nodes), condense) == Content(NormalAll(nodes, condense), "")
  {
    hide ParseNode, Print, WellFormed, NoHexRefs, Normal;
    if nodes != [] {
      var n, rest := nodes[0], PrintAll(nodes[1..]);
      StartsTag(n);
      NodeReadsBack(n, rest, condense);
      var s := PrintAll(nodes);
      assert s == Print(n) + rest && s[0] == '<';
      assert SkipWhiteSpace(At(s)) == At(s);
      DocumentRoundTrip(nodes[1..], condense);
    }
  }
}
