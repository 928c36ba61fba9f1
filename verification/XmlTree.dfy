/**
  The document tree, its stream-mode printout, and the recursive-descent parser.
  Every parse function takes the text at the current address and returns the text at the address
  reached; failure stands for the NULL that the parser returns.
  */
module XmlTree {
  import opened XmlText

  datatype Attr = Attr(name: string, value: string)

  datatype Node =
    | Element(name: string, attrs: seq<Attr>, children: seq<Node>)
    | Text(value: string, cdata: bool)
    | Comment(value: string)
    | Unknown(value: string)

  // ---------------------------------------------------------------- printing

  function QuoteFor(value: string): char {
    if '\"' in value then '\'' else '\"'
  }

  function PrintAttr(a: Attr): string {
    Encode(a.name) + "=" + [QuoteFor(a.value)] + Encode(a.value) + [QuoteFor(a.value)]
  }

  /** The first attribute is printed as it is. After it, `Next` takes one without name and value for the end of the list. */
  function PrintAttrs(attrs: seq<Attr>): string {
    if attrs == [] then "" else " " + PrintAttr(attrs[0]) + PrintMore(attrs[1..])
  }

  function PrintMore(attrs: seq<Attr>): string {
    if attrs == [] || attrs[0] == Attr("", "") then ""
    else " " + PrintAttr(attrs[0]) + PrintMore(attrs[1..])
  }

  function Print(n: Node): string
    decreases n, 1
  {
    match n
    case Element(name, attrs, children) =>
      "<" + CStr(name) + PrintAttrs(attrs) +
      (if children == [] then " />" else ">" + PrintAll(children) + "</" + CStr(name) + ">")
    case Text(value, cdata) => if cdata then "<![CDATA[" + CStr(value) + "]]>" else Encode(value)
    case Comment(value) => "<!--" + CStr(value) + "-->"
    case Unknown(value) => "<" + CStr(value) + ">"
  }

  function PrintAll(nodes: seq<Node>): string
    decreases nodes, 0
  {
    if nodes == [] then "" else Print(nodes[0]) + PrintAll(nodes[1..])
  }

  // ---------------------------------------------------------------- attributes

  datatype AttrResult = NoAttr | GotAttr(attr: Attr, rest: string)

  predicate UnquotedEnd(s: string) {
    Ended(s) || IsWhiteSpace(s[0]) || s[0] == '/' || s[0] == '>'
  }

  /** Length of an unquoted value; -1 when it runs into a quote. */
  function UnquotedLength(s: string): (n: int)
    ensures -1 <= n <= |s|
  {
    if UnquotedEnd(s) then 0
    else if s[0] == '\'' || s[0] == '\"' then -1
    else var n := UnquotedLength(s[1..]); if n < 0 then -1 else n + 1
  }

  function ParseAttrValue(s: string, name: string, condense: bool): (r: AttrResult)
    requires !Ended(s)
    ensures r.GotAttr? ==> |r.rest| <= |s|
  {
    if s[0] == '\'' || s[0] == '\"' then
      var r := ReadText(s[1..], false, condense, [s[0]]);
      if r.stop.Null? then NoAttr else GotAttr(Attr(name, r.text), r.stop.rest)
    else
      var n := UnquotedLength(s);
      if n < 0 then NoAttr else GotAttr(Attr(name, s[..n]), s[n..])
  }

  function ParseAssignment(s: string, name: string, condense: bool): (r: AttrResult)
    ensures r.GotAttr? ==> |r.rest| <= |s|
  {
    var p := SkipWhiteSpace(At(s));
    if p.Null? || Ended(p.rest) || p.rest[0] != '=' then NoAttr
    else
      var q := SkipWhiteSpace(At(p.rest[1..]));
      if q.Null? || Ended(q.rest) then NoAttr else ParseAttrValue(q.rest, name, condense)
  }

  function ParseAttribute(s: string, condense: bool): (r: AttrResult)
    ensures r.GotAttr? ==> |r.rest| < |s|
  {
    match ReadName(SkipWhiteSpace(At(s)))
    case NoName => NoAttr
    case Name(name, rest) => ParseAssignment(rest, name, condense)
  }

  predicate DistinctNames(attrs: seq<Attr>) {
    forall i, j :: 0 <= i < j < |attrs| ==> attrs[i].name != attrs[j].name
  }

  predicate HasName(attrs: seq<Attr>, name: string) {
    exists i :: 0 <= i < |attrs| && attrs[i].name == name
  }

  // ---------------------------------------------------------------- leaves

  datatype NodeResult = NoNode | Got(node: Node, rest: string)

  /** How far a loop that looks for `tag` runs. */
  function UntilTag(s: string, tag: string): (n: nat)
    ensures n <= |s|
  {
    if Ended(s) || StringEqual(s, tag) then 0 else 1 + UntilTag(s[1..], tag)
  }

  function ParseComment(s: string): (r: NodeResult)
    requires StringEqual(s, "<!--")
    ensures r.Got? ==> |r.rest| < |s|
  {
    var t := s[4..];
    var n := UntilTag(t, "-->");
    Got(Comment(t[..n]), Drop(t[n..], 3))
  }

  function ParseCData(s: string, condense: bool): (r: NodeResult)
    requires StringEqual(s, "<![CDATA[")
    ensures r.Got? ==> |r.rest| < |s|
  {
    var t := s[9..];
    var n := UntilTag(t, "]]>");
    var skipped := ReadText(t[n..], false, condense, "]]>");
    if skipped.stop.Null? then NoNode else Got(Text(t[..n], true), skipped.stop.rest)
  }

  function ParseUnknown(s: string): (r: NodeResult)
    requires s != "" && s[0] == '<'
    ensures r.Got? ==> |r.rest| < |s|
  {
    var t := s[1..];
    var n := UntilTag(t, ">");
    Got(Unknown(t[..n]), if StringEqual(t[n..], ">") then t[n + 1..] else t[n..])
  }

  // ---------------------------------------------------------------- elements

  datatype ContentResult = NoContent | Content(children: seq<Node>, rest: string)

  function Cons(n: Node, r: ContentResult): ContentResult {
    if r.NoContent? then r else Content([n] + r.children, r.rest)
  }

  predicate Blank(value: string) {
    forall i :: 0 <= i < |value| ==> IsWhiteSpace(value[i])
  }

  datatype Kind = IsDeclaration | IsComment | IsCData | IsUnknown | IsElement

  /** `Identify`: which kind of node starts at a '<'. */
  function Identify(s: string): Kind
    requires s != "" && s[0] == '<'
  {
    if StringEqualNoCase(s, "<?xml") then IsDeclaration
    else if StringEqual(s, "<!--") then IsComment
    else if StringEqual(s, "<![CDATA[") then IsCData
    else if StringEqual(s, "<!") then IsUnknown
    else if |s| > 1 && NameStart(s[1]) then IsElement
    else IsUnknown
  }

  /** The `Parse` of the node that `Identify` creates. XML declarations are not part of the model. */
  function ParseNode(s: string, condense: bool): (r: NodeResult)
    requires s != "" && s[0] == '<'
    ensures r.Got? ==> |r.rest| < |s|
    decreases |s|, 2
  {
    match Identify(s)
    case IsDeclaration => NoNode
    case IsComment => ParseComment(s)
    case IsCData => ParseCData(s, condense)
    case IsUnknown => ParseUnknown(s)
    case IsElement => ParseElement(s, condense)
  }

  function ParseElement(s: string, condense: bool): (r: NodeResult)
    ensures r.Got? ==> |r.rest| < |s|
    decreases |s|, 1
  {
    var p := SkipWhiteSpace(At(s));
    if p.Null? || Ended(p.rest) || p.rest[0] != '<' then NoNode
    else
      match ReadName(SkipWhiteSpace(At(p.rest[1..])))
      case NoName => NoNode
      case Name(name, rest) => if Ended(rest) then NoNode else ParseAttributes(rest, name, [], condense)
  }

  /** The loop over attributes, which also meets the end of the start tag. */
  function ParseAttributes(s: string, name: string, attrs: seq<Attr>, condense: bool): (r: NodeResult)
    ensures r.Got? ==> |r.rest| < |s|
    decreases |s|, 1
  {
    var p := SkipWhiteSpace(At(s));
    if p.Null? || Ended(p.rest) then NoNode
    else if p.rest[0] == '/' then
      if |p.rest| > 1 && p.rest[1] == '>' then Got(Element(name, attrs, []), p.rest[2..]) else NoNode
    else if p.rest[0] == '>' then
      match ReadValue(p.rest[1..], condense)
      case NoContent => NoNode
      case Content(children, rest) =>
        var endTag := "</" + name + ">";
        if StringEqual(rest, endTag) then Got(Element(name, attrs, children), rest[|endTag|..]) else NoNode
    else
      match ParseAttribute(p.rest, condense)
      case NoAttr => NoNode
      case GotAttr(a, rest) =>
        if Ended(rest) || HasName(attrs, a.name) then NoNode
        else ParseAttributes(rest, name, attrs + [a], condense)
  }

  /** The loop over texts and child nodes, from the address before white space is skipped. */
  function ReadValue(s: string, condense: bool): (r: ContentResult)
    ensures r.Content? ==> |r.rest| <= |s|
    decreases |s|, 3
  {
    var p := SkipWhiteSpace(At(s));
    if p.Null? || Ended(p.rest) then NoContent
    else if p.rest[0] != '<' then
      var t := ReadStop(if condense then p.rest else s, true, condense, "<");
      if t.stop.Null? then NoContent
      else if Blank(t.text) then ReadValue(t.stop.rest, condense)
      else Cons(Text(t.text, false), ReadValue(t.stop.rest, condense))
    else if StringEqual(p.rest, "</") then Content([], p.rest)
    else
      match ParseNode(p.rest, condense)
      case NoNode => NoContent
      case Got(n, rest) => Cons(n, ReadValue(rest, condense))
  }

  /** The loop of `TiXmlDocument::Parse`; it stops at the first thing that is no tag. */
  function ParseTop(s: string, condense: bool): ContentResult
    decreases |s|
  {
    var p := SkipWhiteSpace(At(s));
    if p.Null? then Content([], "")
    else if Ended(p.rest) || p.rest[0] != '<' then Content([], p.rest)
    else
      match ParseNode(p.rest, condense)
      case NoNode => NoContent
      case Got(n, rest) => Cons(n, ParseTop(rest, condense))
  }

  /** A document without any node is an error. */
  function ParseDocument(s: string, condense: bool): ContentResult {
    var r := ParseTop(s, condense);
    if r.Content? && r.children == [] then NoContent else r
  }
}
