/**
  Input that breaks off before what was begun is closed, input that is closed by the wrong tag, and text between words.
  */
module XmlUnclosed {
  import opened XmlText
  import opened XmlTree
  import opened XmlSyntax
  import XmlRoundTrip
  import Seqs

  // ---- Leaves ----

  lemma {:induction false} NeverFound(v: string, tag: string)
    requires NoNul(v) && !XmlRoundTrip.Occurs(tag, v)
    ensures UntilTag(v, tag) == |v|
  {
    if v != "" { NeverFound(v[1..], tag); }
  }

  /** A comment that is not closed goes on to the end, and is no error. */
  lemma UnclosedComment(v: string, condense: bool)
    requires NoNul(v) && !XmlRoundTrip.Occurs("-->", v)
    ensures ParseNode("<!--" + v, condense) == Got(Comment(v), "")
  {
    var s := "<!--" + v;
    TagKinds('x', 'm', 'l', v);
    NeverFound(v, "-->");
    assert s[4..] == v && v[..|v|] == v && v[|v|..] == "" && s[0] == '<';
    hide UntilTag, Identify, XmlRoundTrip.Occurs;
  }

  /** Nor is such a CDATA section. */
  lemma UnclosedCData(v: string, condense: bool)
    requires NoNul(v) && !XmlRoundTrip.Occurs("]]>", v)
    ensures ParseNode("<![CDATA[" + v, condense) == Got(Text(v, true), "")
  {
    var s := "<![CDATA[" + v;
    TagKinds('x', 'm', 'l', v);
    NeverFound(v, "]]>");
    assert s[9..] == v && v[..|v|] == v && v[|v|..] == "" && s[0] == '<';
    hide UntilTag, Identify, XmlRoundTrip.Occurs;
    assert ReadText("", false, condense, "]]>") == Read("", At(""));
  }

  lemma {:induction false} NoBracket(v: string)
    requires '>' !in v
    ensures !XmlRoundTrip.Occurs(">", v)
  {
    if v != "" {
      assert v[0] != '>';
      NoBracket(v[1..]);
    }
  }

  /** Nor is an unknown tag. */
  lemma UnclosedUnknown(v: string, condense: bool)
    requires NoNul(v) && '>' !in v && Identify("<" + v) == IsUnknown
    ensures ParseNode("<" + v, condense) == Got(Unknown(v), "")
  {
    var s := "<" + v;
    NoBracket(v);
    NeverFound(v, ">");
    assert s[1..] == v && v[..|v|] == v && v[|v|..] == "" && s[0] == '<';
    hide UntilTag, Identify, XmlRoundTrip.Occurs;
  }

  // ---- Elements ----

  /** A start tag with nothing behind it is an error. */
  lemma UnclosedElement(name: string, condense: bool)
    requires ValidName(name)
    ensures ParseElement("<" + (name + ">"), condense) == NoNode && ParseElement("<" + name, condense) == NoNode
  {
    StartTag(name, ">", condense);
    NameOnly(name, condense);
    hide ReadName, ParseElement;
    var t := ">";
    assert t[1..] == "";
    assert ParseAttributes(">", name, [], condense) == NoNode;
  }

  lemma {:induction false} WholeName(s: string)
    requires forall i :: 0 <= i < |s| ==> NameChar(s[i])
    ensures NameLength(s) == |s|
  {
    if s != "" { WholeName(s[1..]); }
  }

  lemma NameOnly(name: string, condense: bool)
    requires ValidName(name)
    ensures ParseElement("<" + name, condense) == NoNode
  {
    var s := "<" + name;
    assert s[0] == '<' && s[1..] == name;
    WholeName(name);
    assert name[..|name|] == name && name[|name|..] == "";
    hide ParseAttributes, NameLength;
    assert SkipWs(s) == s && SkipWs(name) == name;
  }

  lemma StartTag(name: string, t: string, condense: bool)
    requires ValidName(name) && t != "" && !NameChar(t[0])
    ensures ParseElement("<" + (name + t), condense) == if Ended(t) then NoNode else ParseAttributes(t, name, [], condense)
  {
    var s := "<" + (name + t);
    assert s[0] == '<' && s[1..] == name + t;
    assert (name + t)[0] == name[0];
    SpacesSkipped("", s);
    Seqs.Nothing(s);
    SpacesSkipped("", name + t);
    Seqs.Nothing(name + t);
    XmlRoundTrip.NameReadsBack(name, t);
    hide ParseAttributes, ReadName, SkipWs;
  }

  /** So is an end tag with another name. */
  lemma WrongEndTag(name: string, other: string, rest: string, condense: bool)
    requires ValidName(name) && !(name + ">" <= other + rest)
    ensures ParseElement("<" + (name + (">" + ("</" + (other + rest)))), condense) == NoNode
  {
    var end := "</" + (other + rest);
    var t := ">" + end;
    StartTag(name, t, condense);
    OtherTag(name, other + rest);
    AtEndTag(other + rest, condense);
    assert t[0] == '>' && t[1..] == end;
    hide ParseElement, SkipWs, ReadValue, ValidName, StringEqual;
    assert ParseAttributes(t, name, [], condense) == NoNode by {
      SpacesSkipped("", t);
      Seqs.Nothing(t);
    }
  }

  lemma OtherTag(name: string, t: string)
    requires !(name + ">" <= t)
    ensures !StringEqual("</" + t, "</" + name + ">")
  {
    var end, endTag := "</" + t, "</" + name + ">";
    assert end[2..] == t && endTag[2..] == name + ">";
  }

  lemma AtEndTag(t: string, condense: bool)
    ensures ReadValue("</" + t, condense) == Content([], "</" + t)
  {
    var end := "</" + t;
    assert end[0] == '<' && end[..2] == "</";
    SpacesSkipped("", end);
    Seqs.Nothing(end);
    hide SkipWs;
  }

  // ---- Attributes ----

  lemma {:induction false} PlainKept(v: string, q: char)
    requires Plain(v) && (q == '\"' || q == '\'')
    ensures ReadKept(v, [q]) == Read(v, At(""))
  {
    if v != "" {
      assert v[0] !in "&<>\"'" && v[0] != '\0' && [q][0] == q;
      PlainKept(v[1..], q);
      assert [v[0]] + v[1..] == v;
    }
  }

  /** A value whose closing quote is missing goes on to the end. */
  lemma UnclosedValue(name: string, v: string, q: char, condense: bool)
    requires ValidName(name) && Plain(v) && (q == '\"' || q == '\'')
    ensures ParseAttribute(name + ("=" + ([q] + v)), condense) == GotAttr(Attr(name, v), "")
  {
    var value := [q] + v;
    PlainKept(v, q);
    assert value[0] == q && value[1..] == v;
    SpacesSkipped("", value);
    Seqs.Nothing(value);
    assert ("=" + value)[1..] == value;
    SpacesSkipped("", "=" + value);
    Seqs.Nothing("=" + value);
    NameAhead("", name, "=" + value);
    Seqs.Nothing(name + ("=" + value));
    hide ReadKept, SkipWs, ReadName;
  }

  // ---- Documents ----

  /** The parse of a document stops in front of text that stands outside of all tags, without an error. */
  lemma TextOutside(spaces: string, c: char, rest: string, condense: bool)
    requires Spaces(spaces) && c != '<' && c != '\0' && !IsWhiteSpace(c)
    ensures ParseTop(spaces + ([c] + rest), condense) == Content([], [c] + rest)
  {
    SpacesSkipped(spaces, [c] + rest);
    hide SkipWhiteSpace;
  }

  /** Nothing but such text is an error. */
  lemma NoTags(spaces: string, c: char, rest: string, condense: bool)
    requires Spaces(spaces) && c != '<' && c != '\0' && !IsWhiteSpace(c)
    ensures ParseDocument(spaces + ([c] + rest), condense) == NoContent && ParseDocument("", condense) == NoContent
  {
    TextOutside(spaces, c, rest, condense);
    hide ParseTop;
    assert ParseTop("", condense) == Content([], "");
  }

  // ---- Words ----

  predicate Word(w: string) {
    w != "" && Plain(w) && forall i :: 0 <= i < |w| ==> !IsWhiteSpace(w[i])
  }

  lemma {:induction false} WordRead(w: string, t: string)
    requires Plain(w) && forall i :: 0 <= i < |w| ==> !IsWhiteSpace(w[i])
    ensures ReadCondensed(w + t, "<", false) == Prepend(w, ReadCondensed(t, "<", false))
  {
    if w == "" {
      assert w + t == t;
    } else {
      assert w[0] !in "&<>\"'" && w[0] != '\0';
      assert (w + t)[0] == w[0] && (w + t)[1..] == w[1..] + t;
      WordRead(w[1..], t);
      Seqs.HeadTail("", w);
      Seqs.Assoc([w[0]], w[1..], ReadCondensed(t, "<", false).text);
    }
  }

  lemma {:induction false} SpacesRead(spaces: string, t: string, white: bool)
    requires Spaces(spaces)
    ensures ReadCondensed(spaces + t, "<", white) == ReadCondensed(t, "<", white || spaces != "")
  {
    if spaces == "" {
      assert spaces + t == t;
    } else {
      assert (spaces + t)[0] == spaces[0] && (spaces + t)[1..] == spaces[1..] + t;
      SpacesRead(spaces[1..], t, true);
    }
  }

  /** White space between words, whatever there is of it, counts as one space; at the ends it goes. */
  lemma TwoWords(s1: string, a: string, s2: string, b: string, s3: string, rest: string)
    requires Spaces(s1) && Word(a) && Spaces(s2) && s2 != "" && Word(b) && Spaces(s3)
    ensures ReadStop(s1 + (a + (s2 + (b + (s3 + ("<" + rest))))), true, true, "<") == Read(a + " " + b, At("<" + rest))
  {
    var end := "<" + rest;
    var t := b + (s3 + end);
    var u := a + (s2 + t);
    assert a[0] != '\0' && u[0] == a[0];
    SpacesSkipped(s1, u);
    WordRead(a, s2 + t);
    SpacesRead(s2, t, false);
    SecondWord(b, s3 + end);
    SpacesRead(s3, end, false);
    hide ReadCondensed;
    WordsEnd(rest, true);
    WordsEnd(rest, false);
    Seqs.Nothing(b);
    Seqs.Assoc(a, " ", b);
  }

  lemma WordsEnd(rest: string, white: bool)
    ensures ReadCondensed("<" + rest, "<", white) == Read("", At("<" + rest))
  {
  }

  lemma SecondWord(w: string, t: string)
    requires Word(w)
    ensures ReadCondensed(w + t, "<", true) == Prepend(" " + w, ReadCondensed(t, "<", false))
  {
    assert w[0] !in "&<>\"'" && w[0] != '\0';
    assert (w + t)[0] == w[0] && (w + t)[1..] == w[1..] + t;
    WordRead(w[1..], t);
    hide Plain;
    var r := ReadCondensed(t, "<", false);
    assert [w[0]] + w[1..] == w;
    Seqs.Assoc(" ", [w[0]], w[1..]);
    Seqs.Assoc(" " + [w[0]], w[1..], r.text);
  }
}
