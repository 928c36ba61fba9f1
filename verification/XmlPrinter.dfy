/**
  The visitor that prints a tree into a buffer, with its indentation state, proved against a layout function;
  in stream mode that layout is the printout of XmlTree.
  */
module XmlPrinter {
  import opened XmlText
  import T = XmlTree
  import Seqs

  function Indentation(indent: string, depth: nat): string {
    if depth == 0 then "" else Indentation(indent, depth - 1) + indent
  }

  /** One plain text and nothing else. */
  predicate SimpleContent(children: seq<T.Node>) {
    |children| == 1 && children[0].Text? && !children[0].cdata
  }

  function EnterText(n: T.Node, depth: nat, indent: string, lineBreak: string): string
    requires n.Element?
  {
    Indentation(indent, depth) + "<" + CStr(n.name) + T.PrintAttrs(n.attrs) +
    if n.children == [] then " />" + lineBreak
    else if SimpleContent(n.children) then ">" else ">" + lineBreak
  }

  function ExitText(n: T.Node, depth: nat, indent: string, lineBreak: string): string
    requires n.Element?
  {
    if n.children == [] then ""
    else (if SimpleContent(n.children) then "" else Indentation(indent, depth)) + "</" + CStr(n.name) + ">" + lineBreak
  }

  function LeafText(n: T.Node, depth: nat, indent: string, lineBreak: string, simple: bool): string
    requires !n.Element?
  {
    if simple && n.Text? && !n.cdata then Encode(n.value)
    else Indentation(indent, depth) + T.Print(n) + lineBreak
  }

  /** `simple` says that the node is the only content of its parent. */
  function Layout(n: T.Node, depth: nat, indent: string, lineBreak: string, simple: bool): string
    decreases n, 1
  {
    if n.Element? then
      EnterText(n, depth, indent, lineBreak)
      + LayoutAll(n.children, depth + 1, indent, lineBreak, SimpleContent(n.children))
      + ExitText(n, depth, indent, lineBreak)
    else LeafText(n, depth, indent, lineBreak, simple)
  }

  function LayoutAll(nodes: seq<T.Node>, depth: nat, indent: string, lineBreak: string, simple: bool): string
    decreases nodes, 0
  {
    if nodes == [] then ""
    else Layout(nodes[0], depth, indent, lineBreak, simple) + LayoutAll(nodes[1..], depth, indent, lineBreak, simple)
  }

  lemma {:induction false} NoIndentation(depth: nat)
    ensures Indentation("", depth) == ""
  {
    if depth > 0 { NoIndentation(depth - 1); }
  }

  /** Appending one more piece to what has been appended to `base`. */
  lemma Grow(base: string, added: string, piece: string)
    ensures base + added + piece == base + (added + piece)
    ensures base + "" == base && "" + base == base
  {
  }

  lemma {:induction false} StreamLayout(n: T.Node, depth: nat, simple: bool)
    ensures Layout(n, depth, "", "", simple) == T.Print(n)
    decreases n, 1
  {
    NoIndentation(depth);
    if n.Element? {
      StreamLayoutAll(n.children, depth + 1, SimpleContent(n.children));
      StreamElement(n, depth);
    } else {
      Grow(T.Print(n), "", "");
      hide T.Print;
      assert LeafText(n, depth, "", "", false) == T.Print(n);
      if simple && n.Text? && !n.cdata { PlainTextPrinted(n); }
    }
  }

  lemma PlainTextPrinted(n: T.Node)
    requires n.Text? && !n.cdata
    ensures T.Print(n) == Encode(n.value)
  {
  }

  lemma {:induction false} StreamElement(n: T.Node, depth: nat)
    requires n.Element? && Indentation("", depth) == ""
    ensures EnterText(n, depth, "", "") + T.PrintAll(n.children) + ExitText(n, depth, "", "") == T.Print(n)
  {
    hide T.PrintAttrs, CStr, Indentation;
    var start := "<" + CStr(n.name) + T.PrintAttrs(n.attrs);
    assert "" + "<" + CStr(n.name) + T.PrintAttrs(n.attrs) == start;
    if n.children == [] {
      assert EnterText(n, depth, "", "") == start + " />";
    } else {
      assert EnterText(n, depth, "", "") == start + ">";
      var end := "</" + CStr(n.name) + ">";
      assert ExitText(n, depth, "", "") == end;
      hide T.PrintAll;
      assert start + ">" + T.PrintAll(n.children) + end == start + (">" + T.PrintAll(n.children) + "</" + CStr(n.name) + ">");
    }
  }

  lemma {:induction false} StreamLayoutAll(nodes: seq<T.Node>, depth: nat, simple: bool)
    ensures LayoutAll(nodes, depth, "", "", simple) == T.PrintAll(nodes)
    decreases nodes, 0
  {
    if nodes != [] {
      StreamLayout(nodes[0], depth, simple);
      StreamLayoutAll(nodes[1..], depth, simple);
    }
  }

  lemma FirstAttr(base: string, attrs: seq<T.Attr>)
    requires attrs != []
    ensures base + T.PrintAttrs(attrs) == base + " " + T.PrintAttr(attrs[0]) + T.PrintMore(attrs[1..])
  {
    hide T.PrintAttr, T.PrintMore;
    Seqs.Assoc(base, " ", T.PrintAttr(attrs[0]) + T.PrintMore(attrs[1..]));
    Seqs.Assoc(base + " ", T.PrintAttr(attrs[0]), T.PrintMore(attrs[1..]));
    Seqs.Assoc(" ", T.PrintAttr(attrs[0]), T.PrintMore(attrs[1..]));
  }

  lemma NextAttr(base: string, attrs: seq<T.Attr>, i: nat)
    requires i < |attrs| && attrs[i] != T.Attr("", "")
    ensures base + T.PrintMore(attrs[i..]) == base + " " + T.PrintAttr(attrs[i]) + T.PrintMore(attrs[i + 1..])
  {
    assert attrs[i..][1..] == attrs[i + 1..];
    hide T.PrintAttr;
    Seqs.Assoc(base, " ", T.PrintAttr(attrs[i]) + T.PrintMore(attrs[i + 1..]));
    Seqs.Assoc(base + " ", T.PrintAttr(attrs[i]), T.PrintMore(attrs[i + 1..]));
    Seqs.Assoc(" ", T.PrintAttr(attrs[i]), T.PrintMore(attrs[i + 1..]));
  }

  lemma NoMoreAttrs(base: string, attrs: seq<T.Attr>, i: nat)
    requires i <= |attrs| && (i < |attrs| ==> attrs[i] == T.Attr("", ""))
    ensures base + T.PrintMore(attrs[i..]) == base
  {
    Seqs.Nothing(base);
  }

  class TiXmlPrinter {
    var depth: nat
    var simpleTextPrint: bool
    var buffer: string
    var indent: string
    var lineBreak: string

    constructor ()
      ensures depth == 0 && !simpleTextPrint && buffer == "" && indent == "    " && lineBreak == "\n"
    {
      depth, simpleTextPrint, buffer, indent, lineBreak := 0, false, "", "    ", "\n";
    }

    method SetStreamPrinting()
      modifies `indent, `lineBreak
      ensures indent == "" && lineBreak == ""
    {
      indent, lineBreak := "", "";
    }

    method DoIndent()
      modifies `buffer
      ensures buffer == old(buffer) + Indentation(indent, depth)
    {
      for i := 0 to depth
        invariant buffer == old(buffer) + Indentation(indent, i)
      {
        buffer := buffer + indent;
      }
    }

    method DoLineBreak()
      modifies `buffer
      ensures buffer == old(buffer) + lineBreak
    {
      buffer := buffer + lineBreak;
    }

    method PrintAttributes(attrs: seq<T.Attr>)
      modifies `buffer
      ensures buffer == old(buffer) + T.PrintAttrs(attrs)
    {
      if attrs == [] { return; }
      hide T.PrintMore, T.PrintAttr;
      ghost var base := buffer;
      buffer := buffer + " ";
      buffer := buffer + T.PrintAttr(attrs[0]);
      FirstAttr(base, attrs);
      ghost var whole := buffer + T.PrintMore(attrs[1..]);
      var i := 1;
      while i < |attrs| && attrs[i] != T.Attr("", "")
        invariant 1 <= i <= |attrs| && whole == buffer + T.PrintMore(attrs[i..])
      {
        NextAttr(buffer, attrs, i);
        buffer := buffer + " ";
        buffer := buffer + T.PrintAttr(attrs[i]);
        i := i + 1;
      }
      NoMoreAttrs(buffer, attrs, i);
    }

    method VisitEnter(n: T.Node)
      requires n.Element?
      modifies `buffer, `depth, `simpleTextPrint
      ensures buffer == old(buffer) + EnterText(n, old(depth), indent, lineBreak)
      ensures depth == old(depth) + 1 && simpleTextPrint == (old(simpleTextPrint) || SimpleContent(n.children))
    {
      hide Indentation, CStr, T.PrintAttrs;
      ghost var base := buffer;
      DoIndent();
      ghost var added := Indentation(indent, depth);
      buffer := buffer + "<";
      Grow(base, added, "<");
      added := added + "<";
      buffer := buffer + CStr(n.name);
      Grow(base, added, CStr(n.name));
      added := added + CStr(n.name);
      PrintAttributes(n.attrs);
      Grow(base, added, T.PrintAttrs(n.attrs));
      added := added + T.PrintAttrs(n.attrs);
      if n.children == [] {
        buffer := buffer + " />";
        DoLineBreak();
        assert base + added + " />" + lineBreak == base + (added + (" />" + lineBreak));
      } else {
        buffer := buffer + ">";
        Grow(base, added, ">");
        if SimpleContent(n.children) {
          simpleTextPrint := true;
        } else {
          DoLineBreak();
          assert base + (added + ">") + lineBreak == base + (added + (">" + lineBreak));
        }
      }
      depth := depth + 1;
    }

    method VisitExit(n: T.Node)
      requires n.Element? && depth > 0 && simpleTextPrint == SimpleContent(n.children)
      modifies `buffer, `depth, `simpleTextPrint
      ensures buffer == old(buffer) + ExitText(n, old(depth) - 1, indent, lineBreak)
      ensures depth == old(depth) - 1 && !simpleTextPrint
    {
      hide Indentation, CStr;
      depth := depth - 1;
      if n.children != [] {
        ghost var base, margin := buffer, if simpleTextPrint then "" else Indentation(indent, depth);
        if simpleTextPrint {
          simpleTextPrint := false;
          Grow(base, "", "");
        } else {
          DoIndent();
        }
        buffer := buffer + "</";
        Grow(base, margin, "</");
        buffer := buffer + CStr(n.name);
        Grow(base, margin + "</", CStr(n.name));
        buffer := buffer + ">";
        Grow(base, margin + "</" + CStr(n.name), ">");
        DoLineBreak();
        Grow(base, margin + "</" + CStr(n.name) + ">", lineBreak);
      }
    }

    method Visit(n: T.Node)
      requires !n.Element?
      modifies `buffer
      ensures buffer == old(buffer) + LeafText(n, depth, indent, lineBreak, simpleTextPrint)
    {
      hide Indentation, CStr, Encode;
      ghost var base, margin := buffer, Indentation(indent, depth);
      match n {
        case Text(value, cdata) =>
          if cdata {
            DoIndent();
            buffer := buffer + ("<![CDATA[" + CStr(value) + "]]>");
            DoLineBreak();
          } else if simpleTextPrint {
            buffer := buffer + Encode(value);
          } else {
            DoIndent();
            buffer := buffer + Encode(value);
            DoLineBreak();
          }
        case Comment(value) =>
          DoIndent();
          buffer := buffer + ("<!--" + CStr(value) + "-->");
          DoLineBreak();
        case Unknown(value) =>
          DoIndent();
          buffer := buffer + ("<" + CStr(value) + ">");
          DoLineBreak();
      }
      Grow(base, margin, T.Print(n));
      Grow(base, margin + T.Print(n), lineBreak);
    }

    /** `Accept` appends the layout of the node and leaves the printer's state as it was. */
    method Accept(n: T.Node)
      requires n.Element? ==> !simpleTextPrint
      modifies `buffer, `depth, `simpleTextPrint
      ensures buffer == old(buffer) + Layout(n, old(depth), indent, lineBreak, old(simpleTextPrint))
      ensures depth == old(depth) && simpleTextPrint == old(simpleTextPrint)
      decreases n, 1
    {
      if n.Element? {
        AcceptElement(n);
      } else {
        Visit(n);
      }
    }

    method AcceptElement(n: T.Node)
      requires n.Element? && !simpleTextPrint
      modifies `buffer, `depth, `simpleTextPrint
      ensures buffer == old(buffer) + Layout(n, old(depth), indent, lineBreak, false)
      ensures depth == old(depth) && !simpleTextPrint
      decreases n, 0
    {
      hide EnterText, ExitText, LeafText, SimpleContent;
      ghost var base, d, simple := buffer, depth, SimpleContent(n.children);
      VisitEnter(n);
      ghost var entered := buffer;
      AcceptAll(n.children);
      ghost var middle := LayoutAll(n.children, d + 1, indent, lineBreak, simple);
      VisitExit(n);
      ghost var enter, exit := EnterText(n, d, indent, lineBreak), ExitText(n, d, indent, lineBreak);
      Grow(base, enter, middle);
      Grow(base, enter + middle, exit);
    }

    /** The loop over the children. */
    method AcceptAll(nodes: seq<T.Node>)
      requires simpleTextPrint ==> SimpleContent(nodes)
      modifies `buffer, `depth, `simpleTextPrint
      ensures buffer == old(buffer) + LayoutAll(nodes, depth, indent, lineBreak, simpleTextPrint)
      ensures depth == old(depth) && simpleTextPrint == old(simpleTextPrint)
      decreases nodes, 0
    {
      hide Layout;
      var i := 0;
      while i < |nodes|
        invariant i <= |nodes| && depth == old(depth) && simpleTextPrint == old(simpleTextPrint)
        invariant buffer + LayoutAll(nodes[i..], depth, indent, lineBreak, simpleTextPrint)
                  == old(buffer) + LayoutAll(nodes, depth, indent, lineBreak, simpleTextPrint)
      {
        assert nodes[i..][1..] == nodes[i + 1..];
        Grow(buffer, Layout(nodes[i], depth, indent, lineBreak, simpleTextPrint),
             LayoutAll(nodes[i + 1..], depth, indent, lineBreak, simpleTextPrint));
        Accept(nodes[i]);
        i := i + 1;
      }
      Grow(buffer, "", "");
    }

    /** A fresh printer indents by four spaces. */
    static method DefaultPrint(n: T.Node) returns (out: string)
      ensures out == Layout(n, 0, "    ", "\n", false)
    {
      hide Layout;
      var printer := new TiXmlPrinter();
      printer.Accept(n);
      Grow("", "", "");
      out := printer.buffer;
    }

    /** A fresh printer in stream mode produces the printout that the parser reads back. */
    static method StreamPrint(n: T.Node) returns (out: string)
      ensures out == T.Print(n)
    {
      var printer := new TiXmlPrinter();
      printer.SetStreamPrinting();
      printer.Accept(n);
      StreamLayout(n, 0, false);
      out := printer.buffer;
    }
  }
}
