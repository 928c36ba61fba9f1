/**
  What a node holds besides its links, and what a copy of it holds. A copy is made through C strings, so that every
  value, name and attribute value ends at its first NUL, and the attributes are set one by one.
  */
module XmlCopy {
  import opened XmlText
  import XmlEscaping
  import XmlTree

  type Attr = XmlTree.Attr

  const EMPTY_ATTR := XmlTree.Attr("", "")

  /** Only documents and elements copy their children; a text, a comment, an unknown or a declaration is a leaf. */
  datatype Data =
    | Document(value: string)
    | Element(value: string, attrs: seq<Attr>)
    | Leaf(value: string)

  // ---- Attributes ----

  function FindName(attrs: seq<Attr>, name: string): (i: int)
    ensures -1 <= i < |attrs| && (i >= 0 ==> attrs[i].name == name)
    ensures i < 0 ==> forall k :: 0 <= k < |attrs| ==> attrs[k].name != name
  {
    if attrs == [] then -1
    else if attrs[0].name == name then 0
    else var i := FindName(attrs[1..], name); if i < 0 then -1 else i + 1
  }

  /** `SetAttribute`: a known name gets the new value, a new one goes to the end. */
  function Put(attrs: seq<Attr>, a: Attr): seq<Attr> {
    var i := FindName(attrs, a.name);
    if i < 0 then attrs + [a] else attrs[i := attrs[i].(value := a.value)]
  }

  /** Afterwards the name has the new value, and every other name what it had. */
  lemma PutLookup(attrs: seq<Attr>, a: Attr, name: string)
    ensures var after := Put(attrs, a);
      var i, k := FindName(attrs, name), FindName(after, name);
      if name == a.name then k >= 0 && after[k] == a else (k >= 0 <==> i >= 0) && (i >= 0 ==> after[k] == attrs[i])
  {
    var at := FindName(attrs, a.name);
    if at < 0 {
      FindInLonger(attrs, a, name);
    } else {
      FindInChanged(attrs, at, attrs[at].(value := a.value), name);
    }
  }

  lemma {:induction false} FindInLonger(attrs: seq<Attr>, a: Attr, name: string)
    ensures FindName(attrs + [a], name) ==
            if FindName(attrs, name) >= 0 then FindName(attrs, name) else if a.name == name then |attrs| else -1
  {
    if attrs == [] {
      assert attrs + [a] == [a] && [a][1..] == [];
    } else {
      assert (attrs + [a])[1..] == attrs[1..] + [a];
      FindInLonger(attrs[1..], a, name);
    }
  }

  lemma {:induction false} FindInChanged(attrs: seq<Attr>, at: nat, a: Attr, name: string)
    requires at < |attrs| && a.name == attrs[at].name
    ensures FindName(attrs[at := a], name) == FindName(attrs, name)
  {
    if at > 0 {
      assert attrs[at := a][1..] == attrs[1..][at - 1 := a];
      FindInChanged(attrs[1..], at - 1, a, name);
    } else {
      assert attrs[at := a][1..] == attrs[1..];
    }
  }

  /** The attributes that `First` and `Next` go through: after the first one, an empty one ends the walk. */
  function Visited(attrs: seq<Attr>): seq<Attr> {
    attrs[..VisitedUpTo(attrs, 1)]
  }

  function VisitedUpTo(attrs: seq<Attr>, i: nat): (n: nat)
    ensures n <= |attrs|
    decreases |attrs| - i
  {
    if i >= |attrs| then |attrs| else if attrs[i] == EMPTY_ATTR then i else VisitedUpTo(attrs, i + 1)
  }

  /** An attribute as `Name` and `Value` show it. */
  function Shown(a: Attr): Attr {
    XmlTree.Attr(CStr(a.name), CStr(a.value))
  }

  /** All of them set in order, in an element that had none. */
  function PutAll(attrs: seq<Attr>): seq<Attr> {
    if attrs == [] then [] else Put(PutAll(attrs[..|attrs| - 1]), Shown(attrs[|attrs| - 1]))
  }

  function CopiedAttrs(attrs: seq<Attr>): seq<Attr> {
    PutAll(Visited(attrs))
  }

  /** The loop over the attributes in `TiXmlElement::CopyTo`. */
  method CopyAttributes(attrs: seq<Attr>) returns (target: seq<Attr>)
    ensures target == CopiedAttrs(attrs)
  {
    target := [];
    if attrs == [] {
      return;
    }
    var i := 0;
    while true
      invariant 0 <= i < |attrs| && target == PutAll(attrs[..i]) && VisitedUpTo(attrs, 1) == VisitedUpTo(attrs, i + 1)
      decreases |attrs| - i
    {
      assert attrs[..i + 1][..i] == attrs[..i];
      target := Put(target, Shown(attrs[i]));
      i := i + 1;
      if i == |attrs| || attrs[i] == EMPTY_ATTR {
        return;
      }
    }
  }

  predicate CleanAttr(a: Attr) {
    NoNul(a.name) && NoNul(a.value)
  }

  predicate CleanAttrs(attrs: seq<Attr>) {
    XmlTree.DistinctNames(attrs) && forall i :: 0 <= i < |attrs| ==> CleanAttr(attrs[i])
  }

  /** No NUL anywhere, no name twice, and no empty attribute but the first. */
  predicate CopyableAttrs(attrs: seq<Attr>) {
    CleanAttrs(attrs) && forall i :: 1 <= i < |attrs| ==> attrs[i] != EMPTY_ATTR
  }

  lemma ShownIff(a: Attr)
    ensures CleanAttr(Shown(a)) && (Shown(a) == a <==> CleanAttr(a))
  {
    CStrIff(a.name);
    CStrIff(a.value);
  }

  lemma PutClean(attrs: seq<Attr>, a: Attr)
    requires CleanAttrs(attrs) && CleanAttr(a)
    ensures CleanAttrs(Put(attrs, a)) && |Put(attrs, a)| <= |attrs| + 1
  {
  }

  /** Setting attributes never makes more of them, and keeps them exactly if they are clean. */
  lemma {:induction false} PutAllIs(attrs: seq<Attr>)
    ensures CleanAttrs(PutAll(attrs)) && |PutAll(attrs)| <= |attrs|
    ensures CleanAttrs(attrs) ==> PutAll(attrs) == attrs
  {
    if attrs != [] {
      var n := |attrs| - 1;
      var less := attrs[..n];
      PutAllIs(less);
      ShownIff(attrs[n]);
      PutClean(PutAll(less), Shown(attrs[n]));
      if CleanAttrs(attrs) {
        assert forall i :: 0 <= i < n ==> less[i] == attrs[i];
        assert attrs == less + [attrs[n]];
      }
    }
  }

  lemma {:induction false} VisitedAll(attrs: seq<Attr>, i: nat)
    requires 1 <= i
    ensures VisitedUpTo(attrs, i) == |attrs| <==> forall k :: i <= k < |attrs| ==> attrs[k] != EMPTY_ATTR
    decreases |attrs| - i
  {
    if i < |attrs| && attrs[i] != EMPTY_ATTR { VisitedAll(attrs, i + 1); }
  }

  lemma AttrsCopyIff(attrs: seq<Attr>)
    ensures CopiedAttrs(attrs) == attrs <==> CopyableAttrs(attrs)
  {
    var seen := Visited(attrs);
    PutAllIs(seen);
    VisitedAll(attrs, 1);
    assert |seen| == |attrs| ==> seen == attrs;
  }

  // ---- Nodes ----

  /** `SetValue(value.c_str())`, and the attributes of an element. */
  function CopiedData(d: Data): Data {
    match d
    case Document(value) => Document(CStr(value))
    case Element(value, attrs) => Element(CStr(value), CopiedAttrs(attrs))
    case Leaf(value) => Leaf(CStr(value))
  }

  predicate CopyableData(d: Data) {
    NoNul(d.value) && (d.Element? ==> CopyableAttrs(d.attrs))
  }

  /** What `CopyTo` sets in the copy before it goes on to the children. */
  method CopyData(d: Data) returns (copied: Data)
    ensures copied == CopiedData(d)
  {
    match d
    case Document(value) => copied := Document(CStr(value));
    case Element(value, attrs) =>
      var target := CopyAttributes(attrs);
      copied := Element(CStr(value), target);
    case Leaf(value) => copied := Leaf(CStr(value));
  }

  /** A string is cut at its first NUL. */
  lemma {:induction false} CutAtNul(a: string, b: string)
    requires NoNul(a)
    ensures CStr(a + "\0" + b) == a
  {
    if a == "" {
      assert a + "\0" + b == "\0" + b;
    } else {
      assert (a + "\0" + b)[1..] == a[1..] + "\0" + b;
      CutAtNul(a[1..], b);
      assert [a[0]] + a[1..] == a;
    }
  }

  /** A copy holds the same exactly under that condition. */
  lemma DataCopyIff(d: Data)
    ensures CopiedData(d) == d <==> CopyableData(d)
  {
    CStrIff(d.value);
    if d.Element? { AttrsCopyIff(d.attrs); }
  }

  /** Text in which a NUL is written as a character reference is cut by copying: the parser reads "x&#x00;y" as a
      value of three characters, and its copy has one. */
  lemma NulIsCut(rest: string)
    ensures GetEntity("&#x00;" + rest) == Char("\0", rest)
    ensures CopiedData(Leaf("x\0y")) == Leaf("x")
  {
    assert EncodeChar('\0') == "&#x00;";
    XmlEscaping.ControlReadsBack('\0', rest);
    var v := "x\0y";
    assert v[1..] == "\0y";
    assert CStr(v[1..]) == "";
  }
}
