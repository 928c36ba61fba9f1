/**
  Escaped text read back: `EncodeString` followed by `ReadText`.
  */
module XmlEscaping {
  import opened XmlText
  import Seqs

  /** "&#x" occurs in the value. */
  predicate HasHexRef(v: string)
    decreases |v|
  {
    v != "" && (HEX_REF <= v || HasHexRef(v[1..]))
  }

  predicate Closes(w: string, c: char) {
    w != "" && w[0] == c && (c == '\"' || c == '\'' || c == '<')
  }

  lemma HexDigitOfHexChar(d: nat)
    requires d < 16
    ensures HexDigit(HexChar(d)) == d && HexChar(d) != 'x' && HexChar(d) != ';' && HexChar(d) != '\0'
  {
  }

  lemma {:induction false} LastDigit(ds: string, c: char, mult: nat)
    requires HexDigit(c) >= 0
    ensures var more := CodeBack(ds, Hex, mult * 16 % WORD);
            more >= 0 ==> CodeBack(ds + [c], Hex, mult) == mult * HexDigit(c) % WORD + more
  {
    var all := ds + [c];
    assert all[..|all| - 1] == ds && all[|all| - 1] == c;
  }

  lemma NoDigits(mult: nat)
    ensures CodeBack("", Hex, mult) == 0
  {
  }

  lemma {:induction false} TwoDigits(c: char, d: char)
    requires HexDigit(c) >= 0 && HexDigit(d) >= 0
    ensures CodeBack([c] + [d], Hex, 1) == 16 * HexDigit(c) + HexDigit(d)
  {
    hide CodeBack, HexDigit;
    NoDigits(256);
    LastDigit("", c, 16);
    assert "" + [c] == [c];
    LastDigit([c], d, 1);
  }

  lemma {:induction false} TwoHexDigits(a: nat, b: nat)
    requires a < 16 && b < 16
    ensures CodeBack([HexChar(a)] + [HexChar(b)], Hex, 1) == 16 * a + b
  {
    hide CodeBack;
    HexDigitOfHexChar(a);
    HexDigitOfHexChar(b);
    TwoDigits(HexChar(a), HexChar(b));
  }

  lemma NamedReadsBack(c: char, w: string)
    requires c == '&' || c == '<' || c == '>' || c == '\"' || c == '\''
    ensures GetChar(EncodeChar(c) + w) == Char([c], w)
  {
    var e := EncodeChar(c);
    var s := e + w;
    Seqs.Split(e, w);
    assert e <= s && s[0] == e[0] && s[1] == e[1] && s[2] == e[2];
  }

  lemma SemicolonThird(a: char, b: char, w: string)
    requires a != ';' && a != '\0' && b != ';' && b != '\0'
    ensures StrChr([a] + ([b] + (";" + w)), ';') == 2
  {
    assert StrChr(";" + w, ';') == 0;
    assert ([b] + (";" + w))[1..] == ";" + w;
    assert StrChr([b] + (";" + w), ';') == 1;
    assert ([a] + ([b] + (";" + w)))[1..] == [b] + (";" + w);
  }

  lemma ControlShape(a: char, b: char, w: string)
    ensures var s := HEX_REF + [a, b] + ";" + w;
      && |s| > 3 && s[0] == '&' && s[1] == '#' && s[2] == 'x' && s[3] == a
      && s[3..] == [a] + ([b] + (";" + w)) && s[3..5] == [a] + [b] && s[6..] == w
  {
  }

  lemma HexReferenceRead(s: string, q: nat, code: nat)
    requires |s| > 3 && s[0] == '&' && s[1] == '#' && s[2] == 'x' && s[3] != '\0'
    requires StrChr(s[3..], ';') == q && 3 + q < |s| && CodeBack(s[3..3 + q], Hex, 1) == code
    ensures GetChar(s) == Char([ByteOf(code)], s[3 + q + 1..])
  {
    hide StrChr, CodeBack, ByteOf;
  }

  lemma ControlReadsBack(c: char, w: string)
    requires c as int < 32
    ensures GetChar(EncodeChar(c) + w) == Char([c], w)
  {
    var a, b := c as int / 16, c as int % 16;
    var x, y := HexChar(a), HexChar(b);
    HexDigitOfHexChar(a);
    HexDigitOfHexChar(b);
    hide HexChar, HexDigit, StrChr, CodeBack, GetChar;
    ControlShape(x, y, w);
    SemicolonThird(x, y, w);
    TwoHexDigits(a, b);
    var s := HEX_REF + [x, y] + ";" + w;
    assert EncodeChar(c) + w == s;
    HexReferenceRead(s, 2, 16 * a + b);
  }

  /** Whatever follows, the escaped form of one character reads back as that character alone. */
  lemma {:induction false} EncodeCharReadsBack(c: char, w: string)
    ensures GetChar(EncodeChar(c) + w) == Char([c], w)
  {
    hide GetEntity;
    if c == '&' || c == '<' || c == '>' || c == '\"' || c == '\'' {
      NamedReadsBack(c, w);
    } else if c as int < 32 {
      ControlReadsBack(c, w);
    } else {
      Seqs.Split([c], w);
    }
  }

  lemma EncodeCharStart(c: char)
    ensures var e := EncodeChar(c);
            e[0] != '\0' && e[0] != '\"' && e[0] != '\'' && e[0] != '<' && (IsWhiteSpace(e[0]) ==> c == ' ')
  {
  }

  lemma {:induction false} EncodeStart(v: string)
    requires v != "" && !HasHexRef(v)
    ensures Encode(v) == EncodeChar(v[0]) + Encode(v[1..])
  {
  }

  lemma KeptStep(s: string, endTag: string)
    requires !Ended(s) && !StringEqual(s, endTag) && GetChar(s).Char?
    ensures ReadKept(s, endTag) == Prepend(GetChar(s).chars, ReadKept(GetChar(s).rest, endTag))
  {
    hide GetChar;
  }

  lemma KeptEnd(w: string, c: char)
    requires Closes(w, c)
    ensures ReadKept(w, [c]) == Read("", At(w))
  {
  }

  lemma NoHexRefAfter(v: string)
    requires v != "" && !HasHexRef(v)
    ensures !HasHexRef(v[1..])
  {
  }

  /** Escaped text is read on from its first character. */
  lemma EscapedStart(c: char, t: string, end: char)
    requires end == '\"' || end == '\'' || end == '<'
    ensures var s := EncodeChar(c) + t; !Ended(s) && !StringEqual(s, [end])
  {
    EncodeCharStart(c);
    hide EncodeChar;
  }

  lemma {:induction false} KeptReadsBack(v: string, w: string, c: char)
    requires !HasHexRef(v) && Closes(w, c)
    ensures ReadKept(Encode(v) + w, [c]) == Read(v, At(w))
    decreases |v|
  {
    hide ReadKept, GetChar, EncodeChar, HasHexRef, StringEqual;
    if v == "" {
      Seqs.Nothing(w);
      KeptEnd(w, c);
    } else {
      EncodeStart(v);
      NoHexRefAfter(v);
      var e, rest := EncodeChar(v[0]), Encode(v[1..]);
      hide Encode;
      Seqs.Assoc(e, rest, w);
      EncodeCharReadsBack(v[0], rest + w);
      EscapedStart(v[0], rest + w, c);
      KeptStep(e + (rest + w), [c]);
      KeptReadsBack(v[1..], w, c);
      Seqs.HeadTail("", v);
    }
  }

  /** The shape of an escaped value that starts with "&#x": up to a semicolon, or up to its last character. */
  lemma {:induction false} RawStretch(v: string)
    requires HEX_REF <= v
    ensures var n := RawLength(v);
            if v[n] == ';' then 3 <= n && Encode(v) == v[..n] + ";" + Encode(v[n + 1..])
            else n == |v| - 1 >= 2 && Encode(v) == v[..n] + EncodeChar(v[n])
  {
    hide Encode;
    var n := RawLength(v);
    assert v[..3] == HEX_REF;
    assert v[1] == '#' && v[2] == 'x';
    RawHead(v);
    if v[n] == ';' {
      Semicolon(v[n..]);
      assert v[n..][1..] == v[n + 1..];
      assert v[..n] + (";" + Encode(v[n + 1..])) == v[..n] + ";" + Encode(v[n + 1..]);
    } else {
      assert v[n..] == [v[n]];
      LastChar(v[n]);
    }
  }

  lemma RawHead(v: string)
    requires HEX_REF <= v
    ensures Encode(v) == v[..RawLength(v)] + Encode(v[RawLength(v)..])
  {
    assert v != "";
  }

  lemma {:induction false} Semicolon(v: string)
    requires v != "" && v[0] == ';'
    ensures Encode(v) == ";" + Encode(v[1..])
  {
    assert !(HEX_REF <= v);
  }

  lemma {:induction false} LastChar(c: char)
    ensures Encode([c]) == EncodeChar(c)
  {
    assert !(HEX_REF <= [c]);
    assert [c][1..] == "";
    assert EncodeChar(c) + "" == EncodeChar(c);
  }

  lemma EncodeCharSemicolon(c: char)
    requires c != ';'
    ensures forall i :: 0 <= i < |EncodeChar(c)| - 1 ==> EncodeChar(c)[i] != ';'
  {
    if c as int < 32 {
      HexDigitOfHexChar(c as int / 16);
      HexDigitOfHexChar(c as int % 16);
    }
  }

  /** A stretch starting with "&#x" is swallowed up to its first semicolon and gives at most one character. */
  lemma {:induction false} HexRefSwallowed(s: string, k: nat)
    requires HEX_REF <= s && 3 <= k < |s| && s[k] == ';'
    requires forall i :: 3 <= i < k ==> s[i] != ';'
    ensures GetChar(s).Char? ==> GetChar(s).rest == s[k + 1..]
  {
    assert s[..3] == HEX_REF;
    assert s[0] == '&' && s[1] == '#' && s[2] == 'x';
    assert s[3..][k - 3] == ';';
    assert forall i :: 0 <= i < k - 3 ==> s[3..][i] != ';';
    var q := StrChr(s[3..], ';');
    assert q < 0 || q == k - 3;
  }

  lemma {:induction false} HexRefFarAway(s: string, k: nat)
    requires HEX_REF <= s && 3 <= k <= |s|
    requires forall i :: 3 <= i < k ==> s[i] != ';'
    ensures GetChar(s).Char? ==> |GetChar(s).rest| < |s| - k
  {
    assert s[..3] == HEX_REF;
    assert s[0] == '&' && s[1] == '#' && s[2] == 'x';
    assert forall i :: 0 <= i < k - 3 ==> s[3..][i] != ';';
    var q := StrChr(s[3..], ';');
    assert q < 0 || q >= k - 3;
  }

  /** Reading back never lengthens a value, and shortens any value holding "&#x". */
  lemma {:induction false} NeverLonger(v: string, w: string, c: char)
    requires Closes(w, c)
    ensures var r := ReadKept(Encode(v) + w, [c]);
            r.stop.At? && |r.stop.rest| >= |w| ==> |r.text| <= |v| && (HasHexRef(v) ==> |r.text| < |v|)
    decreases |v|
  {
    var s := Encode(v) + w;
    if v == "" {
      assert s == w;
    } else if HEX_REF <= v {
      NeverLongerRaw(v, w, c);
    } else {
      var e, t := EncodeChar(v[0]), Encode(v[1..]) + w;
      assert s == e + t;
      EncodeCharStart(v[0]);
      EncodeCharReadsBack(v[0], t);
      NeverLonger(v[1..], w, c);
    }
  }

  lemma {:induction false} NeverLongerRaw(v: string, w: string, c: char)
    requires Closes(w, c) && HEX_REF <= v
    ensures var r := ReadKept(Encode(v) + w, [c]);
            r.stop.At? && |r.stop.rest| >= |w| ==> |r.text| < |v|
    decreases |v|, 0
  {
    hide GetChar, Encode;
    var s, n := Encode(v) + w, RawLength(v);
    RawStretch(v);
    assert v[..3] == HEX_REF;
    assert v[0] == '&' && v[1] == '#' && v[2] == 'x';
    assert !Ended(s) && s[0] == '&';
    assert !StringEqual(s, [c]);
    if v[n] == ';' {
      RawClosed(v, w);
      NeverLonger(v[n + 1..], w, c);
    } else {
      RawOpen(v, w);
    }
  }

  /** An escaped value that starts with "&#x" keeps its raw stretch, whatever follows. */
  lemma RawPrefix(v: string, n: nat, rest: string)
    requires HEX_REF <= v && 3 <= n < |v|
    ensures var s := v[..n] + (";" + rest);
      && HEX_REF <= s && n < |s| && s[n] == ';' && s[n + 1..] == rest
      && forall i :: 3 <= i < n ==> s[i] == v[i]
  {
    var s := v[..n] + (";" + rest);
    assert v[..3] == HEX_REF;
    assert s[..3] == v[..3];
  }

  lemma {:induction false} RawClosed(v: string, w: string)
    requires HEX_REF <= v && v[RawLength(v)] == ';'
    ensures var g := GetChar(Encode(v) + w); g.Char? ==> g.rest == Encode(v[RawLength(v) + 1..]) + w
  {
    var n := RawLength(v);
    RawStretch(v);
    hide Encode, RawLength, GetChar;
    var tail := Encode(v[n + 1..]);
    RawPrefix(v, n, tail + w);
    Seqs.Assoc(v[..n], ";", tail);
    Seqs.Assoc(v[..n], ";" + tail, w);
    Seqs.Assoc(";", tail, w);
    HexRefSwallowed(v[..n] + (";" + (tail + w)), n);
  }

  lemma {:induction false} RawOpen(v: string, w: string)
    requires HEX_REF <= v && v[RawLength(v)] != ';'
    ensures var g := GetChar(Encode(v) + w); g.Char? ==> g.rest == w || |g.rest| < |w|
  {
    var n := RawLength(v);
    RawStretch(v);
    var e := EncodeChar(v[n]);
    var s := v[..n] + e + w;
    assert Encode(v) + w == s;
    assert v[..3] == HEX_REF;
    assert forall i :: 0 <= i < n ==> s[i] == v[i];
    assert s[..3] == HEX_REF by { assert s[..3] == v[..3]; }
    EncodeCharSemicolon(v[n]);
    var k := n + |e|;
    assert forall i :: n <= i < k ==> s[i] == e[i - n];
    if e[|e| - 1] == ';' {
      HexRefSwallowed(s, k - 1);
      assert s[k..] == w;
    } else {
      HexRefFarAway(s, k);
    }
  }

  /** Attribute values: escaping and reading up to the closing quote is the identity exactly when "&#x" does
      not occur, and then reading ends just past that quote. */
  lemma {:induction false} QuotedRoundTrip(v: string, rest: string, quote: char, condense: bool)
    requires quote == '\"' || quote == '\''
    ensures ReadStop(Encode(v) + [quote] + rest, false, condense, [quote]) == Read(v, At([quote] + rest))
            <==> !HasHexRef(v)
    ensures !HasHexRef(v) ==>
              ReadText(Encode(v) + [quote] + rest, false, condense, [quote]) == Read(v, At(rest))
  {
    var w := [quote] + rest;
    assert Encode(v) + [quote] + rest == Encode(v) + w;
    if HasHexRef(v) {
      NeverLonger(v, w, quote);
    } else {
      KeptReadsBack(v, w, quote);
      assert Drop(w, 1) == rest;
    }
  }

  /** The value "&#x41;" is copied as it stands, and comes back as "A". */
  lemma {:induction false} HexRefComesBackDecoded(rest: string)
    ensures HasHexRef("&#x41;") && Encode("&#x41;") == "&#x41;"
    ensures ReadStop(Encode("&#x41;") + ['\"'] + rest, false, true, ['\"']) == Read("A", At(['\"'] + rest))
  {
    var v, w := "&#x41;", ['\"'] + rest;
    RawStretch(v);
    assert RawLength(v) == 5 by { RawLengthIs(v); }
    assert v[..5] + ";" + Encode(v[6..]) == v;
    Seqs.Assoc(v, ['\"'], rest);
    ControlShape('4', '1', w);
    SemicolonThird('4', '1', w);
    TwoHexDigits(4, 1);
    assert HEX_REF + ['4', '1'] + ";" + w == v + w;
    HexReferenceRead(v + w, 2, 65);
    KeptEnd(w, '\"');
    hide GetChar, Encode;
    KeptStep(v + w, ['\"']);
  }

  lemma RawLengthIs(v: string)
    requires v == "&#x41;"
    ensures RawLength(v) == 5
  {
    assert v[1..] == "#x41;" && v[1..][1..] == "x41;" && v[1..][1..][1..] == "41;" && v[1..][1..][1..][1..] == "1;";
    assert RawLength("1;") == 1;
    assert RawLength("41;") == 2;
    assert RawLength("x41;") == 3;
    assert RawLength("#x41;") == 4;
  }

  // ---------------------------------------------------------------- text between tags

  function StripSpaces(v: string): string {
    if v != "" && v[0] == ' ' then StripSpaces(v[1..]) else v
  }

  function WordLength(v: string): (n: nat)
    ensures n <= |v|
  {
    if v == "" || v[0] == ' ' then 0 else 1 + WordLength(v[1..])
  }

  /** The maximal stretches without a space. */
  function Words(v: string): seq<string>
    decreases |v|
  {
    if v == "" then []
    else if v[0] == ' ' then Words(v[1..])
    else [v[..WordLength(v)]] + Words(v[WordLength(v)..])
  }

  function Join(words: seq<string>): string {
    if words == [] then ""
    else if |words| == 1 then words[0]
    else words[0] + " " + Join(words[1..])
  }

  /** Runs of spaces collapsed to one, none left at either end. */
  function Squeeze(v: string): string { Join(Words(v)) }

  /** What the condensing loop keeps of already decoded characters; `white` says a space is owed. */
  function Condense(v: string, white: bool): string {
    if v == "" then ""
    else if v[0] == ' ' then Condense(v[1..], true)
    else (if white then " " else "") + [v[0]] + Condense(v[1..], false)
  }

  lemma CondenseStep(v: string, white: bool)
    requires v != ""
    ensures v[0] == ' ' ==> Condense(v, white) == Condense(v[1..], true)
    ensures v[0] != ' ' ==> Condense(v, white) == (if white then " " else "") + [v[0]] + Condense(v[1..], false)
  {
  }

  lemma TakeDrop(v: string, n: nat)
    requires 0 < n <= |v|
    ensures v[1..][..n - 1] == v[1..n] && v[1..][n - 1..] == v[n..] && [v[0]] + v[1..n] == v[..n]
  {
  }

  lemma {:induction false} CondenseWord(v: string, n: nat)
    requires n == WordLength(v)
    ensures Condense(v, false) == v[..n] + Condense(v[n..], false)
    decreases n
  {
    hide Condense;
    if n > 0 {
      CondenseWord(v[1..], n - 1);
      CondenseStep(v, false);
      TakeDrop(v, n);
      Seqs.Nothing([v[0]]);
      Seqs.Assoc([v[0]], v[1..n], Condense(v[n..], false));
    } else {
      assert v[..0] == "" && v[0..] == v;
      Seqs.Nothing(Condense(v, false));
    }
  }

  lemma {:induction false} CondenseIsJoin(v: string, white: bool)
    requires white || v == "" || v[0] != ' '
    ensures Condense(v, white) == (if white && Words(v) != [] then " " else "") + Join(Words(v))
    decreases |v|
  {
    if v == "" {
    } else if v[0] == ' ' {
      CondenseIsJoin(v[1..], true);
    } else {
      hide Condense, Words, Join;
      var n := WordLength(v);
      var gap := if white then " " else "";
      CondenseStep(v, white);
      CondenseStep(v, false);
      CondenseWord(v, n);
      JoinWord(v);
      var rest := Condense(v[n..], false);
      var owed := if Words(v[n..]) != [] then " " else "";
      if n < |v| {
        CondenseStep(v[n..], false);
        CondenseStep(v[n..], true);
        CondenseIsJoin(v[n..], true);
      } else {
        NothingLeft(v[n..]);
      }
      Seqs.Nothing([v[0]]);
      Seqs.Assoc(gap, [v[0]], Condense(v[1..], false));
      Seqs.Assoc(v[..n], owed, Join(Words(v[n..])));
    }
  }

  lemma NothingLeft(v: string)
    requires v == ""
    ensures Condense(v, false) == "" && Words(v) == [] && Join(Words(v)) == ""
  {
  }

  lemma {:induction false} JoinWord(v: string)
    requires v != "" && v[0] != ' '
    ensures var n := WordLength(v);
            Words(v) != [] && 0 < n && (n < |v| ==> v[n] == ' ') &&
            Join(Words(v)) == v[..n] + (if Words(v[n..]) != [] then " " else "") + Join(Words(v[n..]))
  {
    WordEnds(v);
    var n := WordLength(v);
    var rest := Words(v[n..]);
    assert Words(v) == [v[..n]] + rest;
    assert ([v[..n]] + rest)[1..] == rest;
    assert v[..n] + "" + "" == v[..n];
  }

  lemma {:induction false} WordEnds(v: string)
    ensures WordLength(v) < |v| ==> v[WordLength(v)] == ' '
  {
    if v != "" && v[0] != ' ' { WordEnds(v[1..]); }
  }

  lemma {:induction false} WordsOfStripped(v: string)
    ensures Words(StripSpaces(v)) == Words(v) && |StripSpaces(v)| <= |v|
    ensures StripSpaces(v) != "" ==> StripSpaces(v)[0] != ' '
    ensures StripSpaces(v) == v || |StripSpaces(v)| < |v|
    ensures HasHexRef(StripSpaces(v)) == HasHexRef(v)
  {
    if v != "" && v[0] == ' ' {
      WordsOfStripped(v[1..]);
      assert HEX_REF[0] == '&';
    }
  }

  /** Skipping white space in front of escaped text drops exactly its leading spaces. */
  lemma {:induction false} SkipLeadingSpaces(v: string, w: string)
    requires Closes(w, '<')
    ensures SkipWs(Encode(v) + w) == Encode(StripSpaces(v)) + w
  {
    var s := Encode(v) + w;
    if v == "" {
      assert s == w;
    } else if v[0] == ' ' {
      assert !(HEX_REF <= v);
      assert s == [' '] + (Encode(v[1..]) + w);
      assert s[1..] == Encode(v[1..]) + w;
      SkipLeadingSpaces(v[1..], w);
    } else {
      EncodedStart(v);
      assert s[0] == Encode(v)[0];
    }
  }

  lemma {:induction false} EncodedStart(v: string)
    requires v != ""
    ensures var e := Encode(v);
            e != "" && e[0] != '\0' && e[0] != '<' && (IsWhiteSpace(e[0]) ==> v[0] == ' ')
  {
    if HEX_REF <= v {
      assert v[..3] == HEX_REF;
      RawStretch(v);
      assert Encode(v)[0] == v[0] == '&';
    } else {
      EncodeCharStart(v[0]);
      assert Encode(v)[0] == EncodeChar(v[0])[0];
    }
  }

  lemma CondensedSteps(s: string, white: bool)
    requires s != "" && !Ended(s) && !StringEqual(s, "<")
    ensures IsWhiteSpace(s[0]) ==> ReadCondensed(s, "<", white) == ReadCondensed(s[1..], "<", true)
    ensures !IsWhiteSpace(s[0]) && GetChar(s).Char? ==>
              ReadCondensed(s, "<", white)
              == Prepend((if white then " " else "") + GetChar(s).chars, ReadCondensed(GetChar(s).rest, "<", false))
  {
    hide GetChar;
  }

  lemma CondensedEnd(w: string, white: bool)
    requires Closes(w, '<')
    ensures ReadCondensed(w, "<", white) == Read("", At(w))
  {
  }

  /** The escaped form starts with white space just for a space, which is copied. */
  lemma EscapedSpace(c: char, t: string)
    ensures var s := EncodeChar(c) + t; s != "" && (IsWhiteSpace(s[0]) <==> c == ' ') && (c == ' ' ==> s[1..] == t)
  {
    EncodeCharStart(c);
    if c == ' ' { Seqs.Split([c], t); }
  }

  lemma {:induction false} CondensedReadsBack(v: string, w: string, white: bool)
    requires !HasHexRef(v) && Closes(w, '<')
    ensures ReadCondensed(Encode(v) + w, "<", white) == Read(Condense(v, white), At(w))
    decreases |v|
  {
    hide ReadCondensed, GetChar, EncodeChar, HasHexRef, StringEqual, IsWhiteSpace;
    if v == "" {
      Seqs.Nothing(w);
      CondensedEnd(w, white);
    } else {
      EncodeStart(v);
      NoHexRefAfter(v);
      CondenseStep(v, white);
      var e, rest := EncodeChar(v[0]), Encode(v[1..]);
      hide Encode, Condense;
      Seqs.Assoc(e, rest, w);
      EncodeCharReadsBack(v[0], rest + w);
      EscapedStart(v[0], rest + w, '<');
      EscapedSpace(v[0], rest + w);
      CondensedSteps(e + (rest + w), white);
      CondensedReadsBack(v[1..], w, v[0] == ' ');
    }
  }

  lemma {:induction false} NeverLongerCondensed(v: string, w: string, white: bool)
    requires Closes(w, '<')
    ensures var r := ReadCondensed(Encode(v) + w, "<", white);
            var n := |v| + if white then 1 else 0;
            r.stop.At? && |r.stop.rest| >= |w| ==> |r.text| <= n && (HasHexRef(v) ==> |r.text| < n)
    decreases |v|
  {
    var s := Encode(v) + w;
    if v == "" {
      assert s == w;
    } else if HEX_REF <= v {
      NeverLongerCondensedRaw(v, w, white);
    } else {
      var e, t := EncodeChar(v[0]), Encode(v[1..]) + w;
      assert s == e + t;
      EncodeCharStart(v[0]);
      NeverLongerCondensed(v[1..], w, v[0] == ' ');
      if v[0] == ' ' {
        assert s[1..] == t;
      } else {
        EncodeCharReadsBack(v[0], t);
      }
    }
  }

  lemma {:induction false} CondensedStep(s: string, white: bool)
    requires s != "" && s[0] == '&'
    ensures var r, g := ReadCondensed(s, "<", white), GetChar(s);
            if g.NoChar? then r.stop.Null?
            else var t := ReadCondensed(g.rest, "<", false);
                 r.stop == t.stop && |r.text| <= (if white then 1 else 0) + 1 + |t.text|
  {
  }

  lemma {:induction false} NeverLongerCondensedRaw(v: string, w: string, white: bool)
    requires Closes(w, '<') && HEX_REF <= v
    ensures var r := ReadCondensed(Encode(v) + w, "<", white);
            r.stop.At? && |r.stop.rest| >= |w| ==> |r.text| < |v| + if white then 1 else 0
    decreases |v|, 0
  {
    hide GetChar, Encode;
    var n := RawLength(v);
    RawStretch(v);
    EncodedStart(v);
    var s := Encode(v) + w;
    assert s[0] == '&' by { assert v[..3] == HEX_REF; assert s[0] == v[0]; }
    CondensedStep(s, white);
    if v[n] == ';' {
      RawClosed(v, w);
      NeverLongerCondensed(v[n + 1..], w, false);
    } else {
      RawOpen(v, w);
    }
  }

  lemma {:induction false} CondensedRead(v: string, w: string)
    requires Closes(w, '<')
    ensures ReadStop(Encode(v) + w, true, true, "<") == ReadCondensed(Encode(StripSpaces(v)) + w, "<", false)
  {
    SkipLeadingSpaces(v, w);
    var s := Encode(v) + w;
    if v == "" { assert s == w; } else { EncodedStart(v); assert s[0] == Encode(v)[0]; }
  }

  /** Text up to the next tag, white space condensed: without "&#x" the escaped text comes back with its runs of
      spaces collapsed and its end spaces removed. */
  lemma {:induction false} CondensedRoundTrip(v: string, rest: string)
    requires !HasHexRef(v)
    ensures ReadStop(Encode(v) + "<" + rest, true, true, "<") == Read(Squeeze(v), At("<" + rest))
  {
    var w := "<" + rest;
    assert Encode(v) + "<" + rest == Encode(v) + w;
    CondensedRead(v, w);
    WordsOfStripped(v);
    CondensedReadsBack(StripSpaces(v), w, false);
    CondenseIsJoin(StripSpaces(v), false);
  }

  /** It comes back unchanged exactly when it is already squeezed and "&#x" does not occur. */
  lemma {:induction false} CondensedRoundTripIff(v: string, rest: string)
    ensures ReadStop(Encode(v) + "<" + rest, true, true, "<") == Read(v, At("<" + rest))
            <==> !HasHexRef(v) && Squeeze(v) == v
  {
    if HasHexRef(v) {
      var w := "<" + rest;
      assert Encode(v) + "<" + rest == Encode(v) + w;
      CondensedRead(v, w);
      WordsOfStripped(v);
      NeverLongerCondensed(StripSpaces(v), w, false);
    } else {
      CondensedRoundTrip(v, rest);
    }
  }
}
