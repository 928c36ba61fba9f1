/**
  The response to a get or gets request: the header lines, the length-framed values, and the loop that files
  them into the requests.
  */
module MemResponse {
  import opened MemSocket
  import opened Options

  const TWO32: nat := 0x1_0000_0000
  const TWO64: nat := 0x1_0000_0000_0000_0000

  // ---------------------------------------------------------------- decimal numbers

  predicate IsDigit(c: char) { '0' <= c <= '9' }

  function DigitOf(d: nat): char
    requires d < 10
  {
    ('0' as int + d) as char
  }

  function Dec(n: nat): (s: string)
    ensures s != ""
  {
    if n < 10 then [DigitOf(n)] else Dec(n / 10) + [DigitOf(n % 10)]
  }

  function DigitRun(s: string): (n: nat)
    ensures n <= |s| && forall i :: 0 <= i < n ==> IsDigit(s[i])
  {
    if s != "" && IsDigit(s[0]) then 1 + DigitRun(s[1..]) else 0
  }

  function DigitValue(c: char): nat
    requires IsDigit(c)
  {
    c as int - '0' as int
  }

  function DecValue(digits: string): nat
    requires forall i :: 0 <= i < |digits| ==> IsDigit(digits[i])
  {
    if digits == "" then 0
    else DecValue(digits[..|digits| - 1]) * 10 + DigitValue(digits[|digits| - 1])
  }

  function SkipSpaces(s: string): string {
    if s != "" && IsSpace(s[0]) then SkipSpaces(s[1..]) else s
  }

  datatype Number = Number(value: nat, rest: string)

  /** `strtoul` and `strtoull` in base ten with a 64-bit result: optional white space and sign, saturation on
      overflow, and the start of the text back when there is no digit. */
  function StrToUl(s: string): Number {
    var t := SkipSpaces(s);
    var signed := t != "" && (t[0] == '+' || t[0] == '-');
    var u := if signed then t[1..] else t;
    var n := DigitRun(u);
    if n == 0 then Number(0, s)
    else
      var v := DecValue(u[..n]);
      Number(if v >= TWO64 then TWO64 - 1 else if signed && t[0] == '-' && v > 0 then TWO64 - v else v, u[n..])
  }

  lemma {:induction false} DecIsDigits(n: nat)
    ensures forall i :: 0 <= i < |Dec(n)| ==> IsDigit(Dec(n)[i])
    ensures DecValue(Dec(n)) == n
  {
    if n >= 10 {
      DecIsDigits(n / 10);
      var d := Dec(n);
      assert d[..|d| - 1] == Dec(n / 10) && d[|d| - 1] == DigitOf(n % 10);
    }
  }

  lemma {:induction false} DigitRunOf(digits: string, tail: string)
    requires forall i :: 0 <= i < |digits| ==> IsDigit(digits[i])
    requires tail != "" && !IsDigit(tail[0])
    ensures DigitRun(digits + tail) == |digits|
  {
    if digits == "" {
      assert digits + tail == tail;
    } else {
      assert (digits + tail)[1..] == digits[1..] + tail;
      DigitRunOf(digits[1..], tail);
    }
  }

  /** A printed number is read back, up to the first character that is no digit. */
  lemma {:induction false} NumberReadsBack(n: nat, tail: string)
    requires n < TWO64 && tail != "" && !IsDigit(tail[0])
    ensures StrToUl(Dec(n) + tail) == Number(n, tail)
  {
    DecIsDigits(n);
    DigitRunOf(Dec(n), tail);
    var s := Dec(n) + tail;
    assert s[0] == Dec(n)[0] && IsDigit(s[0]);
    assert s[..|Dec(n)|] == Dec(n) && s[|Dec(n)|..] == tail;
  }

  // ---------------------------------------------------------------- header lines

  datatype Header = End | Bad | Value(key: string, flags: nat, bytes: nat, tail: string)

  function FindChar(s: string, c: char): (n: int)
    ensures -1 <= n < |s|
  {
    if s == "" then -1
    else if s[0] == c then 0
    else var n := FindChar(s[1..], c); if n < 0 then -1 else n + 1
  }

  /** What comparing with `data()` sees of a string. */
  function CStr(s: string): string {
    if s == "" || s[0] == '\0' then "" else [s[0]] + CStr(s[1..])
  }

  predicate Starts(s: string, c: char) { s != "" && s[0] == c }

  const VALUE := "VALUE "
  const END := "END\r\n"

  /** One line of the response, with flags and size cut to 32 bits; the tail starts after the size. */
  function ParseHeader(line: string): Header {
    if line == END then End
    else if !(VALUE <= line) then Bad
    else
      var body := line[|VALUE|..];
      var n := FindChar(body, ' ');
      if n < 0 then Bad
      else
        var flags := StrToUl(body[n + 1..]);
        if !Starts(flags.rest, ' ') then Bad
        else
          var size := StrToUl(flags.rest[1..]);
          if !Starts(size.rest, ' ') && !Starts(size.rest, '\r') then Bad
          else Value(CStr(body[..n]), flags.value % TWO32, size.value % TWO32, size.rest)
  }

  datatype Cas = NoCas | GotCas(cas: nat, ended: bool)

  function ParseCas(tail: string): Cas {
    if !Starts(tail, ' ') then NoCas
    else var n := StrToUl(tail[1..]); GotCas(n.value, Starts(n.rest, '\r'))
  }

  // ---------------------------------------------------------------- requests

  datatype Result = OK | NOREPLY | NOTSTORED | NOTFOUND | NOSERVER

  datatype Req = Req(key: string, flags: nat, cas: nat, result: Result, data: string)

  function FindKey(reqs: seq<Req>, key: string): (i: int)
    ensures -1 <= i < |reqs| && (i >= 0 ==> reqs[i].key == key)
    ensures forall k :: 0 <= k < (if i < 0 then |reqs| else i) ==> reqs[k].key != key
  {
    if reqs == [] then -1
    else if reqs[0].key == key then 0
    else var i := FindKey(reqs[1..], key); if i < 0 then -1 else i + 1
  }

  /**
    How the response loop ends: at the end line, with the keys of the values it filed, which it counts; in an
    exception; or at a header that announces more bytes than a C `int` can hold for a requested key. There the
    source hands `GetBytes` a negative size, and the model says nothing about what follows.
    */
  datatype Outcome =
    | Done(filed: seq<string>, reqs: seq<Req>, rest: string)
    | Thrown(reqs: seq<Req>)
    | Overrun(reqs: seq<Req>)

  /** The rest of the loop decides, after values with these keys have been filed. */
  function Then(filed: seq<string>, o: Outcome): Outcome {
    if o.Done? then o.(filed := filed + o.filed) else o
  }

  const INT_LIMIT: nat := 0x8000_0000

  /** `(int)` of a 32-bit number. */
  function AsInt(n: nat): int {
    if n % TWO32 < INT_LIMIT then n % TWO32 else n % TWO32 - TWO32
  }

  /** What the response loop does on the bytes that can still be received. */
  function Process(stream: string, reqs: seq<Req>): Outcome
    decreases |stream|, 0
  {
    var n := LineLength(stream);
    if n < 0 then Thrown(reqs)
    else
      var rest := stream[n..];
      match ParseHeader(stream[..n])
      case End => Done([], reqs, rest)
      case Bad => Thrown(reqs)
      case Value(_, _, _, _) => ProcessBody(ParseHeader(stream[..n]), rest, reqs)
  }

  /** The rest of the round, once a header line has been read. */
  function ProcessBody(h: Header, rest: string, reqs: seq<Req>): Outcome
    requires h.Value?
    decreases |rest|, 1
  {
    var i := FindKey(reqs, h.key);
    if i < 0 then
      var skip := AsInt(h.bytes + 2);
      if skip > |rest| then Thrown(reqs) else Process(if skip >= 0 then rest[skip..] else rest, reqs)
    else
      var cas := ParseCas(h.tail);
      var header := FiledHeader(reqs, i, h.flags, cas);
      if cas.GotCas? && !cas.ended then Thrown(header)
      else if h.bytes >= INT_LIMIT then Overrun(header)
      else if |rest| < h.bytes then Thrown(header[i := header[i].(data := header[i].data + rest)])
      else
        var filed := header[i := header[i].(data := header[i].data + rest[..h.bytes], result := OK)];
        if CrLf <= rest[h.bytes..] then Then([h.key], Process(rest[h.bytes + 2..], filed)) else Thrown(filed)
  }

  const CrLf := "\r\n"

  function FiledHeader(reqs: seq<Req>, i: nat, flags: nat, cas: Cas): (r: seq<Req>)
    requires i < |reqs|
    ensures |r| == |reqs|
  {
    reqs[i := if cas.GotCas? then reqs[i].(flags := flags, cas := cas.cas) else reqs[i].(flags := flags)]
  }

  // ---------------------------------------------------------------- conforming responses

  /** One value of a response; `cas` is present in the answer to gets. */
  datatype Item = Item(key: string, flags: nat, data: string, cas: Option<nat>)

  predicate KeyOk(key: string) {
    forall i :: 0 <= i < |key| ==> key[i] != ' ' && key[i] != '\n' && key[i] != '\0'
  }

  predicate ItemOk(v: Item) {
    KeyOk(v.key) && v.flags < TWO32 && |v.data| + 2 < INT_LIMIT && (v.cas.Some? ==> v.cas.value < TWO64)
  }

  function SizeText(v: Item): string {
    Dec(|v.data|) + CasText(v)
  }

  function CasText(v: Item): string {
    (if v.cas.Some? then " " + Dec(v.cas.value) else "") + CrLf
  }

  function HeaderLine(v: Item): string {
    VALUE + (v.key + (" " + (Dec(v.flags) + (" " + SizeText(v)))))
  }

  function Response(vs: seq<Item>): string {
    if vs == [] then END else HeaderLine(vs[0]) + (vs[0].data + (CrLf + Response(vs[1..])))
  }

  /** What one value does to the requests. */
  function File(v: Item, reqs: seq<Req>): (r: seq<Req>)
    ensures |r| == |reqs|
  {
    var i := FindKey(reqs, v.key);
    if i < 0 then reqs
    else
      var q := reqs[i];
      reqs[i := q.(flags := v.flags, cas := if v.cas.Some? then v.cas.value else q.cas,
                   result := OK, data := q.data + v.data)]
  }

  function FileAll(vs: seq<Item>, reqs: seq<Req>): (r: seq<Req>)
    ensures |r| == |reqs|
    decreases |vs|
  {
    if vs == [] then reqs else FileAll(vs[1..], File(vs[0], reqs))
  }

  /** The keys of the values that are requested, in order. */
  function Matched(vs: seq<Item>, reqs: seq<Req>): seq<string> {
    if vs == [] then [] else (if FindKey(reqs, vs[0].key) < 0 then [] else [vs[0].key]) + Matched(vs[1..], reqs)
  }

  lemma {:induction false} FindCharOf(s: string, c: char, tail: string)
    requires forall i :: 0 <= i < |s| ==> s[i] != c
    ensures FindChar(s + [c] + tail, c) == |s|
  {
    if s == "" {
      assert s + [c] + tail == [c] + tail;
    } else {
      assert (s + [c] + tail)[1..] == s[1..] + [c] + tail;
      FindCharOf(s[1..], c, tail);
    }
  }

  lemma {:induction false} CStrWhole(s: string)
    requires forall i :: 0 <= i < |s| ==> s[i] != '\0'
    ensures CStr(s) == s
  {
    if s != "" {
      CStrWhole(s[1..]);
      assert [s[0]] + s[1..] == s;
    }
  }

  lemma {:induction false} LineEnds(line: string, rest: string)
    requires line != "" && line[|line| - 1] == '\n' && forall i :: 0 <= i < |line| - 1 ==> line[i] != '\n'
    ensures LineLength(line + rest) == |line|
  {
    var s := line + rest;
    assert s[0] == line[0];
    if |line| > 1 {
      assert s[1..] == line[1..] + rest;
      LineEnds(line[1..], rest);
    }
  }

  predicate Tail(s: string) { s != "" && !IsDigit(s[0]) }

  lemma {:induction false} CasReadsBack(v: Item)
    requires ItemOk(v)
    ensures Tail(CasText(v)) && (Starts(CasText(v), ' ') || Starts(CasText(v), '\r'))
    ensures ParseCas(CasText(v)) == if v.cas.Some? then GotCas(v.cas.value, true) else NoCas
  {
    if v.cas.Some? {
      var t := Dec(v.cas.value) + CrLf;
      assert CasText(v) == " " + t && CasText(v)[1..] == t;
      NumberReadsBack(v.cas.value, CrLf);
    }
  }

  lemma {:induction false} HeaderReadsBack(v: Item)
    requires ItemOk(v)
    ensures ParseHeader(HeaderLine(v)) == Value(v.key, v.flags, |v.data|, CasText(v))
  {
    hide StrToUl, FindChar, CStr, Dec, CasText, IsDigit;
    var sizeText := SizeText(v);
    var numbers := Dec(v.flags) + (" " + sizeText);
    var body := v.key + (" " + numbers);
    var line := HeaderLine(v);
    assert line == VALUE + body && line[|VALUE|..] == body && VALUE <= line;
    assert line[0] != END[0];
    assert body == v.key + [' '] + numbers;
    FindCharOf(v.key, ' ', numbers);
    CStrWhole(v.key);
    assert body[..|v.key|] == v.key && body[|v.key| + 1..] == numbers;
    NumbersReadBack(v);
  }

  lemma {:induction false} NumbersReadBack(v: Item)
    requires ItemOk(v)
    ensures StrToUl(Dec(v.flags) + (" " + SizeText(v))) == Number(v.flags, " " + SizeText(v))
    ensures StrToUl(SizeText(v)) == Number(|v.data|, CasText(v))
    ensures (" " + SizeText(v))[1..] == SizeText(v)
    ensures Starts(CasText(v), ' ') || Starts(CasText(v), '\r')
  {
    hide StrToUl, Dec, CasText;
    CasReadsBack(v);
    NumberReadsBack(v.flags, " " + SizeText(v));
    NumberReadsBack(|v.data|, CasText(v));
  }

  lemma {:induction false} NoNewline(n: nat)
    ensures forall i :: 0 <= i < |Dec(n)| ==> Dec(n)[i] != '\n'
  {
    DecIsDigits(n);
  }

  lemma {:induction false} HeaderIsALine(v: Item, rest: string)
    requires ItemOk(v)
    ensures LineLength(HeaderLine(v) + rest) == |HeaderLine(v)|
  {
    hide Dec;
    NoNewline(v.flags);
    NoNewline(|v.data|);
    if v.cas.Some? { NoNewline(v.cas.value); }
    LineEnds(HeaderLine(v), rest);
  }

  // ---------------------------------------------------------------- a conforming response is filed exactly

  function AfterValue(v: Item, reqs: seq<Req>, rest: string): Outcome {
    var o := Process(rest, File(v, reqs));
    if FindKey(reqs, v.key) < 0 then o else Then([v.key], o)
  }

  lemma ProcessHeader(line: string, rest: string, reqs: seq<Req>)
    requires line != "" && LineLength(line + rest) == |line| && ParseHeader(line).Value?
    ensures Process(line + rest, reqs) == ProcessBody(ParseHeader(line), rest, reqs)
  {
    assert (line + rest)[..|line|] == line && (line + rest)[|line|..] == rest;
  }

  lemma {:induction false} BodyReadsBack(v: Item, rest: string, reqs: seq<Req>)
    requires ItemOk(v)
    ensures ProcessBody(Value(v.key, v.flags, |v.data|, CasText(v)), v.data + (CrLf + rest), reqs) == AfterValue(v, reqs, rest)
  {
    hide Process, CasText;
    CasReadsBack(v);
    var body := v.data + (CrLf + rest);
    assert body[..|v.data|] == v.data && body[|v.data|..] == CrLf + rest && body[|v.data| + 2..] == rest;
    var i := FindKey(reqs, v.key);
    if i >= 0 {
      var header := FiledHeader(reqs, i, v.flags, ParseCas(CasText(v)));
      assert header[i := header[i].(data := header[i].data + v.data, result := OK)] == File(v, reqs);
    }
  }

  lemma {:induction false} ValueFiled(v: Item, rest: string, reqs: seq<Req>)
    requires ItemOk(v)
    ensures Process(HeaderLine(v) + (v.data + (CrLf + rest)), reqs) == AfterValue(v, reqs, rest)
  {
    hide Process, ProcessBody, HeaderLine;
    var body := v.data + (CrLf + rest);
    HeaderIsALine(v, body);
    HeaderReadsBack(v);
    ProcessHeader(HeaderLine(v), body, reqs);
    BodyReadsBack(v, rest, reqs);
  }

  lemma {:induction false} FindKeySame(before: seq<Req>, after: seq<Req>, key: string)
    requires |before| == |after| && forall i :: 0 <= i < |before| ==> before[i].key == after[i].key
    ensures FindKey(before, key) == FindKey(after, key)
  {
    if before != [] { FindKeySame(before[1..], after[1..], key); }
  }

  lemma {:induction false} MatchedSame(vs: seq<Item>, before: seq<Req>, after: seq<Req>)
    requires |before| == |after| && forall i :: 0 <= i < |before| ==> before[i].key == after[i].key
    ensures Matched(vs, before) == Matched(vs, after)
  {
    if vs != [] {
      FindKeySame(before, after, vs[0].key);
      MatchedSame(vs[1..], before, after);
    }
  }

  /** A conforming response is consumed exactly through its end line, its values filed and its matches counted. */
  lemma {:induction false} ConformingResponse(vs: seq<Item>, rest: string, reqs: seq<Req>)
    requires forall i :: 0 <= i < |vs| ==> ItemOk(vs[i])
    ensures Process(Response(vs) + rest, reqs) == Done(Matched(vs, reqs), FileAll(vs, reqs), rest)
    decreases |vs|
  {
    if vs == [] {
      LineEnds(END, rest);
      assert (END + rest)[..5] == END && (END + rest)[5..] == rest;
    } else {
      hide Process;
      var v, more := vs[0], Response(vs[1..]) + rest;
      ResponseShape(vs, rest);
      ValueFiled(v, more, reqs);
      ConformingResponse(vs[1..], rest, File(v, reqs));
      MatchedSame(vs[1..], reqs, File(v, reqs));
    }
  }

  lemma ResponseShape(vs: seq<Item>, rest: string)
    requires vs != []
    ensures Response(vs) + rest == HeaderLine(vs[0]) + (vs[0].data + (CrLf + (Response(vs[1..]) + rest)))
  {
    hide HeaderLine;
    var a, b, c := HeaderLine(vs[0]), vs[0].data, Response(vs[1..]);
    assert a + (b + (CrLf + c)) + rest == a + (b + (CrLf + (c + rest)));
  }

  predicate DistinctKeys(reqs: seq<Req>) {
    forall i, j :: 0 <= i < j < |reqs| ==> reqs[i].key != reqs[j].key
  }

  predicate DistinctItems(vs: seq<Item>) {
    forall i, j :: 0 <= i < j < |vs| ==> vs[i].key != vs[j].key
  }

  /** Request i after a value for its key. */
  function Filed(q: Req, v: Item): Req {
    q.(flags := v.flags, cas := if v.cas.Some? then v.cas.value else q.cas, result := OK, data := q.data + v.data)
  }

  lemma FileOne(v: Item, reqs: seq<Req>, i: nat)
    requires DistinctKeys(reqs) && i < |reqs|
    ensures File(v, reqs)[i] == if v.key == reqs[i].key then Filed(reqs[i], v) else reqs[i]
    ensures DistinctKeys(File(v, reqs))
  {
  }

  /** With distinct keys on both sides, a request whose key is answered gets exactly that value's flags, CAS and
      bytes, and every other request stays as it was. */
  lemma {:induction false} FiledExactly(vs: seq<Item>, reqs: seq<Req>, i: nat)
    requires DistinctKeys(reqs) && DistinctItems(vs) && i < |reqs|
    ensures forall k :: 0 <= k < |vs| && vs[k].key == reqs[i].key ==> FileAll(vs, reqs)[i] == Filed(reqs[i], vs[k])
    ensures (forall k :: 0 <= k < |vs| ==> vs[k].key != reqs[i].key) ==> FileAll(vs, reqs)[i] == reqs[i]
    decreases |vs|
  {
    if vs != [] {
      FileOne(vs[0], reqs, i);
      FiledExactly(vs[1..], File(vs[0], reqs), i);
      forall k | 0 <= k < |vs| && vs[k].key == reqs[i].key ensures FileAll(vs, reqs)[i] == Filed(reqs[i], vs[k]) {
        if k > 0 { assert vs[k] == vs[1..][k - 1]; }
      }
    }
  }

  function CountOk(reqs: seq<Req>): nat {
    if reqs == [] then 0 else (if reqs[0].result == OK then 1 else 0) + CountOk(reqs[1..])
  }
}
