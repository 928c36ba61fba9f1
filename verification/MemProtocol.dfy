/**
  The protocol texts of the get response and request, written out, and the number reader beyond what a conforming server
  sends.
  */
module MemProtocol {
  import opened MemSocket
  import opened MemResponse
  import opened MemBatch
  import opened Options
  import Seqs

  // ---- Responses ----

  /** The answer to a request none of whose keys is there. */
  lemma NothingFound(rest: string, reqs: seq<Req>)
    ensures Process("END\r\n" + rest, reqs) == Done([], reqs, rest)
  {
    ConformingResponse([], rest, reqs);
  }

  /** One value, of any bytes. */
  lemma OneValue(key: string, flags: nat, data: string, rest: string, reqs: seq<Req>)
    requires (forall i :: 0 <= i < |key| ==> key[i] != ' ' && key[i] != '\n' && key[i] != '\0')
    requires flags < 0x1_0000_0000 && |data| + 2 < 0x8000_0000
    ensures var i := FindKey(reqs, key);
      Process("VALUE " + key + " " + Dec(flags) + " " + Dec(|data|) + "\r\n" + data + "\r\n" + "END\r\n" + rest, reqs)
      == if i < 0 then Done([], reqs, rest)
         else Done([key], reqs[i := reqs[i].(flags := flags, data := reqs[i].data + data, result := OK)], rest)
  {
    var v := Item(key, flags, data, None);
    Written(v, rest);
    OneFiled(v, rest, reqs);
  }

  /** One value with the CAS number that gets asks for. */
  lemma OneValueWithCas(key: string, flags: nat, data: string, cas: nat, rest: string, reqs: seq<Req>)
    requires (forall i :: 0 <= i < |key| ==> key[i] != ' ' && key[i] != '\n' && key[i] != '\0')
    requires flags < 0x1_0000_0000 && |data| + 2 < 0x8000_0000 && cas < 0x1_0000_0000_0000_0000
    ensures var i := FindKey(reqs, key);
      Process("VALUE " + key + " " + Dec(flags) + " " + Dec(|data|) + " " + Dec(cas) + "\r\n" + data + "\r\n" + "END\r\n" + rest, reqs)
      == if i < 0 then Done([], reqs, rest)
         else Done([key], reqs[i := reqs[i].(flags := flags, cas := cas, data := reqs[i].data + data, result := OK)], rest)
  {
    var v := Item(key, flags, data, Some(cas));
    WrittenWithCas(v, rest);
    OneFiled(v, rest, reqs);
  }

  lemma OneFiled(v: Item, rest: string, reqs: seq<Req>)
    requires ItemOk(v)
    ensures var i := FindKey(reqs, v.key);
      Process(Response([v]) + rest, reqs) == Done(if i < 0 then [] else [v.key], File(v, reqs), rest)
  {
    ConformingResponse([v], rest, reqs);
    hide Process, Response, File, FindKey;
    assert [v][1..] == [];
    assert FileAll([v], reqs) == FileAll([], File(v, reqs)) == File(v, reqs);
    var first := if FindKey(reqs, v.key) < 0 then [] else [v.key];
    assert Matched([v], reqs) == first + Matched([], reqs) && Matched([], reqs) == [];
    Seqs.Nothing(first);
  }

  lemma Written(v: Item, rest: string)
    requires v.cas.None?
    ensures "VALUE " + v.key + " " + Dec(v.flags) + " " + Dec(|v.data|) + "\r\n" + v.data + "\r\n" + "END\r\n" + rest
            == Response([v]) + rest
  {
    OneResponse(v);
    HeaderWritten(v, "\r\n");
    hide *;
    Framed("VALUE " + v.key + " " + Dec(v.flags) + " " + Dec(|v.data|) + "\r\n", v.data, rest);
  }

  lemma WrittenWithCas(v: Item, rest: string)
    requires v.cas.Some?
    ensures "VALUE " + v.key + " " + Dec(v.flags) + " " + Dec(|v.data|) + " " + Dec(v.cas.value) + "\r\n" + v.data + "\r\n" + "END\r\n" + rest
            == Response([v]) + rest
  {
    OneResponse(v);
    HeaderWritten(v, " " + Dec(v.cas.value) + "\r\n");
    hide *;
    var line := "VALUE " + v.key + " " + Dec(v.flags) + " " + Dec(|v.data|);
    Seqs.Assoc(line, " " + Dec(v.cas.value), "\r\n");
    Seqs.Assoc(line, " ", Dec(v.cas.value));
    Framed(line + " " + Dec(v.cas.value) + "\r\n", v.data, rest);
  }

  lemma OneResponse(v: Item)
    ensures Response([v]) == HeaderLine(v) + (v.data + ("\r\n" + "END\r\n"))
  {
    hide HeaderLine;
    assert [v][1..] == [];
  }

  lemma Framed(line: string, data: string, rest: string)
    ensures line + data + "\r\n" + "END\r\n" + rest == line + (data + ("\r\n" + "END\r\n")) + rest
  {
  }

  lemma HeaderWritten(v: Item, end: string)
    requires end == if v.cas.Some? then " " + Dec(v.cas.value) + "\r\n" else "\r\n"
    ensures HeaderLine(v) == "VALUE " + v.key + " " + Dec(v.flags) + " " + Dec(|v.data|) + end
  {
    var flags, size := Dec(v.flags), Dec(|v.data|);
    CasWritten(v, end);
    hide Dec, CasText;
    assert HeaderLine(v) == "VALUE " + (v.key + (" " + (flags + (" " + (size + end)))));
    hide *;
    Regrouped(v.key, flags, size + end);
    Seqs.Assoc("VALUE " + v.key + " " + flags + " ", size, end);
  }

  lemma CasWritten(v: Item, end: string)
    requires end == if v.cas.Some? then " " + Dec(v.cas.value) + "\r\n" else "\r\n"
    ensures CasText(v) == end
  {
    hide Dec;
    Seqs.Nothing("\r\n");
  }

  lemma Regrouped(key: string, flags: string, t: string)
    ensures "VALUE " + (key + (" " + (flags + (" " + t)))) == "VALUE " + key + " " + flags + " " + t
  {
  }

  /** Any other line is refused. */
  lemma OtherLines(line: string)
    requires line != "END\r\n" && !("VALUE " <= line)
    ensures ParseHeader(line) == Bad
  {
  }

  /** They end the reading. */
  lemma OtherLinesThrow(line: string, rest: string, reqs: seq<Req>)
    requires '\n' !in line && line + "\n" != "END\r\n" && !("VALUE " <= line)
    ensures Process(line + "\n" + rest, reqs) == Thrown(reqs)
  {
    var l := line + "\n";
    LineEnds(l, rest);
    assert l[|l| - 1] == '\n' && (l + rest)[..|l|] == l;
    OtherLines(l);
    hide ParseHeader;
  }

  /** A value that is not followed by a line end is filed, and ends the reading. */
  lemma ValueNotEnded(v: Item, rest: string, reqs: seq<Req>)
    requires ItemOk(v) && FindKey(reqs, v.key) >= 0 && !("\r\n" <= rest)
    ensures Process(HeaderLine(v) + (v.data + rest), reqs).Thrown?
  {
    var body := v.data + rest;
    HeaderIsALine(v, body);
    HeaderReadsBack(v);
    hide HeaderLine, Process;
    ProcessHeader(HeaderLine(v), body, reqs);
    CasReadsBack(v);
    assert body[|v.data|..] == rest;
    hide CasText, FiledHeader;
    assert ProcessBody(Value(v.key, v.flags, |v.data|, CasText(v)), body, reqs).Thrown?;
  }

  /** The number after the size is the CAS number, and must end the line. */
  lemma CasIs(n: nat, tail: string)
    requires n < 0x1_0000_0000_0000_0000 && tail != "" && !('0' <= tail[0] <= '9')
    ensures ParseCas(" " + (Dec(n) + tail)) == GotCas(n, tail[0] == '\r')
    ensures tail[0] != ' ' ==> ParseCas(tail) == NoCas
  {
    NumberReadsBack(n, tail);
    hide StrToUl, Dec;
    assert (" " + (Dec(n) + tail))[1..] == Dec(n) + tail;
  }

  /** The pieces that are received, in order, up to a failure or an empty piece. */
  lemma AvailableIs(a: string, b: string, more: seq<Event>)
    requires a != "" && b != ""
    ensures Available([Data(a), Data(b), Failure] + more) == a + b
    ensures Available([Data(a), Data(b), Data("")] + more) == a + b
  {
    forall e | e == Failure || e == Data("") ensures Available([Data(a), Data(b), e] + more) == a + b {
      var all := [Data(a), Data(b), e] + more;
      assert all[0] == Data(a) && all[1] == Data(b) && all[2] == e;
      assert all[1..][0] == Data(b) && all[1..][1..] == all[2..];
      assert Available(all[2..]) == "";
      assert Available(all[1..]) == b + "";
    }
  }

  /** When sending fails, or reading ends early, every request of the server is without one. */
  lemma NoAnswer(stream: string, reqs: seq<Req>, i: nat)
    requires i < |reqs|
    ensures After(false, stream, reqs)[i] == reqs[i].(result := NOSERVER)
    ensures After(true, "", reqs)[i] == reqs[i].(result := NOSERVER)
    ensures var o := Process(stream, reqs);
      o.Thrown? && i < |o.reqs| ==> After(true, stream, reqs)[i] == o.reqs[i].(result := NOSERVER)
    ensures Responses(false, stream, reqs) == 0 && Responses(true, "", reqs) == 0
  {
    assert Process("", reqs) == Thrown(reqs);
    hide Process;
  }

  lemma {:induction false} NoSpace(s: string)
    requires ' ' !in s
    ensures FindChar(s, ' ') == -1
  {
    if s != "" { NoSpace(s[1..]); }
  }

  /** A header without a space after the key. */
  lemma OnlyKey(key: string)
    requires ' ' !in key
    ensures ParseHeader("VALUE " + key) == Bad
  {
    var line := "VALUE " + key;
    assert line[0] != END[0];
    assert line[|VALUE|..] == key;
    NoSpace(key);
  }

  lemma AfterKey(key: string, t: string)
    requires ' ' !in key
    ensures var line := "VALUE " + (key + [' '] + t);
      && line[|VALUE|..] == key + [' '] + t && line != END && VALUE <= line && FindChar(line[|VALUE|..], ' ') == |key|
      && line[|VALUE|..][..|key|] == key && line[|VALUE|..][|key| + 1..] == t
  {
    var line := "VALUE " + (key + [' '] + t);
    assert line[0] != END[0];
    FindCharOf(key, ' ', t);
  }

  /** Flags that are not followed by a space. */
  lemma OnlyFlags(key: string, flags: nat, tail: string)
    requires ' ' !in key && flags < 0x1_0000_0000 && tail != "" && !('0' <= tail[0] <= '9') && tail[0] != ' '
    ensures ParseHeader("VALUE " + (key + [' '] + (Dec(flags) + tail))) == Bad
  {
    NumberReadsBack(flags, tail);
    hide Dec, StrToUl, FindChar, CStr;
    AfterKey(key, Dec(flags) + tail);
  }

  /** A size that is followed neither by a space nor by the line end. */
  lemma SizeNotEnded(key: string, flags: nat, size: nat, tail: string)
    requires ' ' !in key && flags < 0x1_0000_0000 && size < 0x1_0000_0000
    requires tail != "" && !('0' <= tail[0] <= '9') && tail[0] != ' ' && tail[0] != '\r'
    ensures ParseHeader("VALUE " + (key + [' '] + (Dec(flags) + (" " + (Dec(size) + tail))))) == Bad
  {
    var t := " " + (Dec(size) + tail);
    NumberReadsBack(size, tail);
    NumberReadsBack(flags, t);
    hide Dec, StrToUl, FindChar, CStr;
    AfterKey(key, Dec(flags) + t);
    assert t[1..] == Dec(size) + tail;
  }

  /** A size as a C `int`. */
  lemma AsIntIs(n: nat)
    ensures -0x8000_0000 <= AsInt(n) < 0x8000_0000 && (n - AsInt(n)) % 0x1_0000_0000 == 0
  {
  }

  // ---- Numbers ----

  lemma Digits()
    ensures Dec(0) == "0" && Dec(12345) == "12345" && Dec(67890) == "67890"
  {
  }

  /** A minus sign negates modulo 2^64. */
  lemma {:induction false} MinusNumber(n: nat, tail: string)
    requires n < 0x1_0000_0000_0000_0000 && tail != "" && !('0' <= tail[0] <= '9')
    ensures StrToUl("-" + Dec(n) + tail) == Number(if n == 0 then 0 else 0x1_0000_0000_0000_0000 - n, tail)
    ensures StrToUl("+" + Dec(n) + tail) == Number(n, tail)
  {
    SignedNumber('-', n, tail);
    SignedNumber('+', n, tail);
  }

  lemma SignedNumber(sign: char, n: nat, tail: string)
    requires (sign == '-' || sign == '+') && n < TWO64 && tail != "" && !IsDigit(tail[0])
    ensures StrToUl([sign] + Dec(n) + tail) == Number(if n == 0 || sign == '+' then n else TWO64 - n, tail)
  {
    var d := Dec(n);
    DecIsDigits(n);
    DigitRunOf(d, tail);
    hide Dec, DecValue, DigitRun;
    var s := [sign] + d + tail;
    assert s[1..] == d + tail && (d + tail)[..|d|] == d && (d + tail)[|d|..] == tail;
    assert SkipSpaces(s) == s;
  }

  /** White space in front is skipped, and only that of the C locale. */
  lemma {:induction false} SpacesBefore(spaces: string, s: string)
    requires forall i :: 0 <= i < |spaces| ==> spaces[i] in " \t\n\r" || spaces[i] as int == 11 || spaces[i] as int == 12
    requires s != "" && s[0] !in " \t\n\r" && s[0] as int != 11 && s[0] as int != 12
    ensures SkipSpaces(spaces + s) == s
  {
    if spaces == "" {
      assert spaces + s == s;
    } else {
      assert (spaces + s)[1..] == spaces[1..] + s;
      SpacesBefore(spaces[1..], s);
    }
  }

  /** Too large a number saturates. */
  lemma {:induction false} TooLarge(n: nat, tail: string)
    requires n >= 0x1_0000_0000_0000_0000 && tail != "" && !('0' <= tail[0] <= '9')
    ensures StrToUl(Dec(n) + tail) == Number(0xFFFF_FFFF_FFFF_FFFF, tail)
  {
    var d := Dec(n);
    DecIsDigits(n);
    DigitRunOf(d, tail);
    hide Dec, DecValue, DigitRun;
    var s := d + tail;
    assert s[0] == d[0];
    assert s[..|d|] == d && s[|d|..] == tail && SkipSpaces(s) == s;
  }

  /** Without a digit nothing is read. */
  lemma NoNumber(c: char, s: string)
    requires !('0' <= c <= '9') && c != '+' && c != '-' && c !in " \t\n\r" && c as int != 11 && c as int != 12
    ensures StrToUl([c] + s) == Number(0, [c] + s)
  {
  }

  // ---- Requests and lines ----

  /** The command, a space before every key, and one line end. */
  lemma RequestsWritten(command: string, key: string, other: string)
    ensures RequestLine(command, [key]) == command + " " + key + "\r\n"
    ensures RequestLine(command, [key, other]) == command + " " + key + " " + other + "\r\n"
  {
    var keys := [key, other];
    assert keys[..1] == [key] && [key][..0] == [];
    assert KeyList([]) == "" && KeyList([key]) == "" + " " + key;
    assert KeyList(keys) == KeyList([key]) + " " + other;
  }

  /** Trimming takes all the white space at the end of a line, and nothing else. */
  lemma {:induction false} TrimEndIs(s: string)
    ensures var t := TrimEnd(s);
      && |t| <= |s| && t == s[..|t|]
      && (forall i :: |t| <= i < |s| ==> s[i] in " \t\n\r" || s[i] as int == 11 || s[i] as int == 12)
      && (t != "" ==> t[|t| - 1] !in " \t\n\r" && t[|t| - 1] as int != 11 && t[|t| - 1] as int != 12)
  {
    if s != "" && IsSpace(s[|s| - 1]) {
      TrimEndIs(s[..|s| - 1]);
    }
  }
}
