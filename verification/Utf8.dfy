/**
  UTF-8 in the two places that know about it: the XML parser's encoder with its length table, and the server's
  recogniser of UTF-8 strings.
  */
module Utf8 {
  import opened Seqs

  type Byte = bv8
  type Code = bv32

  // ---------------------------------------------------------------- RFC 3629, section 3

  function Low6(x: Code): Code { x & 0x3F }

  /** Without the lowest six bits. */
  function Rest(x: Code): Code { x >> 6 }

  function Continuation(x: Code): Byte { 0x80 | (Low6(x) as Byte) }

  function Lead2(x: Code): Byte requires x < 0x20 { 0xC0 | (x as Byte) }
  function Lead3(x: Code): Byte requires x < 0x10 { 0xE0 | (x as Byte) }
  function Lead4(x: Code): Byte requires x < 0x08 { 0xF0 | (x as Byte) }

  lemma Ranges(cp: Code)
    ensures cp < 0x800 ==> Rest(cp) < 0x20
    ensures cp < 0x10000 ==> Rest(Rest(cp)) < 0x10
    ensures cp < 0x200000 ==> Rest(Rest(Rest(cp))) < 0x08
  {
  }

  /** The octets of a code point: the ranges and bit positions of the table in RFC 3629, section 3. */
  function Octets(cp: Code): seq<Byte>
    requires cp < 0x200000
  {
    Ranges(cp);
    if cp < 0x80 then [cp as Byte]
    else if cp < 0x800 then [Lead2(Rest(cp)), Continuation(cp)]
    else if cp < 0x10000 then [Lead3(Rest(Rest(cp))), Continuation(Rest(cp)), Continuation(cp)]
    else [Lead4(Rest(Rest(Rest(cp)))), Continuation(Rest(Rest(cp))), Continuation(Rest(cp)), Continuation(cp)]
  }

  /** The examples of RFC 3629, section 7. */
  lemma PublishedOctets()
    ensures Octets(0x41) == [0x41] && Octets(0x2262) == [0xE2, 0x89, 0xA2] && Octets(0x391) == [0xCE, 0x91]
    ensures Octets(0xD55C) == [0xED, 0x95, 0x9C] && Octets(0x65E5) == [0xE6, 0x97, 0xA5]
    ensures Octets(0x233B4) == [0xF0, 0xA3, 0x8E, 0xB4] && Octets(0xFEFF) == [0xEF, 0xBB, 0xBF]
  {
  }

  function Bits(b: Byte, mask: Byte): Code { (b & mask) as Code }

  function Glue(high: Code, low: Code): Code { (high << 6) | low }

  function Decode(o: seq<Byte>): Code
    requires 1 <= |o| <= 4
  {
    if |o| == 1 then o[0] as Code
    else if |o| == 2 then Glue(Bits(o[0], 0x1F), Bits(o[1], 0x3F))
    else if |o| == 3 then Glue(Glue(Bits(o[0], 0x0F), Bits(o[1], 0x3F)), Bits(o[2], 0x3F))
    else Glue(Glue(Glue(Bits(o[0], 0x07), Bits(o[1], 0x3F)), Bits(o[2], 0x3F)), Bits(o[3], 0x3F))
  }

  lemma GlueBack(x: Code)
    ensures Glue(Rest(x), Low6(x)) == x
  {
  }

  lemma ContinuationBits(x: Code)
    ensures Bits(Continuation(x), 0x3F) == Low6(x)
  {
  }

  lemma LeadBits(x: Code)
    ensures x < 0x20 ==> Bits(Lead2(x), 0x1F) == x
    ensures x < 0x10 ==> Bits(Lead3(x), 0x0F) == x
    ensures x < 0x08 ==> Bits(Lead4(x), 0x07) == x
  {
  }

  /** Decoding gives the code point back. */
  lemma {:induction false} OctetsDecode(cp: Code)
    requires cp < 0x200000
    ensures 1 <= |Octets(cp)| <= 4 && Decode(Octets(cp)) == cp
  {
    hide Bits, Rest, Low6, Glue, Continuation, Lead2, Lead3, Lead4;
    Ranges(cp);
    var r, rr := Rest(cp), Rest(Rest(cp));
    ContinuationBits(cp);
    ContinuationBits(r);
    ContinuationBits(rr);
    GlueBack(cp);
    GlueBack(r);
    GlueBack(rr);
    if cp < 0x80 {
    } else if cp < 0x800 {
      LeadBits(r);
    } else if cp < 0x10000 {
      LeadBits(rr);
    } else {
      LeadBits(Rest(rr));
    }
  }

  // ---------------------------------------------------------------- the encoder

  /** `(char)((input | BYTE_MARK) & BYTE_MASK)` */
  function Marked(input: Code): Byte { (((input | 0x80) & 0xBF) & 0xFF) as Byte }

  function FirstMark(length: nat): Code {
    if length == 2 then 0xC0 else if length == 3 then 0xE0 else if length == 4 then 0xF0 else 0
  }

  function Truncated(x: Code): Byte { (x & 0xFF) as Byte }

  lemma MarkedIsContinuation(x: Code)
    ensures Marked(x) == Continuation(x)
  {
  }

  /** `(char)(input | FIRST_BYTE_MARK[length])` */
  function First(x: Code, length: nat): Byte { Truncated(x | FirstMark(length)) }

  lemma FirstByte(x: Code)
    ensures x < 0x80 ==> First(x, 1) == x as Byte
    ensures x < 0x20 ==> First(x, 2) == Lead2(x)
    ensures x < 0x10 ==> First(x, 3) == Lead3(x)
    ensures x < 0x08 ==> First(x, 4) == Lead4(x)
  {
  }

  /** `ConvertUTF32ToUTF8`, filling the output from its end; no output for inputs of more than 21 bits. */
  method ConvertUTF32ToUTF8(input: Code) returns (output: seq<Byte>)
    ensures output == if input < 0x200000 then Octets(input) else []
  {
    hide Marked, First, Continuation, Rest, Lead2, Lead3, Lead4;
    var length :=
      if input < 0x80 then 1 else if input < 0x800 then 2 else if input < 0x10000 then 3 else if input < 0x200000 then 4
      else 0;
    if length == 0 { return []; }
    var rest := input;
    output := [];
    Ranges(input);
    if length == 4 {
      MarkedIsContinuation(rest);
      output := [Marked(rest)] + output;
      rest := Rest(rest);
    }
    if length >= 3 {
      MarkedIsContinuation(rest);
      output := [Marked(rest)] + output;
      rest := Rest(rest);
    }
    if length >= 2 {
      MarkedIsContinuation(rest);
      output := [Marked(rest)] + output;
      rest := Rest(rest);
    }
    FirstByte(rest);
    output := [First(rest, length)] + output;
  }

  /** The parser's length table, by its ranges of lead bytes. */
  function ByteTable(lead: Byte): nat {
    if 0xC2 <= lead <= 0xDF then 2 else if 0xE0 <= lead <= 0xEF then 3 else if 0xF0 <= lead <= 0xF4 then 4 else 1
  }

  lemma Leads(x: Code)
    ensures 0x2 <= x < 0x20 ==> 0xC2 <= Lead2(x) <= 0xDF
    ensures x < 0x10 ==> 0xE0 <= Lead3(x) <= 0xEF
    ensures x < 0x08 ==> 0xF0 <= Lead4(x) && (Lead4(x) <= 0xF4 <==> x <= 4)
  {
  }

  lemma LeadRanges(cp: Code)
    ensures 0x80 <= cp < 0x800 ==> 0x2 <= Rest(cp) < 0x20
    ensures cp < 0x200000 ==> (Rest(Rest(Rest(cp))) <= 4 <==> cp < 0x140000)
  {
  }

  /** The table knows the length from the lead byte exactly up to 0x13FFFF, which covers all of Unicode. */
  lemma {:induction false} TableAgrees(cp: Code)
    requires cp < 0x200000
    ensures ByteTable(Octets(cp)[0]) == |Octets(cp)| <==> cp < 0x140000
  {
    hide Continuation, Rest, Lead2, Lead3, Lead4;
    Ranges(cp);
    LeadRanges(cp);
    if cp < 0x80 {
      AsciiByte(cp);
    } else if cp < 0x800 {
      Leads(Rest(cp));
    } else if cp < 0x10000 {
      Leads(Rest(Rest(cp)));
    } else {
      Leads(Rest(Rest(Rest(cp))));
    }
  }

  /** Every lead byte for which the table has more than one byte begins the octets of some code point below that bound. */
  lemma LeadOccurs(b: Byte) returns (cp: Code)
    requires ByteTable(b) > 1
    ensures 0x80 <= cp && cp < 0x140000 && Octets(cp)[0] == b
  {
    if b < 0xE0 {
      cp := Bits(b, 0x1F) << 6;
      LeadBack2(b);
    } else if b < 0xF0 {
      cp := (Bits(b, 0x0F) << 12) | 0x800;
      LeadBack3(b);
    } else {
      cp := (Bits(b, 0x07) << 18) | 0x10000;
      LeadBack4(b);
    }
  }

  lemma LeadBack2(b: Byte)
    requires 0xC2 <= b && b < 0xE0
    ensures var cp := Bits(b, 0x1F) << 6; 0x80 <= cp && cp < 0x800 && Rest(cp) < 0x20 && Lead2(Rest(cp)) == b
  {
  }

  lemma LeadBack3(b: Byte)
    requires 0xE0 <= b && b < 0xF0
    ensures var cp := (Bits(b, 0x0F) << 12) | 0x800;
      0x800 <= cp && cp < 0x10000 && Rest(Rest(cp)) < 0x10 && Lead3(Rest(Rest(cp))) == b
  {
  }

  lemma LeadBack4(b: Byte)
    requires 0xF0 <= b && b < 0xF5
    ensures var cp := (Bits(b, 0x07) << 18) | 0x10000;
      0x10000 <= cp && cp < 0x140000 && Rest(Rest(Rest(cp))) < 0x08 && Lead4(Rest(Rest(Rest(cp)))) == b
  {
  }

  lemma AsciiByte(x: Code)
    requires x < 0x80
    ensures (x as Byte) < 0x80 && (x as Byte == 0 <==> x == 0)
  {
  }

  // ---------------------------------------------------------------- the recogniser

  predicate IsContinuation(b: Byte) { b & 0xC0 == 0x80 }

  lemma ContinuationRange(b: Byte)
    ensures IsContinuation(b) <==> 0x80 <= b && b < 0xC0
  {
  }

  /** One bits at the top of b, of at most n. */
  function Ones(b: Byte, n: nat): (k: nat)
    ensures k <= n
    decreases n
  {
    if n == 0 || b & 0x80 == 0 then 0 else 1 + Ones(b << 1, n - 1)
  }

  function LeadingOnes(b: Byte): nat { Ones(b, 8) }

  /** How many bytes each lead byte announces; more than four are possible here. */
  lemma LeadsAnnounce(b: Byte)
    ensures b < 0x80 ==> LeadingOnes(b) == 0
    ensures 0x80 <= b && b < 0xC0 ==> LeadingOnes(b) == 1
    ensures 0xC0 <= b && b < 0xE0 ==> LeadingOnes(b) == 2
    ensures 0xE0 <= b && b < 0xF0 ==> LeadingOnes(b) == 3
    ensures 0xF0 <= b && b < 0xF8 ==> LeadingOnes(b) == 4
    ensures 0xF8 <= b ==> LeadingOnes(b) >= 5
  {
  }

  predicate Continues(s: seq<Byte>, n: nat) {
    n <= |s| && forall i :: 0 <= i < n ==> IsContinuation(s[i])
  }

  /** ASCII bytes, and lead bytes followed by as many continuation bytes as they announce. */
  predicate WellFormed(s: seq<Byte>)
    decreases |s|
  {
    if s == [] then true
    else if s[0] < 0x80 then WellFormed(s[1..])
    else LeadingOnes(s[0]) >= 2 && Continues(s[1..], LeadingOnes(s[0]) - 1) && WellFormed(s[LeadingOnes(s[0])..])
  }

  /** What is refused: a continuation byte in front, and a lead byte without enough of them. */
  lemma Refused(b: Byte, due: seq<Byte>, c: Byte, rest: seq<Byte>)
    requires 0x80 <= b && !(0x80 <= c && c < 0xC0) && |due| + 1 < LeadingOnes(b)
    ensures !WellFormed([b] + due + [c] + rest) && !WellFormed([b] + due)
    ensures b < 0xC0 ==> !WellFormed([b] + rest)
  {
    ContinuationRange(c);
    LeadsAnnounce(b);
    hide LeadingOnes, IsContinuation;
    var s := [b] + due + [c] + rest;
    assert s[1..][|due|] == c;
    assert ([b] + due)[1..] == due;
  }

  predicate AllAscii(s: seq<Byte>) {
    forall i :: 0 <= i < |s| ==> s[i] < 0x80
  }

  /** What is left to accept when `pending` continuation bytes are due. */
  predicate Accepts(s: seq<Byte>, pending: nat) {
    Continues(s, pending) && WellFormed(s[pending..])
  }

  lemma HighBit(b: Byte)
    ensures b & 0x80 != 0 <==> b >= 0x80
  {
  }

  function LowMask(n: nat): Byte
    requires n <= 8
  {
    if n == 0 then 0 else if n == 1 then 1 else if n == 2 then 3 else if n == 3 then 7 else if n == 4 then 15
    else if n == 5 then 31 else if n == 6 then 63 else if n == 7 then 127 else 255
  }

  /** The lowest n bits are zero. */
  predicate Cleared(b: Byte, n: nat)
    requires n <= 8
  {
    b & LowMask(n) == 0
  }

  lemma ShiftClears(b: Byte, n: nat)
    requires n < 8 && Cleared(b, n)
    ensures Cleared(b << 1, n + 1)
  {
  }

  lemma NothingLeft(b: Byte)
    ensures b & 255 == 0 ==> b & 0x80 == 0
    ensures b & 0 == 0
  {
  }

  /** The inner loop, which shifts the lead byte until its first zero bit. */
  method CountOnes(lead: Byte) returns (octets: nat)
    requires lead & 0x80 != 0
    ensures octets == LeadingOnes(lead) >= 1
  {
    assert Cleared(lead, 0) by { NothingLeft(lead); }
    ShiftClears(lead, 0);
    OnesStep(lead, 8);
    hide Ones, Cleared;
    var chr := lead << 1;
    octets := 1;
    while chr & 0x80 != 0
      invariant 1 <= octets <= 8 && Cleared(chr, octets) && LeadingOnes(lead) == octets + Ones(chr, 8 - octets)
      decreases 8 - octets
    {
      NotAllOnes(chr, octets);
      ShiftClears(chr, octets);
      OnesStep(chr, 8 - octets);
      chr := chr << 1;
      octets := octets + 1;
    }
    NoOnes(chr, 8 - octets);
  }

  lemma OnesStep(b: Byte, n: nat)
    requires n > 0 && b & 0x80 != 0
    ensures Ones(b, n) == 1 + Ones(b << 1, n - 1)
  {
  }

  lemma NoOnes(b: Byte, n: nat)
    requires b & 0x80 == 0
    ensures Ones(b, n) == 0
  {
  }

  lemma NotAllOnes(b: Byte, n: nat)
    requires n <= 8 && Cleared(b, n) && b & 0x80 != 0
    ensures n < 8
  {
    NothingLeft(b);
  }

  lemma AcceptNothingDue(s: seq<Byte>)
    requires s != []
    ensures Accepts(s, 0) == if s[0] < 0x80 then Accepts(s[1..], 0)
                             else LeadingOnes(s[0]) >= 2 && Accepts(s[1..], LeadingOnes(s[0]) - 1)
  {
    hide LeadingOnes;
    assert s[0..] == s && s[1..][0..] == s[1..];
    var k: nat := LeadingOnes(s[0]);
    if s[0] >= 0x80 && 2 <= k <= |s| { assert s[k..] == s[1..][k - 1..]; }
  }

  lemma AcceptDue(s: seq<Byte>, due: nat)
    requires s != [] && due > 0
    ensures Accepts(s, due) == (IsContinuation(s[0]) && Accepts(s[1..], due - 1))
  {
    if due <= |s| { assert s[due..] == s[1..][due - 1..]; }
    if Continues(s, due) {
      assert forall i :: 0 <= i < due - 1 ==> s[1..][i] == s[i + 1];
    }
    if IsContinuation(s[0]) && Continues(s[1..], due - 1) {
      forall i | 0 <= i < due ensures IsContinuation(s[i]) { if i > 0 { assert s[i] == s[1..][i - 1]; } }
    }
  }

  lemma AsciiStep(s: seq<Byte>, i: nat)
    requires i < |s|
    ensures AllAscii(s[..i + 1]) <==> AllAscii(s[..i]) && s[i] < 0x80
  {
    assert s[..i + 1] == s[..i] + [s[i]];
  }

  lemma RestStep(s: seq<Byte>, i: nat)
    requires i < |s|
    ensures s[i..] != [] && s[i..][0] == s[i] && s[i..][1..] == s[i + 1..]
  {
  }

  /** `_IsStringUTF8`, on the bytes before the terminator. */
  method IsStringUTF8(str: seq<Byte>) returns (utf8: bool)
    ensures utf8 <==> WellFormed(str) && !AllAscii(str)
  {
    hide *;
    var octets, allAscii, i := 0, true, 0;
    StartAccepting(str);
    while i < |str|
      invariant 0 <= i <= |str| && octets >= 0 && allAscii == AllAscii(str[..i])
      invariant WellFormed(str) == Accepts(str[i..], octets)
    {
      var chr := str[i];
      RestStep(str, i);
      AsciiStep(str, i);
      HighBit(chr);
      if chr & 0x80 != 0 {
        allAscii := false;
      }
      if octets == 0 {
        AcceptNothingDue(str[i..]);
        if chr >= 0x80 {
          octets := CountOnes(chr);
          octets := octets - 1;
          if octets == 0 { return false; }
        }
      } else {
        AcceptDue(str[i..], octets);
        if chr & 0xC0 != 0x80 { NoContinuation(chr); return false; }
        ContinuationByte(chr);
        octets := octets - 1;
      }
      i := i + 1;
    }
    EndAccepting(str, i, octets);
    utf8 := octets == 0 && !allAscii;
  }

  lemma NoContinuation(b: Byte)
    requires b & 0xC0 != 0x80
    ensures !IsContinuation(b)
  {
  }

  lemma ContinuationByte(b: Byte)
    requires b & 0xC0 == 0x80
    ensures IsContinuation(b)
  {
  }

  lemma StartAccepting(s: seq<Byte>)
    ensures WellFormed(s) == Accepts(s[0..], 0) && AllAscii(s[..0])
  {
    assert s[0..] == s && s[0..][0..] == s;
  }

  lemma EndAccepting(s: seq<Byte>, i: nat, due: nat)
    requires i == |s|
    ensures s[..i] == s && (Accepts(s[i..], due) <==> due == 0)
  {
  }

  // ---------------------------------------------------------------- the two agree

  lemma OctetOnes(x: Code)
    ensures x < 0x20 ==> LeadingOnes(Lead2(x)) == 2 && Lead2(x) >= 0x80
    ensures x < 0x10 ==> LeadingOnes(Lead3(x)) == 3 && Lead3(x) >= 0x80
    ensures x < 0x08 ==> LeadingOnes(Lead4(x)) == 4 && Lead4(x) >= 0x80
    ensures IsContinuation(Continuation(x))
  {
  }

  lemma {:induction false} LeadAccepted(lead: Byte, due: seq<Byte>, rest: seq<Byte>)
    requires lead >= 0x80 && LeadingOnes(lead) == |due| + 1 >= 2
    requires forall i :: 0 <= i < |due| ==> IsContinuation(due[i])
    ensures WellFormed([lead] + due + rest) == WellFormed(rest)
  {
    hide LeadingOnes, IsContinuation;
    var s := [lead] + due + rest;
    Split([lead] + due, rest);
    assert s[1..] == due + rest;
  }

  /** One encoded code point in front does not change whether the rest is well formed. */
  lemma {:induction false} OctetsAccepted(cp: Code, rest: seq<Byte>)
    requires cp < 0x200000
    ensures WellFormed(Octets(cp) + rest) == WellFormed(rest)
    ensures AllAscii(Octets(cp)) <==> cp < 0x80
  {
    hide LeadingOnes, Continuation, Rest, Lead2, Lead3, Lead4, IsContinuation;
    Ranges(cp);
    var r, rr := Rest(cp), Rest(Rest(cp));
    OctetOnes(cp);
    OctetOnes(r);
    OctetOnes(rr);
    OctetOnes(Rest(rr));
    if cp < 0x80 {
      AsciiByte(cp);
      Split(Octets(cp), rest);
    } else if cp < 0x800 {
      assert Octets(cp) == [Lead2(r)] + [Continuation(cp)];
      LeadAccepted(Lead2(r), [Continuation(cp)], rest);
    } else if cp < 0x10000 {
      assert Octets(cp) == [Lead3(rr)] + [Continuation(r), Continuation(cp)];
      LeadAccepted(Lead3(rr), [Continuation(r), Continuation(cp)], rest);
    } else {
      assert Octets(cp) == [Lead4(Rest(rr))] + [Continuation(rr), Continuation(r), Continuation(cp)];
      LeadAccepted(Lead4(Rest(rr)), [Continuation(rr), Continuation(r), Continuation(cp)], rest);
    }
  }

  function EncodeAll(cps: seq<Code>): seq<Byte>
    requires forall i :: 0 <= i < |cps| ==> cps[i] < 0x200000
  {
    if cps == [] then [] else Octets(cps[0]) + EncodeAll(cps[1..])
  }

  lemma AllAsciiConcat(a: seq<Byte>, b: seq<Byte>)
    ensures AllAscii(a + b) <==> AllAscii(a) && AllAscii(b)
  {
    if AllAscii(a + b) {
      assert forall i :: 0 <= i < |a| ==> a[i] == (a + b)[i];
      assert forall i :: 0 <= i < |b| ==> b[i] == (a + b)[|a| + i];
    }
  }

  /** Whatever the parser's encoder produces, the recogniser accepts unless it is all ASCII. */
  lemma {:induction false} EncodedIsWellFormed(cps: seq<Code>)
    requires forall i :: 0 <= i < |cps| ==> cps[i] < 0x200000
    ensures WellFormed(EncodeAll(cps))
    ensures AllAscii(EncodeAll(cps)) <==> forall i :: 0 <= i < |cps| ==> cps[i] < 0x80
  {
    hide Octets, AllAscii, WellFormed;
    if cps == [] {
      NothingEncoded();
    } else {
      EncodedIsWellFormed(cps[1..]);
      OctetsAccepted(cps[0], EncodeAll(cps[1..]));
      AllAsciiConcat(Octets(cps[0]), EncodeAll(cps[1..]));
      if forall i :: 0 <= i < |cps[1..]| ==> cps[1..][i] < 0x80 {
        assert forall i :: 1 <= i < |cps| ==> cps[i] == cps[1..][i - 1];
      } else {
        var i :| 0 <= i < |cps[1..]| && !(cps[1..][i] < 0x80);
        assert cps[i + 1] == cps[1..][i];
      }
    }
  }

  lemma NothingEncoded()
    ensures WellFormed([]) && AllAscii([])
  {
  }
}
