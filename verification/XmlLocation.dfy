/**
  Row and column tracking while parsing, for byte-per-character text: the incremental cursor and what it means.
  */
module XmlLocation {
  import Arith

  datatype Cursor = Cursor(row: int, col: int)

  datatype Place = Place(at: nat, cursor: Cursor)

  /** `*p` with the terminator at the end. */
  function CharAt(text: string, p: nat): char {
    if p < |text| then text[p] else '\0'
  }

  /** Length of the character or line break at p; CR LF and LF CR are one break. */
  function Width(text: string, p: nat): nat
    requires p < |text|
  {
    if (text[p] == '\r' && CharAt(text, p + 1) == '\n') || (text[p] == '\n' && CharAt(text, p + 1) == '\r') then 2 else 1
  }

  function NextTab(col: int, tab: nat): int
    requires tab > 0
  {
    (Quotient(col, tab) + 1) * tab
  }

  /** C division, which truncates toward zero. */
  function Quotient(a: int, b: nat): int
    requires b > 0
  {
    if a >= 0 then a / b else -((-a) / b)
  }

  function Moved(c: Cursor, ch: char, tab: nat): Cursor
    requires tab > 0
  {
    if ch == '\r' || ch == '\n' then Cursor(c.row + 1, 0)
    else if ch == '\t' then Cursor(c.row, NextTab(c.col, tab))
    else Cursor(c.row, c.col + 1)
  }

  // What each kind of character does to the cursor.

  lemma BreaksMove(c: Cursor, tab: nat)
    requires tab > 0
    ensures Moved(c, '\n', tab) == Moved(c, '\r', tab) == Cursor(c.row + 1, 0)
    ensures Width("\r\n", 0) == Width("\n\r", 0) == 2 && Width("\n\n", 0) == Width("\r\r", 0) == Width("ab", 0) == 1
  {
  }

  lemma OthersMove(c: Cursor, ch: char, tab: nat)
    requires tab > 0 && ch !in "\r\n\t"
    ensures Moved(c, ch, tab) == Cursor(c.row, c.col + 1)
  {
  }

  /** A tab goes on to the next multiple of the tab size. */
  lemma TabsMove(c: Cursor, tab: nat)
    requires tab > 0 && c.col >= 0
    ensures var n := Moved(c, '\t', tab);
      n.row == c.row && n.col % tab == 0 && c.col < n.col <= c.col + tab
  {
    NextMultiple(c.col, tab);
  }

  /** The division truncates, so that from the last columns left of zero a tab goes beyond zero. */
  lemma TabsFromLeft(c: Cursor, tab: nat)
    requires 0 < -c.col < tab
    ensures Moved(c, '\t', tab) == Cursor(c.row, tab)
  {
    var col := -c.col;
    assert col / tab == 0;
  }

  lemma NextMultiple(col: nat, tab: nat)
    requires tab > 0
    ensures ((col / tab + 1) * tab) % tab == 0 && col < (col / tab + 1) * tab <= col + tab
  {
    var q := col / tab;
    Arith.DivMod(col, tab);
    Arith.Distribute(q, 1, tab);
    Arith.RemainderIs((q + 1) * tab, q + 1, tab, 0);
  }

  /** From a place to the first place at or past `now`. A line break may carry it one byte further. */
  function Walk(text: string, from: Place, now: nat, tab: nat): (r: Place)
    requires tab > 0 && now <= |text|
    ensures r.at >= now
    decreases |text| - from.at
  {
    if from.at >= now then from
    else Walk(text, Place(from.at + Width(text, from.at), Moved(from.cursor, text[from.at], tab)), now, tab)
  }

  /** No terminator on the way to `now`. */
  predicate Reaches(text: string, from: nat, now: nat)
    requires now <= |text|
    decreases |text| - from
  {
    from >= now || (text[from] != '\0' && Reaches(text, from + Width(text, from), now))
  }

  lemma {:induction false} NoNulReaches(text: string, from: nat, now: nat)
    requires now <= |text| && forall i :: 0 <= i < |text| ==> text[i] != '\0'
    ensures Reaches(text, from, now)
    decreases |text| - from
  {
    if from < now { NoNulReaches(text, from + Width(text, from), now); }
  }

  /** Stopping on the way, even inside a CR LF pair, makes no difference. */
  lemma {:induction false} WalkInStages(text: string, from: Place, mid: nat, now: nat, tab: nat)
    requires tab > 0 && mid <= now <= |text|
    ensures Walk(text, Walk(text, from, mid, tab), now, tab) == Walk(text, from, now, tab)
    decreases |text| - from.at
  {
    if from.at < mid {
      WalkInStages(text, Place(from.at + Width(text, from.at), Moved(from.cursor, text[from.at], tab)), mid, now, tab);
    }
  }

  function WalkAll(text: string, from: Place, stops: seq<nat>, tab: nat): Place
    requires tab > 0 && forall i :: 0 <= i < |stops| ==> stops[i] <= |text|
    decreases |stops|
  {
    if stops == [] then from else WalkAll(text, Walk(text, from, stops[0], tab), stops[1..], tab)
  }

  /** Over characters that are neither tabs nor line breaks the column grows by their number. */
  lemma {:induction false} PlainColumns(text: string, from: Place, now: nat, tab: nat)
    requires tab > 0 && from.at <= now <= |text| && forall i :: from.at <= i < now ==> text[i] !in "\r\n\t"
    ensures Walk(text, from, now, tab) == Place(now, Cursor(from.cursor.row, from.cursor.col + (now - from.at)))
    decreases now - from.at
  {
    if from.at < now {
      OthersMove(from.cursor, text[from.at], tab);
      PlainColumns(text, Place(from.at + 1, Cursor(from.cursor.row, from.cursor.col + 1)), now, tab);
    }
  }

  predicate Ascending(stops: seq<nat>) {
    forall i, j :: 0 <= i < j < |stops| ==> stops[i] <= stops[j]
  }

  /** Any non-decreasing stops end where one stop at the last of them does. */
  lemma {:induction false} StopsDoNotMatter(text: string, from: Place, stops: seq<nat>, tab: nat)
    requires tab > 0 && stops != [] && Ascending(stops)
    requires forall i :: 0 <= i < |stops| ==> stops[i] <= |text|
    ensures WalkAll(text, from, stops, tab) == Walk(text, from, stops[|stops| - 1], tab)
    decreases |stops|
  {
    if |stops| > 1 {
      StopsDoNotMatter(text, Walk(text, from, stops[0], tab), stops[1..], tab);
      WalkInStages(text, from, stops[0], stops[|stops| - 1], tab);
    }
  }

  /** Line breaks in a text, a CR LF or LF CR pair counting once. */
  function Breaks(text: string): nat {
    if text == "" then 0
    else (if text[0] == '\r' || text[0] == '\n' then 1 else 0) + Breaks(text[Width(text, 0)..])
  }

  /** The row reached is the number of line breaks walked over. */
  lemma {:induction false} RowCountsBreaks(text: string, from: Place, tab: nat)
    requires tab > 0 && from.at <= |text|
    ensures var r := Walk(text, from, |text|, tab);
            r.at == |text| && r.cursor.row == from.cursor.row + Breaks(text[from.at..])
    decreases |text| - from.at
  {
    if from.at < |text| {
      var p := from.at;
      var t, n := text[p..], Width(text, p);
      assert t[0] == text[p] && CharAt(t, 1) == CharAt(text, p + 1);
      assert Width(t, 0) == n && t[n..] == text[p + n..];
      RowCountsBreaks(text, Place(p + n, Moved(from.cursor, text[p], tab)), tab);
    }
  }

  class TiXmlParsingData {
    const text: string
    const tabsize: int
    var cursor: Cursor
    var stamp: nat

    constructor (text: string, tabsize: int, row: int, col: int)
      ensures this.text == text && this.tabsize == tabsize && Now() == Place(0, Cursor(row, col))
    {
      this.text, this.tabsize := text, tabsize;
      cursor, stamp := Cursor(row, col), 0;
    }

    function Now(): Place
      reads this
    {
      Place(stamp, cursor)
    }

    /** `Stamp`: no change without tabs, and none when the terminator comes first. */
    method Stamp(now: nat)
      requires now <= |text|
      modifies this
      ensures Now() == if tabsize >= 1 && Reaches(text, old(stamp), now) then Walk(text, old(Now()), now, tabsize)
                       else old(Now())
    {
      if tabsize < 1 { return; }
      var c, p := cursor, stamp;
      while p < now
        invariant Reaches(text, p, now) == Reaches(text, old(stamp), now)
        invariant Walk(text, Place(p, c), now, tabsize) == Walk(text, old(Now()), now, tabsize)
        decreases |text| - p
      {
        var ch := text[p];
        if ch == '\0' { return; }
        if ch == '\r' {
          c := Cursor(c.row + 1, 0);
          p := p + 1;
          if CharAt(text, p) == '\n' { p := p + 1; }
        } else if ch == '\n' {
          c := Cursor(c.row + 1, 0);
          p := p + 1;
          if CharAt(text, p) == '\r' { p := p + 1; }
        } else if ch == '\t' {
          p := p + 1;
          c := Cursor(c.row, NextTab(c.col, tabsize));
        } else {
          p := p + 1;
          c := Cursor(c.row, c.col + 1);
        }
      }
      cursor, stamp := c, p;
    }

    /** A run of `Stamp` calls, as a parse makes them. */
    method StampAll(stops: seq<nat>)
      requires Ascending(stops) && forall i :: 0 <= i < |stops| ==> stops[i] <= |text|
      modifies this
      ensures tabsize >= 1 && stops != [] && Reaches(text, old(stamp), stops[|stops| - 1]) ==>
                Now() == Walk(text, old(Now()), stops[|stops| - 1], tabsize)
      ensures tabsize < 1 ==> Now() == old(Now())
    {
      ghost var start := Now();
      for i := 0 to |stops|
        invariant tabsize < 1 ==> Now() == start
        invariant i == 0 ==> Now() == start
        invariant i > 0 && tabsize >= 1 && Reaches(text, start.at, stops[i - 1]) ==>
                    Now() == Walk(text, start, stops[i - 1], tabsize)
      {
        ghost var at := Now();
        if i > 0 && tabsize >= 1 && Reaches(text, start.at, stops[i]) {
          ReachesInStages(text, start, stops[i - 1], stops[i], tabsize);
          WalkInStages(text, start, stops[i - 1], stops[i], tabsize);
        }
        Stamp(stops[i]);
      }
    }
  }

  /** Without a terminator up to now there is none up to an earlier stop, nor from there on. */
  lemma {:induction false} ReachesInStages(text: string, from: Place, mid: nat, now: nat, tab: nat)
    requires tab > 0 && mid <= now <= |text| && Reaches(text, from.at, now)
    ensures Reaches(text, from.at, mid) && Reaches(text, Walk(text, from, mid, tab).at, now)
    decreases |text| - from.at
  {
    if from.at < mid {
      ReachesInStages(text, Place(from.at + Width(text, from.at), Moved(from.cursor, text[from.at], tab)), mid, now, tab);
    }
  }
}
