/** The log: a ring of the latest messages, and the page that shows the end of it. */
module LogRing {
  const LOG_HISTORY: nat := 64
  const LOG_MAX_LINE: nat := 1024
  const MAX_PAGE_LINES: nat := 28

  /** What fits into a line buffer, its terminator not counted. */
  function Cut(s: string): (r: string)
    ensures |r| < LOG_MAX_LINE
  {
    if |s| < LOG_MAX_LINE then s else s[..LOG_MAX_LINE - 1]
  }

  /** A message is kept from its start, as much of it as 1023 characters hold. */
  lemma CutIsPrefix(s: string)
    ensures Cut(s) <= s && |Cut(s)| <= 1023 && (Cut(s) == s || |Cut(s)| == 1023)
  {
  }

  /** The messages a full ring remembers: one place always stays free. */
  function Latest(history: seq<string>): (r: seq<string>)
    ensures |r| == if |history| < LOG_HISTORY then |history| else LOG_HISTORY - 1
  {
    if |history| < LOG_HISTORY then history else history[|history| - (LOG_HISTORY - 1)..]
  }

  lemma LatestIsSuffix(history: seq<string>)
    ensures var r := Latest(history);
            |r| <= 63 && (|r| == 63 || r == history) && history == history[..|history| - |r|] + r
  {
  }

  // ----- Lines on the page -----

  function NewLines(s: string): nat {
    if s == "" then 0 else NewLines(s[..|s| - 1]) + if s[|s| - 1] == '\n' then 1 else 0
  }

  /** Where the line breaks of a text are. */
  function Breaks(s: string): set<nat> {
    set i | 0 <= i < |s| && s[i] == '\n'
  }

  lemma {:induction false} NewLinesAreBreaks(s: string)
    ensures NewLines(s) == |Breaks(s)|
  {
    if s == "" {
      assert Breaks(s) == {};
    } else {
      var n := |s| - 1;
      NewLinesAreBreaks(s[..n]);
      assert Breaks(s) == if s[n] == '\n' then Breaks(s[..n]) + {n} else Breaks(s[..n]);
    }
  }

  /** The rows that texts take, each its first one and one for every line break. */
  function Rows(texts: seq<string>): nat {
    if texts == [] then 0 else 1 + NewLines(texts[0]) + Rows(texts[1..])
  }

  lemma {:induction false} RowsOfSuffix(texts: seq<string>, d: nat)
    requires d <= |texts|
    ensures Rows(texts[d..]) <= Rows(texts)
  {
    if d > 0 {
      RowsOfSuffix(texts[1..], d - 1);
      assert texts[1..][d - 1..] == texts[d..];
    }
  }

  lemma {:induction false} RowsAtLeast(texts: seq<string>)
    ensures Rows(texts) >= |texts|
  {
    if texts != [] {
      RowsAtLeast(texts[1..]);
    }
  }

  method CountNewLines(s: string) returns (n: nat)
    ensures n == NewLines(s)
  {
    n := 0;
    var i := 0;
    while i < |s|
      invariant 0 <= i <= |s| && n == NewLines(s[..i])
    {
      assert s[..i + 1][..i] == s[..i];
      if s[i] == '\n' {
        n := n + 1;
      }
      i := i + 1;
    }
    assert s[..i] == s;
  }

  /** How the page shows a message; the format itself is not part of the model. */
  type Format = string -> string

  function Shown(fmt: Format, ms: seq<string>): (r: seq<string>)
    ensures |r| == |ms|
  {
    if ms == [] then [] else [Cut(fmt(ms[0]))] + Shown(fmt, ms[1..])
  }

  lemma {:induction false} ShownAt(fmt: Format, ms: seq<string>, i: nat)
    requires i < |ms|
    ensures Shown(fmt, ms)[i] == Cut(fmt(ms[i]))
  {
    if i > 0 {
      ShownAt(fmt, ms[1..], i - 1);
    }
  }

  lemma ShownCons(fmt: Format, ms: seq<string>, k: nat)
    requires k < |ms|
    ensures Shown(fmt, ms[k..]) == [Cut(fmt(ms[k]))] + Shown(fmt, ms[k + 1..])
  {
    assert ms[k..][0] == ms[k] && ms[k..][1..] == ms[k + 1..];
  }

  /**
   * `texts` is the page for the messages `ms`: the shortest suffix of them, oldest first, that
   * fills the page, or all of them if they do not.
   */
  predicate IsPage(fmt: Format, ms: seq<string>, texts: seq<string>) {
    && |texts| <= |ms|
    && texts == Shown(fmt, ms[|ms| - |texts|..])
    && (Rows(texts) >= MAX_PAGE_LINES || |texts| == |ms|)
    && (texts != [] ==> Rows(texts[1..]) < MAX_PAGE_LINES)
  }

  /** There is only one page. */
  lemma PageIsUnique(fmt: Format, ms: seq<string>, xs: seq<string>, ys: seq<string>)
    requires IsPage(fmt, ms, xs) && IsPage(fmt, ms, ys)
    ensures xs == ys
  {
    if |xs| < |ys| {
      LongerPage(fmt, ms, xs, ys);
    } else if |ys| < |xs| {
      LongerPage(fmt, ms, ys, xs);
    }
  }

  lemma {:induction false} ShownSuffix(fmt: Format, ms: seq<string>, a: nat, d: nat, ys: seq<string>, xs: seq<string>)
    requires a + d <= |ms| && ys == Shown(fmt, ms[a..]) && xs == Shown(fmt, ms[a + d..])
    ensures ys[d..] == xs
    decreases d
  {
    if d > 0 {
      ShownCons(fmt, ms, a);
      ShownSuffix(fmt, ms, a + 1, d - 1, ys[1..], xs);
      assert ys[1..][d - 1..] == ys[d..];
    }
  }

  lemma SuffixRows(xs: seq<string>, ys: seq<string>, d: nat)
    requires 1 <= d <= |ys| && ys[d..] == xs
    ensures Rows(xs) <= Rows(ys[1..])
  {
    assert ys[1..][d - 1..] == xs;
    RowsOfSuffix(ys[1..], d - 1);
  }

  lemma LongerPage(fmt: Format, ms: seq<string>, xs: seq<string>, ys: seq<string>)
    requires IsPage(fmt, ms, xs) && IsPage(fmt, ms, ys)
    ensures |xs| >= |ys|
  {
    if |xs| < |ys| {
      var a, d := |ms| - |ys|, |ys| - |xs|;
      assert a + d == |ms| - |xs|;
      ShownSuffix(fmt, ms, a, d, ys, xs);
      SuffixRows(xs, ys, d);
    }
  }

  /** A page never has more entries than lines, whatever line breaks there are. */
  lemma PageFits(fmt: Format, ms: seq<string>, texts: seq<string>)
    requires IsPage(fmt, ms, texts)
    ensures |texts| <= MAX_PAGE_LINES
  {
    if texts != [] {
      RowsAtLeast(texts[1..]);
    }
  }

  /** The rows at which texts are printed, the first one at `row`. */
  function RowsFrom(row: nat, texts: seq<string>): (rows: seq<nat>)
    ensures |rows| == |texts|
    decreases texts
  {
    if texts == [] then [] else [row] + RowsFrom(row + 1 + NewLines(texts[0]), texts[1..])
  }

  /** Each text is as far below the one before as that one has lines, and the last ends where the rows end. */
  lemma {:induction false} RowsApart(row: nat, texts: seq<string>, j: nat)
    requires j < |texts|
    ensures var rows := RowsFrom(row, texts);
            && rows[0] == row && rows[j] == row + Rows(texts[..j])
            && (if j + 1 < |texts| then rows[j + 1] else row + Rows(texts)) ==
               rows[j] + 1 + |Breaks(texts[j])|
    decreases j
  {
    NewLinesAreBreaks(texts[j]);
    if j > 0 {
      RowsApart(row + 1 + NewLines(texts[0]), texts[1..], j - 1);
      assert texts[..j][1..] == texts[1..][..j - 1];
    } else {
      assert texts[..0] == [];
    }
  }

  // ----- The ring -----

  /** The place of the `i`-th message from `tail` on. */
  function Slot(tail: nat, i: nat): nat {
    if tail + i < LOG_HISTORY then tail + i else tail + i - LOG_HISTORY
  }

  /** The ring holds exactly the messages `c`. */
  predicate Holds(buf: seq<string>, head: nat, tail: nat, c: seq<string>) {
    && |buf| == LOG_HISTORY && head < LOG_HISTORY && tail < LOG_HISTORY
    && |c| < LOG_HISTORY && head == Slot(tail, |c|)
    && forall i | 0 <= i < |c| :: buf[Slot(tail, i)] == c[i]
  }

  /** Writing at `head` keeps all messages while there is room, and drops the oldest when there is not. */
  lemma AppendHolds(buf: seq<string>, head: nat, tail: nat, c: seq<string>, m: string, head': nat, tail': nat)
    requires Holds(buf, head, tail, c)
    requires head' == (head + 1) % LOG_HISTORY
    requires tail' == if head' == tail then (tail + 1) % LOG_HISTORY else tail
    ensures Holds(buf[head := m], head', tail', if |c| < LOG_HISTORY - 1 then c + [m] else c[1..] + [m])
  {
  }

  class Log {
    const msg: array<string>
    var head: nat
    var tail: nat
    var needRefresh: bool
    ghost var history: seq<string>

    /** The ring holds exactly the latest messages of all that were ever logged. */
    ghost predicate Valid()
      reads this, msg
    {
      Holds(msg[..], head, tail, Latest(history))
    }

    constructor ()
      ensures Valid() && history == [] && !needRefresh && fresh(msg)
    {
      msg := new string[LOG_HISTORY](_ => "");
      head, tail, needRefresh, history := 0, 0, false, [];
    }

    method Append(text: string)
      requires Valid()
      modifies this, msg
      ensures Valid() && needRefresh
      ensures history == old(history) + [Cut(text)]
    {
      ghost var buf, h, t, c := msg[..], head, tail, Latest(history);
      msg[head] := Cut(text);
      head := (head + 1) % LOG_HISTORY;
      if head == tail {
        tail := (tail + 1) % LOG_HISTORY;
      }
      needRefresh := true;
      AppendHolds(buf, h, t, c, Cut(text), head, tail);
      LatestNext(history, Cut(text));
      history := history + [Cut(text)];
      assert msg[..] == buf[h := Cut(text)];
    }

    /**
     * The page: row numbers and texts in the order they are printed, from row 3 on. Nothing is
     * printed when nothing is new.
     */
    method Page(printLabels: bool, fmt: Format) returns (rows: seq<nat>, texts: seq<string>)
      requires Valid()
      modifies this`needRefresh
      ensures Valid() && history == old(history) && !needRefresh
      ensures !printLabels && !old(needRefresh) ==> texts == [] && rows == []
      ensures printLabels || old(needRefresh) ==>
                IsPage(fmt, Latest(history), texts) && rows == RowsFrom(3, texts)
    {
      rows, texts := [], [];
      if !printLabels && !needRefresh {
        return;
      }
      var lines, currLine;
      ghost var page;
      lines, currLine, page := Collect(fmt);
      rows, texts := Print(lines, currLine, page);
      needRefresh := false;
    }

    /** Walks back from the latest message until the page is full; the latest message is the first line. */
    method Collect(fmt: Format) returns (lines: array<string>, currLine: nat, ghost page: seq<string>)
      requires Valid()
      ensures IsPage(fmt, Latest(history), page) && |page| == currLine <= lines.Length == MAX_PAGE_LINES
      ensures fresh(lines) && page == Reversed(lines[..currLine])
    {
      lines := new string[MAX_PAGE_LINES](_ => "");
      currLine := 0;
      page := [];
      var outputLines: nat, currMsg: nat := 0, head;
      ghost var ms := Latest(history);
      ghost var buf := msg[..];
      Backwards(tail, |ms|, currMsg);
      while currMsg != tail && outputLines < MAX_PAGE_LINES
        invariant currLine == |page| <= |ms| && currLine <= MAX_PAGE_LINES && msg[..] == buf
        invariant currMsg == Slot(tail, |ms| - currLine) && (currMsg == tail <==> currLine == |ms|)
        invariant Walked(fmt, ms, page, outputLines)
        invariant page == Reversed(lines[..currLine])
        decreases |ms| - currLine
      {
        Backwards(tail, |ms| - currLine, currMsg);
        currMsg := (currMsg + LOG_HISTORY - 1) % LOG_HISTORY;
        Backwards(tail, |ms| - currLine - 1, currMsg);
        page, outputLines := WalkOne(fmt, msg[currMsg], lines, currLine, outputLines, ms, page);
        currLine := currLine + 1;
      }
      WalkDone(fmt, ms, page, outputLines);
    }
  }

  /** One message further back. */
  method WalkOne(fmt: Format, text: string, lines: array<string>, currLine: nat, outputLines: nat,
                 ghost ms: seq<string>, ghost page: seq<string>)
    returns (ghost page': seq<string>, output': nat)
    requires currLine == |page| < |ms| && currLine < lines.Length && outputLines < MAX_PAGE_LINES
    requires text == ms[|ms| - currLine - 1]
    requires Walked(fmt, ms, page, outputLines) && page == Reversed(lines[..currLine])
    modifies lines
    ensures |page'| == currLine + 1 && Walked(fmt, ms, page', output') && page' == Reversed(lines[..currLine + 1])
  {
    page' := WalkBack(fmt, ms, page, outputLines);
    ghost var before := lines[..currLine];
    lines[currLine] := Cut(fmt(text));
    ReversedSnoc(before, lines[currLine]);
    assert lines[..currLine + 1] == before + [lines[currLine]];
    var breaks := CountNewLines(lines[currLine]);
    output' := outputLines + breaks + 1;
  }

  /** Going backwards through the ring, wrapping around. */
  lemma Backwards(tail: nat, n: nat, cur: nat)
    requires tail < LOG_HISTORY && n < LOG_HISTORY && cur == Slot(tail, n)
    ensures cur < LOG_HISTORY && (cur == tail <==> n == 0)
    ensures n > 0 ==> (cur + LOG_HISTORY - 1) % LOG_HISTORY == Slot(tail, n - 1)
  {
  }

  lemma LatestNext(history: seq<string>, m: string)
    ensures var c := Latest(history);
            Latest(history + [m]) == if |c| < LOG_HISTORY - 1 then c + [m] else c[1..] + [m]
  {
  }

  /** The walk back so far: `page` is the end of the messages and takes `rows` rows. */
  ghost predicate Walked(fmt: Format, ms: seq<string>, page: seq<string>, rows: nat) {
    && |page| <= |ms| && page == Shown(fmt, ms[|ms| - |page|..]) && rows == Rows(page) >= |page|
    && (page != [] ==> Rows(page[1..]) < MAX_PAGE_LINES)
  }

  lemma WalkDone(fmt: Format, ms: seq<string>, page: seq<string>, rows: nat)
    requires Walked(fmt, ms, page, rows) && (|page| == |ms| || rows >= MAX_PAGE_LINES)
    ensures IsPage(fmt, ms, page)
  {
  }

  lemma WalkBack(fmt: Format, ms: seq<string>, page: seq<string>, rows: nat) returns (page': seq<string>)
    requires Walked(fmt, ms, page, rows) && |page| < |ms| && rows < MAX_PAGE_LINES
    ensures page' == [Cut(fmt(ms[|ms| - |page| - 1]))] + page
    ensures Walked(fmt, ms, page', rows + NewLines(page'[0]) + 1)
  {
    page' := [Cut(fmt(ms[|ms| - |page| - 1]))] + page;
    ShownCons(fmt, ms, |ms| - |page| - 1);
    assert page'[1..] == page;
  }

  function Reversed(s: seq<string>): (r: seq<string>)
    ensures |r| == |s|
  {
    if s == [] then [] else [s[|s| - 1]] + Reversed(s[..|s| - 1])
  }

  lemma ReversedSnoc(s: seq<string>, x: string)
    ensures Reversed(s + [x]) == [x] + Reversed(s)
  {
    assert (s + [x])[..|s|] == s;
  }

  lemma RowsFromCons(row: nat, text: string, texts: seq<string>)
    ensures RowsFrom(row, [text] + texts) == [row] + RowsFrom(row + 1 + NewLines(text), texts)
  {
    assert ([text] + texts)[1..] == texts;
  }

  /** Prints the lines in chronological order, each further down by the rows of those before it. */
  method Print(lines: array<string>, count: nat, ghost page: seq<string>) returns (rows: seq<nat>, texts: seq<string>)
    requires count <= lines.Length && page == Reversed(lines[..count])
    ensures texts == page && rows == RowsFrom(3, page)
  {
    rows, texts := [], [];
    var row, currLine := 3, count;
    ghost var left := page;
    while currLine > 0
      invariant 0 <= currLine <= count && left == Reversed(lines[..currLine]) && page == texts + left
      invariant RowsFrom(3, page) == rows + RowsFrom(row, left)
    {
      currLine := currLine - 1;
      var text := lines[currLine];
      assert lines[..currLine + 1] == lines[..currLine] + [text];
      ReversedSnoc(lines[..currLine], text);
      left := Reversed(lines[..currLine]);
      RowsFromCons(row, text, left);
      rows, texts := rows + [row], texts + [text];
      var breaks := CountNewLines(text);
      row := row + 1 + breaks;
    }
  }
}
