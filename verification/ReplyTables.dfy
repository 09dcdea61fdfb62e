/**
  Rows without heads, and tables whose columns interpret their cells.
*/
module ReplyTables {
  import opened Text
  import opened ReplyWalker

  // ---------- rows without heads ----------

  function ShowRows(d: Decoder, st: State, n: int): (r: State)
    requires Forward(d)
    ensures |r.rest| <= |st.rest|
    decreases n
  {
    if n <= 0 || st.error then st
    else
      var (tag, st) := ReadTag(st);
      ShowRows(d, Put(Walk(d, st, tag, "", 0), "\n"), n - 1)
  }

  lemma UnfoldShowRows(d: Decoder, st: State, n: int)
    requires Forward(d)
    ensures ShowRows(d, st, n) ==
      if n <= 0 || st.error then st
      else var (tag, mid) := ReadTag(st); ShowRows(d, Put(Walk(d, mid, tag, "", 0), "\n"), n - 1)
  {}

  function RowLines(rows: seq<Val>): string {
    if rows == [] then "" else Render(rows[0], 0) + "\n" + RowLines(rows[1..])
  }

  // A reply of plain rows is consumed whole, one line a row.
  lemma {:induction false} ShowPlainRows(d: Decoder, rows: seq<Val>, st: State, rest: seq<Cell>)
    requires Forward(d) && (forall i :: 0 <= i < |rows| ==> Plain(rows[i])) && Stands(st, EncodeAll(rows), rest)
    ensures ShowRows(d, st, |rows|) == Put(st.(rest := rest), RowLines(rows))
  {
    if rows == [] {
      assert [] + rest == rest && st.out + "" == st.out;
    } else {
      var more := EncodeAll(rows[1..]) + rest;
      Associative(Encode(rows[0]), EncodeAll(rows[1..]), rest);
      WalkEncoded(d, rows[0], st, more, 0);
      var line := Render(rows[0], 0) + "\n";
      Associative(st.out, Render(rows[0], 0), "\n");
      ShowPlainRows(d, rows[1..], Put(st.(rest := more), line), rest);
      Associative(st.out, line, RowLines(rows[1..]));
    }
  }

  // ---------- tables ----------

  // mpack_expect_str_buf with a buffer of 128 bytes.
  function ReadName(st: State): (r: (string, State))
    ensures |r.1.rest| <= |st.rest|
  {
    var (tag, st) := ReadTag(st);
    if !tag.Str? || tag.len > 128 then ("", st.(error := true)) else ReadString(st, tag.len)
  }

  // A title is printed by the printers that show their heads.
  function TitleText(name: string, titles: bool): string {
    if titles then Column(Title(name)) else ""
  }

  function Blanks(n: nat): (r: seq<string>)
    ensures |r| == n && forall i :: 0 <= i < n ==> r[i] == ""
  {
    seq(n, _ => "")
  }

  // The head row: the titles are printed, the specifications kept by column.
  function ReadHeads(st: State, n: nat, titles: bool): (r: (seq<string>, State))
    ensures |r.0| == n && |r.1.rest| <= |st.rest|
    decreases n
  {
    if n == 0 then ([], st)
    else if st.error then (Blanks(n), st)
    else
      var (name, st) := ReadName(st);
      var (heads, st) := ReadHeads(Put(st, TitleText(name, titles)), n - 1, titles);
      ([Spec(name)] + heads, st)
  }

  // The head row is read from `start`; i columns are still to come.
  ghost predicate HeadsSoFar(start: State, now: State, columns: nat, i: nat, heads: seq<string>, titles: bool) {
    && |heads| == columns && i <= columns
    && (forall j :: columns - i <= j < columns ==> heads[j] == "")
    && (heads[..columns - i] + ReadHeads(now, i, titles).0, ReadHeads(now, i, titles).1) ==
         ReadHeads(start, columns, titles)
  }

  lemma HeadsStart(start: State, columns: nat, titles: bool)
    ensures HeadsSoFar(start, start, columns, columns, Blanks(columns), titles)
  {
    assert Blanks(columns)[..0] + ReadHeads(start, columns, titles).0 == ReadHeads(start, columns, titles).0;
  }

  lemma HeadsStep(start: State, now: State, columns: nat, i: nat, heads: seq<string>, titles: bool)
    requires HeadsSoFar(start, now, columns, i, heads, titles) && i > 0 && !now.error
    ensures var (name, after) := ReadName(now);
      HeadsSoFar(start, Put(after, TitleText(name, titles)), columns, i - 1, heads[columns - i := Spec(name)], titles)
  {
    var (name, after) := ReadName(now);
    var k := columns - i;
    assert heads[k := Spec(name)][..k + 1] == heads[..k] + [Spec(name)];
    Associative(heads[..k], [Spec(name)], ReadHeads(Put(after, TitleText(name, titles)), i - 1, titles).0);
  }

  lemma HeadsEnd(start: State, now: State, columns: nat, i: nat, heads: seq<string>, titles: bool)
    requires HeadsSoFar(start, now, columns, i, heads, titles) && (i == 0 || now.error)
    ensures (heads, now) == ReadHeads(start, columns, titles)
  {
    assert heads == heads[..columns - i] + ReadHeads(now, i, titles).0;
  }

  function Dashes(n: nat): string {
    if n == 0 then "" else Dashes(n - 1) + "-"
  }

  const RULE := Dashes(76) + "\n"

  // The element count found in a row's tag.
  function Count(tag: MTag): nat {
    match tag
    case Array(n) => n
    case Map(n) => n
    case Str(len) => len
    case Uint(v) => v % 0x1_0000_0000
    case Other => 0
  }

  function HeadOf(heads: seq<string>, j: nat): string {
    if j < |heads| then heads[j] else ""
  }

  function WalkCells(d: Decoder, st: State, heads: seq<string>, j: nat, n: nat, depth: nat): (r: State)
    requires Forward(d) && j <= n
    ensures |r.rest| <= |st.rest|
    decreases n - j
  {
    if j == n then st
    else
      var (tag, st) := ReadTag(st);
      WalkCells(d, Walk(d, st, tag, HeadOf(heads, j), depth), heads, j + 1, n, depth)
  }

  function WalkOneRow(d: Decoder, st: State, heads: seq<string>, depth: nat): (r: State)
    requires Forward(d)
    ensures |r.rest| <= |st.rest|
  {
    var (tag, st) := ReadTag(st);
    Put(WalkCells(d, st, heads, 0, Count(tag), depth), "\n")
  }

  function WalkRows(d: Decoder, st: State, heads: seq<string>, n: int, depth: nat): (r: State)
    requires Forward(d)
    ensures |r.rest| <= |st.rest|
    decreases n
  {
    if n <= 0 || st.error then st else WalkRows(d, WalkOneRow(d, st, heads, depth), heads, n - 1, depth)
  }

  function ShowTable(d: Decoder, st: State, columns: nat, n: int): (r: State)
    requires Forward(d)
    ensures |r.rest| <= |st.rest|
  {
    var (heads, st) := ReadHeads(st, columns, true);
    WalkRows(d, Put(Put(st, "\n"), RULE), heads, n, 0)
  }

  // ---------- what a table shows ----------

  // A cell that its column can show: any plain value, but no array with elements under
  // a specification.
  predicate Fits(head: string, v: Val) {
    Plain(v) && (head == "" || (Interprets(head) && (v.VArray? ==> v.items == [])))
  }

  ghost predicate NotWider(heads: seq<string>, rows: seq<seq<Val>>) {
    forall r :: 0 <= r < |rows| ==> |rows[r]| <= |heads|
  }

  ghost predicate FitsAll(heads: seq<string>, rows: seq<seq<Val>>) {
    && NotWider(heads, rows)
    && forall r, c :: 0 <= r < |rows| && 0 <= c < |rows[r]| ==> Fits(heads[c], rows[r][c])
  }

  // The values that a specification interprets, and the number that each counts as.
  predicate IsScalar(v: Val) {
    v.VUint? || v.VStr?
  }

  function NumberIn(v: Val): int {
    if v.VUint? then Int32(v.v) else 0
  }

  predicate IsUp(v: Val) {
    NumberIn(v) != 0
  }

  function CellText(head: string, v: Val, link: bool, depth: nat): string {
    if head == "" || !IsScalar(v) then Render(v, depth)
    else if head == "%l" then Column(if IsUp(v) then "up" else "down")
    else if head == "%o" then Column(if IsUp(v) then "on" else "off")
    else if head == "%S" then Column(if link then SpeedText(NumberIn(v)) else DASHES)
    else Column(if !link then DASHES else if IsUp(v) then "half" else "full")
  }

  // The link flag after a cell.
  function LinkAfter(head: string, v: Val, link: bool): bool {
    if head == "%l" && IsScalar(v) then IsUp(v) else link
  }

  predicate IsLinkCell(heads: seq<string>, rows: seq<seq<Val>>, r: nat, c: nat) {
    r < |rows| && c < |rows[r]| && c < |heads| && heads[c] == "%l" && IsScalar(rows[r][c])
  }

  // The link flag before cell (r, c), going back cell by cell.
  function LinkAt(heads: seq<string>, rows: seq<seq<Val>>, link: bool, r: nat, c: nat): bool
    decreases r, c
  {
    if c > 0 then
      if IsLinkCell(heads, rows, r, c - 1) then IsUp(rows[r][c - 1]) else LinkAt(heads, rows, link, r, c - 1)
    else if r > 0 then LinkAt(heads, rows, link, r - 1, if r <= |rows| then |rows[r - 1]| else 0)
    else link
  }

  // The lines from cell (r, c) on.
  function TableText(heads: seq<string>, rows: seq<seq<Val>>, link: bool, r: nat, c: nat, depth: nat): string
    decreases |rows| - r, if r < |rows| then |rows[r]| - c else 0
  {
    if r >= |rows| then ""
    else if c >= |rows[r]| then "\n" + TableText(heads, rows, link, r + 1, 0, depth)
    else
      CellText(HeadOf(heads, c), rows[r][c], LinkAt(heads, rows, link, r, c), depth)
      + TableText(heads, rows, link, r, c + 1, depth)
  }

  function EncodeRows(rows: seq<seq<Val>>): seq<Cell> {
    if rows == [] then [] else Encode(VArray(rows[0])) + EncodeRows(rows[1..])
  }

  lemma WalkCell(d: Decoder, head: string, v: Val, st: State, rest: seq<Cell>, depth: nat)
    requires Forward(d) && Fits(head, v) && Stands(st, Encode(v), rest)
    ensures var (tag, after) := ReadTag(st);
      Walk(d, after, tag, head, depth) ==
        Put(st.(rest := rest, link := LinkAfter(head, v, st.link)), CellText(head, v, st.link, depth))
  {
    ReadTagOf(v, st, rest);
    if head == "" || v.VMap? {
      WalkEncoded(d, v, st, rest, depth);
      assert [] + rest == rest;
    } else {
      assert [] + rest == rest;
      if v.VStr? {
        ReadStringOf(v.s, st.(rest := Payload(v) + rest), rest);
      }
    }
  }

  // Under a head that interprets, a plain cell of any kind is consumed exactly when it
  // is not an array with elements.
  lemma HeadedCellConsumedIff(d: Decoder, head: string, v: Val, st: State, rest: seq<Cell>, depth: nat)
    requires Forward(d) && Interprets(head) && Plain(v) && Stands(st, Encode(v), rest)
    ensures var (tag, after) := ReadTag(st);
      Walk(d, after, tag, head, depth).rest == rest <==> !(v.VArray? && v.items != [])
  {
    if v.VArray? && v.items != [] {
      ReadTagOf(v, st, rest);
      assert |EncodeAll(v.items)| > 0;
    } else {
      WalkCell(d, head, v, st, rest, depth);
    }
  }

  lemma {:induction false} WalkRow(d: Decoder, heads: seq<string>, rows: seq<seq<Val>>, link: bool, r: nat, c: nat,
      st: State, rest: seq<Cell>, depth: nat)
    returns (text: string)
    requires Forward(d) && FitsAll(heads, rows) && r < |rows| && c <= |rows[r]|
    requires Stands(st, EncodeAll(rows[r][c..]), rest) && st.link == LinkAt(heads, rows, link, r, c)
    ensures WalkCells(d, st, heads, c, |rows[r]|, depth) ==
      Put(st.(rest := rest, link := LinkAt(heads, rows, link, r, |rows[r]|)), text)
    ensures TableText(heads, rows, link, r, c, depth) == text + TableText(heads, rows, link, r, |rows[r]|, depth)
    decreases |rows[r]| - c
  {
    if c == |rows[r]| {
      text := "";
      assert [] + rest == rest && st.out + "" == st.out;
    } else {
      var v := rows[r][c];
      var more := EncodeAll(rows[r][c + 1..]) + rest;
      assert rows[r][c..][0] == v && rows[r][c..][1..] == rows[r][c + 1..];
      Associative(Encode(v), EncodeAll(rows[r][c + 1..]), rest);
      WalkCell(d, heads[c], v, st, more, depth);
      var own := CellText(heads[c], v, st.link, depth);
      var next := Put(st.(rest := more, link := LinkAfter(heads[c], v, st.link)), own);
      var tail := WalkRow(d, heads, rows, link, r, c + 1, next, rest, depth);
      text := own + tail;
      Associative(st.out, own, tail);
      Associative(own, tail, TableText(heads, rows, link, r, |rows[r]|, depth));
    }
  }

  // A row and its line.
  lemma WalkWholeRow(d: Decoder, heads: seq<string>, rows: seq<seq<Val>>, link: bool, r: nat, st: State,
      rest: seq<Cell>, depth: nat)
    returns (line: string)
    requires Forward(d) && FitsAll(heads, rows) && r < |rows|
    requires Stands(st, Encode(VArray(rows[r])), rest) && st.link == LinkAt(heads, rows, link, r, 0)
    ensures WalkOneRow(d, st, heads, depth) == State(rest, false, LinkAt(heads, rows, link, r + 1, 0), st.out + line)
    ensures TableText(heads, rows, link, r, 0, depth) == line + TableText(heads, rows, link, r + 1, 0, depth)
  {
    ReadTagOf(VArray(rows[r]), st, rest);
    assert rows[r][0..] == rows[r];
    var text := WalkRow(d, heads, rows, link, r, 0, st.(rest := EncodeAll(rows[r]) + rest), rest, depth);
    line := text + "\n";
    Associative(st.out, text, "\n");
    Associative(text, "\n", TableText(heads, rows, link, r + 1, 0, depth));
  }

  lemma UnfoldRows(d: Decoder, st: State, heads: seq<string>, n: int, depth: nat)
    requires Forward(d)
    ensures WalkRows(d, st, heads, n, depth) ==
      if n <= 0 || st.error then st else WalkRows(d, WalkOneRow(d, st, heads, depth), heads, n - 1, depth)
  {}

  lemma EncodeFirstRow(rows: seq<seq<Val>>, r: nat, rest: seq<Cell>)
    requires r < |rows|
    ensures EncodeRows(rows[r..]) + rest == Encode(VArray(rows[r])) + (EncodeRows(rows[r + 1..]) + rest)
  {
    assert rows[r..][0] == rows[r] && rows[r..][1..] == rows[r + 1..];
    Associative(Encode(VArray(rows[r])), EncodeRows(rows[r + 1..]), rest);
  }

  lemma TableEnds(d: Decoder, heads: seq<string>, rows: seq<seq<Val>>, link: bool, st: State, rest: seq<Cell>,
      depth: nat)
    requires Forward(d) && FitsAll(heads, rows)
    requires Stands(st, EncodeRows(rows[|rows|..]), rest) && st.link == LinkAt(heads, rows, link, |rows|, 0)
    ensures WalkRows(d, st, heads, 0, depth) ==
      State(rest, false, LinkAt(heads, rows, link, |rows|, 0), st.out + TableText(heads, rows, link, |rows|, 0, depth))
  {
    assert [] + rest == rest && st.out + "" == st.out;
  }

  // One row leads from its place in the table to the next.
  lemma TableStep(d: Decoder, heads: seq<string>, rows: seq<seq<Val>>, link: bool, r: nat, st: State, rest: seq<Cell>,
      depth: nat)
    returns (line: string)
    requires Forward(d) && FitsAll(heads, rows) && r < |rows|
    requires Stands(st, EncodeRows(rows[r..]), rest) && st.link == LinkAt(heads, rows, link, r, 0)
    ensures WalkRows(d, st, heads, |rows| - r, depth) ==
      WalkRows(d, State(EncodeRows(rows[r + 1..]) + rest, false, LinkAt(heads, rows, link, r + 1, 0), st.out + line),
        heads, |rows| - r - 1, depth)
    ensures TableText(heads, rows, link, r, 0, depth) == line + TableText(heads, rows, link, r + 1, 0, depth)
  {
    EncodeFirstRow(rows, r, rest);
    line := WalkWholeRow(d, heads, rows, link, r, st, EncodeRows(rows[r + 1..]) + rest, depth);
    UnfoldRows(d, st, heads, |rows| - r, depth);
  }

  // The rows of a table are consumed exactly, and every cell is shown with the link
  // flag that stands before it.
  lemma {:induction false} WalkTable(d: Decoder, heads: seq<string>, rows: seq<seq<Val>>, link: bool, r: nat, st: State,
      rest: seq<Cell>, depth: nat)
    requires Forward(d) && FitsAll(heads, rows) && r <= |rows|
    requires Stands(st, EncodeRows(rows[r..]), rest) && st.link == LinkAt(heads, rows, link, r, 0)
    ensures WalkRows(d, st, heads, |rows| - r, depth) ==
      State(rest, false, LinkAt(heads, rows, link, |rows|, 0), st.out + TableText(heads, rows, link, r, 0, depth))
    decreases |rows| - r
  {
    hide *;
    if r == |rows| {
      TableEnds(d, heads, rows, link, st, rest, depth);
    } else {
      var line := TableStep(d, heads, rows, link, r, st, rest, depth);
      var cells := EncodeRows(rows[r + 1..]);
      var next := State(cells + rest, false, LinkAt(heads, rows, link, r + 1, 0), st.out + line);
      StandsAt(next, cells, rest);
      WalkTable(d, heads, rows, link, r + 1, next, rest, depth);
      Associative(st.out, line, TableText(heads, rows, link, r + 1, 0, depth));
    }
  }

  // ---------- which link cell decides ----------

  ghost predicate Earlier(r: nat, c: nat, r': nat, c': nat) {
    r < r' || (r == r' && c < c')
  }

  // (p, q) is the last link cell before (r, c) in row-major order.
  ghost predicate IsLatest(heads: seq<string>, rows: seq<seq<Val>>, p: nat, q: nat, r: nat, c: nat) {
    && IsLinkCell(heads, rows, p, q) && Earlier(p, q, r, c)
    && forall r': nat, c': nat :: IsLinkCell(heads, rows, r', c') && Earlier(p, q, r', c') ==> !Earlier(r', c', r, c)
  }

  // The flag before a cell is that of the most recent link cell, or the initial one
  // when there is none.
  lemma {:induction false} LatestLinkDecides(heads: seq<string>, rows: seq<seq<Val>>, link: bool, r: nat, c: nat)
    requires r <= |rows| && (if r < |rows| then c <= |rows[r]| else c == 0)
    ensures forall p: nat, q: nat :: IsLatest(heads, rows, p, q, r, c) ==>
      LinkAt(heads, rows, link, r, c) == IsUp(rows[p][q])
    ensures (forall p: nat, q: nat :: IsLinkCell(heads, rows, p, q) ==> !Earlier(p, q, r, c)) ==>
      LinkAt(heads, rows, link, r, c) == link
    decreases r, c
  {
    if c > 0 {
      if IsLinkCell(heads, rows, r, c - 1) {
        assert Earlier(r, c - 1, r, c);
        assert forall p: nat, q: nat :: IsLatest(heads, rows, p, q, r, c) ==> !Earlier(p, q, r, c - 1);
      } else {
        LatestLinkDecides(heads, rows, link, r, c - 1);
        forall p: nat, q: nat | IsLatest(heads, rows, p, q, r, c)
          ensures IsLatest(heads, rows, p, q, r, c - 1)
        {}
      }
    } else if r > 0 {
      LatestLinkDecides(heads, rows, link, r - 1, |rows[r - 1]|);
      forall p: nat, q: nat | IsLatest(heads, rows, p, q, r, c)
        ensures IsLatest(heads, rows, p, q, r - 1, |rows[r - 1]|)
      {}
    }
  }

  lemma ColumnFirst(s: string)
    requires |s| < 15
    ensures Column(s)[0] == if s == "" then ' ' else s[0]
    ensures |s| <= |Column(s)| && forall i :: 0 <= i < |s| ==> Column(s)[i] == s[i]
  {
    PadIs(s, 15);
  }

  // A duplex cell is dashed exactly when the link is down. A speed cell is dashed then
  // too, and also for speed code 0, which is what a string counts as.
  lemma DashedIff(v: Val, link: bool, depth: nat)
    requires IsScalar(v)
    ensures CellText("%d", v, link, depth) == Column(DASHES) <==> !link
    ensures CellText("%S", v, link, depth) == Column(DASHES) <==> !link || NumberIn(v) == 0
  {
    ColumnFirst(DASHES);
    ColumnFirst("half");
    ColumnFirst("full");
    ColumnFirst(SpeedText(NumberIn(v)));
  }

  // ---------- a whole table ----------

  function EncodeNames(names: seq<string>): seq<Cell> {
    if names == [] then [] else Encode(VStr(names[0])) + EncodeNames(names[1..])
  }

  function Specs(names: seq<string>): (r: seq<string>)
    ensures |r| == |names| && forall i :: 0 <= i < |names| ==> r[i] == Spec(CString(names[i]))
  {
    if names == [] then [] else [Spec(CString(names[0]))] + Specs(names[1..])
  }

  // What the head row prints.
  function Heading(names: seq<string>, titles: bool): string {
    if names == [] then "" else TitleText(CString(names[0]), titles) + Heading(names[1..], titles)
  }

  lemma {:induction false} NoHeading(names: seq<string>)
    ensures Heading(names, false) == ""
  {
    if names != [] {
      NoHeading(names[1..]);
    }
  }

  lemma ReadNameOf(name: string, st: State, rest: seq<Cell>)
    requires |name| <= 128 && Stands(st, Encode(VStr(name)), rest)
    ensures ReadName(st) == (CString(name), st.(rest := rest))
  {
    ReadTagOf(VStr(name), st, rest);
    ReadStringOf(name, st.(rest := Bytes(name) + rest), rest);
  }

  lemma ReadOneHead(names: seq<string>, st: State, rest: seq<Cell>, titles: bool)
    requires names != [] && |names[0]| <= 128 && Stands(st, EncodeNames(names), rest)
    ensures var more := st.(rest := EncodeNames(names[1..]) + rest);
      var (heads, after) := ReadHeads(Put(more, TitleText(CString(names[0]), titles)), |names| - 1, titles);
      ReadHeads(st, |names|, titles) == ([Spec(CString(names[0]))] + heads, after)
  {
    Associative(Encode(VStr(names[0])), EncodeNames(names[1..]), rest);
    ReadNameOf(names[0], st, EncodeNames(names[1..]) + rest);
  }

  lemma {:induction false} ReadAllHeads(names: seq<string>, st: State, rest: seq<Cell>, titles: bool)
    requires (forall i :: 0 <= i < |names| ==> |names[i]| <= 128) && Stands(st, EncodeNames(names), rest)
    ensures ReadHeads(st, |names|, titles) ==
      (Specs(names), State(rest, false, st.link, st.out + Heading(names, titles)))
  {
    if names == [] {
      assert [] + rest == rest && st.out + "" == st.out;
    } else {
      hide ReadHeads, ReadName;
      var title := TitleText(CString(names[0]), titles);
      ReadOneHead(names, st, rest, titles);
      var next := State(EncodeNames(names[1..]) + rest, false, st.link, st.out + title);
      ReadAllHeads(names[1..], next, rest, titles);
      Associative(st.out, title, Heading(names[1..], titles));
    }
  }

  lemma WalkAllRows(d: Decoder, heads: seq<string>, rows: seq<seq<Val>>, st: State, rest: seq<Cell>, depth: nat)
    requires Forward(d) && FitsAll(heads, rows) && Stands(st, EncodeRows(rows), rest)
    ensures WalkRows(d, st, heads, |rows|, depth) == State(rest, false, LinkAt(heads, rows, st.link, |rows|, 0),
      st.out + TableText(heads, rows, st.link, 0, 0, depth))
  {
    assert rows[0..] == rows && LinkAt(heads, rows, st.link, 0, 0) == st.link;
    hide *;
    WalkTable(d, heads, rows, st.link, 0, st, rest, depth);
  }

  // A table with a head row is consumed exactly and shown with every cell under the
  // link flag that stands before it; the flag stays behind for the next table.
  lemma TableConsumed(d: Decoder, names: seq<string>, rows: seq<seq<Val>>, st: State, rest: seq<Cell>)
    requires Forward(d) && (forall i :: 0 <= i < |names| ==> |names[i]| <= 128)
    requires FitsAll(Specs(names), rows) && Stands(st, EncodeNames(names) + EncodeRows(rows), rest)
    ensures ShowTable(d, st, |names|, |rows|) == State(rest, false, LinkAt(Specs(names), rows, st.link, |rows|, 0),
      st.out + Heading(names, true) + "\n" + RULE + TableText(Specs(names), rows, st.link, 0, 0, 0))
  {
    hide WalkRows, TableText, LinkAt, ReadHeads, EncodeRows, EncodeNames, Specs, Heading, FitsAll;
    var cells := EncodeRows(rows) + rest;
    Associative(EncodeNames(names), EncodeRows(rows), rest);
    ReadAllHeads(names, st, cells, true);
    var start := State(cells, false, st.link, st.out + Heading(names, true) + "\n" + RULE);
    WalkAllRows(d, Specs(names), rows, start, rest, 0);
  }
}
