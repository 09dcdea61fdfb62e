/**
  Reading what a reply shows: cells, captions and whole values, taken back from the
  printed text.
*/
module ReplyCells {
  import opened Wrappers
  import opened Text
  import opened ReplyWalker
  import opened ReplyTables
  import opened ReplyKinds
  import opened ReplyDomains

  predicate AreBlanks(s: string) {
    forall i :: 0 <= i < |s| ==> s[i] == ' '
  }

  // ---------- cells ----------

  // Digits from the first character on, then blanks, at least one, up to 8 columns.
  ghost predicate IsNumberCell(text: string, n: int) {
    && |text| >= 8 && !IsSpace(text[0])
    && match ScanInt(text)
       case Some((m, blanks)) => m == n && blanks != "" && AreBlanks(blanks) && (|text| == 8 || |blanks| == 1)
       case None => false
  }

  // The string, then blanks, at least one, up to width + 1 columns.
  ghost predicate IsStringCell(text: string, s: string, width: nat) {
    && s < text && AreBlanks(text[|s|..])
    && |text| == 1 + if |s| < width then width else |s|
  }

  lemma PaddedIs(s: string, width: nat)
    ensures IsStringCell(Pad(s, width) + " ", s, width)
    ensures Pad(s, width) + " " == s + (Pad(s, width) + " ")[|s|..]
  {
    PadIs(s, width);
  }

  // A number is shown by its digits.
  lemma NumberCell(v: U64)
    ensures IsNumberCell(UintText(v), Signed64(v))
  {
    var digits := DecInt(Signed64(v));
    PaddedIs(digits, 7);
    var blanks := UintText(v)[|digits|..];
    DecIntSign(Signed64(v));
    assert digits[0] == '-' || IsDigit(digits[0]) by {
      assert Signed64(v) >= 0 ==> IsDigit(Dec(Signed64(v))[0]);
    }
    assert blanks[0] == ' ';
    ScanDecInt(Signed64(v), blanks);
  }

  // And is read whatever follows its cell.
  lemma NumberCellReads(v: U64, more: string) returns (blanks: string)
    ensures blanks != "" && AreBlanks(blanks)
    ensures ScanInt(UintText(v) + more) == Some((Signed64(v), blanks + more))
  {
    var digits := DecInt(Signed64(v));
    PaddedIs(digits, 7);
    blanks := UintText(v)[|digits|..];
    assert blanks[0] == ' ';
    Associative(digits, blanks, more);
    ScanDecInt(Signed64(v), blanks + more);
  }

  lemma StringCell(s: string)
    ensures IsStringCell(StringText(s), s, 20)
  {
    PaddedIs(s, 20);
  }

  lemma ColumnCell(s: string)
    ensures IsStringCell(Column(s), s, 15)
  {
    PaddedIs(s, 15);
  }

  // Equal cells show strings that differ at most in the blanks at their ends.
  lemma StringCellsAlike(text: string, s: string, t: string, width: nat)
    requires IsStringCell(text, s, width) && IsStringCell(text, t, width) && |s| <= |t|
    ensures s <= t && AreBlanks(t[|s|..])
  {
    assert t == text[..|t|] && s == text[..|s|];
    assert forall i :: |s| <= i < |t| ==> t[i] == text[|s|..][i - |s|];
  }

  // ---------- whole values ----------

  function Concat(parts: seq<string>): string {
    if parts == [] then "" else parts[0] + Concat(parts[1..])
  }

  // What a text must be to show a value at some depth: numbers and strings in their
  // cells, empty arrays by dashes, and the parts of the others in order.
  ghost predicate ShowsValue(text: string, v: Val, depth: nat)
    decreases v, 0
  {
    match v
    case VUint(n) => IsNumberCell(text, Signed64(n))
    case VStr(s) => IsStringCell(text, CString(s), 20)
    case VArray(items) =>
      if items == [] then ShowsDashes(text, depth)
      else exists parts: seq<string> :: text == Concat(parts) && ShowsAll(parts, items, depth)
    case VMap(entries) =>
      exists parts: seq<string> :: text == Concat(parts) && ShowsEntries(parts, entries, depth)
    case VOther => text == ""
  }

  ghost predicate ShowsAll(parts: seq<string>, items: seq<Val>, depth: nat)
    decreases items, 1
  {
    |parts| == |items| && forall i :: 0 <= i < |items| ==> ShowsValue(parts[i], items[i], depth)
  }

  ghost predicate ShowsEntries(parts: seq<string>, entries: seq<Entry>, depth: nat)
    decreases entries, 1
  {
    |parts| == |entries| && forall i :: 0 <= i < |entries| ==> ShowsEntry(parts[i], entries[i], depth)
  }

  // A string key is a caption before its value, indented by depth.
  ghost predicate ShowsEntry(text: string, e: Entry, depth: nat)
    decreases e, 0
  {
    exists key: string, value: string :: text == key + value && ShowsValue(value, e.value, depth)
      && if e.key.VStr? then IsCaption(key, CString(e.key.s), depth) else ShowsValue(key, e.key, depth)
  }

  // Four columns a level, for two levels.
  function Margin(depth: nat): nat {
    if depth < 2 then 4 * (depth + 1) else 0
  }

  predicate IsCaption(text: string, name: string, depth: nat) {
    && |text| == Margin(depth) + |name| + 2 && AreBlanks(text[..Margin(depth)])
    && text[Margin(depth)..] == name + ": "
  }

  predicate ShowsDashes(text: string, depth: nat) {
    |text| == Margin(depth) + 3 && AreBlanks(text[..Margin(depth)]) && text[Margin(depth)..] == "-- "
  }

  lemma IndentIs(depth: nat)
    ensures |Indent(depth)| == Margin(depth) && AreBlanks(Indent(depth))
  {}

  lemma CaptionIs(name: string, depth: nat)
    ensures IsCaption(Indent(depth) + name + ": ", name, depth)
  {
    IndentIs(depth);
    Associative(Indent(depth), name, ": ");
  }

  lemma DashesShown(depth: nat)
    ensures ShowsDashes(Indent(depth) + "-- ", depth)
  {
    IndentIs(depth);
  }

  lemma {:induction false} Rendered(v: Val, depth: nat)
    ensures ShowsValue(Render(v, depth), v, depth)
    decreases v, 0
  {
    match v
    case VUint(n) => NumberCell(n);
    case VStr(s) => StringCell(CString(s));
    case VArray(items) =>
      if items == [] {
        DashesShown(depth);
      } else {
        var parts := RenderedAll(items, depth);
      }
    case VMap(entries) =>
      var parts := RenderedEntries(entries, depth);
    case VOther =>
  }

  lemma {:induction false} RenderedAll(items: seq<Val>, depth: nat) returns (parts: seq<string>)
    ensures RenderAll(items, depth) == Concat(parts) && ShowsAll(parts, items, depth)
    decreases items, 1
  {
    if items == [] {
      parts := [];
    } else {
      Rendered(items[0], depth);
      var rest := RenderedAll(items[1..], depth);
      parts := [Render(items[0], depth)] + rest;
      assert parts[1..] == rest;
    }
  }

  lemma {:induction false} RenderedEntries(entries: seq<Entry>, depth: nat) returns (parts: seq<string>)
    ensures RenderEntries(entries, depth) == Concat(parts) && ShowsEntries(parts, entries, depth)
    decreases entries, 1
  {
    if entries == [] {
      parts := [];
    } else {
      RenderedEntry(entries[0], depth);
      var rest := RenderedEntries(entries[1..], depth);
      parts := [RenderEntry(entries[0], depth)] + rest;
      assert parts[1..] == rest;
    }
  }

  lemma {:induction false} RenderedEntry(e: Entry, depth: nat)
    ensures ShowsEntry(RenderEntry(e, depth), e, depth)
    decreases e, 0
  {
    Rendered(e.value, depth);
    if e.key.VStr? {
      var name := CString(e.key.s);
      CaptionIs(name, depth);
      assert RenderEntry(e, depth) == (Indent(depth) + name + ": ") + Render(e.value, depth);
    } else {
      Rendered(e.key, depth);
      assert RenderEntry(e, depth) == Render(e.key, depth) + Render(e.value, depth);
    }
  }

  // Every plain value is consumed exactly, and the text it adds shows it.
  lemma WalkShows(d: Decoder, v: Val, st: State, rest: seq<Cell>, depth: nat) returns (text: string)
    requires Forward(d) && Plain(v) && Stands(st, Encode(v), rest)
    ensures var (tag, after) := ReadTag(st);
      Walk(d, after, tag, "", depth) == Put(st.(rest := rest), text)
    ensures ShowsValue(text, v, depth)
  {
    text := Render(v, depth);
    WalkEncoded(d, v, st, rest, depth);
    Rendered(v, depth);
  }

  // A shown number can only be that number.
  lemma NumberShown(text: string, v: U64, w: U64, depth: nat)
    requires ShowsValue(text, VUint(v), depth) && ShowsValue(text, VUint(w), depth)
    ensures v == w
  {
    Signed64Is(v);
    Signed64Is(w);
  }

  // ---------- columns under heads ----------

  // The word that a cell begins with.
  function Word(text: string): string {
    text[..Find(text, ' ')]
  }

  lemma ColumnWord(s: string)
    requires ' ' !in s
    ensures Word(Column(s)) == s
  {
    ColumnCell(s);
    var blanks := Column(s)[|s|..];
    assert Column(s) == s + blanks && blanks[0] == ' ';
    FindAfter(s, blanks, ' ');
  }

  // The number n of a cell: that of a number as an int, 0 for a string.
  predicate CountsAs(v: Val, n: int) {
    match v
    case VUint(u) => n == Int32(u)
    case VStr(_) => n == 0
    case _ => false
  }

  // What is read in a link, a switch and a duplex cell.
  lemma CellWords(v: Val, n: int, link: bool, depth: nat)
    requires CountsAs(v, n)
    ensures Word(CellText("%l", v, link, depth)) == if n != 0 then "up" else "down"
    ensures Word(CellText("%o", v, link, depth)) == if n != 0 then "on" else "off"
    ensures Word(CellText("%d", v, link, depth)) == if !link then "--" else if n != 0 then "half" else "full"
  {
    ColumnWord("up");
    ColumnWord("down");
    ColumnWord("on");
    ColumnWord("off");
    ColumnWord("--");
    ColumnWord("half");
    ColumnWord("full");
  }

  // Gigabits by speed code from 1, and the underscores after the letter.
  const GIGABITS := [1, 10, 25, 40, 40, 50, 100, 40]
  const UNDERSCORES := ["", "", "", "", "_", "", "", "__"]

  lemma SpeedWord(code: int)
    ensures ' ' !in SpeedText(code)
    ensures !(0 <= code <= 8) ==> SpeedText(code) == ""
    ensures 1 <= code <= 8 ==> SpeedText(code) == DecInt(GIGABITS[code - 1]) + ("G" + UNDERSCORES[code - 1])
  {
    assert Dec(1) == "1" && Dec(10) == "10" && Dec(25) == "25" && Dec(40) == "40" && Dec(50) == "50";
    assert Dec(100) == Dec(10) + "0";
  }

  // While the link is up a speed cell reads as its gigabits; another code reads as
  // nothing.
  lemma SpeedReads(v: Val, code: int, depth: nat)
    requires CountsAs(v, code)
    ensures var word := Word(CellText("%S", v, true, depth));
      && (1 <= code <= 8 ==> ScanInt(word) == Some((GIGABITS[code - 1], "G" + UNDERSCORES[code - 1])))
      && (!(0 <= code <= 8) ==> word == "")
  {
    SpeedWord(code);
    ColumnWord(SpeedText(code));
    if 1 <= code <= 8 {
      ScanDecInt(GIGABITS[code - 1], "G" + UNDERSCORES[code - 1]);
    }
  }

  // ---------- heads, rules and captions ----------

  // A column name is its title and, from the percent sign on, its specification.
  lemma TitleAndSpec(name: string)
    ensures Title(name) + Spec(name) == name && '%' !in Title(name)
    ensures Spec(name) == "" <==> '%' !in name
    ensures Spec(name) != "" ==> Spec(name)[0] == '%'
  {
    assert name == name[..Find(name, '%')] + name[Find(name, '%')..];
  }

  // A printed head shows the title alone.
  lemma HeadShown(name: string)
    ensures IsStringCell(TitleText(name, true), Title(name), 15)
  {
    ColumnCell(Title(name));
  }

  lemma {:induction false} DashesIs(n: nat)
    ensures |Dashes(n)| == n && forall i :: 0 <= i < n ==> Dashes(n)[i] == '-'
  {
    if n > 0 {
      DashesIs(n - 1);
    }
  }

  // 76 dashes and the end of the line.
  lemma RuleIs()
    ensures |RULE| == 77 && RULE[76] == '\n' && forall i :: 0 <= i < 76 ==> RULE[i] == '-'
  {
    DashesIs(76);
  }

  // The caption of every key of a sparse cell; user data has none, and the rule id reads
  // as a command.
  lemma CaptionOf(key: int)
    ensures match key
      case 1 => KeyCaption(key) == "add rule "
      case 2 => KeyCaption(key) == "protocol="
      case 3 => KeyCaption(key) == "ethertype="
      case 4 => KeyCaption(key) == "sip="
      case 5 => KeyCaption(key) == "dip="
      case 6 => KeyCaption(key) == "sipv6="
      case 7 => KeyCaption(key) == "dipv6="
      case 8 => KeyCaption(key) == "smac="
      case 9 => KeyCaption(key) == "dmac="
      case 10 => KeyCaption(key) == "sport="
      case 11 => KeyCaption(key) == "dport="
      case 12 => KeyCaption(key) == "tcpflag="
      case _ => KeyCaption(key) == ""
  {}

  // ---------- elements of domains ----------

  function Copies(s: string, n: nat): (r: seq<string>)
    ensures |r| == n && forall i :: 0 <= i < n ==> r[i] == s
  {
    seq(n, _ => s)
  }

  lemma {:induction false} TimesAre(s: string, n: nat)
    ensures Times(s, n) == Concat(Copies(s, n))
  {
    if n > 0 {
      TimesAre(s, n - 1);
      assert Copies(s, n)[1..] == Copies(s, n - 1);
    }
  }

  // A number among the elements of a domain is shown as often as it says, down to 32
  // bits.
  lemma NumberRepeated(v: U64)
    ensures ElementText(VUint(v)) == Concat(Copies(UintText(v), v % 0x1_0000_0000)) + "\n"
  {
    TimesAre(UintText(v), v % 0x1_0000_0000);
  }
}
