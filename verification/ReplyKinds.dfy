/**
  The kinds of reply: what each printer does with any stream, and what whole replies
  show.
*/
module ReplyKinds {
  import opened Text
  import opened ReplyWalker
  import opened ReplyTables

  // ---------- the printers ----------

  function ReadArray(st: State): (r: (nat, State))
    ensures |r.1.rest| <= |st.rest|
  {
    var (tag, st) := ReadTag(st);
    if tag.Array? then (tag.n, st) else (0, st.(error := true))
  }

  function ReadU64(st: State): (r: (U64, State))
    ensures |r.1.rest| <= |st.rest|
  {
    var (tag, st) := ReadTag(st);
    if tag.Uint? then (tag.v, st) else (0, st.(error := true))
  }

  // One group of a reply in groups: heads that are not printed, then rows.
  function ShowGroup(d: Decoder, st: State, columns: nat, n: int): (r: State)
    requires Forward(d)
    ensures |r.rest| <= |st.rest|
  {
    var (heads, st) := ReadHeads(st, columns, false);
    Put(WalkRows(d, Put(st, "\n" + RULE), heads, n, 1), RULE + "\n")
  }

  // A group's element count, its title, its heads and its rows.
  function ShowOneGroup(d: Decoder, st: State): (r: State)
    requires Forward(d)
    ensures |r.rest| <= |st.rest|
  {
    var (n, st) := ReadArray(st);
    var (tag, st) := ReadTag(st);
    var (columns, st) := ReadArray(Walk(d, st, tag, "", 0));
    ShowGroup(d, st, columns, n as int - 2)
  }

  function ShowGroups(d: Decoder, st: State, n: int): (r: State)
    requires Forward(d)
    ensures |r.rest| <= |st.rest|
    decreases n
  {
    if n <= 0 || st.error then st else ShowGroups(d, ShowOneGroup(d, st), n - 1)
  }

  lemma UnfoldGroups(d: Decoder, st: State, n: int)
    requires Forward(d)
    ensures ShowGroups(d, st, n) == if n <= 0 || st.error then st else ShowGroups(d, ShowOneGroup(d, st), n - 1)
  {}

  // The value after a tag is walked n times over.
  function WalkAgain(d: Decoder, st: State, tag: MTag, n: nat): (r: State)
    requires Forward(d)
    ensures |r.rest| <= |st.rest|
    decreases n
  {
    if n == 0 then st else WalkAgain(d, Walk(d, st, tag, "", 1), tag, n - 1)
  }

  // An element of a domain is walked as often as its tag counts.
  function ShowElement(d: Decoder, st: State): (r: State)
    requires Forward(d)
    ensures |r.rest| <= |st.rest|
  {
    var (tag, st) := ReadTag(st);
    Put(WalkAgain(d, st, tag, Count(tag)), "\n")
  }

  function ShowElements(d: Decoder, st: State, n: int): (r: State)
    requires Forward(d)
    ensures |r.rest| <= |st.rest|
    decreases n
  {
    if n <= 0 || st.error then st else ShowElements(d, ShowElement(d, st), n - 1)
  }

  lemma UnfoldElements(d: Decoder, st: State, n: int)
    requires Forward(d)
    ensures ShowElements(d, st, n) == if n <= 0 || st.error then st else ShowElements(d, ShowElement(d, st), n - 1)
  {}

  function RuleIf(ruled: bool): string {
    if ruled then RULE else ""
  }

  // A domain after its count: its title, and its other elements between rules.
  function DomainFrom(d: Decoder, st: State, n: nat): (r: State)
    requires Forward(d)
    ensures |r.rest| <= |st.rest|
  {
    var (tag, st) := ReadTag(st);
    var st := Put(Put(Walk(d, st, tag, "", 0), "\n"), RuleIf(n > 1));
    Put(Put(ShowElements(d, st, n as int - 1), RuleIf(n > 1)), "\n")
  }

  function ShowDomain(d: Decoder, st: State): (r: State)
    requires Forward(d)
    ensures |r.rest| <= |st.rest|
  {
    var (n, st) := ReadArray(st);
    DomainFrom(d, st, n)
  }

  function ShowDomains(d: Decoder, st: State, n: int): (r: State)
    requires Forward(d)
    ensures |r.rest| <= |st.rest|
    decreases n
  {
    if n <= 0 || st.error then st else ShowDomains(d, ShowDomain(d, st), n - 1)
  }

  lemma UnfoldDomains(d: Decoder, st: State, n: int)
    requires Forward(d)
    ensures ShowDomains(d, st, n) == if n <= 0 || st.error then st else ShowDomains(d, ShowDomain(d, st), n - 1)
  {}

  // The names that sparse cells carry in place of heads, by key from 1.
  const KEYS := ["add rule", "protocol", "ethertype", "sip", "dip", "sipv6", "dipv6", "smac", "dmac", "sport", "dport",
    "tcpflag", "ud"]

  function KeyCaption(key: int): string {
    if !(1 <= key <= |KEYS|) || KEYS[key - 1] == "ud" then ""
    else if KEYS[key - 1] == "add rule" then "add rule "
    else KEYS[key - 1] + "="
  }

  function SparseHead(heads: seq<string>, key: int): string {
    if 1 <= key <= |heads| then heads[key - 1] else ""
  }

  // The number in a key's tag, as an int.
  function KeyOf(tag: MTag): int {
    Int32(match tag
      case Uint(v) => v
      case _ => Count(tag))
  }

  // A sparse cell: a tag that is skipped, a key, and the value under the key's head.
  function SparseCell(d: Decoder, st: State, heads: seq<string>): (r: State)
    requires Forward(d)
    ensures |r.rest| <= |st.rest|
  {
    var (_, st) := ReadTag(st);
    var (tag, st) := ReadTag(st);
    SparseValue(d, Put(st, KeyCaption(KeyOf(tag))), SparseHead(heads, KeyOf(tag)))
  }

  function SparseValue(d: Decoder, st: State, head: string): (r: State)
    requires Forward(d)
    ensures |r.rest| <= |st.rest|
  {
    if head != "" then SpecVal(d, st, head, 0)
    else
      var (tag, st) := ReadTag(st);
      Walk(d, st, tag, "", 0)
  }

  function SparseCells(d: Decoder, st: State, heads: seq<string>, n: nat): (r: State)
    requires Forward(d)
    ensures |r.rest| <= |st.rest|
    decreases n
  {
    if n == 0 then st else SparseCells(d, SparseCell(d, st, heads), heads, n - 1)
  }

  function SparseRow(d: Decoder, st: State, heads: seq<string>): (r: State)
    requires Forward(d)
    ensures |r.rest| <= |st.rest|
  {
    var (tag, st) := ReadTag(st);
    Put(SparseCells(d, st, heads, Count(tag)), "\n")
  }

  function SparseRows(d: Decoder, st: State, heads: seq<string>, n: int): (r: State)
    requires Forward(d)
    ensures |r.rest| <= |st.rest|
    decreases n
  {
    if n <= 0 || st.error then st else SparseRows(d, SparseRow(d, st, heads), heads, n - 1)
  }

  lemma UnfoldSparseRows(d: Decoder, st: State, heads: seq<string>, n: int)
    requires Forward(d)
    ensures SparseRows(d, st, heads, n) ==
      if n <= 0 || st.error then st else SparseRows(d, SparseRow(d, st, heads), heads, n - 1)
  {}

  function ShowSparse(d: Decoder, st: State, columns: nat, n: int): (r: State)
    requires Forward(d)
    ensures |r.rest| <= |st.rest|
  {
    var (heads, st) := ReadHeads(st, columns, false);
    SparseRows(d, st, heads, n)
  }

  // ---------- the kinds ----------

  // ONE_DIMENSIONAL_HEAD, TWO_DIMENSIONAL_NO_HEAD, TWO_DIMENSIONAL_WITH_HEAD,
  // TWO_DIMENSIONAL_WITH_SPE_HEAD, MUL_DIMENSIONAL_WITH_HEAD and MUL_DIMENSIONAL_NO_HEAD.
  datatype Kinds = Kinds(oneDimensional: U64, twoNoHead: U64, twoWithHead: U64, twoSparse: U64, mulWithHead: U64,
    mulNoHead: U64)
  {
    function All(): seq<U64> {
      [oneDimensional, twoNoHead, twoWithHead, twoSparse, mulWithHead, mulNoHead]
    }

    // Labels of one switch.
    predicate Distinct() {
      forall i, j :: 0 <= i < j < 6 ==> All()[i] != All()[j]
    }
  }

  // The printer that a reply of n elements is dispatched to.
  function ByKind(d: Decoder, st: State, kinds: Kinds, kind: U64, n: nat): State
    requires Forward(d)
  {
    if kind == kinds.oneDimensional || kind == kinds.twoNoHead then ShowRows(d, st, n as int - 1)
    else if kind == kinds.twoWithHead then
      var (columns, st) := ReadArray(st);
      ShowTable(d, st, columns, n as int - 2)
    else if kind == kinds.twoSparse then
      var (columns, st) := ReadArray(st);
      ShowSparse(d, st, columns, n as int - 2)
    else if kind == kinds.mulWithHead then ShowGroups(d, st, n as int - 1)
    else if kind == kinds.mulNoHead then ShowDomains(d, st, n as int - 1)
    else st
  }

  function Process(d: Decoder, st: State, kinds: Kinds): State
    requires Forward(d)
  {
    var (n, st) := ReadArray(st);
    var (kind, st) := ReadU64(st);
    ByKind(d, st, kinds, kind, n)
  }

  // ---------- whole replies ----------

  lemma ReadArrayOf(items: seq<Val>, st: State, rest: seq<Cell>)
    requires Stands(st, Encode(VArray(items)), rest)
    ensures ReadArray(st) == (|items|, st.(rest := EncodeAll(items) + rest))
  {
    var v := VArray(items);
    ReadTagOf(v, st, rest);
    assert Payload(v) == EncodeAll(items);
    assert ReadTag(st).0 == Array(|items|);
  }

  lemma ReadU64Of(v: U64, st: State, rest: seq<Cell>)
    requires Stands(st, Encode(VUint(v)), rest)
    ensures ReadU64(st) == (v, st.(rest := rest))
  {
    ReadTagOf(VUint(v), st, rest);
    assert [] + rest == rest;
  }

  lemma EncodeFirst(first: Val, items: seq<Val>, rest: seq<Cell>)
    ensures EncodeAll([first] + items) + rest == Encode(first) + (EncodeAll(items) + rest)
  {
    assert ([first] + items)[1..] == items;
    Associative(Encode(first), EncodeAll(items), rest);
  }

  // A reply's elements after its first.
  lemma ReadFirst(first: Val, items: seq<Val>, st: State, rest: seq<Cell>)
    requires Stands(st, Encode(VArray([first] + items)), rest)
    ensures ReadArray(st) == (|items| + 1, st.(rest := Encode(first) + (EncodeAll(items) + rest)))
  {
    EncodeFirst(first, items, rest);
    ReadArrayOf([first] + items, st, rest);
  }

  lemma ProcessIs(d: Decoder, kinds: Kinds, st: State, n: nat, mid: State, kind: U64, after: State)
    requires Forward(d) && ReadArray(st) == (n, mid) && ReadU64(mid) == (kind, after)
    ensures Process(d, st, kinds) == ByKind(d, after, kinds, kind, n)
  {}

  // The element count and the kind at the front of a reply.
  lemma ReadHeader(d: Decoder, kinds: Kinds, kind: U64, items: seq<Val>, st: State, rest: seq<Cell>)
    requires Forward(d) && Stands(st, Encode(VArray([VUint(kind)] + items)), rest)
    ensures Process(d, st, kinds) == ByKind(d, st.(rest := EncodeAll(items) + rest), kinds, kind, |items| + 1)
  {
    hide ByKind, Process, EncodeAll, Encode, ReadArray, ReadU64;
    ReadFirst(VUint(kind), items, st, rest);
    var after := EncodeAll(items) + rest;
    var mid := st.(rest := Encode(VUint(kind)) + after);
    ReadU64Of(kind, mid, after);
    ProcessIs(d, kinds, st, |items| + 1, mid, kind, st.(rest := after));
  }

  // A reply of plain rows, of either kind without heads, is consumed exactly.
  lemma PlainReplyConsumed(d: Decoder, kinds: Kinds, kind: U64, rows: seq<Val>, st: State, rest: seq<Cell>)
    requires Forward(d) && (kind == kinds.oneDimensional || kind == kinds.twoNoHead)
    requires forall i :: 0 <= i < |rows| ==> Plain(rows[i])
    requires Stands(st, Encode(VArray([VUint(kind)] + rows)), rest)
    ensures Process(d, st, kinds) == Put(st.(rest := rest), RowLines(rows))
  {
    ReadHeader(d, kinds, kind, rows, st, rest);
    ShowPlainRows(d, rows, st.(rest := EncodeAll(rows) + rest), rest);
  }

  function Names(names: seq<string>): (r: seq<Val>)
    ensures |r| == |names| && forall i :: 0 <= i < |names| ==> r[i] == VStr(names[i])
  {
    seq(|names|, i requires 0 <= i < |names| => VStr(names[i]))
  }

  function Rows(rows: seq<seq<Val>>): (r: seq<Val>)
    ensures |r| == |rows| && forall i :: 0 <= i < |rows| ==> r[i] == VArray(rows[i])
  {
    seq(|rows|, i requires 0 <= i < |rows| => VArray(rows[i]))
  }

  lemma {:induction false} NamesEncoded(names: seq<string>)
    ensures EncodeAll(Names(names)) == EncodeNames(names)
  {
    if names != [] {
      NamesEncoded(names[1..]);
      assert Names(names)[1..] == Names(names[1..]);
    }
  }

  lemma {:induction false} RowsEncoded(rows: seq<seq<Val>>)
    ensures EncodeAll(Rows(rows)) == EncodeRows(rows)
  {
    if rows != [] {
      RowsEncoded(rows[1..]);
      assert Rows(rows)[1..] == Rows(rows[1..]);
    }
  }

  // After the heads, other elements.
  lemma HeadThen(names: seq<string>, items: seq<Val>, st: State, rest: seq<Cell>)
    requires Stands(st, EncodeAll([VArray(Names(names))] + items), rest)
    ensures ReadArray(st) == (|names|, st.(rest := (EncodeNames(names) + EncodeAll(items)) + rest))
  {
    var head := VArray(Names(names));
    assert ([head] + items)[1..] == items;
    NamesEncoded(names);
    Associative(Encode(head), EncodeAll(items), rest);
    ReadTagOf(head, st, EncodeAll(items) + rest);
    Associative(EncodeNames(names), EncodeAll(items), rest);
  }

  // A reply with one head is consumed exactly and shown as its table.
  lemma HeadedReplyConsumed(d: Decoder, kinds: Kinds, names: seq<string>, rows: seq<seq<Val>>, st: State,
      rest: seq<Cell>)
    requires Forward(d) && kinds.Distinct()
    requires (forall i :: 0 <= i < |names| ==> |names[i]| <= 128) && FitsAll(Specs(names), rows)
    requires Stands(st, Encode(VArray([VUint(kinds.twoWithHead)] + ([VArray(Names(names))] + Rows(rows)))), rest)
    ensures Process(d, st, kinds) == State(rest, false, LinkAt(Specs(names), rows, st.link, |rows|, 0),
      st.out + Heading(names, true) + "\n" + RULE + TableText(Specs(names), rows, st.link, 0, 0, 0))
  {
    var items := [VArray(Names(names))] + Rows(rows);
    ReadHeader(d, kinds, kinds.twoWithHead, items, st, rest);
    var after := st.(rest := EncodeAll(items) + rest);
    TableKind(d, kinds, after, |rows| + 2);
    HeadThen(names, Rows(rows), after, rest);
    RowsEncoded(rows);
    TableConsumed(d, names, rows, st.(rest := (EncodeNames(names) + EncodeRows(rows)) + rest), rest);
  }

  lemma TableKind(d: Decoder, kinds: Kinds, st: State, n: nat)
    requires Forward(d) && kinds.Distinct()
    ensures var (columns, after) := ReadArray(st);
      ByKind(d, st, kinds, kinds.twoWithHead, n) == ShowTable(d, after, columns, n as int - 2)
  {
    assert kinds.All()[0] != kinds.All()[2] && kinds.All()[1] != kinds.All()[2];
  }

  // ---------- groups ----------

  datatype Group = Group(title: Val, names: seq<string>, rows: seq<seq<Val>>)

  ghost predicate GroupFits(g: Group) {
    Plain(g.title) && (forall i :: 0 <= i < |g.names| ==> |g.names[i]| <= 128) && FitsAll(Specs(g.names), g.rows)
  }

  function AsValue(g: Group): Val {
    VArray([g.title] + ([VArray(Names(g.names))] + Rows(g.rows)))
  }

  function AsValues(gs: seq<Group>): (r: seq<Val>)
    ensures |r| == |gs| && forall i :: 0 <= i < |gs| ==> r[i] == AsValue(gs[i])
  {
    seq(|gs|, i requires 0 <= i < |gs| => AsValue(gs[i]))
  }

  // The link flag a group leaves behind.
  function GroupLink(g: Group, link: bool): bool {
    LinkAt(Specs(g.names), g.rows, link, |g.rows|, 0)
  }

  function GroupText(g: Group, link: bool): string {
    Render(g.title, 0) + GroupLines(g, link)
  }

  function GroupLines(g: Group, link: bool): string {
    ("\n" + RULE) + TableText(Specs(g.names), g.rows, link, 0, 0, 1) + (RULE + "\n")
  }

  function GroupsText(gs: seq<Group>, link: bool): string {
    if gs == [] then "" else GroupText(gs[0], link) + GroupsText(gs[1..], GroupLink(gs[0], link))
  }

  function GroupsLink(gs: seq<Group>, link: bool): bool {
    if gs == [] then link else GroupsLink(gs[1..], GroupLink(gs[0], link))
  }

  lemma GroupBody(d: Decoder, g: Group, st: State, rest: seq<Cell>)
    requires Forward(d) && GroupFits(g) && Stands(st, EncodeNames(g.names) + EncodeRows(g.rows), rest)
    ensures ShowGroup(d, st, |g.names|, |g.rows|) ==
      State(rest, false, GroupLink(g, st.link), st.out + GroupLines(g, st.link))
  {
    var start := GroupHeads(d, g, st, rest);
    var open, text, close := "\n" + RULE, TableText(Specs(g.names), g.rows, st.link, 0, 0, 1), RULE + "\n";
    assert FitsAll(Specs(g.names), g.rows) && Stands(Put(start, open), EncodeRows(g.rows), rest);
    hide WalkRows, TableText, LinkAt, EncodeRows, EncodeNames, Specs, FitsAll, GroupFits, Dashes, ShowGroup, Stands;
    WalkAllRows(d, Specs(g.names), g.rows, Put(start, open), rest, 1);
    Associative(st.out, open, text);
    Associative(st.out, open + text, close);
  }

  // A group after its heads.
  lemma GroupHeads(d: Decoder, g: Group, st: State, rest: seq<Cell>) returns (start: State)
    requires Forward(d) && GroupFits(g) && Stands(st, EncodeNames(g.names) + EncodeRows(g.rows), rest)
    ensures start == st.(rest := EncodeRows(g.rows) + rest)
    ensures ShowGroup(d, st, |g.names|, |g.rows|) ==
      Put(WalkRows(d, Put(start, "\n" + RULE), Specs(g.names), |g.rows|, 1), RULE + "\n")
  {
    start := st.(rest := EncodeRows(g.rows) + rest);
    assert st.out + "" == st.out;
    Associative(EncodeNames(g.names), EncodeRows(g.rows), rest);
    hide WalkRows, ReadHeads, EncodeRows, EncodeNames, Specs, Heading, FitsAll, Dashes;
    NoHeading(g.names);
    ReadAllHeads(g.names, st, start.rest, false);
  }

  lemma GroupConsumed(d: Decoder, g: Group, st: State, rest: seq<Cell>)
    requires Forward(d) && GroupFits(g) && Stands(st, Encode(AsValue(g)), rest)
    ensures ShowOneGroup(d, st) == State(rest, false, GroupLink(g, st.link), st.out + GroupText(g, st.link))
  {
    var titled := TitleShown(d, g, st, rest);
    var after := titled.(rest := (EncodeNames(g.names) + EncodeRows(g.rows)) + rest);
    HeadThen(g.names, Rows(g.rows), titled, rest);
    RowsEncoded(g.rows);
    GroupBody(d, g, after, rest);
    Associative(st.out, Render(g.title, 0), GroupLines(g, st.link));
  }

  lemma TitleShown(d: Decoder, g: Group, st: State, rest: seq<Cell>) returns (titled: State)
    requires Forward(d) && GroupFits(g) && Stands(st, Encode(AsValue(g)), rest)
    ensures Stands(titled, EncodeAll([VArray(Names(g.names))] + Rows(g.rows)), rest)
    ensures titled.link == st.link && titled.out == st.out + Render(g.title, 0)
    ensures var (columns, after) := ReadArray(titled); ShowOneGroup(d, st) == ShowGroup(d, after, columns, |g.rows|)
  {
    var items := [VArray(Names(g.names))] + Rows(g.rows);
    var more := EncodeAll(items) + rest;
    ReadFirst(g.title, items, st, rest);
    WalkEncoded(d, g.title, ReadArray(st).1, more, 0);
    titled := Put(st.(rest := more), Render(g.title, 0));
  }

  lemma {:induction false} GroupsConsumed(d: Decoder, gs: seq<Group>, st: State, rest: seq<Cell>)
    requires Forward(d) && (forall i :: 0 <= i < |gs| ==> GroupFits(gs[i])) && Stands(st, EncodeAll(AsValues(gs)), rest)
    ensures ShowGroups(d, st, |gs|) == State(rest, false, GroupsLink(gs, st.link), st.out + GroupsText(gs, st.link))
  {
    if gs == [] {
      assert [] + rest == rest && st.out + "" == st.out;
    } else {
      var vs := AsValues(gs);
      assert vs[1..] == AsValues(gs[1..]);
      var more := EncodeAll(vs[1..]) + rest;
      Associative(Encode(vs[0]), EncodeAll(vs[1..]), rest);
      GroupConsumed(d, gs[0], st, more);
      var next := State(more, false, GroupLink(gs[0], st.link), st.out + GroupText(gs[0], st.link));
      GroupsConsumed(d, gs[1..], next, rest);
      Associative(st.out, GroupText(gs[0], st.link), GroupsText(gs[1..], next.link));
    }
  }

  // A reply in groups is consumed exactly; the link flag goes on from group to group.
  lemma GroupedReplyConsumed(d: Decoder, kinds: Kinds, gs: seq<Group>, st: State, rest: seq<Cell>)
    requires Forward(d) && kinds.Distinct() && forall i :: 0 <= i < |gs| ==> GroupFits(gs[i])
    requires Stands(st, Encode(VArray([VUint(kinds.mulWithHead)] + AsValues(gs))), rest)
    ensures Process(d, st, kinds) == State(rest, false, GroupsLink(gs, st.link), st.out + GroupsText(gs, st.link))
  {
    hide *;
    var cells := EncodeAll(AsValues(gs));
    var after := st.(rest := cells + rest);
    StandsAfter(st, Encode(VArray([VUint(kinds.mulWithHead)] + AsValues(gs))), rest, cells, rest);
    ReadHeader(d, kinds, kinds.mulWithHead, AsValues(gs), st, rest);
    GroupedKind(d, kinds, after, |gs| + 1);
    GroupsConsumed(d, gs, after, rest);
  }

  lemma GroupedKind(d: Decoder, kinds: Kinds, st: State, n: nat)
    requires Forward(d) && kinds.Distinct()
    ensures ByKind(d, st, kinds, kinds.mulWithHead, n) == ShowGroups(d, st, n as int - 1)
  {
    assert forall i :: 0 <= i < 4 ==> kinds.All()[i] != kinds.All()[4];
    assert kinds.All()[0] == kinds.oneDimensional && kinds.All()[1] == kinds.twoNoHead;
    assert kinds.All()[2] == kinds.twoWithHead && kinds.All()[3] == kinds.twoSparse;
  }

  lemma DomainedKind(d: Decoder, kinds: Kinds, st: State, n: nat)
    requires Forward(d) && kinds.Distinct()
    ensures ByKind(d, st, kinds, kinds.mulNoHead, n) == ShowDomains(d, st, n as int - 1)
  {
    assert forall i :: 0 <= i < 5 ==> kinds.All()[i] != kinds.All()[5];
    assert kinds.All()[0] == kinds.oneDimensional && kinds.All()[1] == kinds.twoNoHead;
    assert kinds.All()[2] == kinds.twoWithHead && kinds.All()[3] == kinds.twoSparse;
    assert kinds.All()[4] == kinds.mulWithHead;
  }

  // ---------- sparse rows ----------

  datatype Keyed = Keyed(key: U64, value: Val)

  function AsPair(k: Keyed): Val {
    VArray([VUint(k.key), k.value])
  }

  function AsPairs(ks: seq<Keyed>): (r: seq<Val>)
    ensures |r| == |ks| && forall i :: 0 <= i < |ks| ==> r[i] == AsPair(ks[i])
  {
    seq(|ks|, i requires 0 <= i < |ks| => AsPair(ks[i]))
  }

  // The specification in the name of a key: key 1 has the first name; a key without a
  // name has none.
  function KeySpec(names: seq<string>, key: int): string {
    if 1 <= key <= |names| then Spec(CString(names[key - 1])) else ""
  }

  lemma KeyHead(names: seq<string>, key: int)
    ensures SparseHead(Specs(names), key) == KeySpec(names, key)
  {}

  // A cell whose key has no specification, and whose value is plain.
  predicate SparseFits(names: seq<string>, k: Keyed) {
    KeySpec(names, Int32(k.key)) == "" && Plain(k.value)
  }

  function SparseText(ks: seq<Keyed>): string {
    if ks == [] then "" else KeyCaption(Int32(ks[0].key)) + Render(ks[0].value, 0) + SparseText(ks[1..])
  }

  lemma SparseCellRead(d: Decoder, heads: seq<string>, k: Keyed, st: State, rest: seq<Cell>)
    requires Forward(d) && Stands(st, Encode(AsPair(k)), rest)
    ensures SparseCell(d, st, heads) ==
      SparseValue(d, Put(st.(rest := Encode(k.value) + rest), KeyCaption(Int32(k.key))),
        SparseHead(heads, Int32(k.key)))
  {
    var key := VUint(k.key);
    var pair := [key, k.value];
    ReadTagOf(AsPair(k), st, rest);
    assert pair[1..] == [k.value] && pair[1..][1..] == [];
    assert EncodeAll(pair) == Encode(key) + EncodeAll([k.value]) && EncodeAll([k.value]) == Encode(k.value) + [];
    assert Encode(k.value) + [] == Encode(k.value);
    Associative(Encode(key), Encode(k.value), rest);
    ReadTagOf(key, st.(rest := EncodeAll(pair) + rest), Encode(k.value) + rest);
    assert [] + (Encode(k.value) + rest) == Encode(k.value) + rest;
  }

  // Such a row is consumed exactly, each value after its key's name.
  lemma {:induction false} SparseCellsConsumed(d: Decoder, names: seq<string>, ks: seq<Keyed>, st: State,
      rest: seq<Cell>)
    requires Forward(d) && forall i :: 0 <= i < |ks| ==> SparseFits(names, ks[i])
    requires Stands(st, EncodeAll(AsPairs(ks)), rest)
    ensures SparseCells(d, st, Specs(names), |ks|) == Put(st.(rest := rest), SparseText(ks))
  {
    if ks == [] {
      assert [] + rest == rest && st.out + "" == st.out;
    } else {
      var vs := AsPairs(ks);
      assert vs[1..] == AsPairs(ks[1..]);
      var more := EncodeAll(vs[1..]) + rest;
      Associative(Encode(vs[0]), EncodeAll(vs[1..]), rest);
      SparseCellConsumed(d, names, ks[0], st, more);
      var cell := KeyCaption(Int32(ks[0].key)) + Render(ks[0].value, 0);
      SparseCellsConsumed(d, names, ks[1..], Put(st.(rest := more), cell), rest);
      Associative(st.out, cell, SparseText(ks[1..]));
    }
  }

  lemma SparseCellConsumed(d: Decoder, names: seq<string>, k: Keyed, st: State, rest: seq<Cell>)
    requires Forward(d) && SparseFits(names, k) && Stands(st, Encode(AsPair(k)), rest)
    ensures SparseCell(d, st, Specs(names)) == Put(st.(rest := rest), KeyCaption(Int32(k.key)) + Render(k.value, 0))
  {
    var caption := KeyCaption(Int32(k.key));
    SparseCellRead(d, Specs(names), k, st, rest);
    KeyHead(names, Int32(k.key));
    WalkEncoded(d, k.value, Put(st.(rest := Encode(k.value) + rest), caption), rest, 0);
    Associative(st.out, caption, Render(k.value, 0));
  }

  // Under a head that interprets a value, the cell shows the value 0 and leaves its own
  // unread.
  lemma SparseSpecLeavesValue(d: Decoder, names: seq<string>, k: Keyed, st: State, rest: seq<Cell>)
    requires Forward(d) && Stands(st, Encode(AsPair(k)), rest) && Interprets(KeySpec(names, Int32(k.key)))
    ensures SparseCell(d, st, Specs(names)).rest == Encode(k.value) + rest
  {
    SparseCellRead(d, Specs(names), k, st, rest);
    KeyHead(names, Int32(k.key));
  }

  // A cell with a plain value, under no head or one that interprets, is consumed exactly
  // when there is no head.
  lemma SparseCellConsumedIff(d: Decoder, names: seq<string>, k: Keyed, st: State, rest: seq<Cell>)
    requires Forward(d) && Stands(st, Encode(AsPair(k)), rest) && Plain(k.value)
    requires var head := KeySpec(names, Int32(k.key)); head == "" || Interprets(head)
    ensures SparseCell(d, st, Specs(names)).rest == rest <==> KeySpec(names, Int32(k.key)) == ""
  {
    if KeySpec(names, Int32(k.key)) == "" {
      SparseCellConsumed(d, names, k, st, rest);
    } else {
      SparseSpecLeavesValue(d, names, k, st, rest);
      assert |Encode(k.value) + rest| > |rest|;
    }
  }

  function AsRows(rows: seq<seq<Keyed>>): (r: seq<Val>)
    ensures |r| == |rows| && forall i :: 0 <= i < |rows| ==> r[i] == VArray(AsPairs(rows[i]))
  {
    seq(|rows|, i requires 0 <= i < |rows| => VArray(AsPairs(rows[i])))
  }

  ghost predicate AllSparseFit(names: seq<string>, rows: seq<seq<Keyed>>) {
    forall r, c :: 0 <= r < |rows| && 0 <= c < |rows[r]| ==> SparseFits(names, rows[r][c])
  }

  function SparseLines(rows: seq<seq<Keyed>>): string {
    if rows == [] then "" else SparseText(rows[0]) + "\n" + SparseLines(rows[1..])
  }

  lemma {:induction false} SparseRowsConsumed(d: Decoder, names: seq<string>, rows: seq<seq<Keyed>>, st: State,
      rest: seq<Cell>)
    requires Forward(d) && AllSparseFit(names, rows) && Stands(st, EncodeAll(AsRows(rows)), rest)
    ensures SparseRows(d, st, Specs(names), |rows|) == Put(st.(rest := rest), SparseLines(rows))
  {
    if rows == [] {
      assert [] + rest == rest && st.out + "" == st.out;
    } else {
      var vs := AsRows(rows);
      assert vs[1..] == AsRows(rows[1..]);
      var more := EncodeAll(vs[1..]) + rest;
      Associative(Encode(vs[0]), EncodeAll(vs[1..]), rest);
      SparseRowConsumed(d, names, rows[0], st, more);
      var line := SparseText(rows[0]) + "\n";
      UnfoldSparseRows(d, st, Specs(names), |rows|);
      SparseRowsConsumed(d, names, rows[1..], Put(st.(rest := more), line), rest);
      Associative(st.out, line, SparseLines(rows[1..]));
    }
  }

  lemma SparseRowIs(d: Decoder, heads: seq<string>, st: State, tag: MTag, mid: State)
    requires Forward(d) && ReadTag(st) == (tag, mid)
    ensures SparseRow(d, st, heads) == Put(SparseCells(d, mid, heads, Count(tag)), "\n")
  {}

  lemma CountArray(n: nat)
    ensures Count(Array(n)) == n
  {}

  lemma SparseRowConsumed(d: Decoder, names: seq<string>, ks: seq<Keyed>, st: State, rest: seq<Cell>)
    requires Forward(d) && forall i :: 0 <= i < |ks| ==> SparseFits(names, ks[i])
    requires Stands(st, Encode(VArray(AsPairs(ks))), rest)
    ensures SparseRow(d, st, Specs(names)) == Put(st.(rest := rest), SparseText(ks) + "\n")
  {
    hide Encode, EncodeAll, Payload, SparseRow, SparseCells, SparseText, SparseFits;
    var cells := EncodeAll(AsPairs(ks));
    var mid := st.(rest := cells + rest);
    RowTagRead(ks, st, rest);
    CountArray(|ks|);
    SparseRowIs(d, Specs(names), st, Array(|ks|), mid);
    SparseCellsConsumed(d, names, ks, mid, rest);
    PutTwice(st.(rest := rest), SparseText(ks), "\n");
  }

  lemma RowTagRead(ks: seq<Keyed>, st: State, rest: seq<Cell>)
    requires Stands(st, Encode(VArray(AsPairs(ks))), rest)
    ensures ReadTag(st) == (Array(|ks|), st.(rest := EncodeAll(AsPairs(ks)) + rest))
  {
    ReadTagOf(VArray(AsPairs(ks)), st, rest);
  }

  lemma SparseKind(d: Decoder, kinds: Kinds, st: State, n: nat)
    requires Forward(d) && kinds.Distinct()
    ensures var (columns, after) := ReadArray(st);
      ByKind(d, st, kinds, kinds.twoSparse, n) == ShowSparse(d, after, columns, n as int - 2)
  {
    assert forall i :: 0 <= i < 3 ==> kinds.All()[i] != kinds.All()[3];
    assert kinds.All()[0] == kinds.oneDimensional && kinds.All()[1] == kinds.twoNoHead;
    assert kinds.All()[2] == kinds.twoWithHead;
  }

  // A sparse reply none of whose keys has a specification is consumed exactly.
  lemma SparseReplyConsumed(d: Decoder, kinds: Kinds, names: seq<string>, rows: seq<seq<Keyed>>, st: State,
      rest: seq<Cell>)
    requires Forward(d) && kinds.Distinct()
    requires (forall i :: 0 <= i < |names| ==> |names[i]| <= 128) && AllSparseFit(names, rows)
    requires Stands(st, Encode(VArray([VUint(kinds.twoSparse)] + ([VArray(Names(names))] + AsRows(rows)))), rest)
    ensures Process(d, st, kinds) == Put(st.(rest := rest), SparseLines(rows))
  {
    var items := [VArray(Names(names))] + AsRows(rows);
    var after := st.(rest := EncodeAll(items) + rest);
    var body := st.(rest := (EncodeNames(names) + EncodeAll(AsRows(rows))) + rest);
    var cells := st.(rest := EncodeAll(AsRows(rows)) + rest);
    ReadHeader(d, kinds, kinds.twoSparse, items, st, rest);
    SparseKind(d, kinds, after, |rows| + 2);
    HeadThen(names, AsRows(rows), after, rest);
    Associative(EncodeNames(names), EncodeAll(AsRows(rows)), rest);
    ReadAllHeads(names, body, cells.rest, false);
    NoHeading(names);
    assert st.out + "" == st.out;
    SparseRowsConsumed(d, names, rows, cells, rest);
  }
}
