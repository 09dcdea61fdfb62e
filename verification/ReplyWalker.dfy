/**
  Walking a reply: a stream of MessagePack tags and string bytes is consumed value by
  value and printed, plainly or under column heads that interpret the cells.
*/
module ReplyWalker {
  import opened Text

  // ---------- streams ----------

  // Tags as the reader returns them. OTHER stands for every tag that carries no
  // payload cells and is not printed: nil, booleans, signed and floating numbers.
  datatype MTag =
    | Uint(v: U64)
    | Str(len: nat)
    | Array(n: nat)
    | Map(n: nat)
    | Other

  datatype Cell = Tag(tag: MTag) | Byte(c: char)

  // The reader's position is given by the cells still to be read.
  datatype State = State(rest: seq<Cell>, error: bool, link: bool, out: string)

  // A decoder for a `%` specification, applied to the reader where it stands.
  type Decoder = (string, State) -> State

  // Decoders only read forward.
  ghost predicate Forward(d: Decoder) {
    forall spec, st :: |d(spec, st).rest| <= |st.rest|
  }

  function Put(st: State, text: string): State {
    st.(out := st.out + text)
  }

  // mpack_read_tag
  function ReadTag(st: State): (r: (MTag, State))
    ensures |r.1.rest| <= |st.rest|
    ensures r.0 != Other ==> |r.1.rest| < |st.rest|
  {
    if st.error then (Other, st)
    else if st.rest == [] || !st.rest[0].Tag? then (Other, st.(error := true))
    else (st.rest[0].tag, st.(rest := st.rest[1..]))
  }

  predicate AllBytes(cells: seq<Cell>) {
    forall c <- cells :: c.Byte?
  }

  function Chars(cells: seq<Cell>): (s: string)
    requires AllBytes(cells)
    ensures |s| == |cells| && forall i :: 0 <= i < |s| ==> s[i] == cells[i].c
  {
    seq(|cells|, i requires 0 <= i < |cells| => assert cells[i] in cells; cells[i].c)
  }

  // mpack_read_bytes into a zeroed buffer, and the C string left in it.
  function ReadString(st: State, len: nat): (r: (string, State))
    ensures |r.1.rest| <= |st.rest|
  {
    if st.error then ("", st)
    else if len > |st.rest| || !AllBytes(st.rest[..len]) then ("", st.(error := true))
    else (CString(Chars(st.rest[..len])), st.(rest := st.rest[len..]))
  }

  // ---------- printing one value ----------

  function Column(s: string): string {
    Pad(s, 15) + " "
  }

  function UintText(v: U64): string {
    Pad(DecInt(Signed64(v)), 7) + " "
  }

  function StringText(s: string): string {
    Pad(s, 20) + " "
  }

  function Indent(depth: nat): string {
    if depth == 0 then "    " else if depth == 1 then "        " else ""
  }

  function SpeedText(speed: int): string {
    match speed
    case 0 => "--"
    case 1 => "1G"
    case 2 => "10G"
    case 3 => "25G"
    case 4 => "40G"
    case 5 => "40G_"
    case 6 => "50G"
    case 7 => "100G"
    case 8 => "40G__"
    case _ => ""
  }

  const DASHES := "--"

  // unpack_spec_val: the specifications that interpret the value at hand; the others
  // go to their decoders.
  function SpecVal(d: Decoder, st: State, spec: string, val: int): (r: State)
    requires Forward(d)
    ensures |r.rest| <= |st.rest|
  {
    if spec == "%l" then Put(st.(link := val != 0), Column(if val != 0 then "up" else "down"))
    else if spec == "%o" then Put(st, Column(if val != 0 then "on" else "off"))
    else if spec == "%S" then Put(st, Column(if st.link then SpeedText(val) else DASHES))
    else if spec == "%d" then
      Put(st, Column(if !st.link then DASHES else if val != 0 then "half" else "full"))
    else d(spec, st)
  }

  // The specifications that interpret a value.
  predicate Interprets(spec: string) {
    spec == "%l" || spec == "%o" || spec == "%S" || spec == "%d"
  }

  function Rank(tag: MTag): nat {
    if tag.Array? || tag.Map? then 2 else 0
  }

  // unpack_by_type, after the tag has been read. An empty head means none.
  function Walk(d: Decoder, st: State, tag: MTag, head: string, depth: nat): (r: State)
    requires Forward(d)
    ensures |r.rest| <= |st.rest|
    decreases |st.rest|, Rank(tag), 0
  {
    match tag
    case Uint(v) => if head == "" then Put(st, UintText(v)) else SpecVal(d, st, head, Int32(v))
    case Str(len) =>
      var (s, st) := ReadString(st, len);
      if head == "" then Put(st, StringText(s)) else SpecVal(d, st, head, 0)
    case Array(n) =>
      if n == 0 then Put(st, Indent(depth) + "-- ")
      else if head == "" then WalkItems(d, st, n, depth)
      else SpecVal(d, st, head, 0)
    case Map(n) => WalkEntries(d, st, n, depth)
    case Other => st
  }

  function WalkItems(d: Decoder, st: State, n: nat, depth: nat): (r: State)
    requires Forward(d)
    ensures |r.rest| <= |st.rest|
    decreases |st.rest|, 1, n
  {
    if n == 0 then st
    else
      var (tag, st) := ReadTag(st);
      WalkItems(d, Walk(d, st, tag, "", depth), n - 1, depth)
  }

  // The caption of a string key, and the specification after it.
  function Title(name: string): string {
    name[..Find(name, '%')]
  }

  function Spec(name: string): string {
    name[Find(name, '%')..]
  }

  // After a string key: one with a percent sign has its specification applied to 0.
  function WalkNamed(d: Decoder, st: State, name: string, depth: nat): (r: State)
    requires Forward(d)
    ensures |r.rest| <= |st.rest|
    decreases |st.rest|, 3, 0
  {
    if '%' in name then SpecVal(d, Put(st, Indent(depth) + Title(name) + ": "), Spec(name), 0)
    else
      var (tag, st) := ReadTag(Put(st, Indent(depth) + name + ": "));
      Walk(d, st, tag, "", depth)
  }

  function WalkEntry(d: Decoder, st: State, depth: nat): (r: State)
    requires Forward(d)
    ensures |r.rest| <= |st.rest|
    decreases |st.rest|, 1, 0
  {
    var (key, st) := ReadTag(st);
    if key.Str? then
      var (name, st) := ReadString(st, key.len);
      WalkNamed(d, st, name, depth)
    else
      var (tag, st) := ReadTag(Walk(d, st, key, "", depth));
      Walk(d, st, tag, "", depth)
  }

  function WalkEntries(d: Decoder, st: State, n: nat, depth: nat): (r: State)
    requires Forward(d)
    ensures |r.rest| <= |st.rest|
    decreases |st.rest|, 1, n
  {
    if n == 0 then st else WalkEntries(d, WalkEntry(d, st, depth), n - 1, depth)
  }

  // ---------- values and their streams ----------

  datatype Val =
    | VUint(v: U64)
    | VStr(s: string)
    | VArray(items: seq<Val>)
    | VMap(entries: seq<Entry>)
    | VOther

  datatype Entry = Entry(key: Val, value: Val)

  function HeadTag(v: Val): MTag {
    match v
    case VUint(n) => Uint(n)
    case VStr(s) => Str(|s|)
    case VArray(items) => Array(|items|)
    case VMap(entries) => Map(|entries|)
    case VOther => Other
  }

  function Bytes(s: string): (r: seq<Cell>)
    ensures |r| == |s| && forall i :: 0 <= i < |s| ==> r[i] == Byte(s[i])
  {
    seq(|s|, i requires 0 <= i < |s| => Byte(s[i]))
  }

  function Encode(v: Val): seq<Cell>
    decreases v, 1
  {
    [Tag(HeadTag(v))] + Payload(v)
  }

  function Payload(v: Val): seq<Cell>
    decreases v, 0
  {
    match v
    case VStr(s) => Bytes(s)
    case VArray(items) => EncodeAll(items)
    case VMap(entries) => EncodeEntries(entries)
    case _ => []
  }

  function EncodeAll(items: seq<Val>): seq<Cell>
    decreases items, 0
  {
    if items == [] then [] else Encode(items[0]) + EncodeAll(items[1..])
  }

  function EncodeEntry(e: Entry): seq<Cell>
    decreases e, 0
  {
    Encode(e.key) + Encode(e.value)
  }

  function EncodeEntries(entries: seq<Entry>): seq<Cell>
    decreases entries, 1
  {
    if entries == [] then [] else EncodeEntry(entries[0]) + EncodeEntries(entries[1..])
  }

  // No string key holds a percent sign, at any depth.
  predicate Plain(v: Val)
    decreases v
  {
    match v
    case VArray(items) => forall i :: 0 <= i < |items| ==> Plain(items[i])
    case VMap(entries) => forall i :: 0 <= i < |entries| ==> PlainEntry(entries[i])
    case _ => true
  }

  predicate PlainEntry(e: Entry)
    decreases e
  {
    Plain(e.key) && Plain(e.value) && (e.key.VStr? ==> '%' !in CString(e.key.s))
  }

  // How a value is shown.
  function Render(v: Val, depth: nat): string
    decreases v, 0
  {
    match v
    case VUint(n) => UintText(n)
    case VStr(s) => StringText(CString(s))
    case VArray(items) => if items == [] then Indent(depth) + "-- " else RenderAll(items, depth)
    case VMap(entries) => RenderEntries(entries, depth)
    case VOther => ""
  }

  function RenderAll(items: seq<Val>, depth: nat): string
    decreases items, 0
  {
    if items == [] then "" else Render(items[0], depth) + RenderAll(items[1..], depth)
  }

  function RenderEntry(e: Entry, depth: nat): string
    decreases e, 0
  {
    if e.key.VStr? then Indent(depth) + CString(e.key.s) + ": " + Render(e.value, depth)
    else Render(e.key, depth) + Render(e.value, depth)
  }

  function RenderEntries(entries: seq<Entry>, depth: nat): string
    decreases entries, 1
  {
    if entries == [] then "" else RenderEntry(entries[0], depth) + RenderEntries(entries[1..], depth)
  }

  // ---------- every plain value is consumed exactly ----------

  // The reader stands at the cells, without error.
  ghost predicate Stands(st: State, cells: seq<Cell>, rest: seq<Cell>) {
    !st.error && st.rest == cells + rest
  }

  lemma StandsAt(st: State, cells: seq<Cell>, rest: seq<Cell>)
    requires !st.error
    ensures Stands(st.(rest := cells + rest), cells, rest)
  {}

  lemma StandsAfter(st: State, before: seq<Cell>, after: seq<Cell>, cells: seq<Cell>, rest: seq<Cell>)
    requires Stands(st, before, after)
    ensures Stands(st.(rest := cells + rest), cells, rest)
  {}

  lemma PutTwice(st: State, a: string, b: string)
    ensures Put(Put(st, a), b) == Put(st, a + b)
  {
    Associative(st.out, a, b);
  }

  lemma ReadTagOf(v: Val, st: State, rest: seq<Cell>)
    requires Stands(st, Encode(v), rest)
    ensures ReadTag(st) == (HeadTag(v), st.(rest := Payload(v) + rest))
  {
    assert st.rest[1..] == Payload(v) + rest;
  }

  lemma ReadStringOf(s: string, st: State, rest: seq<Cell>)
    requires Stands(st, Bytes(s), rest)
    ensures ReadString(st, |s|) == (CString(s), st.(rest := rest))
  {
    assert st.rest[..|s|] == Bytes(s);
    assert Chars(Bytes(s)) == s;
    assert st.rest[|s|..] == rest;
  }

  lemma EncodeHead(vs: seq<Val>, rest: seq<Cell>)
    requires vs != []
    ensures EncodeAll(vs) + rest == Encode(vs[0]) + (EncodeAll(vs[1..]) + rest)
  {
    Associative(Encode(vs[0]), EncodeAll(vs[1..]), rest);
  }

  lemma {:induction false} EncodeConcat(a: seq<Val>, b: seq<Val>)
    ensures EncodeAll(a + b) == EncodeAll(a) + EncodeAll(b)
  {
    if a == [] {
      assert a + b == b;
    } else {
      assert (a + b)[1..] == a[1..] + b;
      EncodeConcat(a[1..], b);
      Associative(Encode(a[0]), EncodeAll(a[1..]), EncodeAll(b));
    }
  }

  lemma KeyRead(d: Decoder, e: Entry, st: State, rest: seq<Cell>, depth: nat)
    requires Forward(d) && Stands(st, EncodeEntry(e), rest) && e.key.VStr?
    ensures WalkEntry(d, st, depth) == WalkNamed(d, st.(rest := Encode(e.value) + rest), CString(e.key.s), depth)
  {
    var value := Encode(e.value) + rest;
    Associative(Encode(e.key), Encode(e.value), rest);
    ReadTagOf(e.key, st, value);
    ReadStringOf(e.key.s, st.(rest := Payload(e.key) + value), value);
  }

  lemma {:induction false} WalkValue(d: Decoder, v: Val, st: State, rest: seq<Cell>, depth: nat)
    requires Forward(d) && Plain(v) && Stands(st, Payload(v), rest)
    ensures Walk(d, st, HeadTag(v), "", depth) == Put(st.(rest := rest), Render(v, depth))
    decreases v, 0
  {
    match v
    case VStr(s) => ReadStringOf(s, st, rest);
    case VArray(items) =>
      if items == [] {
        assert [] + rest == rest;
      } else {
        WalkAll(d, items, st, rest, depth);
      }
    case VMap(entries) => WalkAllEntries(d, entries, st, rest, depth);
    case _ => assert [] + rest == rest;
  }

  // Reads the tag, then walks the payload.
  lemma {:induction false} WalkEncoded(d: Decoder, v: Val, st: State, rest: seq<Cell>, depth: nat)
    requires Forward(d) && Plain(v) && Stands(st, Encode(v), rest)
    ensures var (tag, after) := ReadTag(st);
      Walk(d, after, tag, "", depth) == Put(st.(rest := rest), Render(v, depth))
    decreases v, 1
  {
    ReadTagOf(v, st, rest);
    WalkValue(d, v, st.(rest := Payload(v) + rest), rest, depth);
  }

  lemma {:induction false} WalkAll(d: Decoder, items: seq<Val>, st: State, rest: seq<Cell>, depth: nat)
    requires Forward(d) && (forall i :: 0 <= i < |items| ==> Plain(items[i])) && Stands(st, EncodeAll(items), rest)
    ensures WalkItems(d, st, |items|, depth) == Put(st.(rest := rest), RenderAll(items, depth))
    decreases items, 0
  {
    if items == [] {
      assert [] + rest == rest && st.out + "" == st.out;
    } else {
      var more := EncodeAll(items[1..]) + rest;
      Associative(Encode(items[0]), EncodeAll(items[1..]), rest);
      WalkEncoded(d, items[0], st, more, depth);
      var next := Put(st.(rest := more), Render(items[0], depth));
      WalkAll(d, items[1..], next, rest, depth);
      Associative(st.out, Render(items[0], depth), RenderAll(items[1..], depth));
    }
  }

  lemma {:induction false} WalkOneEntry(d: Decoder, e: Entry, st: State, rest: seq<Cell>, depth: nat)
    requires Forward(d) && PlainEntry(e) && Stands(st, EncodeEntry(e), rest)
    ensures WalkEntry(d, st, depth) == Put(st.(rest := rest), RenderEntry(e, depth))
    decreases e, 0
  {
    var value := Encode(e.value) + rest;
    Associative(Encode(e.key), Encode(e.value), rest);
    if e.key.VStr? {
      KeyRead(d, e, st, rest, depth);
      var caption := Indent(depth) + CString(e.key.s) + ": ";
      WalkEncoded(d, e.value, Put(st.(rest := value), caption), rest, depth);
      Associative(st.out, caption, Render(e.value, depth));
    } else {
      WalkEncoded(d, e.key, st, value, depth);
      WalkEncoded(d, e.value, Put(st.(rest := value), Render(e.key, depth)), rest, depth);
      Associative(st.out, Render(e.key, depth), Render(e.value, depth));
      ReadTagOf(e.key, st, value);
    }
  }

  lemma {:induction false} WalkAllEntries(d: Decoder, entries: seq<Entry>, st: State, rest: seq<Cell>, depth: nat)
    requires Forward(d) && (forall i :: 0 <= i < |entries| ==> PlainEntry(entries[i]))
    requires Stands(st, EncodeEntries(entries), rest)
    ensures WalkEntries(d, st, |entries|, depth) == Put(st.(rest := rest), RenderEntries(entries, depth))
    decreases entries, 1
  {
    if entries == [] {
      assert [] + rest == rest && st.out + "" == st.out;
    } else {
      var more := EncodeEntries(entries[1..]) + rest;
      Associative(EncodeEntry(entries[0]), EncodeEntries(entries[1..]), rest);
      WalkOneEntry(d, entries[0], st, more, depth);
      var next := Put(st.(rest := more), RenderEntry(entries[0], depth));
      WalkAllEntries(d, entries[1..], next, rest, depth);
      Associative(st.out, RenderEntry(entries[0], depth), RenderEntries(entries[1..], depth));
    }
  }

  // ---------- keys with a percent sign ----------

  predicate HasInterpretedKey(e: Entry) {
    e.key.VStr? && '%' in CString(e.key.s) && Interprets(Spec(CString(e.key.s)))
  }

  function ZeroShown(spec: string, link: bool): string {
    match spec
    case "%l" => "down"
    case "%o" => "off"
    case "%S" => DASHES
    case _ => if link then "full" else DASHES
  }

  // A key with one of the specifications that interpret a value is shown with the value
  // 0, and its own value stays unread; for a link the flag is left down.
  lemma InterpretedKeyLeavesValue(d: Decoder, e: Entry, st: State, rest: seq<Cell>, depth: nat)
    requires Forward(d) && Stands(st, EncodeEntry(e), rest) && HasInterpretedKey(e)
    ensures var name := CString(e.key.s);
      WalkEntry(d, st, depth) == State(Encode(e.value) + rest, false, st.link && Spec(name) != "%l",
        st.out + (Indent(depth) + Title(name) + ": ") + Column(ZeroShown(Spec(name), st.link)))
  {
    KeyRead(d, e, st, rest, depth);
  }

  // An entry whose key and value are otherwise plain is consumed exactly when its key
  // has no such specification.
  lemma EntryConsumedIff(d: Decoder, e: Entry, st: State, rest: seq<Cell>, depth: nat)
    requires Forward(d) && Stands(st, EncodeEntry(e), rest)
    requires PlainEntry(e) || HasInterpretedKey(e)
    ensures WalkEntry(d, st, depth).rest == rest <==> !HasInterpretedKey(e)
  {
    if HasInterpretedKey(e) {
      InterpretedKeyLeavesValue(d, e, st, rest, depth);
      assert |Encode(e.value) + rest| > |rest|;
    } else {
      WalkOneEntry(d, e, st, rest, depth);
    }
  }
}
