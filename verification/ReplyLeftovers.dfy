/**
  Values with interpreting keys at any depth. The walk leaves a value unread at every
  such key, so that what stands after it is again a list of values.
*/
module ReplyLeftovers {
  import opened Text
  import opened ReplyWalker
  import opened ReplyTables
  import opened ReplyKinds

  // A percent sign in a string begins one of the four interpreting specifications.
  predicate KnownSpec(s: string) {
    '%' in CString(s) ==> Interprets(Spec(CString(s)))
  }

  // So at any depth.
  predicate Known(v: Val)
    decreases v
  {
    match v
    case VStr(s) => KnownSpec(s)
    case VArray(items) => forall i :: 0 <= i < |items| ==> Known(items[i])
    case VMap(entries) => forall i :: 0 <= i < |entries| ==> KnownEntry(entries[i])
    case _ => true
  }

  predicate KnownEntry(e: Entry)
    decreases e
  {
    Known(e.key) && Known(e.value)
  }

  predicate AllKnown(us: seq<Val>) {
    forall i :: 0 <= i < |us| ==> Known(us[i])
  }

  predicate FirstPlain(us: seq<Val>, n: nat)
    requires n <= |us|
  {
    forall i :: 0 <= i < n ==> Plain(us[i])
  }

  // Keys and values one after the other.
  function Listed(entries: seq<Entry>): (us: seq<Val>)
    ensures |us| == 2 * |entries|
    ensures forall i :: 0 <= i < |entries| ==> us[2 * i] == entries[i].key && us[2 * i + 1] == entries[i].value
  {
    if entries == [] then [] else [entries[0].key, entries[0].value] + Listed(entries[1..])
  }

  predicate FirstPairsPlain(us: seq<Val>, n: nat)
    requires 2 * n <= |us|
  {
    n == 0 || (PlainEntry(ReplyWalker.Entry(us[0], us[1])) && FirstPairsPlain(us[2..], n - 1))
  }

  // The reader stands before the values `left`: exactly those after the first n of us,
  // or more than there are after them.
  ghost predicate Leaves(r: State, us: seq<Val>, rest: seq<Cell>, n: nat, left: seq<Val>, exact: bool) {
    && n <= |us| && AllKnown(left) && Stands(r, EncodeAll(left), rest)
    && if exact then left == us[n..] else |left| > |us| - n
  }

  lemma LeavesMore(r: State, us: seq<Val>, rest: seq<Cell>, n: nat, mid: seq<Val>, first: bool,
    k: nat, left: seq<Val>, second: bool)
    requires n + k <= |us| && n <= |us| && (if first then mid == us[n..] else |mid| > |us| - n)
    requires Leaves(r, mid, rest, k, left, second)
    ensures Leaves(r, us, rest, n + k, left, first && second)
  {
    if first {
      assert us[n..][k..] == us[n + k..];
    }
  }

  lemma {:induction false} EntriesListed(entries: seq<Entry>)
    ensures EncodeEntries(entries) == EncodeAll(Listed(entries))
  {
    if entries != [] {
      var e, more := entries[0], Listed(entries[1..]);
      EntriesListed(entries[1..]);
      EncodeConcat([e.key, e.value], more);
      assert EncodeAll([e.value]) == Encode(e.value) + [] == Encode(e.value);
      assert [e.key, e.value][1..] == [e.value];
    }
  }

  lemma KnownListed(entries: seq<Entry>)
    requires Known(VMap(entries))
    ensures AllKnown(Listed(entries))
  {
    var us := Listed(entries);
    forall i | 0 <= i < |us| ensures Known(us[i]) {
      assert KnownEntry(entries[i / 2]);
      assert us[i] == us[2 * (i / 2)] || us[i] == us[2 * (i / 2) + 1];
    }
  }

  lemma MoreEntries(entries: seq<Entry>)
    requires entries != []
    ensures Plain(VMap(entries)) <==> PlainEntry(entries[0]) && Plain(VMap(entries[1..]))
  {
    hide PlainEntry;
    var more := entries[1..];
    assert Plain(VMap(more)) <==> forall i :: 0 <= i < |more| ==> PlainEntry(more[i]);
    if PlainEntry(entries[0]) && Plain(VMap(more)) {
      forall i | 0 <= i < |entries| ensures PlainEntry(entries[i]) {
        if i > 0 {
          assert more[i - 1] == entries[i];
        }
      }
    }
    if Plain(VMap(entries)) {
      assert forall i :: 0 <= i < |more| ==> more[i] == entries[i + 1];
    }
  }

  lemma ListedMore(entries: seq<Entry>, more: seq<Val>)
    requires entries != []
    ensures var us := Listed(entries) + more;
      && |us| >= 2 * |entries| && us[2..] == Listed(entries[1..]) + more
      && ReplyWalker.Entry(us[0], us[1]) == entries[0]
  {
    var two, others := [entries[0].key, entries[0].value], Listed(entries[1..]);
    assert Listed(entries) == two + others;
    hide *;
    Associative(two, others, more);
    TwoFirst(two, others + more);
  }

  lemma TwoFirst(two: seq<Val>, more: seq<Val>)
    requires |two| == 2
    ensures (two + more)[0] == two[0] && (two + more)[1] == two[1] && (two + more)[2..] == more
  {
    hide *;
  }

  lemma MorePairs(us: seq<Val>, n: nat)
    requires n > 0 && 2 * n <= |us|
    ensures FirstPairsPlain(us, n) <==>
      PlainEntry(ReplyWalker.Entry(us[0], us[1])) && FirstPairsPlain(us[2..], n - 1)
  {}

  lemma {:induction false} PairsPlain(entries: seq<Entry>, more: seq<Val>)
    ensures FirstPairsPlain(Listed(entries) + more, |entries|) <==> Plain(VMap(entries))
  {
    if entries != [] {
      hide *;
      var us := Listed(entries) + more;
      PairsPlain(entries[1..], more);
      MoreEntries(entries);
      ListedMore(entries, more);
      MorePairs(us, |entries|);
    }
  }

  lemma ItemsPlain(items: seq<Val>, more: seq<Val>)
    ensures FirstPlain(items + more, |items|) <==> Plain(VArray(items))
  {
    assert forall i :: 0 <= i < |items| ==> (items + more)[i] == items[i];
  }

  lemma Inside(r: State, inner: seq<Val>, us: seq<Val>, rest: seq<Cell>, left: seq<Val>, exact: bool)
    requires us != [] && Leaves(r, inner + us[1..], rest, |inner|, left, exact)
    ensures Leaves(r, us, rest, 1, left, exact)
  {
    assert (inner + us[1..])[|inner|..] == us[1..];
  }

  // Walking one value leaves at least the values after it, and exactly those if and only
  // if it is plain.
  lemma {:induction false} LeftOne(d: Decoder, us: seq<Val>, st: State, rest: seq<Cell>, depth: nat)
    returns (left: seq<Val>)
    requires Forward(d) && us != [] && AllKnown(us) && Stands(st, EncodeAll(us), rest)
    ensures var (tag, mid) := ReadTag(st);
      |mid.rest| < |st.rest| && Leaves(Walk(d, mid, tag, "", depth), us, rest, 1, left, Plain(us[0]))
    decreases |st.rest|, 0
  {
    var v, more := us[0], EncodeAll(us[1..]) + rest;
    EncodeHead(us, rest);
    ReadTagOf(v, st, more);
    var mid := st.(rest := Payload(v) + more);
    assert |mid.rest| < |st.rest|;
    match v
    case VArray(items) =>
      left := LeftInArray(d, items, us, mid, rest, depth);
    case VMap(entries) =>
      left := LeftInMap(d, entries, us, mid, rest, depth);
    case _ =>
      WalkValue(d, v, mid, more, depth);
      left := us[1..];
  }

  lemma {:induction false} LeftInArray(
      d: Decoder, items: seq<Val>, us: seq<Val>, st: State, rest: seq<Cell>, depth: nat)
    returns (left: seq<Val>)
    requires Forward(d) && us != [] && us[0] == VArray(items) && AllKnown(us)
    requires Stands(st, EncodeAll(items), EncodeAll(us[1..]) + rest)
    ensures Leaves(Walk(d, st, Array(|items|), "", depth), us, rest, 1, left, Plain(us[0]))
    decreases |st.rest|, 2
  {
    if items == [] {
      assert [] + (EncodeAll(us[1..]) + rest) == EncodeAll(us[1..]) + rest;
      left := us[1..];
    } else {
      assert Known(us[0]);
      ItemsPlain(items, us[1..]);
      EncodeConcat(items, us[1..]);
      Associative(EncodeAll(items), EncodeAll(us[1..]), rest);
      left := LeftItems(d, items + us[1..], st, rest, |items|, depth);
      Inside(WalkItems(d, st, |items|, depth), items, us, rest, left, Plain(us[0]));
    }
  }

  lemma {:induction false} LeftItems(d: Decoder, us: seq<Val>, st: State, rest: seq<Cell>, n: nat, depth: nat)
    returns (left: seq<Val>)
    requires Forward(d) && n <= |us| && AllKnown(us) && Stands(st, EncodeAll(us), rest)
    ensures Leaves(WalkItems(d, st, n, depth), us, rest, n, left, FirstPlain(us, n))
    decreases |st.rest|, 1
  {
    if n == 0 {
      assert us[0..] == us;
      left := us;
    } else {
      var (tag, mid) := ReadTag(st);
      var next := Walk(d, mid, tag, "", depth);
      var after := LeftOne(d, us, st, rest, depth);
      left := LeftItems(d, after, next, rest, n - 1, depth);
      LeavesMore(WalkItems(d, st, n, depth), us, rest, 1, after, Plain(us[0]), n - 1, left, FirstPlain(after, n - 1));
      if Plain(us[0]) {
        MorePlain(us, n);
      }
    }
  }

  lemma MorePlain(us: seq<Val>, n: nat)
    requires 0 < n <= |us|
    ensures FirstPlain(us, n) <==> Plain(us[0]) && FirstPlain(us[1..], n - 1)
  {
    if Plain(us[0]) && FirstPlain(us[1..], n - 1) {
      forall i | 0 < i < n ensures Plain(us[i]) {
        assert us[1..][i - 1] == us[i];
      }
    }
    if FirstPlain(us, n) {
      assert forall i :: 0 <= i < n - 1 ==> us[1..][i] == us[i + 1];
    }
  }

  lemma {:induction false} LeftInMap(
      d: Decoder, entries: seq<Entry>, us: seq<Val>, st: State, rest: seq<Cell>, depth: nat)
    returns (left: seq<Val>)
    requires Forward(d) && us != [] && us[0] == VMap(entries) && AllKnown(us)
    requires Stands(st, EncodeEntries(entries), EncodeAll(us[1..]) + rest)
    ensures Leaves(Walk(d, st, Map(|entries|), "", depth), us, rest, 1, left, Plain(us[0]))
    decreases |st.rest|, 4
  {
    var inner := Listed(entries);
    assert Known(us[0]);
    KnownListed(entries);
    EntriesListed(entries);
    PairsPlain(entries, us[1..]);
    EncodeConcat(inner, us[1..]);
    Associative(EncodeAll(inner), EncodeAll(us[1..]), rest);
    left := LeftEntries(d, inner + us[1..], st, rest, |entries|, depth);
    Inside(WalkEntries(d, st, |entries|, depth), inner, us, rest, left, Plain(us[0]));
  }

  lemma {:induction false} LeftEntries(d: Decoder, us: seq<Val>, st: State, rest: seq<Cell>, n: nat, depth: nat)
    returns (left: seq<Val>)
    requires Forward(d) && 2 * n <= |us| && AllKnown(us) && Stands(st, EncodeAll(us), rest)
    ensures Leaves(WalkEntries(d, st, n, depth), us, rest, 2 * n, left, FirstPairsPlain(us, n))
    decreases |st.rest|, 3
  {
    if n == 0 {
      assert us[0..] == us;
      left := us;
    } else {
      var next := WalkEntry(d, st, depth);
      var after := LeftEntry(d, us, st, rest, depth);
      left := LeftEntries(d, after, next, rest, n - 1, depth);
      LeavesMore(WalkEntries(d, st, n, depth), us, rest, 2, after, PlainEntry(ReplyWalker.Entry(us[0], us[1])),
        2 * (n - 1), left, FirstPairsPlain(after, n - 1));
    }
  }

  // Two values walked as an entry.
  lemma {:induction false} LeftEntry(d: Decoder, us: seq<Val>, st: State, rest: seq<Cell>, depth: nat)
    returns (left: seq<Val>)
    requires Forward(d) && 2 <= |us| && AllKnown(us) && Stands(st, EncodeAll(us), rest)
    ensures |WalkEntry(d, st, depth).rest| < |st.rest|
    ensures Leaves(WalkEntry(d, st, depth), us, rest, 2, left, PlainEntry(ReplyWalker.Entry(us[0], us[1])))
    decreases |st.rest|, 2
  {
    var key, more := us[0], EncodeAll(us[1..]) + rest;
    EncodeHead(us, rest);
    ReadTagOf(key, st, more);
    if key.VStr? {
      left := LeftNamed(d, us, st, rest, depth);
    } else {
      var (tag, mid) := ReadTag(st);
      var next := Walk(d, mid, tag, "", depth);
      var after := LeftOne(d, us, st, rest, depth);
      left := LeftOne(d, after, next, rest, depth);
      LeavesMore(WalkEntry(d, st, depth), us, rest, 1, after, Plain(key), 1, left, Plain(after[0]));
    }
  }

  lemma {:induction false} LeftNamed(d: Decoder, us: seq<Val>, st: State, rest: seq<Cell>, depth: nat)
    returns (left: seq<Val>)
    requires Forward(d) && 2 <= |us| && us[0].VStr? && AllKnown(us) && Stands(st, EncodeAll(us), rest)
    ensures |WalkEntry(d, st, depth).rest| < |st.rest|
    ensures Leaves(WalkEntry(d, st, depth), us, rest, 2, left, PlainEntry(ReplyWalker.Entry(us[0], us[1])))
    decreases |st.rest|, 1
  {
    var e, more := ReplyWalker.Entry(us[0], us[1]), EncodeAll(us[2..]) + rest;
    TwoHeads(us, rest);
    KeyRead(d, e, st, more, depth);
    var name := CString(us[0].s);
    assert Known(us[0]);
    KeyPlain(e);
    if '%' in name {
      InterpretedKeyLeavesValue(d, e, st, more, depth);
      left := us[1..];
      EncodeHead(us[1..], rest);
    } else {
      var captioned := Put(st.(rest := Encode(us[1]) + more), Indent(depth) + name + ": ");
      EncodeHead(us[1..], rest);
      hide Encode, EncodeAll, Plain, Known, CString, WalkEntry, Walk, ReadTag, PlainEntry;
      left := LeftOne(d, us[1..], captioned, rest, depth);
      LeavesMore(WalkEntry(d, st, depth), us, rest, 1, us[1..], true, 1, left, Plain(us[1]));
    }
  }

  lemma KeyPlain(e: Entry)
    requires e.key.VStr?
    ensures PlainEntry(e) <==> Plain(e.value) && '%' !in CString(e.key.s)
  {}

  lemma TwoHeads(us: seq<Val>, rest: seq<Cell>)
    requires |us| >= 2
    ensures us[1..][0] == us[1] && us[1..][1..] == us[2..]
    ensures EncodeAll(us) + rest == EncodeEntry(ReplyWalker.Entry(us[0], us[1])) + (EncodeAll(us[2..]) + rest)
    ensures EncodeAll(us[1..]) + rest == Encode(us[1]) + (EncodeAll(us[2..]) + rest)
    ensures EncodeEntry(ReplyWalker.Entry(us[0], us[1])) == Encode(us[0]) + Encode(us[1])
  {
    EncodeHead(us, rest);
    EncodeHead(us[1..], rest);
    assert us[1..][1..] == us[2..];
    Associative(Encode(us[0]), Encode(us[1]), EncodeAll(us[2..]) + rest);
  }

  // A value whose strings hold no other specification is consumed exactly if and only if
  // no string key of it, at any depth, has one.
  lemma ValueConsumedIff(d: Decoder, v: Val, st: State, rest: seq<Cell>, depth: nat)
    requires Forward(d) && Known(v) && Stands(st, Encode(v), rest)
    ensures var (tag, mid) := ReadTag(st);
      var after := Walk(d, mid, tag, "", depth);
      !after.error && (after.rest == rest <==> Plain(v))
  {
    assert EncodeAll([v]) == Encode(v) + [] == Encode(v);
    var left := LeftOne(d, [v], st, rest, depth);
    if left != [] {
      EncodeHead(left, rest);
    }
  }

  lemma NoError(st: State, cells: seq<Cell>, rest: seq<Cell>)
    requires Stands(st, cells, rest)
    ensures !st.error
  {}

  lemma LeavesPut(r: State, text: string, us: seq<Val>, rest: seq<Cell>, n: nat, left: seq<Val>, exact: bool)
    requires Leaves(r, us, rest, n, left, exact)
    ensures Leaves(Put(r, text), us, rest, n, left, exact)
  {}

  lemma LeavesStands(r: State, us: seq<Val>, rest: seq<Cell>, n: nat, left: seq<Val>, exact: bool)
    requires Leaves(r, us, rest, n, left, exact)
    ensures AllKnown(left) && Stands(r, EncodeAll(left), rest)
    ensures n <= |us| && if exact then left == us[n..] else |left| > |us| - n
  {}

  lemma {:induction false} LeftRows(d: Decoder, us: seq<Val>, st: State, rest: seq<Cell>, n: nat)
    returns (left: seq<Val>)
    requires Forward(d) && n <= |us| && AllKnown(us) && Stands(st, EncodeAll(us), rest)
    ensures Leaves(ShowRows(d, st, n), us, rest, n, left, FirstPlain(us, n))
    decreases n
  {
    if n == 0 {
      assert us[0..] == us;
      left := us;
    } else {
      hide *;
      UnfoldShowRows(d, st, n);
      NoError(st, EncodeAll(us), rest);
      var (tag, mid) := ReadTag(st);
      var row := Walk(d, mid, tag, "", 0);
      var after := LeftOne(d, us, st, rest, 0);
      LeavesPut(row, "\n", us, rest, 1, after, Plain(us[0]));
      LeavesStands(Put(row, "\n"), us, rest, 1, after, Plain(us[0]));
      left := LeftRows(d, after, Put(row, "\n"), rest, n - 1);
      LeavesMore(ShowRows(d, st, n), us, rest, 1, after, Plain(us[0]), n - 1, left, FirstPlain(after, n - 1));
      MorePlain(us, n);
    }
  }

  // The same for whole replies of rows, of either kind without heads.
  lemma PlainReplyConsumedIff(d: Decoder, kinds: Kinds, kind: U64, rows: seq<Val>, st: State, rest: seq<Cell>)
    requires Forward(d) && (kind == kinds.oneDimensional || kind == kinds.twoNoHead) && AllKnown(rows)
    requires Stands(st, Encode(VArray([VUint(kind)] + rows)), rest)
    ensures var after := Process(d, st, kinds);
      !after.error && (after.rest == rest <==> forall i :: 0 <= i < |rows| ==> Plain(rows[i]))
  {
    var from := st.(rest := EncodeAll(rows) + rest);
    ReadHeader(d, kinds, kind, rows, st, rest);
    assert Process(d, st, kinds) == ShowRows(d, from, |rows|);
    hide Process, Encode, Plain, Known, Walk, ReadTag;
    var left := LeftRows(d, rows, from, rest, |rows|);
    if left != [] {
      EncodeHead(left, rest);
      EncodesSome(left[0]);
    }
  }

  lemma EncodesSome(v: Val)
    ensures |Encode(v)| > 0
  {}
}
