/**
  Replies in domains without heads. An element of a domain is walked as often as its tag
  counts: which elements, domains and replies are consumed exactly, and what they show.
*/
module ReplyDomains {
  import opened Text
  import opened ReplyWalker
  import opened ReplyTables
  import opened ReplyKinds

  // ---------- what is consumed exactly ----------

  // An element that repeated walks leave in place: a number, which has no cells of its
  // own, or a value that counts at most one.
  predicate IsSimple(v: Val) {
    v.VUint? || Count(HeadTag(v)) <= 1
  }

  function Times(s: string, n: nat): string {
    if n == 0 then "" else s + Times(s, n - 1)
  }

  // A number is shown as often as it says, down to 32 bits.
  function ElementText(v: Val): string {
    Times(Render(v, 1), Count(HeadTag(v))) + "\n"
  }

  lemma {:induction false} UintAgain(d: Decoder, st: State, v: U64, n: nat)
    requires Forward(d)
    ensures WalkAgain(d, st, Uint(v), n) == Put(st, Times(UintText(v), n))
    decreases n
  {
    if n == 0 {
      assert st.out + "" == st.out;
    } else {
      UintAgain(d, Put(st, UintText(v)), v, n - 1);
      PutTwice(st, UintText(v), Times(UintText(v), n - 1));
    }
  }

  lemma WalkedOnce(d: Decoder, v: Val, st: State, rest: seq<Cell>)
    requires Forward(d) && Plain(v) && Stands(st, Payload(v), rest)
    ensures WalkAgain(d, st, HeadTag(v), 1) == Put(st.(rest := rest), Times(Render(v, 1), 1))
  {
    WalkValue(d, v, st, rest, 1);
    assert WalkAgain(d, Walk(d, st, HeadTag(v), "", 1), HeadTag(v), 0) == Walk(d, st, HeadTag(v), "", 1);
    assert Render(v, 1) + "" == Render(v, 1);
  }

  lemma NotWalked(d: Decoder, v: Val, st: State, rest: seq<Cell>)
    requires Forward(d) && Stands(st, Payload(v), rest) && Count(HeadTag(v)) == 0 && !v.VUint?
    ensures WalkAgain(d, st, HeadTag(v), 0) == Put(st.(rest := rest), "")
  {
    assert Payload(v) == [] && [] + rest == rest && st.out + "" == st.out;
  }

  lemma ElementConsumed(d: Decoder, v: Val, st: State, rest: seq<Cell>)
    requires Forward(d) && Plain(v) && IsSimple(v) && Stands(st, Encode(v), rest)
    ensures ShowElement(d, st) == Put(st.(rest := rest), ElementText(v))
  {
    var mid, n := st.(rest := Payload(v) + rest), Count(HeadTag(v));
    ReadTagOf(v, st, rest);
    if v.VUint? {
      UintAgain(d, mid, v.v, n);
      assert [] + rest == rest;
    } else if n == 0 {
      NotWalked(d, v, mid, rest);
    } else {
      WalkedOnce(d, v, mid, rest);
    }
    PutTwice(st.(rest := rest), Times(Render(v, 1), n), "\n");
  }

  function ElementsText(vs: seq<Val>): string {
    if vs == [] then "" else ElementText(vs[0]) + ElementsText(vs[1..])
  }

  lemma {:induction false} ElementsConsumed(d: Decoder, vs: seq<Val>, st: State, rest: seq<Cell>)
    requires Forward(d) && forall i :: 0 <= i < |vs| ==> Plain(vs[i]) && IsSimple(vs[i])
    requires Stands(st, EncodeAll(vs), rest)
    ensures ShowElements(d, st, |vs|) == Put(st.(rest := rest), ElementsText(vs))
  {
    if vs == [] {
      assert [] + rest == rest && st.out + "" == st.out;
    } else {
      var more := EncodeAll(vs[1..]) + rest;
      EncodeHead(vs, rest);
      ElementConsumed(d, vs[0], st, more);
      UnfoldElements(d, st, |vs|);
      var next := Put(st.(rest := more), ElementText(vs[0]));
      ElementsConsumed(d, vs[1..], next, rest);
      PutTwice(st.(rest := rest), ElementText(vs[0]), ElementsText(vs[1..]));
    }
  }

  datatype Domain = Domain(title: Val, elements: seq<Val>)

  ghost predicate DomainFits(x: Domain) {
    Plain(x.title) && forall i :: 0 <= i < |x.elements| ==> Plain(x.elements[i]) && IsSimple(x.elements[i])
  }

  function FromDomain(x: Domain): Val {
    VArray([x.title] + x.elements)
  }

  function FromDomains(xs: seq<Domain>): (r: seq<Val>)
    ensures |r| == |xs| && forall i :: 0 <= i < |xs| ==> r[i] == FromDomain(xs[i])
  {
    seq(|xs|, i requires 0 <= i < |xs| => FromDomain(xs[i]))
  }

  function DomainText(x: Domain): string {
    if x.elements == [] then Render(x.title, 0) + "\n\n"
    else Render(x.title, 0) + "\n" + RULE + ElementsText(x.elements) + RULE + "\n"
  }

  function DomainsText(xs: seq<Domain>): string {
    if xs == [] then "" else DomainText(xs[0]) + DomainsText(xs[1..])
  }

  lemma DomainFromIs(d: Decoder, st: State, n: nat, tag: MTag, mid: State, title: State)
    requires Forward(d) && ReadTag(st) == (tag, mid) && Walk(d, mid, tag, "", 0) == title
    ensures DomainFrom(d, st, n) ==
      Put(Put(ShowElements(d, Put(Put(title, "\n"), RuleIf(n > 1)), n as int - 1), RuleIf(n > 1)), "\n")
  {}

  lemma DomainConsumed(d: Decoder, x: Domain, st: State, rest: seq<Cell>)
    requires Forward(d) && DomainFits(x) && Stands(st, Encode(FromDomain(x)), rest)
    ensures ShowDomain(d, st) == Put(st.(rest := rest), DomainText(x))
  {
    var more, n, rule := EncodeAll(x.elements) + rest, |x.elements| + 1, RuleIf(x.elements != []);
    var from := st.(rest := Encode(x.title) + more);
    ReadFirst(x.title, x.elements, st, rest);
    StandsAfter(st, Encode(FromDomain(x)), rest, Encode(x.title), more);
    WalkEncoded(d, x.title, from, more, 0);
    var (tag, mid) := ReadTag(from);
    var title := Put(st.(rest := more), Render(x.title, 0));
    DomainFromIs(d, from, n, tag, mid, title);
    var ruled := Put(Put(title, "\n"), rule);
    ElementsConsumed(d, x.elements, ruled, rest);
    hide ShowElements, ElementsText, RuleIf, EncodeAll, Encode, Render, Walk;
    var all := st.(rest := rest);
    PutTwice(all, Render(x.title, 0), "\n");
    PutTwice(all, Render(x.title, 0) + "\n", rule);
    PutTwice(all, Render(x.title, 0) + "\n" + rule, ElementsText(x.elements));
    PutTwice(all, Render(x.title, 0) + "\n" + rule + ElementsText(x.elements), rule);
    PutTwice(all, Render(x.title, 0) + "\n" + rule + ElementsText(x.elements) + rule, "\n");
    DomainTextIs(x);
  }

  lemma DomainTextIs(x: Domain)
    ensures DomainText(x) == Render(x.title, 0) + "\n" + RuleIf(x.elements != []) + ElementsText(x.elements)
      + RuleIf(x.elements != []) + "\n"
  {}

  lemma {:induction false} DomainsConsumed(d: Decoder, xs: seq<Domain>, st: State, rest: seq<Cell>)
    requires Forward(d) && forall i :: 0 <= i < |xs| ==> DomainFits(xs[i])
    requires Stands(st, EncodeAll(FromDomains(xs)), rest)
    ensures ShowDomains(d, st, |xs|) == Put(st.(rest := rest), DomainsText(xs))
  {
    if xs == [] {
      assert [] + rest == rest && st.out + "" == st.out;
    } else {
      var vs := FromDomains(xs);
      assert vs[1..] == FromDomains(xs[1..]);
      var more := EncodeAll(vs[1..]) + rest;
      EncodeHead(vs, rest);
      DomainConsumed(d, xs[0], st, more);
      UnfoldDomains(d, st, |xs|);
      var next := Put(st.(rest := more), DomainText(xs[0]));
      DomainsConsumed(d, xs[1..], next, rest);
      PutTwice(st.(rest := rest), DomainText(xs[0]), DomainsText(xs[1..]));
    }
  }

  // A reply in domains of simple elements is consumed exactly and shown domain by domain.
  lemma DomainedReplyConsumed(d: Decoder, kinds: Kinds, xs: seq<Domain>, st: State, rest: seq<Cell>)
    requires Forward(d) && kinds.Distinct() && forall i :: 0 <= i < |xs| ==> DomainFits(xs[i])
    requires Stands(st, Encode(VArray([VUint(kinds.mulNoHead)] + FromDomains(xs))), rest)
    ensures Process(d, st, kinds) == Put(st.(rest := rest), DomainsText(xs))
  {
    hide *;
    var cells := EncodeAll(FromDomains(xs));
    var after := st.(rest := cells + rest);
    StandsAfter(st, Encode(VArray([VUint(kinds.mulNoHead)] + FromDomains(xs))), rest, cells, rest);
    ReadHeader(d, kinds, kinds.mulNoHead, FromDomains(xs), st, rest);
    DomainedKind(d, kinds, after, |xs| + 1);
    DomainsConsumed(d, xs, after, rest);
  }

  // ---------- exactly when ----------

  // The reader has failed, or has read into what follows.
  ghost predicate Past(st: State, rest: seq<Cell>) {
    st.error || |st.rest| < |rest|
  }

  // Once in error the reader stays where it is.
  lemma {:induction false} ItemsStuck(d: Decoder, st: State, n: nat, depth: nat)
    requires Forward(d) && st.error
    ensures WalkItems(d, st, n, depth) == st
  {
    if n > 0 {
      ItemsStuck(d, st, n - 1, depth);
    }
  }

  lemma EntryStuck(d: Decoder, st: State, depth: nat)
    requires Forward(d) && st.error
    ensures WalkEntry(d, st, depth) == st
  {}

  lemma {:induction false} EntriesStuck(d: Decoder, st: State, n: nat, depth: nat)
    requires Forward(d) && st.error
    ensures WalkEntries(d, st, n, depth) == st
  {
    if n > 0 {
      EntryStuck(d, st, depth);
      EntriesStuck(d, st, n - 1, depth);
    }
  }

  lemma PastWalk(d: Decoder, st: State, tag: MTag, depth: nat, rest: seq<Cell>)
    requires Forward(d) && Past(st, rest)
    ensures Past(Walk(d, st, tag, "", depth), rest)
  {
    if st.error {
      match tag
      case Array(n) => ItemsStuck(d, st, n, depth);
      case Map(n) => EntriesStuck(d, st, n, depth);
      case _ =>
    }
  }

  lemma PastItems(d: Decoder, st: State, n: nat, depth: nat, rest: seq<Cell>)
    requires Forward(d) && Past(st, rest)
    ensures Past(WalkItems(d, st, n, depth), rest)
  {
    if st.error {
      ItemsStuck(d, st, n, depth);
    }
  }

  lemma PastEntries(d: Decoder, st: State, n: nat, depth: nat, rest: seq<Cell>)
    requires Forward(d) && Past(st, rest)
    ensures Past(WalkEntries(d, st, n, depth), rest)
  {
    if st.error {
      EntriesStuck(d, st, n, depth);
    }
  }

  lemma {:induction false} PastAgain(d: Decoder, st: State, tag: MTag, n: nat, rest: seq<Cell>)
    requires Forward(d) && Past(st, rest)
    ensures Past(WalkAgain(d, st, tag, n), rest)
    decreases n
  {
    if n > 0 {
      PastWalk(d, st, tag, 1, rest);
      PastAgain(d, Walk(d, st, tag, "", 1), tag, n - 1, rest);
    }
  }

  lemma PastElement(d: Decoder, st: State, rest: seq<Cell>)
    requires Forward(d) && (Past(st, rest) || Stands(st, [], rest))
    ensures Past(ShowElement(d, st), rest)
  {
    var (tag, mid) := ReadTag(st);
    assert [] + rest == rest;
    assert Past(mid, rest);
    PastAgain(d, mid, tag, Count(tag), rest);
  }

  lemma PastElements(d: Decoder, st: State, n: int, rest: seq<Cell>)
    requires Forward(d) && Past(st, rest)
    ensures Past(ShowElements(d, st, n), rest)
  {}

  lemma PastDomain(d: Decoder, st: State, n: nat, rest: seq<Cell>)
    requires Forward(d) && (Past(st, rest) || Stands(st, [], rest))
    ensures Past(DomainFrom(d, st, n), rest)
  {
    var (tag, mid) := ReadTag(st);
    assert [] + rest == rest;
    assert Past(mid, rest);
    PastWalk(d, mid, tag, 0, rest);
    var title := Walk(d, mid, tag, "", 0);
    DomainFromIs(d, st, n, tag, mid, title);
    PastElements(d, Put(Put(title, "\n"), RuleIf(n > 1)), n as int - 1, rest);
  }

  // No string at any depth holds a percent sign, so that it stays plain as a key too.
  predicate NoPercent(v: Val)
    decreases v
  {
    match v
    case VStr(s) => '%' !in CString(s)
    case VArray(items) => forall i :: 0 <= i < |items| ==> NoPercent(items[i])
    case VMap(entries) => forall i :: 0 <= i < |entries| ==> NoPercentEntry(entries[i])
    case _ => true
  }

  predicate NoPercentEntry(e: Entry)
    decreases e
  {
    NoPercent(e.key) && NoPercent(e.value)
  }

  lemma {:induction false} NoPercentIsPlain(v: Val)
    requires NoPercent(v)
    ensures Plain(v)
    decreases v
  {
    match v
    case VArray(items) =>
      forall i | 0 <= i < |items| ensures Plain(items[i]) {
        NoPercentIsPlain(items[i]);
      }
    case VMap(entries) =>
      forall i | 0 <= i < |entries| ensures PlainEntry(entries[i]) {
        assert NoPercentEntry(entries[i]);
        NoPercentIsPlain(entries[i].key);
        NoPercentIsPlain(entries[i].value);
      }
    case _ =>
  }

  predicate AllNoPercent(us: seq<Val>) {
    forall i :: 0 <= i < |us| ==> NoPercent(us[i])
  }

  // From the values us, followed by `rest`, the reader has gone on by exactly j values,
  // or past all of them.
  ghost predicate After(r: State, us: seq<Val>, rest: seq<Cell>, j: nat) {
    if j <= |us| then Stands(r, EncodeAll(us[j..]), rest) else Past(r, rest)
  }

  lemma AfterMore(r: State, us: seq<Val>, rest: seq<Cell>, j: nat, k: nat)
    requires j <= |us| && After(r, us[j..], rest, k)
    ensures After(r, us, rest, j + k)
  {
    if j + k <= |us| {
      assert us[j..][k..] == us[j + k..];
    }
  }

  lemma NotMoved(st: State, us: seq<Val>, rest: seq<Cell>)
    requires Stands(st, EncodeAll(us), rest)
    ensures !st.error && After(st, us, rest, 0)
  {
    assert us[0..] == us;
  }

  lemma PastAll(r: State, us: seq<Val>, rest: seq<Cell>, j: nat)
    requires Past(r, rest) && j > |us|
    ensures After(r, us, rest, j)
  {}

  lemma Further(r: State, us: seq<Val>, rest: seq<Cell>, j: nat)
    requires After(r, us, rest, j) && AllNoPercent(us)
    ensures if j > |us| then Past(r, rest) else Stands(r, EncodeAll(us[j..]), rest) && AllNoPercent(us[j..])
  {}

  lemma FirstPlain(us: seq<Val>)
    requires AllNoPercent(us) && us != []
    ensures Plain(us[0]) && AllNoPercent(us[1..])
  {
    NoPercentIsPlain(us[0]);
  }

  // One value without a percent sign is one step.
  lemma StepOver(d: Decoder, us: seq<Val>, st: State, rest: seq<Cell>, depth: nat)
    requires Forward(d) && Stands(st, EncodeAll(us), rest) && (us != [] ==> Plain(us[0]))
    ensures var (tag, mid) := ReadTag(st); After(Walk(d, mid, tag, "", depth), us, rest, 1)
  {
    if us == [] {
      var (tag, mid) := ReadTag(st);
      assert [] + rest == rest;
      PastWalk(d, mid, tag, depth, rest);
    } else {
      EncodeHead(us, rest);
      WalkEncoded(d, us[0], st, EncodeAll(us[1..]) + rest, depth);
    }
  }

  lemma {:induction false} ItemsOver(d: Decoder, us: seq<Val>, st: State, rest: seq<Cell>, n: nat, depth: nat)
    requires Forward(d) && AllNoPercent(us) && Stands(st, EncodeAll(us), rest)
    ensures After(WalkItems(d, st, n, depth), us, rest, n)
  {
    if n == 0 {
      assert us[0..] == us;
    } else {
      if us != [] {
        NoPercentIsPlain(us[0]);
      }
      StepOver(d, us, st, rest, depth);
      var (tag, mid) := ReadTag(st);
      var next := Walk(d, mid, tag, "", depth);
      if us == [] {
        PastItems(d, next, n - 1, depth, rest);
      } else {
        ItemsOver(d, us[1..], next, rest, n - 1, depth);
        AfterMore(WalkItems(d, st, n, depth), us, rest, 1, n - 1);
      }
    }
  }

  // A map entry is two values.
  lemma EntryOver(d: Decoder, us: seq<Val>, st: State, rest: seq<Cell>, depth: nat)
    requires Forward(d) && AllNoPercent(us) && Stands(st, EncodeAll(us), rest)
    ensures After(WalkEntry(d, st, depth), us, rest, 2)
  {
    if us == [] {
      assert [] + rest == rest;
      if ReadTag(st).1.error {
        assert ReadTag(st).0 == Other;
      }
    } else if |us| == 1 {
      assert us == [us[0]];
      LoneKey(d, us[0], st, rest, depth);
    } else {
      var e := ReplyWalker.Entry(us[0], us[1]);
      var more := EncodeAll(us[2..]) + rest;
      NoPercentIsPlain(us[0]);
      NoPercentIsPlain(us[1]);
      EncodeHead(us, rest);
      EncodeHead(us[1..], rest);
      assert us[1..][1..] == us[2..];
      Associative(Encode(us[0]), Encode(us[1]), more);
      WalkOneEntry(d, e, st, more, depth);
    }
  }

  // The value of the entry is read from what follows.
  lemma LoneKey(d: Decoder, v: Val, st: State, rest: seq<Cell>, depth: nat)
    requires Forward(d) && NoPercent(v) && Stands(st, EncodeAll([v]), rest)
    ensures Past(WalkEntry(d, st, depth), rest)
  {
    assert EncodeAll([v]) == Encode(v) + [] == Encode(v);
    NoPercentIsPlain(v);
    ReadTagOf(v, st, rest);
    var mid := st.(rest := Payload(v) + rest);
    if v.VStr? {
      ReadStringOf(v.s, mid, rest);
      ReadPastEnd(d, Put(st.(rest := rest), Indent(depth) + CString(v.s) + ": "), rest, depth);
    } else {
      WalkValue(d, v, mid, rest, depth);
      ReadPastEnd(d, Put(st.(rest := rest), Render(v, depth)), rest, depth);
    }
  }

  lemma ReadPastEnd(d: Decoder, st: State, rest: seq<Cell>, depth: nat)
    requires Forward(d) && !st.error && st.rest == rest
    ensures var (tag, mid) := ReadTag(st); Past(Walk(d, mid, tag, "", depth), rest)
  {
    var (tag, mid) := ReadTag(st);
    PastWalk(d, mid, tag, depth, rest);
  }

  lemma {:induction false} EntriesOver(d: Decoder, us: seq<Val>, st: State, rest: seq<Cell>, n: nat, depth: nat)
    requires Forward(d) && AllNoPercent(us) && Stands(st, EncodeAll(us), rest)
    ensures After(WalkEntries(d, st, n, depth), us, rest, 2 * n)
  {
    if n == 0 {
      assert us[0..] == us;
    } else {
      EntryOver(d, us, st, rest, depth);
      var next := WalkEntry(d, st, depth);
      if |us| < 2 {
        PastEntries(d, next, n - 1, depth, rest);
      } else {
        EntriesOver(d, us[2..], next, rest, n - 1, depth);
        AfterMore(WalkEntries(d, st, n, depth), us, rest, 2, 2 * (n - 1));
      }
    }
  }

  // A tag that is walked again goes on over the values that follow.
  lemma WalkOver(d: Decoder, tag: MTag, us: seq<Val>, st: State, rest: seq<Cell>) returns (j: nat)
    requires Forward(d) && AllNoPercent(us) && Stands(st, EncodeAll(us), rest)
    requires !tag.Uint? && Count(tag) > 0
    ensures j > 0 && After(Walk(d, st, tag, "", 1), us, rest, j)
  {
    match tag
    case Array(n) =>
      ItemsOver(d, us, st, rest, n, 1);
      j := n;
    case Map(n) =>
      EntriesOver(d, us, st, rest, n, 1);
      j := 2 * n;
    case Str(len) =>
      StringOver(len, us, st, rest);
      j := |us| + 1;
  }

  // Bytes are no values: reading them fails, or takes from what follows.
  lemma StringOver(len: nat, us: seq<Val>, st: State, rest: seq<Cell>)
    requires len > 0 && Stands(st, EncodeAll(us), rest)
    ensures Past(ReadString(st, len).1, rest)
  {
    if us == [] {
      assert [] + rest == rest;
    } else {
      EncodeHead(us, rest);
      if len <= |st.rest| {
        var cell := st.rest[..len][0];
        assert cell in st.rest[..len] && !cell.Byte?;
      }
    }
  }

  lemma UnfoldAgain(d: Decoder, st: State, tag: MTag, k: nat)
    requires Forward(d)
    ensures WalkAgain(d, st, tag, k) == if k == 0 then st else WalkAgain(d, Walk(d, st, tag, "", 1), tag, k - 1)
  {}

  lemma {:induction false} AgainOver(d: Decoder, tag: MTag, us: seq<Val>, st: State, rest: seq<Cell>, k: nat)
    returns (j: nat)
    requires Forward(d) && AllNoPercent(us) && Stands(st, EncodeAll(us), rest)
    requires !tag.Uint? && Count(tag) > 0
    ensures j >= k && After(WalkAgain(d, st, tag, k), us, rest, j)
    decreases k
  {
    hide *;
    UnfoldAgain(d, st, tag, k);
    if k == 0 {
      j := 0;
      NotMoved(st, us, rest);
    } else {
      var next := Walk(d, st, tag, "", 1);
      var first := WalkOver(d, tag, us, st, rest);
      Further(next, us, rest, first);
      if first > |us| {
        PastAgain(d, next, tag, k - 1, rest);
        j := |us| + k;
        PastAll(WalkAgain(d, st, tag, k), us, rest, j);
      } else {
        var more := AgainOver(d, tag, us[first..], next, rest, k - 1);
        AfterMore(WalkAgain(d, st, tag, k), us, rest, first, more);
        j := first + more;
      }
    }
  }

  lemma AfterPut(r: State, text: string, us: seq<Val>, rest: seq<Cell>, j: nat)
    requires After(r, us, rest, j)
    ensures After(Put(r, text), us, rest, j)
  {}

  lemma WalkedMore(d: Decoder, v: Val, us: seq<Val>, st: State, rest: seq<Cell>) returns (j: nat)
    requires Forward(d) && Plain(v) && !IsSimple(v) && AllNoPercent(us)
    requires Stands(st, Payload(v), EncodeAll(us) + rest)
    ensures j > 0 && After(WalkAgain(d, st, HeadTag(v), Count(HeadTag(v))), us, rest, j)
  {
    var tag, n, more := HeadTag(v), Count(HeadTag(v)), EncodeAll(us) + rest;
    WalkValue(d, v, st, more, 1);
    var once := Put(st.(rest := more), Render(v, 1));
    j := AgainOver(d, tag, us, once, rest, n - 1);
  }

  // An element is one step exactly when it is simple.
  lemma ElementOver(d: Decoder, us: seq<Val>, st: State, rest: seq<Cell>) returns (j: nat)
    requires Forward(d) && us != [] && Plain(us[0]) && AllNoPercent(us[1..]) && Stands(st, EncodeAll(us), rest)
    ensures j > 0 && (j == 1 <==> IsSimple(us[0])) && After(ShowElement(d, st), us, rest, j)
  {
    var v, more := us[0], EncodeAll(us[1..]) + rest;
    EncodeHead(us, rest);
    if IsSimple(v) {
      ElementConsumed(d, v, st, more);
      j := 1;
    } else {
      ReadTagOf(v, st, more);
      var mid := st.(rest := Payload(v) + more);
      StandsAfter(st, Encode(v), more, Payload(v), more);
      hide Encode, EncodeAll, Payload, ReadTag, WalkAgain, IsSimple, Plain;
      var again := WalkAgain(d, mid, HeadTag(v), Count(HeadTag(v)));
      var k := WalkedMore(d, v, us[1..], mid, rest);
      AfterMore(again, us, rest, 1, k);
      AfterPut(again, "\n", us, rest, 1 + k);
      j := 1 + k;
    }
  }

  predicate AllSimple(us: seq<Val>, n: nat) {
    n <= |us| && forall i :: 0 <= i < n ==> IsSimple(us[i])
  }

  lemma SimpleMore(us: seq<Val>, n: nat)
    ensures AllSimple(us, n) <==> n == 0 || (us != [] && IsSimple(us[0]) && AllSimple(us[1..], n - 1))
  {
    if n > 0 && us != [] && IsSimple(us[0]) && AllSimple(us[1..], n - 1) {
      forall i | 0 < i < n ensures IsSimple(us[i]) {
        assert us[1..][i - 1] == us[i];
      }
    }
  }

  lemma ElementsAtEnd(d: Decoder, st: State, rest: seq<Cell>, n: nat)
    requires Forward(d) && n > 0 && Stands(st, EncodeAll([]), rest)
    ensures Past(ShowElements(d, st, n), rest)
  {
    PastElement(d, st, rest);
    PastElements(d, ShowElement(d, st), n - 1, rest);
  }

  lemma {:induction false} ElementsOver(d: Decoder, us: seq<Val>, st: State, rest: seq<Cell>, n: nat) returns (j: nat)
    requires Forward(d) && AllNoPercent(us) && Stands(st, EncodeAll(us), rest)
    ensures j >= n && (j == n <==> AllSimple(us, n)) && After(ShowElements(d, st, n), us, rest, j)
    decreases n
  {
    hide *;
    var next := ShowElement(d, st);
    UnfoldElements(d, st, n);
    SimpleMore(us, n);
    NotMoved(st, us, rest);
    if n == 0 {
      j := 0;
    } else if us == [] {
      j := n + 1;
      ElementsAtEnd(d, st, rest, n);
      PastAll(ShowElements(d, st, n), us, rest, j);
    } else {
      FirstPlain(us);
      var first := ElementOver(d, us, st, rest);
      Further(next, us, rest, first);
      if first > |us| {
        PastElements(d, next, n - 1, rest);
        j := |us| + n + 1;
        PastAll(ShowElements(d, next, n - 1), us, rest, j);
        PastAll(ShowElements(d, st, n), us, rest, j);
      } else {
        var more := ElementsOver(d, us[first..], next, rest, n - 1);
        AfterMore(ShowElements(d, st, n), us, rest, first, more);
        j := first + more;
      }
    }
  }

  // For every plain element, whatever follows it.
  lemma ElementConsumedIff(d: Decoder, v: Val, st: State, rest: seq<Cell>)
    requires Forward(d) && Plain(v) && Stands(st, Encode(v), rest)
    ensures var after := ShowElements(d, st, 1); !after.error && after.rest == rest <==> IsSimple(v)
  {
    assert EncodeAll([v]) == Encode(v) + [] == Encode(v);
    var j := ElementOver(d, [v], st, rest);
    UnfoldElements(d, st, 1);
    UnfoldElements(d, ShowElement(d, st), 0);
    assert [v][1..] == [] && EncodeAll([]) + rest == rest;
  }

  // A domain that is consumed exactly: a title, then simple elements.
  predicate IsDomain(v: Val) {
    v.VArray? && v.items != [] && AllSimple(v.items[1..], |v.items| - 1)
  }

  // The title, its line and the rule under it.
  function Titled(d: Decoder, st: State, n: nat): (r: State)
    requires Forward(d)
  {
    var (tag, mid) := ReadTag(st);
    Put(Put(Walk(d, mid, tag, "", 0), "\n"), RuleIf(n > 1))
  }

  lemma DomainParts(d: Decoder, st: State, n: nat)
    requires Forward(d)
    ensures DomainFrom(d, st, n) == Put(Put(ShowElements(d, Titled(d, st, n), n as int - 1), RuleIf(n > 1)), "\n")
  {
    var (tag, mid) := ReadTag(st);
    DomainFromIs(d, st, n, tag, mid, Walk(d, mid, tag, "", 0));
  }

  lemma TitleOver(d: Decoder, us: seq<Val>, st: State, rest: seq<Cell>, n: nat)
    requires Forward(d) && AllNoPercent(us) && Stands(st, EncodeAll(us), rest) && us != []
    ensures After(Titled(d, st, n), us, rest, 1)
  {
    NoPercentIsPlain(us[0]);
    StepOver(d, us, st, rest, 0);
    var (tag, mid) := ReadTag(st);
    var title := Walk(d, mid, tag, "", 0);
    hide Walk, ReadTag, RuleIf, EncodeAll;
    AfterPut(title, "\n", us, rest, 1);
    AfterPut(Put(title, "\n"), RuleIf(n > 1), us, rest, 1);
  }

  // The elements of a domain with n items, which has none if n is 0.
  lemma MembersOver(d: Decoder, us: seq<Val>, st: State, rest: seq<Cell>, n: nat) returns (j: nat)
    requires Forward(d) && AllNoPercent(us) && Stands(st, EncodeAll(us), rest)
    ensures After(ShowElements(d, st, n as int - 1), us, rest, j)
    ensures n > 0 ==> j >= n - 1 && (j == n - 1 <==> AllSimple(us, n - 1))
  {
    UnfoldElements(d, st, n as int - 1);
    hide ShowElements, EncodeAll, AllSimple;
    if n == 0 {
      j := 0;
      assert us[0..] == us;
    } else {
      j := ElementsOver(d, us, st, rest, n - 1);
    }
  }

  lemma AtEnd(d: Decoder, st: State, rest: seq<Cell>)
    requires Forward(d) && Stands(st, EncodeAll([]), rest)
    ensures Past(DomainFrom(d, st, 0), rest)
  {
    PastDomain(d, st, 0, rest);
  }

  // The title and n - 1 elements, taken from the values us.
  lemma DomainFromOver(d: Decoder, us: seq<Val>, st: State, rest: seq<Cell>, n: nat) returns (j: nat)
    requires Forward(d) && AllNoPercent(us) && Stands(st, EncodeAll(us), rest) && n <= |us|
    ensures j > 0 && After(DomainFrom(d, st, n), us, rest, j)
    ensures n > 0 ==> j >= n && (j == n <==> AllSimple(us[1..], n - 1))
  {
    hide *;
    if us == [] {
      AtEnd(d, st, rest);
      PastAll(DomainFrom(d, st, 0), us, rest, 1);
      j := 1;
    } else {
      TitleOver(d, us, st, rest, n);
      var ruled := Titled(d, st, n);
      Further(ruled, us, rest, 1);
      var k := MembersOver(d, us[1..], ruled, rest, n);
      var elements := ShowElements(d, ruled, n as int - 1);
      j := 1 + k;
      AfterMore(elements, us, rest, 1, k);
      AfterPut(elements, RuleIf(n > 1), us, rest, j);
      AfterPut(Put(elements, RuleIf(n > 1)), "\n", us, rest, j);
      DomainParts(d, st, n);
    }
  }

  // A value that is not an array fails as a domain.
  lemma NotADomain(d: Decoder, v: Val, st: State, rest: seq<Cell>)
    requires Forward(d) && !v.VArray? && Stands(st, Encode(v), rest)
    ensures ShowDomain(d, st).error
  {
    ReadTagOf(v, st, rest);
    var (n, failed) := ReadArray(st);
    PastDomain(d, failed, n, failed.rest);
  }

  // The items of the first value, then those after it.
  lemma ReadListed(items: seq<Val>, us: seq<Val>, st: State, rest: seq<Cell>)
    requires us != [] && us[0] == VArray(items) && Stands(st, EncodeAll(us), rest)
    ensures var all := EncodeAll(items + us[1..]) + rest;
      ReadArray(st) == (|items|, st.(rest := all)) && !st.error
  {
    EncodeHead(us, rest);
    ReadArrayOf(items, st, EncodeAll(us[1..]) + rest);
    EncodeConcat(items, us[1..]);
    Associative(EncodeAll(items), EncodeAll(us[1..]), rest);
  }

  // A value read as a domain is one step exactly when it is one.
  lemma DomainOver(d: Decoder, us: seq<Val>, st: State, rest: seq<Cell>) returns (j: nat)
    requires Forward(d) && us != [] && AllNoPercent(us) && Stands(st, EncodeAll(us), rest)
    ensures j > 0 && (j == 1 <==> IsDomain(us[0])) && After(ShowDomain(d, st), us, rest, j)
  {
    if !us[0].VArray? {
      EncodeHead(us, rest);
      NotADomain(d, us[0], st, EncodeAll(us[1..]) + rest);
      j := |us| + 1;
    } else {
      var items := us[0].items;
      var n, all := |items|, items + us[1..];
      ReadListed(items, us, st, rest);
      var mid := st.(rest := EncodeAll(all) + rest);
      assert NoPercent(us[0]);
      hide EncodeAll, ReadArray, DomainFrom, AllSimple;
      var k := DomainFromOver(d, all, mid, rest, n);
      j := 1 + k - n;
      ListedIn(DomainFrom(d, mid, n), items, us, rest, k);
      if n > 0 {
        FirstSimple(items, us[1..]);
      }
    }
  }

  // What is left after the items of us[0] and k - n further values.
  lemma ListedIn(r: State, items: seq<Val>, us: seq<Val>, rest: seq<Cell>, k: nat)
    requires us != [] && After(r, items + us[1..], rest, k) && k >= |items|
    ensures After(r, us, rest, 1 + k - |items|)
  {
    if k <= |items| + |us| - 1 {
      assert (items + us[1..])[k..] == us[1 + k - |items|..];
    }
  }

  lemma FirstSimple(items: seq<Val>, more: seq<Val>)
    requires items != []
    ensures AllSimple((items + more)[1..], |items| - 1) <==> AllSimple(items[1..], |items| - 1)
  {
    var a, b := (items + more)[1..], items[1..];
    assert forall i :: 0 <= i < |b| ==> a[i] == b[i];
  }

  predicate AllDomains(us: seq<Val>, n: nat) {
    n <= |us| && forall i :: 0 <= i < n ==> IsDomain(us[i])
  }

  lemma DomainPast(d: Decoder, st: State, rest: seq<Cell>)
    requires Forward(d) && (Past(st, rest) || Stands(st, [], rest))
    ensures Past(ShowDomain(d, st), rest)
  {
    var (n, mid) := ReadArray(st);
    assert [] + rest == rest;
    PastDomain(d, mid, n, rest);
  }

  lemma DomainsMore(us: seq<Val>, n: nat)
    ensures AllDomains(us, n) <==> n == 0 || (us != [] && IsDomain(us[0]) && AllDomains(us[1..], n - 1))
  {
    if n > 0 && us != [] && IsDomain(us[0]) && AllDomains(us[1..], n - 1) {
      forall i | 0 < i < n ensures IsDomain(us[i]) {
        assert us[1..][i - 1] == us[i];
      }
    }
  }

  lemma DomainsAtEnd(d: Decoder, st: State, rest: seq<Cell>, n: nat)
    requires Forward(d) && n > 0 && Stands(st, EncodeAll([]), rest)
    ensures Past(ShowDomains(d, st, n), rest)
  {
    DomainPast(d, st, rest);
    PastDomains(d, ShowDomain(d, st), n - 1, rest);
  }

  lemma {:induction false} DomainsOver(d: Decoder, us: seq<Val>, st: State, rest: seq<Cell>, n: nat) returns (j: nat)
    requires Forward(d) && AllNoPercent(us) && Stands(st, EncodeAll(us), rest)
    ensures j >= n && (j == n <==> AllDomains(us, n)) && After(ShowDomains(d, st, n), us, rest, j)
    decreases n
  {
    hide *;
    var next := ShowDomain(d, st);
    UnfoldDomains(d, st, n);
    DomainsMore(us, n);
    NotMoved(st, us, rest);
    if n == 0 {
      j := 0;
    } else if us == [] {
      j := n + 1;
      DomainsAtEnd(d, st, rest, n);
      PastAll(ShowDomains(d, st, n), us, rest, j);
    } else {
      var first := DomainOver(d, us, st, rest);
      Further(next, us, rest, first);
      if first > |us| {
        PastDomains(d, next, n - 1, rest);
        j := |us| + n + 1;
        PastAll(ShowDomains(d, next, n - 1), us, rest, j);
        PastAll(ShowDomains(d, st, n), us, rest, j);
      } else {
        var more := DomainsOver(d, us[first..], next, rest, n - 1);
        AfterMore(ShowDomains(d, st, n), us, rest, first, more);
        j := first + more;
      }
    }
  }

  lemma PastDomains(d: Decoder, st: State, n: int, rest: seq<Cell>)
    requires Forward(d) && Past(st, rest)
    ensures Past(ShowDomains(d, st, n), rest)
  {}

  // A whole reply without percent signs is consumed exactly if and only if every value
  // of it is a domain of simple elements.
  lemma DomainedReplyConsumedIff(d: Decoder, kinds: Kinds, us: seq<Val>, st: State, rest: seq<Cell>)
    requires Forward(d) && kinds.Distinct() && AllNoPercent(us)
    requires Stands(st, Encode(VArray([VUint(kinds.mulNoHead)] + us)), rest)
    ensures var after := Process(d, st, kinds);
      !after.error && after.rest == rest <==> forall i :: 0 <= i < |us| ==> IsDomain(us[i])
  {
    var cells := EncodeAll(us);
    var after := st.(rest := cells + rest);
    StandsAfter(st, Encode(VArray([VUint(kinds.mulNoHead)] + us)), rest, cells, rest);
    ReadHeader(d, kinds, kinds.mulNoHead, us, st, rest);
    DomainedKind(d, kinds, after, |us| + 1);
    var j := DomainsOver(d, us, after, rest, |us|);
    hide ByKind, Process, ShowDomains, IsDomain, Encode;
    assert us[|us|..] == [] && EncodeAll([]) + rest == rest;
  }
}
