/**
  What the scanner makes of every slot/module/port text that its pattern admits, and what
  the printed texts name, element by element.
*/
module SmpReads {
  import opened Text
  import opened MemberList
  import opened ListParser
  import opened SmpText
  import opened SmpPattern
  import opened Keywords

  // ---------- what the parts of a text name ----------

  function RangeText(a: nat, b: nat): string {
    Dec(a) + "-" + Dec(b)
  }

  // Some element is the number m, or a range around it.
  ghost predicate Names(elems: seq<string>, m: int) {
    (m >= 0 && Dec(m) in elems) || exists a: nat, b: nat :: RangeText(a, b) in elems && a <= m <= b
  }

  // Ports by number or range; a star names all.
  ghost predicate PortNamed(part: string, m: int) {
    if part == "*" then 1 <= m <= 128 else Names(Split(part, ','), m)
  }

  // Numbers and ranges lie in 1..128, ranges the right way round.
  ghost predicate InRange(elems: seq<string>) {
    && (forall m: nat :: Dec(m) in elems ==> 1 <= m <= 128)
    && forall a: nat, b: nat :: RangeText(a, b) in elems ==> 1 <= a <= b <= 128
  }

  ghost predicate PortsAdmitted(part: string) {
    part == "*" || InRange(Split(part, ','))
  }

  // Bit k of a slot word: a one-digit number sets the bit below it, a star all 64.
  predicate SlotNamed(part: string, k: nat) {
    part == "*" || (k < 9 && Dec(k + 1) in Split(part, ','))
  }

  // One-digit numbers are within the slots of the system, and the bits within the mask.
  ghost predicate SlotsAdmitted(part: string, n: nat, bound: Word) {
    && (part != "*" ==> forall d: nat :: 1 <= d <= 9 && Dec(d) in Split(part, ',') ==> d <= n)
    && forall k :: 0 <= k < 64 && SlotNamed(part, k) ==> bound[k]
  }

  // Bit k of a module word: r is module 4, f is 5 and b is 6, in either case.
  predicate ModuleNamed(part: string, k: nat) {
    || part == "*"
    || (k == 4 && ("r" in Split(part, ',') || "R" in Split(part, ',')))
    || (k == 5 && ("f" in Split(part, ',') || "F" in Split(part, ',')))
    || (k == 6 && ("b" in Split(part, ',') || "B" in Split(part, ',')))
  }

  ghost predicate ModulesAdmitted(part: string, bound: Word) {
    forall k :: 0 <= k < 64 && ModuleNamed(part, k) ==> bound[k]
  }

  // ---------- numbers and ranges ----------

  lemma NumItem(e: string) returns (it: Item)
    requires IsNums(e)
    ensures it.Show() == e && it.lo >= 1
  {
    if IsNum(e) {
      DecOfValue(e);
      it := One(Value(e));
    } else {
      var k := Find(e, '-');
      DecOfValue(e[..k]);
      DecOfValue(e[k + 1..]);
      assert e == e[..k] + "-" + e[k + 1..];
      it := Span(Value(e[..k]), Value(e[k + 1..]));
    }
  }

  // Elements as the pattern has them are the spellings of numbers and ranges.
  lemma {:induction false} NumItems(elems: seq<string>) returns (items: seq<Item>)
    requires AllNums(elems)
    ensures Shown(items) == elems && forall it <- items :: it.lo >= 1
  {
    if elems == [] {
      items := [];
    } else {
      var first := NumItem(elems[0]);
      hide Dec, IsNums;
      var rest := NumItems(elems[1..]);
      items := [first] + rest;
      assert elems == [elems[0]] + elems[1..];
    }
  }

  lemma ShowInjective(a: Item, b: Item)
    requires a.Show() == b.Show()
    ensures a == b
  {
    DecPlain(a.lo, '-');
    DecPlain(b.lo, '-');
    if a.Span? {
      SpanEnds(a.lo, a.hi);
      assert a.Show()[|Dec(a.lo)|] == '-';
    }
    if b.Span? {
      SpanEnds(b.lo, b.hi);
      assert b.Show()[|Dec(b.lo)|] == '-';
    }
    if a.One? && b.One? {
      DecInjective(a.lo, b.lo);
    }
  }

  // A spelling is in the list exactly when its element is.
  lemma SpeltIff(items: seq<Item>, it: Item)
    ensures it.Show() in Shown(items) <==> it in items
  {
    if it.Show() in Shown(items) {
      var i :| 0 <= i < |items| && Shown(items)[i] == it.Show();
      ShowInjective(items[i], it);
    }
    if it in items {
      var i :| 0 <= i < |items| && items[i] == it;
      assert Shown(items)[i] in Shown(items);
    }
  }

  lemma AllSpelt(items: seq<Item>)
    ensures forall m: nat :: Dec(m) in Shown(items) <==> One(m) in items
    ensures forall a: nat, b: nat :: RangeText(a, b) in Shown(items) <==> Span(a, b) in items
  {
    forall m: nat ensures Dec(m) in Shown(items) <==> One(m) in items {
      SpeltIff(items, One(m));
    }
    forall a: nat, b: nat ensures RangeText(a, b) in Shown(items) <==> Span(a, b) in items {
      SpeltIff(items, Span(a, b));
    }
  }

  // A list names what its elements have.
  lemma NamesIff(items: seq<Item>, m: int)
    ensures Names(Shown(items), m) <==> Covered(items, m)
  {
    AllSpelt(items);
    hide Shown, Dec, RangeText;
    if it :| it in items && it.Has(m) {
      if it.One? {
        assert it == One(m);
      } else {
        assert RangeText(it.lo, it.hi) in Shown(items);
      }
    }
    if m >= 0 && Dec(m) in Shown(items) {
      assert One(m) in items && One(m).Has(m);
    }
    if a: nat, b: nat :| RangeText(a, b) in Shown(items) && a <= m <= b {
      assert Span(a, b) in items && Span(a, b).Has(m);
    }
  }

  // ---------- ports ----------

  lemma PortElementsOk(items: seq<Item>)
    ensures (forall it <- items :: 1 <= it.lo <= it.Last() <= MAX_PORT_NUMBER) <==> InRange(Shown(items))
  {
    AllSpelt(items);
    hide Shown, Dec, RangeText;
    if forall it <- items :: 1 <= it.lo <= it.Last() <= MAX_PORT_NUMBER {
      forall m: nat | Dec(m) in Shown(items) ensures 1 <= m <= 128 {
        assert One(m) in items;
      }
      forall a: nat, b: nat | RangeText(a, b) in Shown(items) ensures 1 <= a <= b <= 128 {
        assert Span(a, b) in items;
      }
    } else {
      var it :| it in items && !(1 <= it.lo <= it.Last() <= MAX_PORT_NUMBER);
      assert it == if it.One? then One(it.lo) else Span(it.lo, it.hi);
      assert if it.One? then Dec(it.lo) in Shown(items) else RangeText(it.lo, it.hi) in Shown(items);
    }
  }

  // Any list of the pattern: accepted exactly when its numbers and ranges lie in 1..128
  // the right way round, and then it names the ports that its elements spell.
  lemma PortPartMeans(part: string)
    requires IsElem(part)
    ensures PortPartOk(part) <==> PortsAdmitted(part)
    ensures forall m :: SomePortElementHas(Split(part, ','), m) <==> PortNamed(part, m)
  {
    var elems := Split(part, ',');
    if part == "*" {
      SplitJoin(["*"], ',');
      assert PortElementOk("*");
      GoodIs(elems, PortElementOk, 1);
      forall m ensures SomePortElementHas(["*"], m) <==> 1 <= m <= 128 {
        assert PortElementHas(["*"][0], m) <==> 1 <= m <= 128;
      }
    } else {
      ListPartMeans(part);
    }
  }

  lemma ListPartMeans(part: string)
    requires IsElem(part) && part != "*"
    ensures PortPartOk(part) <==> PortsAdmitted(part)
    ensures forall m :: SomePortElementHas(Split(part, ','), m) <==> PortNamed(part, m)
  {
    var items := NumItems(Split(part, ','));
    ItemsMean(items);
    assert PortPartOk(part) <==> Good(Shown(items), PortElementOk) == |items|;
    hide PortElementOk, PortElementHas, SomePortElementHas, Shown, Names, InRange, Good;
  }

  lemma ItemsMean(items: seq<Item>)
    requires items != []
    ensures Good(Shown(items), PortElementOk) == |items| <==> InRange(Shown(items))
    ensures forall m :: SomePortElementHas(Shown(items), m) <==> Names(Shown(items), m)
  {
    hide *;
    PortListUnion(items);
    PortElementsOk(items);
    forall m ensures SomePortElementHas(Shown(items), m) <==> Names(Shown(items), m) {
      NamesIff(items, m);
    }
  }

  // ---------- slots ----------

  lemma SlotItem(it: Item, n: nat)
    requires it.lo >= 1
    ensures SlotElementOk(it.Show(), n) <==> (it.One? && it.lo < 10 ==> it.lo <= n)
    ensures forall k: nat :: SlotElementHas(it.Show(), k) <==> it == One(k + 1) && k < 9
  {
    OneCharItem(it);
  }

  lemma SlotItemsMean(items: seq<Item>, n: nat)
    requires forall it <- items :: it.lo >= 1
    ensures GoodSlots(Shown(items), n) == |items| <==> forall d: nat :: 1 <= d <= 9 && One(d) in items ==> d <= n
    ensures forall k: nat :: k < 64 ==> (SlotUnion(Shown(items))[k] <==> k < 9 && One(k + 1) in items)
  {
    var elems := Shown(items);
    forall i | 0 <= i < |elems|
      ensures SlotElementOk(elems[i], n) <==> (items[i].One? && items[i].lo < 10 ==> items[i].lo <= n)
      ensures items[i].lo >= 1
      ensures forall k: nat :: SlotElementHas(elems[i], k) <==> items[i] == One(k + 1) && k < 9
    {
      assert items[i] in items;
      SlotItem(items[i], n);
    }
    hide SlotElementOk, SlotElementHas;
    if forall d: nat :: 1 <= d <= 9 && One(d) in items ==> d <= n {
      forall i | 0 <= i < |elems| ensures SlotElementOk(elems[i], n) {
        assert items[i].One? ==> One(items[i].lo) in items;
      }
      GoodSlotsIs(elems, n, |elems|);
    }
    if GoodSlots(elems, n) == |elems| {
      forall d: nat | 1 <= d <= 9 && One(d) in items ensures d <= n {
        var i :| 0 <= i < |items| && items[i] == One(d);
        assert SlotElementOk(elems[i], n);
      }
    }
    forall k: nat | k < 9 && One(k + 1) in items ensures SlotUnion(elems)[k] {
      var i :| 0 <= i < |items| && items[i] == One(k + 1);
      assert SlotElementHas(elems[i], k);
    }
  }

  // Longer numbers and ranges are skipped.
  lemma SlotPartMeans(part: string, n: nat)
    requires IsElem(part) && part != "*"
    ensures var elems := Split(part, ',');
      && (GoodSlots(elems, n) == |elems| <==> forall d: nat :: 1 <= d <= 9 && Dec(d) in elems ==> d <= n)
      && forall k :: 0 <= k < 64 ==> (SlotUnion(elems)[k] <==> SlotNamed(part, k))
  {
    var items := NumItems(Split(part, ','));
    AllSpelt(items);
    SlotItemsMean(items, n);
    hide Dec, GoodSlots, SlotUnion, Shown;
    assert forall d: nat :: Dec(d) in Split(part, ',') <==> One(d) in items;
    if forall d: nat :: 1 <= d <= 9 && One(d) in items ==> d <= n {
      forall d: nat | 1 <= d <= 9 && Dec(d) in Split(part, ',') ensures d <= n {
        assert One(d) in items;
      }
    } else {
      var d: nat :| 1 <= d <= 9 && One(d) in items && d > n;
      assert Dec(d) in Split(part, ',');
    }
  }

  // A star sets every bit.
  lemma StarMeans(n: nat)
    ensures GoodSlots(Split("*", ','), n) == |Split("*", ',')|
    ensures forall k :: 0 <= k < 64 ==> SlotUnion(Split("*", ','))[k]
  {
    SplitJoin(["*"], ',');
    GoodSlotsIs(["*"], n, 1);
    forall k | 0 <= k < 64 ensures SlotUnion(["*"])[k] {
      assert SlotElementHas(["*"][0], k);
    }
  }

  lemma SlotPartOkIff(part: string, n: nat, bound: Word)
    requires IsElem(part)
    ensures SlotPartOk(part, n, bound) <==> SlotsAdmitted(part, n, bound)
    ensures forall k :: 0 <= k < 64 ==> (SlotUnion(Split(part, ','))[k] <==> SlotNamed(part, k))
  {
    if part == "*" {
      StarMeans(n);
    } else {
      SlotPartMeans(part, n);
    }
  }

  // A star for slots is admitted only by a mask of all 64 bits.
  lemma StarAdmittedIff(n: nat, bound: Word)
    ensures SlotPartOk("*", n, bound) <==> forall k :: 0 <= k < 64 ==> bound[k]
  {
    StarMeans(n);
  }

  // ---------- modules ----------

  lemma ModulePartOkIff(part: string, n: nat, bound: Word)
    requires IsModules(part)
    ensures SlotPartOk(part, n, bound) <==> ModulesAdmitted(part, bound)
    ensures forall k :: 0 <= k < 64 ==> (SlotUnion(Split(part, ','))[k] <==> ModuleNamed(part, k))
  {
    var elems := Split(part, ',');
    if part == "*" {
      StarMeans(n);
    } else {
      forall i | 0 <= i < |elems|
        ensures SlotElementOk(elems[i], n)
        ensures IsModuleLetter(elems[i])
      {
        assert elems[i] in elems && IsModuleLetter(elems[i]);
      }
      GoodSlotsIs(elems, n, |elems|);
      forall k | 0 <= k < 64 ensures SlotUnion(elems)[k] <==> ModuleNamed(part, k) {
        LettersMean(elems, part, k);
      }
    }
  }

  lemma LettersMean(elems: seq<string>, part: string, k: nat)
    requires elems == Split(part, ',') && part != "*" && forall i :: 0 <= i < |elems| ==> IsModuleLetter(elems[i])
    ensures (exists i :: 0 <= i < |elems| && SlotElementHas(elems[i], k)) <==> ModuleNamed(part, k)
  {
    if i :| 0 <= i < |elems| && SlotElementHas(elems[i], k) {
      assert elems[i] in elems && elems[i] == [elems[i][0]];
    }
    if ModuleNamed(part, k) {
      var e := if k == 4 then (if "r" in elems then "r" else "R")
        else if k == 5 then (if "f" in elems then "f" else "F")
        else if "b" in elems then "b" else "B";
      var i :| 0 <= i < |elems| && elems[i] == e;
      assert SlotElementHas(elems[i], k);
    }
  }

  // ---------- letter case ----------

  lemma {:induction false} FindLower(s: string)
    ensures Find(LowerAll(s), ',') == Find(s, ',')
  {
    if s != [] && s[0] != ',' {
      assert LowerAll(s)[1..] == LowerAll(s[1..]);
      FindLower(s[1..]);
    }
  }

  lemma {:induction false} SplitLower(s: string)
    ensures |Split(LowerAll(s), ',')| == |Split(s, ',')|
    ensures forall i :: 0 <= i < |Split(s, ',')| ==> Split(LowerAll(s), ',')[i] == LowerAll(Split(s, ',')[i])
    decreases |s|
  {
    var k := Find(s, ',');
    FindLower(s);
    hide Lower, LowerAll, Find;
    LowerAround(s, k);
    if k < |s| {
      LowerAround(s, k + 1);
      SplitLower(s[k + 1..]);
    }
  }

  lemma LowerAround(s: string, i: nat)
    requires i <= |s|
    ensures LowerAll(s)[..i] == LowerAll(s[..i]) && LowerAll(s)[i..] == LowerAll(s[i..])
  {
    hide Lower, LowerAll;
  }

  lemma LowerLetter(e: string, c: string)
    requires IsModuleLetter(e) && c in ["r", "f", "b"]
    ensures LowerAll(e) == c <==> e == c || e == UpperAll(c)
    ensures LowerAll(e) != UpperAll(c)
  {
    assert e == [e[0]] && LowerAll(e)[0] == Lower(e[0]) && UpperAll(c)[0] == Upper(c[0]);
  }

  lemma LetterInLower(part: string, c: string)
    requires IsModules(part) && part != "*" && c in ["r", "f", "b"]
    ensures var elems, lower := Split(part, ','), Split(LowerAll(part), ',');
      (c in lower || UpperAll(c) in lower) <==> (c in elems || UpperAll(c) in elems)
  {
    var elems, lower := Split(part, ','), Split(LowerAll(part), ',');
    SplitLower(part);
    forall i | 0 <= i < |elems|
      ensures (lower[i] == c || lower[i] == UpperAll(c)) <==> (elems[i] == c || elems[i] == UpperAll(c))
    {
      assert elems[i] in elems;
      LowerLetter(elems[i], c);
    }
    if c in elems || UpperAll(c) in elems {
      var i :| 0 <= i < |elems| && (elems[i] == c || elems[i] == UpperAll(c));
      assert lower[i] in lower;
    }
    if c in lower || UpperAll(c) in lower {
      var i :| 0 <= i < |lower| && (lower[i] == c || lower[i] == UpperAll(c));
      assert elems[i] in elems;
    }
  }

  // A module list means the same in lower case.
  lemma CaseOfModules(part: string, k: nat)
    requires IsModules(part)
    ensures ModuleNamed(LowerAll(part), k) <==> ModuleNamed(part, k)
  {
    if part == "*" {
      assert LowerAll(part) == "*";
    } else {
      LetterInLower(part, "r");
      LetterInLower(part, "f");
      LetterInLower(part, "b");
      assert UpperAll("r") == "R" && UpperAll("f") == "F" && UpperAll("b") == "B";
      NoStarInLower(part);
    }
  }

  lemma NoStarInLower(part: string)
    requires part != "*"
    ensures LowerAll(part) != "*"
  {
    if |part| == 1 {
      assert LowerAll(part)[0] == Lower(part[0]) && part == [part[0]];
    }
  }

  // ---------- whole texts ----------

  // Any text that the pattern admits: which part is refused, and what the words hold
  // when none is.
  method LexMatching(text: string, n: nat, slotBits: Word, moduleBits: Word, v: Smps) returns (stage: Stage)
    requires v.p.Length == WORDS && MatchesSmps(text)
    modifies v, v.p
    ensures stage == SlotsBad <==> !SlotsAdmitted(Split(text, '/')[0], n, slotBits)
    ensures stage == ModulesBad <==>
      SlotsAdmitted(Split(text, '/')[0], n, slotBits) && !ModulesAdmitted(Split(text, '/')[1], moduleBits)
    ensures stage == Accepted <==>
      SlotsAdmitted(Split(text, '/')[0], n, slotBits) && ModulesAdmitted(Split(text, '/')[1], moduleBits)
      && PortsAdmitted(Split(text, '/')[2])
    ensures stage == Accepted ==> forall k :: 0 <= k < 64 ==>
      (v.s[k] <==> SlotNamed(Split(text, '/')[0], k)) && (v.m[k] <==> ModuleNamed(Split(text, '/')[1], k))
    ensures stage == Accepted ==> forall k :: 0 <= k < 256 ==>
      (Bit(v.p[..], k) <==> PortNamed(Split(text, '/')[2], k + 1))
  {
    ghost var parts := Split(text, '/');
    SlotPartOkIff(parts[0], n, slotBits);
    ModulePartOkIff(parts[1], n, moduleBits);
    PortPartMeans(parts[2]);
    hide SlotPartOk, SlotsAdmitted, ModulesAdmitted, PortsAdmitted, PortPartOk, SlotNamed, ModuleNamed, PortNamed;
    stage := v.Lex(text, n, slotBits, moduleBits);
  }

  // ---------- printed texts ----------

  lemma NamedByPrinted(items: seq<Item>, m: int)
    ensures Names(Split(ListText(items), ','), m) <==> Covered(items, m)
  {
    SplitList(items);
    if items == [] {
      assert m >= 0 ==> Dec(m) != "";
    } else {
      NamesIff(items, m);
    }
  }

  // A printed slot list names exactly the slots of the system that are set.
  lemma SlotTextNames(slots: Word, n: nat, m: int)
    requires n < 63
    ensures Names(Split(SlotText(slots, n), ','), m) <==> 1 <= m <= n && slots[m - 1]
  {
    var bits := ShiftLeft(slots)[..n + 2];
    NamedByPrinted(Items(bits, 0, 0), m);
    ItemsDenote(bits, 0, 0, m);
  }

  // A printed port list names exactly the ports of the mask, and is a star exactly for
  // all of them.
  lemma PortPartNames(mask: seq<Word>, m: int)
    requires |mask| == WORDS
    ensures PortNamed(PortPart(mask), m) <==> 1 <= m <= 128 && Bit(mask, m - 1)
    ensures PortPart(mask) == "*" <==> forall k :: 0 <= k < 128 ==> Bit(mask, k)
  {
    StarIff(mask);
    if PortPart(mask) != "*" {
      var bits := PortBits(mask);
      NamedByPrinted(Items(bits, 1, 0), m);
      ItemsDenote(bits, 1, 0, m);
    }
  }

  lemma StarIff(mask: seq<Word>)
    requires |mask| == WORDS
    ensures PortPart(mask) == "*" <==> forall k :: 0 <= k < 128 ==> Bit(mask, k)
  {
    ListTextAvoidsStar(Items(PortBits(mask), 1, 0));
    assert "*"[0] == '*';
    if forall k :: 0 <= k < 128 ==> Bit(mask, k) {
      forall w, o | 0 <= w < 2 && 0 <= o < 64 ensures mask[w][o] {
        assert Bit(mask, 64 * w + o) && (64 * w + o) / 64 == w && (64 * w + o) % 64 == o;
      }
    }
  }
}
