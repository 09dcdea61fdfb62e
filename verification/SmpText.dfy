/**
  Whole `slot/module/port` texts: printed from three masks, cut at the slashes and
  read back, and exactly which masks survive the trip.
*/
module SmpText {
  import opened Wrappers
  import opened Text
  import opened MemberList
  import opened ListParser

  // ---------- ports ----------

  lemma DecPlain(n: nat, c: char)
    requires !IsDigit(c)
    ensures c !in Dec(n)
  {}

  lemma OneElement(n: nat)
    ensures PortElementOk(Dec(n)) <==> 1 <= n <= MAX_PORT_NUMBER
    ensures forall m :: PortElementHas(Dec(n), m) <==> m == n
  {
    DecPlain(n, '-');
    assert IsDigit(Dec(n)[0]);
    AtoiDec(n);
    DecLength(n);
  }

  lemma SpanEnds(lo: nat, hi: nat)
    ensures Ends(Span(lo, hi).Show()) == Some((lo, hi))
  {
    var tail := "-" + Dec(hi);
    ShowSpan(lo, hi);
    ScanDec(lo, tail);
    ScanDec(hi, []);
    assert Dec(hi) + [] == Dec(hi);
    assert tail[1..] == Dec(hi);
  }

  lemma ItemAvoids(it: Item, c: char)
    requires !IsDigit(c) && c != '-'
    ensures c !in it.Show()
  {
    DecPlain(it.lo, c);
    DecPlain(it.Last(), c);
  }

  // A number or range as an element of a port list.
  lemma ItemElement(it: Item)
    ensures PortElementOk(it.Show()) <==> 1 <= it.lo <= it.Last() <= MAX_PORT_NUMBER
    ensures forall n :: PortElementHas(it.Show(), n) <==> it.Has(n)
  {
    match it
    case One(n) => OneElement(n);
    case Span(lo, hi) =>
      SpanEnds(lo, hi);
      assert it.Show()[|Dec(lo)|] == '-';
  }

  // Any list of numbers and ranges, in any order and with any overlap, is accepted
  // exactly when every element lies in 1..128 the right way round, and then names
  // exactly the ports its elements cover.
  lemma PortListUnion(items: seq<Item>)
    requires items != []
    ensures Split(ListText(items), ',') == Shown(items)
    ensures Good(Shown(items), PortElementOk) == |items| <==>
      forall it <- items :: 1 <= it.lo <= it.Last() <= MAX_PORT_NUMBER
    ensures forall n :: SomePortElementHas(Shown(items), n) <==> Covered(items, n)
  {
    var elems := Shown(items);
    forall i | 0 <= i < |items|
      ensures ',' !in elems[i]
      ensures PortElementOk(elems[i]) <==> 1 <= items[i].lo <= items[i].Last() <= MAX_PORT_NUMBER
      ensures forall n :: PortElementHas(elems[i], n) <==> items[i].Has(n)
    {
      ItemAvoids(items[i], ',');
      ItemElement(items[i]);
    }
    SplitJoin(elems, ',');
    if forall it <- items :: 1 <= it.lo <= it.Last() <= MAX_PORT_NUMBER {
      forall i | 0 <= i < |items| ensures PortElementOk(elems[i]) {
        assert items[i] in items;
      }
      GoodIs(elems, PortElementOk, |elems|);
    }
    forall n ensures SomePortElementHas(elems, n) <==> Covered(items, n) {
      if i :| 0 <= i < |elems| && PortElementHas(elems[i], n) {
        assert items[i] in items && items[i].Has(n);
      }
      if it :| it in items && it.Has(n) {
        var i :| 0 <= i < |items| && items[i] == it;
        assert PortElementHas(elems[i], n);
      }
    }
  }

  ghost predicate HasPort(mask: seq<Word>)
    requires |mask| == WORDS
  {
    exists k :: 0 <= k < MAX_PORT_NUMBER && Bit(mask, k)
  }

  // The text of a mask is accepted exactly when the mask has a port, and then names
  // exactly the mask's 128 ports, whatever its other words hold.
  lemma PortTextReads(mask: seq<Word>)
    requires |mask| == WORDS
    ensures var elems := Split(PortText(mask), ',');
      && (Good(elems, PortElementOk) == |elems| <==> HasPort(mask))
      && (HasPort(mask) ==> forall n :: SomePortElementHas(elems, n) <==> 1 <= n <= MAX_PORT_NUMBER && Bit(mask, n - 1))
  {
    var bits := PortBits(mask);
    var items := Items(bits, 1, 0);
    forall n ensures Covered(items, n) <==> 1 <= n <= MAX_PORT_NUMBER && Bit(mask, n - 1) {
      ItemsDenote(bits, 1, 0, n);
    }
    if items == [] {
      assert Split("", ',') == [""];
      assert forall k :: 0 <= k < MAX_PORT_NUMBER && Bit(mask, k) ==> Covered(items, k + 1);
    } else {
      ItemsCanonical(bits, 1, 0);
      PortListUnion(items);
      assert items[0] in items && items[0].Has(items[0].lo);
      assert Covered(items, items[0].lo);
    }
  }

  // Masks that print alike agree on every port.
  lemma PortTextInjective(a: seq<Word>, b: seq<Word>, k: nat)
    requires |a| == |b| == WORDS && PortText(a) == PortText(b) && k < MAX_PORT_NUMBER
    ensures Bit(a, k) == Bit(b, k)
  {
    PortTextReads(a);
    PortTextReads(b);
    var elems := Split(PortText(a), ',');
    assert HasPort(a) <==> HasPort(b);
    if HasPort(a) {
      hide *;
      assert SomePortElementHas(elems, k + 1) <==> Bit(a, k);
      assert SomePortElementHas(elems, k + 1) <==> Bit(b, k);
    }
  }

  // Parse after print.
  method PortRoundTrip(mask: array<Word>, p: array<Word>) returns (r: int)
    requires mask.Length == p.Length == WORDS && mask != p
    modifies p
    ensures r == 0 <==> HasPort(mask[..])
    ensures r == 0 ==> p[..] == [mask[0], mask[1], ZERO, ZERO]
  {
    var text := SprintPortsFromMask(mask);
    PortTextReads(mask[..]);
    r := Str2MapPorts(text, p);
    if r == 0 {
      var elems := Split(text, ',');
      assert elems[..|elems|] == elems;
      SamePorts(mask[..], p[..], elems);
    }
  }

  lemma SamePorts(mask: seq<Word>, p: seq<Word>, elems: seq<string>)
    requires |mask| == |p| == WORDS && IsPortUnion(p, elems)
    requires forall n :: SomePortElementHas(elems, n) <==> 1 <= n <= MAX_PORT_NUMBER && Bit(mask, n - 1)
    ensures p == [mask[0], mask[1], ZERO, ZERO]
  {
    forall w, o | 0 <= w < WORDS && 0 <= o < 64
      ensures p[w][o] == (w < 2 && mask[w][o])
    {
      var k := 64 * w + o;
      assert k / 64 == w && k % 64 == o;
      assert Bit(p, k) <==> SomePortElementHas(elems, k + 1);
    }
    assert p[0] == mask[0] && p[1] == mask[1] && p[2] == ZERO && p[3] == ZERO;
  }

  // ---------- slots ----------

  // `slots << 1`: slot n becomes bit n.
  function ShiftLeft(w: Word): Word {
    [false] + w[..63]
  }

  function SlotText(slots: Word, n: nat): string
    requires n < 63
  {
    ListText(Items(ShiftLeft(slots)[..n + 2], 0, 0))
  }

  ghost predicate Alone(w: Word, k: nat)
    requires k < 63
  {
    w[k] && !w[k + 1] && (k == 0 || !w[k - 1])
  }

  // The slots that can be read back: one digit long and without neighbours.
  ghost predicate SlotsReadable(slots: Word, n: nat) {
    forall k :: 0 <= k < 64 && slots[k] ==> k < 9 && k < n && !slots[k + 1]
  }

  lemma OneCharItem(it: Item)
    ensures |it.Show()| == 1 <==> it.One? && it.lo < 10
    ensures it.One? && it.lo < 10 ==> it.Show() == ['0' + it.lo as char] && Atoi(it.Show()) == it.lo
  {
    match it
    case One(n) =>
      DecLength(n);
      AtoiDec(n);
    case Span(lo, hi) =>
  }

  lemma SplitList(items: seq<Item>)
    ensures Split(ListText(items), ',') == if items == [] then [""] else Shown(items)
  {
    if items != [] {
      forall i | 0 <= i < |items| ensures ',' !in Shown(items)[i] {
        ItemAvoids(items[i], ',');
      }
      SplitJoin(Shown(items), ',');
    }
  }

  lemma SlotElement(it: Item, n: nat)
    requires 1 <= it.lo <= it.Last() <= n
    ensures SlotElementOk(it.Show(), n)
    ensures forall k: nat :: SlotElementHas(it.Show(), k) <==> it == One(k + 1) && k < 9
  {
    OneCharItem(it);
  }

  ghost function SlotsReadBack(slots: Word, n: nat): Word
    requires n < 63
  {
    SlotUnion(Split(SlotText(slots, n), ','))
  }

  lemma SlotItems(slots: Word, n: nat, items: seq<Item>)
    requires n < 63 && items == Items(ShiftLeft(slots)[..n + 2], 0, 0)
    ensures forall it <- items :: 1 <= it.lo <= it.Last() <= n
    ensures forall k: nat :: k < 63 ==> (One(k + 1) in items <==> k < n && Alone(slots, k))
  {
    var bits := ShiftLeft(slots)[..n + 2];
    ItemsCanonical(bits, 0, 0);
    forall it | it in items ensures 1 <= it.lo {
      ItemsDenote(bits, 0, 0, it.lo);
      assert it.Has(it.lo);
    }
    forall k: nat | k < 63
      ensures One(k + 1) in items <==> k < n && Alone(slots, k)
    {
      AloneIff(bits, 0, 0, k + 1);
    }
  }

  lemma SlotElements(items: seq<Item>, elems: seq<string>, n: nat, k: nat)
    requires |elems| == |items| && forall i :: 0 <= i < |items| ==> elems[i] == items[i].Show()
    requires forall it <- items :: 1 <= it.lo <= it.Last() <= n
    requires k < 64
    ensures GoodSlots(elems, n) == |elems|
    ensures SlotUnion(elems)[k] <==> k < 9 && One(k + 1) in items
  {
    forall i | 0 <= i < |items|
      ensures SlotElementOk(elems[i], n)
      ensures SlotElementHas(elems[i], k) <==> items[i] == One(k + 1) && k < 9
    {
      assert items[i] in items;
      SlotElement(items[i], n);
    }
    GoodSlotsIs(elems, n, |elems|);
    if One(k + 1) in items && k < 9 {
      var i :| 0 <= i < |items| && items[i] == One(k + 1);
      assert SlotElementHas(elems[i], k);
    }
  }

  // Reading the text of a slot mask always succeeds, and keeps the slots that are
  // one digit long and stand alone.
  lemma SlotTextReads(slots: Word, n: nat, k: nat)
    requires n < 63 && k < 64
    ensures GoodSlots(Split(SlotText(slots, n), ','), n) == |Split(SlotText(slots, n), ',')|
    ensures SlotsReadBack(slots, n)[k] <==> k < 9 && k < n && Alone(slots, k)
  {
    var items := Items(ShiftLeft(slots)[..n + 2], 0, 0);
    SplitList(items);
    SlotItems(slots, n, items);
    if items == [] {
      GoodSlotsIs([""], n, 1);
    } else {
      SlotElements(items, Shown(items), n, k);
    }
  }

  lemma SlotsReadBackIff(slots: Word, n: nat)
    requires n < 63
    ensures SlotsReadBack(slots, n) == slots <==> SlotsReadable(slots, n)
  {
    var w := SlotsReadBack(slots, n);
    forall k | 0 <= k < 64 ensures w[k] <==> k < 9 && k < n && Alone(slots, k) {
      SlotTextReads(slots, n, k);
    }
    if w == slots {
      forall k | 0 <= k < 64 && slots[k] ensures k < 9 && k < n && !slots[k + 1] {
        assert w[k];
      }
    }
    if SlotsReadable(slots, n) {
      forall k | 0 <= k < 64 ensures w[k] == slots[k] {
        assert k > 0 && slots[k - 1] ==> !slots[k];
      }
    }
  }

  // ---------- modules ----------

  const MODULE_BACK := 6

  // Modules 4, 5 and 6 have letters.
  function Letter(c: char): char {
    if c == '4' then 'r' else if c == '5' then 'f' else if c == '6' then 'b' else c
  }

  function Lettered(s: string): (r: string)
    ensures |r| == |s| && forall i :: 0 <= i < |s| ==> r[i] == Letter(s[i])
  {
    seq(|s|, i requires 0 <= i < |s| => Letter(s[i]))
  }

  function ModuleText(modules: Word): string {
    Lettered(ListText(Items(modules[..MODULE_BACK + 2], 0, 0)))
  }

  method LetterModules(text: string) returns (p: string)
    ensures p == Lettered(text)
  {
    p := text;
    for i := 0 to |text|
      invariant |p| == |text|
      invariant forall j :: 0 <= j < |p| ==> p[j] == if j < i then Letter(text[j]) else text[j]
    {
      if p[i] == '4' {
        p := p[i := 'r'];
      } else if p[i] == '5' {
        p := p[i := 'f'];
      } else if p[i] == '6' {
        p := p[i := 'b'];
      }
    }
  }

  function AllLettered(xs: seq<string>): (r: seq<string>)
    ensures |r| == |xs| && forall i :: 0 <= i < |xs| ==> r[i] == Lettered(xs[i])
  {
    seq(|xs|, i requires 0 <= i < |xs| => Lettered(xs[i]))
  }

  lemma {:induction false} LetteredJoin(xs: seq<string>)
    ensures Lettered(Join(xs, ',')) == Join(AllLettered(xs), ',')
  {
    if |xs| > 1 {
      LetteredJoin(xs[1..]);
      assert AllLettered(xs)[1..] == AllLettered(xs[1..]);
    }
  }

  lemma SplitModules(modules: Word, items: seq<Item>)
    requires items == Items(modules[..MODULE_BACK + 2], 0, 0)
    ensures Split(ModuleText(modules), ',') == if items == [] then [""] else AllLettered(Shown(items))
  {
    if items == [] {
      assert Lettered("") == "";
    } else {
      LetteredJoin(Shown(items));
      forall i | 0 <= i < |items| ensures ',' !in AllLettered(Shown(items))[i] {
        ItemAvoids(items[i], ',');
        LetteredAvoids(items[i].Show(), ',');
      }
      SplitJoin(AllLettered(Shown(items)), ',');
    }
  }

  lemma LetteredAvoids(s: string, c: char)
    requires c !in s && c !in "rfb"
    ensures c !in Lettered(s)
  {
    forall i | 0 <= i < |s| ensures Lettered(s)[i] != c {
      assert s[i] in s;
    }
  }

  predicate ModuleItemOk(it: Item, n: nat) {
    it.Span? || 4 <= it.lo || 1 <= it.lo <= n
  }

  // Whether the element, read back, sets bit k: modules 4 to 6 by their letters, 1 to
  // 3 as if they were slots.
  predicate ModuleItemHas(it: Item, k: nat) {
    it.One? && k == (if it.lo >= 4 then it.lo else it.lo - 1)
  }

  lemma ModuleElement(it: Item, n: nat)
    requires it.lo <= it.Last() <= MODULE_BACK
    ensures SlotElementOk(Lettered(it.Show()), n) <==> ModuleItemOk(it, n)
    ensures forall k: nat :: SlotElementHas(Lettered(it.Show()), k) <==> ModuleItemHas(it, k)
  {
    OneCharItem(it);
    var e := Lettered(it.Show());
    if it.One? {
      assert it.Show()[0] == '0' + it.lo as char;
      AtoiOneChar(e);
    }
  }

  ghost predicate ModulesReadable(modules: Word) {
    forall k :: 0 <= k < 64 && modules[k] ==> 4 <= k <= MODULE_BACK && !modules[k + 1]
  }

  ghost predicate ModulesReadBack(modules: Word, n: nat) {
    ReadsAs(Split(ModuleText(modules), ','), n, modules)
  }

  // All elements are acceptable and together set exactly the bits of w.
  predicate ReadsAs(elems: seq<string>, n: nat, w: Word) {
    GoodSlots(elems, n) == |elems| && SlotUnion(elems) == w
  }

  lemma ModuleItems(modules: Word, items: seq<Item>)
    requires items == Items(modules[..MODULE_BACK + 2], 0, 0)
    ensures forall it <- items :: it.lo <= it.Last() <= MODULE_BACK && modules[it.lo]
    ensures forall m: nat :: 1 <= m <= MODULE_BACK && Alone(modules, m) ==> One(m) in items
    ensures forall m: nat :: 1 <= m <= MODULE_BACK && One(m) in items ==> modules[m] && !modules[m + 1]
  {
    var bits := modules[..MODULE_BACK + 2];
    ItemsCanonical(bits, 0, 0);
    forall it | it in items ensures it.Last() <= MODULE_BACK && modules[it.lo] {
      ItemsDenote(bits, 0, 0, it.lo);
      assert it.Has(it.lo);
    }
    forall m: nat | 1 <= m <= MODULE_BACK
      ensures Alone(modules, m) ==> One(m) in items
      ensures One(m) in items ==> modules[m] && !modules[m + 1]
    {
      AloneIff(bits, 0, 0, m);
    }
  }

  ghost predicate SomeModuleHas(items: seq<Item>, k: nat) {
    exists i :: 0 <= i < |items| && ModuleItemHas(items[i], k)
  }

  lemma ModuleElements(items: seq<Item>, elems: seq<string>, n: nat)
    requires |elems| == |items| && forall i :: 0 <= i < |items| ==> elems[i] == Lettered(items[i].Show())
    requires forall it <- items :: it.lo <= it.Last() <= MODULE_BACK
    ensures GoodSlots(elems, n) == |elems| <==> forall i :: 0 <= i < |items| ==> ModuleItemOk(items[i], n)
    ensures forall k :: 0 <= k < 64 ==> (SlotUnion(elems)[k] <==> SomeModuleHas(items, k))
  {
    forall i | 0 <= i < |items|
      ensures SlotElementOk(elems[i], n) <==> ModuleItemOk(items[i], n)
      ensures forall k: nat :: SlotElementHas(elems[i], k) <==> ModuleItemHas(items[i], k)
    {
      assert items[i] in items;
      ModuleElement(items[i], n);
    }
    if forall i :: 0 <= i < |items| ==> ModuleItemOk(items[i], n) {
      GoodSlotsIs(elems, n, |elems|);
    } else {
      var i :| 0 <= i < |items| && !ModuleItemOk(items[i], n);
      assert !SlotElementOk(elems[i], n);
    }
  }

  // If some module below 4 were set, so would be the next one, and module 3 cannot be.
  lemma NoLowModules(modules: Word, items: seq<Item>, w: Word)
    requires items == Items(modules[..MODULE_BACK + 2], 0, 0)
    requires forall k :: 0 <= k < 64 ==> (w[k] <==> SomeModuleHas(items, k))
    requires w == modules
    ensures ModulesReadable(modules)
  {
    ModuleItems(modules, items);
    forall k | 0 <= k < 64 && w[k]
      ensures k < 3 ==> w[k + 1]
      ensures k >= 3 ==> 4 <= k <= MODULE_BACK && !w[k + 1]
    {
      assert SomeModuleHas(items, k);
      var i :| 0 <= i < |items| && ModuleItemHas(items[i], k);
      assert items[i] in items;
      assert items[i] == One(if k >= 4 then k else k + 1);
    }
    assert !w[3];
    assert !w[2] && !w[1] && !w[0];
  }

  lemma LetteredModules(modules: Word, items: seq<Item>, w: Word, n: nat)
    requires items == Items(modules[..MODULE_BACK + 2], 0, 0)
    requires forall k :: 0 <= k < 64 ==> (w[k] <==> SomeModuleHas(items, k))
    requires ModulesReadable(modules)
    ensures w == modules
    ensures forall i :: 0 <= i < |items| ==> ModuleItemOk(items[i], n)
  {
    ModuleItems(modules, items);
    forall i | 0 <= i < |items| ensures 4 <= items[i].lo && modules[items[i].lo] {
      assert items[i] in items;
    }
    forall k | 0 <= k < 64 ensures w[k] == modules[k] {
      assert w[k] <==> SomeModuleHas(items, k);
      if modules[k] {
        assert !modules[k - 1];
        assert Alone(modules, k);
        var i :| 0 <= i < |items| && items[i] == One(k);
        assert ModuleItemHas(items[i], k);
      }
    }
  }

  // Exactly the masks of lettered modules without neighbours are read back.
  lemma ModulesReadBackIff(modules: Word, n: nat)
    ensures ModulesReadBack(modules, n) <==> ModulesReadable(modules)
  {
    var items := Items(modules[..MODULE_BACK + 2], 0, 0);
    var elems := Split(ModuleText(modules), ',');
    SplitModules(modules, items);
    if items == [] {
      GoodSlotsIs([""], n, 1);
      assert forall k :: 0 <= k < 64 ==> !SomeModuleHas(items, k);
    } else {
      ModuleItems(modules, items);
      ModuleElements(items, elems, n);
    }
    if ModulesReadable(modules) {
      LetteredModules(modules, items, SlotUnion(elems), n);
    } else if SlotUnion(elems) == modules {
      NoLowModules(modules, items, SlotUnion(elems));
    }
  }

  // ---------- the whole text ----------

  predicate AllOnes(w: Word) {
    forall k :: 0 <= k < 64 ==> w[k]
  }

  // `_check_ports_full`
  predicate PortsFull(mask: seq<Word>)
    requires |mask| == WORDS
  {
    AllOnes(mask[0]) && AllOnes(mask[1])
  }

  // Full ports are a star.
  function PortPart(mask: seq<Word>): string
    requires |mask| == WORDS
  {
    if PortsFull(mask) then "*" else PortText(mask)
  }

  function SmpString(slots: Word, modules: Word, mask: seq<Word>, n: nat): string
    requires |mask| == WORDS && n < 63
  {
    SlotText(slots, n) + ("/" + (ModuleText(modules) + ("/" + PortPart(mask))))
  }

  // `n` is SLOT_NUMBER_PER_SYSTEM.
  method PrintSmpBufNew(slots: Word, modules: Word, ports: array<Word>, n: nat) returns (smp: string)
    requires ports.Length == WORDS && n < 62
    ensures smp == SmpString(slots, modules, ports[..], n)
  {
    var slotBuf := SprintMembersFromMask(ShiftLeft(slots), n + 1);
    var moduleBuf := SprintMembersFromMask(modules, MODULE_BACK + 1);
    moduleBuf := LetterModules(moduleBuf);
    var portBuf := SprintPortsFromMask(ports);
    if PortsFull(ports[..]) {
      smp := slotBuf + ("/" + (moduleBuf + ("/" + "*")));
    } else {
      smp := slotBuf + ("/" + (moduleBuf + ("/" + portBuf)));
    }
  }

  predicate Within(w: Word, bound: Word) {
    forall k :: 0 <= k < 64 && w[k] ==> bound[k]
  }

  // How much of a text the scanner accepted.
  datatype Stage = SlotsBad | ModulesBad | PortsBad | Accepted

  predicate SlotPartOk(part: string, n: nat, bound: Word) {
    && GoodSlots(Split(part, ','), n) == |Split(part, ',')|
    && Within(SlotUnion(Split(part, ',')), bound)
  }

  predicate PortPartOk(part: string) {
    Good(Split(part, ','), PortElementOk) == |Split(part, ',')|
  }

  // The value of the last slot/module/port text scanned.
  class Smps {
    var s: Word
    var m: Word
    const p: array<Word>

    constructor ()
      ensures p.Length == WORDS && fresh(p)
    {
      s, m := ZERO, ZERO;
      p := new Word[WORDS](_ => ZERO);
    }

    // Reads the three parts of a text. A part that is refused is zeroed and the parts
    // after it are left as they were.
    method Scan(part0: string, part1: string, part2: string, n: nat, slotBits: Word, moduleBits: Word)
      returns (stage: Stage)
      requires p.Length == WORDS
      modifies this, p
      ensures stage == SlotsBad <==> !SlotPartOk(part0, n, slotBits)
      ensures stage == ModulesBad <==> SlotPartOk(part0, n, slotBits) && !SlotPartOk(part1, n, moduleBits)
      ensures stage == Accepted <==>
        SlotPartOk(part0, n, slotBits) && SlotPartOk(part1, n, moduleBits) && PortPartOk(part2)
      ensures s == if stage == SlotsBad then ZERO else SlotUnion(Split(part0, ','))
      ensures stage != SlotsBad ==> m == if stage == ModulesBad then ZERO else SlotUnion(Split(part1, ','))
      ensures stage == SlotsBad ==> m == old(m)
      ensures stage.SlotsBad? || stage.ModulesBad? ==> p[..] == old(p[..])
      ensures stage == PortsBad ==> p[..] == [ZERO, ZERO, ZERO, ZERO]
      ensures stage == Accepted ==> IsPortUnion(p[..], Split(part2, ','))
    {
      ghost var e0, e1, e2 := Split(part0, ','), Split(part1, ','), Split(part2, ',');
      assert e0[..|e0|] == e0 && e1[..|e1|] == e1 && e2[..|e2|] == e2;
      var r;
      r, s := Str2MapSlotModule(part0, n);
      if r != 0 || !Within(s, slotBits) {
        s := ZERO;
        return SlotsBad;
      }
      r, m := Str2MapSlotModule(part1, n);
      if r != 0 || !Within(m, moduleBits) {
        m := ZERO;
        return ModulesBad;
      }
      r := Str2MapPorts(part2, p);
      if r != 0 {
        ClearPorts(p);
        return PortsBad;
      }
      return Accepted;
    }

    // The scanner's action: cuts the text at its first two slashes and reads the parts.
    method Lex(text: string, n: nat, slotBits: Word, moduleBits: Word) returns (stage: Stage)
      requires p.Length == WORDS
      requires |Split(text, '/')| == 3
      modifies this, p
      ensures stage == SlotsBad <==> !SlotPartOk(Split(text, '/')[0], n, slotBits)
      ensures stage == ModulesBad <==>
        SlotPartOk(Split(text, '/')[0], n, slotBits) && !SlotPartOk(Split(text, '/')[1], n, moduleBits)
      ensures stage == Accepted <==>
        SlotPartOk(Split(text, '/')[0], n, slotBits) && SlotPartOk(Split(text, '/')[1], n, moduleBits)
        && PortPartOk(Split(text, '/')[2])
      ensures s == if stage == SlotsBad then ZERO else SlotUnion(Split(Split(text, '/')[0], ','))
      ensures stage != SlotsBad ==>
        m == if stage == ModulesBad then ZERO else SlotUnion(Split(Split(text, '/')[1], ','))
      ensures stage == SlotsBad ==> m == old(m)
      ensures stage.SlotsBad? || stage.ModulesBad? ==> p[..] == old(p[..])
      ensures stage == PortsBad ==> p[..] == [ZERO, ZERO, ZERO, ZERO]
      ensures stage == Accepted ==> IsPortUnion(p[..], Split(Split(text, '/')[2], ','))
    {
      ghost var parts := Split(text, '/');
      var (part0, rest0) := Strsep(text, '/');
      assert parts[1..] == Split(rest0.value, '/');
      var (part1, rest1) := Strsep(rest0.value, '/');
      assert parts[2..] == Split(rest1.value, '/');
      var (part2, _) := Strsep(rest1.value, '/');
      assert Split(text, '/') == [part0, part1, part2];
      stage := Scan(part0, part1, part2, n, slotBits, moduleBits);
    }
  }

  // ---------- printed, then scanned ----------

  lemma {:induction false} JoinAvoids(xs: seq<string>, c: char)
    requires c != ',' && forall x <- xs :: c !in x
    ensures c !in Join(xs, ',')
  {
    if |xs| > 1 {
      JoinAvoids(xs[1..], c);
    }
  }

  lemma ListTextAvoidsSlash(items: seq<Item>)
    ensures '/' !in ListText(items)
  {
    forall i | 0 <= i < |items| ensures '/' !in Shown(items)[i] {
      ItemAvoids(items[i], '/');
    }
    JoinAvoids(Shown(items), '/');
  }

  lemma SplitSmp(slots: Word, modules: Word, mask: seq<Word>, n: nat)
    requires |mask| == WORDS && n < 63
    ensures Split(SmpString(slots, modules, mask, n), '/') ==
      [SlotText(slots, n), ModuleText(modules), PortPart(mask)]
  {
    var a, b, c := SlotText(slots, n), ModuleText(modules), PortPart(mask);
    ListTextAvoidsSlash(Items(ShiftLeft(slots)[..n + 2], 0, 0));
    ListTextAvoidsSlash(Items(modules[..MODULE_BACK + 2], 0, 0));
    LetteredAvoids(ListText(Items(modules[..MODULE_BACK + 2], 0, 0)), '/');
    ListTextAvoidsSlash(Items(PortBits(mask), 1, 0));
    var parts := [a, b, c];
    assert parts[1..] == [b, c] && parts[1..][1..] == [c];
    assert Join([c], '/') == c;
    assert Join([b, c], '/') == b + ['/'] + c;
    assert Join(parts, '/') == a + ['/'] + (b + ['/'] + c);
    Associative(b, "/", c);
    Associative(a, "/", b + ("/" + c));
    assert Join(parts, '/') == SmpString(slots, modules, mask, n);
    SplitJoin(parts, '/');
  }

  // The third part is accepted exactly when the mask has a port.
  lemma PortPartReads(mask: seq<Word>)
    requires |mask| == WORDS
    ensures PortPartOk(PortPart(mask)) <==> HasPort(mask)
    ensures HasPort(mask) ==> forall n ::
      SomePortElementHas(Split(PortPart(mask), ','), n) <==> 1 <= n <= MAX_PORT_NUMBER && Bit(mask, n - 1)
  {
    if PortsFull(mask) {
      assert Bit(mask, 0);
      SplitJoin(["*"], ',');
      assert PortElementOk("*");
      GoodIs(["*"], PortElementOk, 1);
      forall n
        ensures SomePortElementHas(["*"], n) <==> 1 <= n <= MAX_PORT_NUMBER && Bit(mask, n - 1)
      {
        assert PortElementHas(["*"][0], n) <==> 1 <= n <= MAX_PORT_NUMBER;
      }
    } else {
      PortTextReads(mask);
    }
  }
}
