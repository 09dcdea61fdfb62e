/**
  The scanner's pattern for a slot/module/port text, which printed texts match it, and
  which of them are read back as they were.
*/
module SmpPattern {
  import opened Text
  import opened MemberList
  import opened ListParser
  import opened SmpText

  // ---------- the pattern ----------

  // smp_num
  predicate IsNum(s: string) {
    s != "" && '1' <= s[0] <= '9' && forall c <- s :: IsDigit(c)
  }

  // smp_nums: a number, or two with a dash between.
  predicate IsNums(s: string) {
    IsNum(s) || (Find(s, '-') < |s| && IsNum(s[..Find(s, '-')]) && IsNum(s[Find(s, '-') + 1..]))
  }

  // smp_elem: numbers and ranges, or a star.
  predicate IsElem(part: string) {
    part == "*" || AllNums(Split(part, ','))
  }

  predicate AllNums(elems: seq<string>) {
    forall e <- elems :: IsNums(e)
  }

  predicate IsModuleLetter(e: string) {
    |e| == 1 && e[0] in "fFrRbB"
  }

  // smp_m3: one to six letters, or a star.
  predicate IsModules(part: string) {
    part == "*" || (|Split(part, ',')| <= 6 && AllLetters(Split(part, ',')))
  }

  predicate AllLetters(elems: seq<string>) {
    forall e <- elems :: IsModuleLetter(e)
  }

  // smps_data
  predicate MatchesSmps(text: string) {
    AreSmps(Split(text, '/'))
  }

  predicate AreSmps(parts: seq<string>) {
    |parts| == 3 && IsElem(parts[0]) && IsModules(parts[1]) && IsElem(parts[2])
  }

  // ---------- which printed texts match ----------

  lemma {:induction false} DecIsNum(n: nat)
    requires n > 0
    ensures IsNum(Dec(n))
  {
    if n >= 10 {
      DecIsNum(n / 10);
      assert Dec(n)[0] == Dec(n / 10)[0];
    }
  }

  lemma ItemIsNums(it: Item)
    requires 1 <= it.lo <= it.Last()
    ensures IsNums(it.Show())
  {
    DecIsNum(it.lo);
    if it.Span? {
      DecIsNum(it.hi);
      var a, b := Dec(it.lo), Dec(it.hi);
      FindAfter(a, "-" + b, '-');
      Associative(a, "-", b);
      assert it.Show() == a + ("-" + b);
      assert it.Show()[..|a|] == a && it.Show()[|a| + 1..] == b;
    }
  }

  // A printed list matches unless it is empty.
  lemma ListMatchesIff(items: seq<Item>)
    requires forall it <- items :: 1 <= it.lo <= it.Last()
    ensures IsElem(ListText(items)) <==> items != []
  {
    SplitList(items);
    if items == [] {
      assert "" in Split(ListText(items), ',');
    } else {
      forall e | e in Shown(items) ensures IsNums(e) {
        var i :| 0 <= i < |items| && Shown(items)[i] == e;
        assert items[i] in items;
        ItemIsNums(items[i]);
      }
    }
  }

  // Some slot that is printed.
  ghost predicate SomeSlot(slots: Word, n: nat) {
    exists k :: 0 <= k < n && k < 64 && slots[k]
  }

  lemma SlotsMatchIff(slots: Word, n: nat)
    requires n < 63
    ensures IsElem(SlotText(slots, n)) <==> SomeSlot(slots, n)
  {
    var bits := ShiftLeft(slots)[..n + 2];
    var items := Items(bits, 0, 0);
    SlotItems(slots, n, items);
    ListMatchesIff(items);
    if items != [] {
      ItemsDenote(bits, 0, 0, items[0].lo);
      assert items[0] in items && items[0].Has(items[0].lo);
      assert slots[items[0].lo - 1];
    }
    if k :| 0 <= k < n && k < 64 && slots[k] {
      ItemsDenote(bits, 0, 0, k + 1);
      assert Covered(items, k + 1);
    }
  }

  lemma PortsMatchIff(mask: seq<Word>)
    requires |mask| == WORDS
    ensures IsElem(PortPart(mask)) <==> HasPort(mask)
  {
    var bits := PortBits(mask);
    var items := Items(bits, 1, 0);
    if PortsFull(mask) {
      assert Bit(mask, 0);
    } else {
      ItemsCanonical(bits, 1, 0);
      ListMatchesIff(items);
      if items != [] {
        ItemsDenote(bits, 1, 0, items[0].lo);
        assert items[0] in items && items[0].Has(items[0].lo);
        assert Bit(mask, items[0].lo - 1);
      }
      if k :| 0 <= k < MAX_PORT_NUMBER && Bit(mask, k) {
        ItemsDenote(bits, 1, 0, k + 1);
        assert Covered(items, k + 1);
      }
    }
  }

  // The printed modules have letters and no neighbours, and there is one.
  ghost predicate LettersOnly(modules: Word) {
    && (exists k :: 4 <= k <= MODULE_BACK && modules[k])
    && forall k :: 0 <= k <= MODULE_BACK && modules[k] ==> k >= 4 && !modules[k + 1]
  }

  // A range goes on after its first member.
  lemma {:induction false} RangesGoOn(bits: seq<bool>, base: nat, i: nat)
    requires IsScan(bits) && i < |bits|
    ensures forall it <- Items(bits, base, i) ::
      it.Span? ==> base <= it.lo < base + |bits| - 1 && bits[it.lo - base + 1]
    decreases |bits| - i
  {
    if i < |bits| - 1 {
      RangesGoOn(bits, base, Past(bits, base, i));
      ItemsUnfold(bits, base, i);
    }
  }

  // A letter comes from one of the modules that have letters.
  lemma LetterIff(it: Item)
    requires it.lo <= it.Last() <= MODULE_BACK
    ensures IsModuleLetter(Lettered(it.Show())) <==> it.One? && it.lo >= 4
  {
    OneCharItem(it);
    if it.One? {
      assert it.Show()[0] == '0' + it.lo as char;
    }
  }

  lemma ModuleLettersIff(items: seq<Item>)
    requires forall it <- items :: it.lo <= it.Last() <= MODULE_BACK
    ensures AllLetters(AllLettered(Shown(items))) <==>
      forall it <- items :: it.One? && it.lo >= 4
  {
    var elems := AllLettered(Shown(items));
    forall i | 0 <= i < |items|
      ensures IsModuleLetter(elems[i]) <==> items[i].One? && items[i].lo >= 4
    {
      assert items[i] in items;
      LetterIff(items[i]);
    }
    if AllLetters(elems) {
      forall it | it in items ensures it.One? && it.lo >= 4 {
        var i :| 0 <= i < |items| && items[i] == it;
        assert elems[i] in elems;
      }
    }
    if forall it <- items :: it.One? && it.lo >= 4 {
      forall e | e in elems ensures IsModuleLetter(e) {
        var i :| 0 <= i < |items| && elems[i] == e;
        assert items[i] in items;
      }
    }
  }

  predicate AllLetterItems(items: seq<Item>) {
    items != [] && forall it <- items :: it.One? && it.lo >= 4
  }

  lemma MembersCovered(modules: Word, items: seq<Item>, k: nat)
    requires items == Items(modules[..MODULE_BACK + 2], 0, 0) && k <= MODULE_BACK
    ensures Covered(items, k) <==> modules[k]
  {
    ItemsDenote(modules[..MODULE_BACK + 2], 0, 0, k);
  }

  lemma LetterItemsOnly(modules: Word, items: seq<Item>)
    requires items == Items(modules[..MODULE_BACK + 2], 0, 0) && AllLetterItems(items)
    ensures LettersOnly(modules)
  {
    ModuleItems(modules, items);
    hide Items;
    assert items[0] in items && modules[items[0].lo];
    forall k | 0 <= k <= MODULE_BACK && modules[k] ensures k >= 4 && !modules[k + 1] {
      MembersCovered(modules, items, k);
      var it :| it in items && it.Has(k);
      assert it == One(k);
    }
  }

  lemma OnlyLetterItems(modules: Word, items: seq<Item>)
    requires items == Items(modules[..MODULE_BACK + 2], 0, 0) && LettersOnly(modules)
    ensures AllLetterItems(items)
  {
    ModuleItems(modules, items);
    RangesGoOn(modules[..MODULE_BACK + 2], 0, 0);
    hide Items;
    var k :| 4 <= k <= MODULE_BACK && modules[k];
    MembersCovered(modules, items, k);
    forall it | it in items ensures it.One? && it.lo >= 4 {
      assert modules[it.lo];
    }
  }

  lemma {:induction false} LettersAscend(items: seq<Item>, bits: seq<bool>, k: nat)
    requires Canonical(items, bits, 0, 0) && k < |items| && forall it <- items :: it.lo >= 4
    ensures items[k].lo >= 4 + k
  {
    assert items[k] in items;
    if k > 0 {
      LettersAscend(items, bits, k - 1);
      assert Apart(items[k - 1], items[k]) && IsElement(items[k - 1], bits, 0, 0);
    }
  }

  lemma FewLetters(items: seq<Item>, bits: seq<bool>)
    requires Canonical(items, bits, 0, 0) && forall it <- items :: 4 <= it.lo <= MODULE_BACK
    ensures |items| <= 3
  {
    if items != [] {
      LettersAscend(items, bits, |items| - 1);
      assert items[|items| - 1] in items;
    }
  }

  lemma ModulesMatchIff(modules: Word)
    ensures IsModules(ModuleText(modules)) <==> LettersOnly(modules)
  {
    var bits := modules[..MODULE_BACK + 2];
    var items := Items(bits, 0, 0);
    NoStar(modules);
    SplitModules(modules, items);
    ModuleItems(modules, items);
    ItemsCanonical(bits, 0, 0);
    if items == [] {
      assert "" in Split(ModuleText(modules), ',');
    } else {
      ModuleLettersIff(items);
    }
    if LettersOnly(modules) {
      OnlyLetterItems(modules, items);
      FewLetters(items, bits);
    }
    if AllLetterItems(items) {
      LetterItemsOnly(modules, items);
    }
  }

  // A printed module list is never a star.
  lemma NoStar(modules: Word)
    ensures ModuleText(modules) != "*"
  {
    var text := ListText(Items(modules[..MODULE_BACK + 2], 0, 0));
    ListTextAvoidsStar(Items(modules[..MODULE_BACK + 2], 0, 0));
    LetteredAvoids(text, '*');
    assert "*"[0] == '*';
  }

  lemma ListTextAvoidsStar(items: seq<Item>)
    ensures '*' !in ListText(items)
  {
    forall i | 0 <= i < |items| ensures '*' !in Shown(items)[i] {
      ItemAvoids(items[i], '*');
    }
    JoinAvoids(Shown(items), '*');
  }

  // A printed text matches the scanner's pattern exactly when it shows a slot and a
  // port, and its modules are letters without neighbours.
  lemma PrintedMatchesIff(slots: Word, modules: Word, mask: seq<Word>, n: nat)
    requires |mask| == WORDS && n < 63
    ensures MatchesSmps(SmpString(slots, modules, mask, n)) <==>
      SomeSlot(slots, n) && LettersOnly(modules) && HasPort(mask)
  {
    SplitSmp(slots, modules, mask, n);
    SlotsMatchIff(slots, n);
    ModulesMatchIff(modules);
    PortsMatchIff(mask);
  }

  // ---------- printed, then scanned ----------

  ghost predicate HasMember(w: Word) {
    exists k :: 0 <= k < 64 && w[k]
  }

  // The masks whose text is scanned and read back as it was.
  ghost predicate SmpReadable(slots: Word, modules: Word, mask: seq<Word>, n: nat, slotBits: Word, moduleBits: Word)
    requires |mask| == WORDS
  {
    && HasMember(slots) && SlotsReadable(slots, n) && Within(slots, slotBits)
    && HasMember(modules) && ModulesReadable(modules) && Within(modules, moduleBits)
    && HasPort(mask)
  }

  lemma ReadableMatches(slots: Word, modules: Word, mask: seq<Word>, n: nat)
    requires |mask| == WORDS && n < 63 && SlotsReadable(slots, n) && ModulesReadable(modules) && HasPort(mask)
    ensures MatchesSmps(SmpString(slots, modules, mask, n)) <==> HasMember(slots) && HasMember(modules)
  {
    PrintedMatchesIff(slots, modules, mask, n);
  }

  // A whole text is scanned and comes back exactly from readable masks.
  method SmpRoundTrip(slots: Word, modules: Word, ports: array<Word>, n: nat, slotBits: Word, moduleBits: Word, v: Smps)
    returns (text: string, stage: Stage)
    requires ports.Length == v.p.Length == WORDS && ports != v.p && n < 62
    modifies v, v.p
    ensures text == SmpString(slots, modules, old(ports[..]), n)
    ensures SmpReadable(slots, modules, ports[..], n, slotBits, moduleBits) <==>
      MatchesSmps(text) && stage == Accepted
      && v.s == slots && v.m == modules && v.p[..] == [ports[0], ports[1], ZERO, ZERO]
  {
    ghost var mask := ports[..];
    text := PrintSmpBufNew(slots, modules, ports, n);
    SplitSmp(slots, modules, mask, n);
    SlotTextReads(slots, n, 0);
    SlotsReadBackIff(slots, n);
    ModulesReadBackIff(modules, n);
    PortPartReads(mask);
    stage := v.Lex(text, n, slotBits, moduleBits);
    if stage == Accepted {
      SamePorts(mask, v.p[..], Split(PortPart(mask), ','));
    }
    if SlotsReadable(slots, n) && ModulesReadable(modules) && HasPort(mask) {
      ReadableMatches(slots, modules, mask, n);
    }
  }
}
