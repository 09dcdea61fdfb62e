/**
  Reading lists of ports, slots and modules back into masks.
*/
module ListParser {
  import opened Wrappers
  import opened Text
  import opened MemberList

  // How many elements are processed before the first that is not acceptable.
  function Good(elems: seq<string>, ok: string -> bool): (g: nat)
    ensures g <= |elems|
    ensures forall i :: 0 <= i < g ==> ok(elems[i])
    ensures g < |elems| ==> !ok(elems[g])
  {
    if elems == [] || !ok(elems[0]) then 0 else 1 + Good(elems[1..], ok)
  }

  // ---------- ports ----------

  // The ends read from an element with a dash in it.
  function Ends(e: string): Option<(int, int)> {
    match ScanInt(e)
    case None => None
    case Some((a, rest)) =>
      if rest == [] || rest[0] != '-' then None
      else match ScanInt(rest[1..])
        case None => None
        case Some((b, _)) => Some((a, b))
  }

  predicate PortElementOk(e: string) {
    if '-' in e then
      Ends(e).Some? && var (a, b) := Ends(e).value; 1 <= a <= b <= MAX_PORT_NUMBER
    else
      1 <= |e| <= 3 && (e[0] == '*' || 1 <= Atoi(e) <= MAX_PORT_NUMBER)
  }

  // Whether an acceptable element names port n.
  predicate PortElementHas(e: string, n: int) {
    if '-' in e then Ends(e).Some? && Ends(e).value.0 <= n <= Ends(e).value.1
    else if e != [] && e[0] == '*' then 1 <= n <= MAX_PORT_NUMBER
    else n == Atoi(e)
  }

  ghost predicate SomePortElementHas(elems: seq<string>, n: int) {
    exists i :: 0 <= i < |elems| && PortElementHas(elems[i], n)
  }

  // The mask holds exactly the ports that the elements name.
  ghost predicate IsPortUnion(mask: seq<Word>, elems: seq<string>)
    requires |mask| == WORDS
  {
    forall k :: 0 <= k < 64 * WORDS ==> (Bit(mask, k) <==> SomePortElementHas(elems, k + 1))
  }

  method InsertPortToP(port: int, p: array<Word>) returns (r: int)
    requires p.Length == WORDS
    modifies p
    ensures r == if 1 <= port <= MAX_PORT_NUMBER then 0 else -1
    ensures forall k :: 0 <= k < 64 * WORDS ==>
      (Bit(p[..], k) <==> old(Bit(p[..], k)) || (r == 0 && k + 1 == port))
  {
    if port < 1 || port > MAX_PORT_NUMBER {
      return -1;
    }
    var index, offset := (port - 1) / 64, (port - 1) % 64;
    p[index] := p[index][offset := true];
    return 0;
  }

  method InsertRange(a: int, b: int, p: array<Word>)
    requires p.Length == WORDS && 1 <= a <= b <= MAX_PORT_NUMBER
    modifies p
    ensures forall k :: 0 <= k < 64 * WORDS ==> (Bit(p[..], k) <==> old(Bit(p[..], k)) || a <= k + 1 <= b)
  {
    for i := a to b + 1
      invariant forall k :: 0 <= k < 64 * WORDS ==> (Bit(p[..], k) <==> old(Bit(p[..], k)) || a <= k + 1 < i)
    {
      var _ := InsertPortToP(i, p);
    }
  }

  lemma OneMoreElement(before: seq<Word>, after: seq<Word>, elems: seq<string>, e: string)
    requires |before| == |after| == WORDS
    requires IsPortUnion(before, elems)
    requires forall k :: 0 <= k < 64 * WORDS ==> (Bit(after, k) <==> Bit(before, k) || PortElementHas(e, k + 1))
    ensures IsPortUnion(after, elems + [e])
  {
    forall k | 0 <= k < 64 * WORDS ensures Bit(after, k) <==> SomePortElementHas(elems + [e], k + 1) {
      if SomePortElementHas(elems, k + 1) {
        var i :| 0 <= i < |elems| && PortElementHas(elems[i], k + 1);
        assert (elems + [e])[i] == elems[i];
      }
      assert (elems + [e])[|elems|] == e;
    }
  }

  // Processes one acceptable element.
  method AddPortElement(e: string, p: array<Word>) returns (r: int)
    requires p.Length == WORDS
    modifies p
    ensures r == 0 <==> PortElementOk(e)
    ensures '-' !in e ==> (r == 0 <==> 1 <= |e| <= 3 && (e[0] == '*' || 1 <= Atoi(e) <= 128))
    ensures r == 0 ==> forall k :: 0 <= k < 64 * WORDS ==>
      (Bit(p[..], k) <==> old(Bit(p[..], k)) || PortElementHas(e, k + 1))
    ensures r != 0 ==> p[..] == old(p[..])
  {
    if '-' in e {
      var ends := Ends(e);
      if ends == None {
        return 1;
      }
      var (a, b) := ends.value;
      if a > b || b > MAX_PORT_NUMBER || a < 1 {
        return 1;
      }
      InsertRange(a, b, p);
    } else {
      if |e| < 1 || |e| > 3 {
        return 1;
      }
      if e[0] == '*' {
        p[0] := ONES;
        p[1] := ONES;
      } else {
        var port := Atoi(e);
        if port < 1 || port > MAX_PORT_NUMBER {
          return 1;
        }
        var _ := InsertPortToP(port, p);
      }
    }
    return 0;
  }

  method ClearPorts(p: array<Word>)
    requires p.Length == WORDS
    modifies p
    ensures p[..] == [ZERO, ZERO, ZERO, ZERO]
  {
    for i := 0 to WORDS
      invariant forall j :: 0 <= j < i ==> p[j] == ZERO
    {
      p[i] := ZERO;
    }
  }

  lemma NoPorts(p: seq<Word>)
    requires p == [ZERO, ZERO, ZERO, ZERO]
    ensures IsPortUnion(p, [])
  {}

  // n elements of the list are in the mask; the rest of the text is at str.
  ghost predicate PortsSoFar(elems: seq<string>, n: nat, str: Option<string>, p: seq<Word>)
    requires |p| == WORDS
  {
    && Remain(elems, n, str, ',')
    && (forall i :: 0 <= i < n ==> PortElementOk(elems[i]))
    && IsPortUnion(p, elems[..n])
  }

  lemma PortsStep(elems: seq<string>, n: nat, str: Option<string>, before: seq<Word>, after: seq<Word>)
    requires |before| == |after| == WORDS && PortsSoFar(elems, n, str, before) && str.Some?
    requires PortElementOk(Strsep(str.value, ',').0)
    requires forall k :: 0 <= k < 64 * WORDS ==>
      (Bit(after, k) <==> Bit(before, k) || PortElementHas(Strsep(str.value, ',').0, k + 1))
    ensures PortsSoFar(elems, n + 1, Strsep(str.value, ',').1, after)
  {
    NextPiece(elems, n, str, ',');
    OneMoreElement(before, after, elems[..n], elems[n]);
  }

  lemma PortsRefused(elems: seq<string>, n: nat, str: Option<string>, p: seq<Word>)
    requires |p| == WORDS && PortsSoFar(elems, n, str, p) && str.Some?
    requires !PortElementOk(Strsep(str.value, ',').0)
    ensures Good(elems, PortElementOk) == n < |elems|
  {
    NextPiece(elems, n, str, ',');
    GoodIs(elems, PortElementOk, n);
  }

  lemma PortsDone(elems: seq<string>, n: nat, p: seq<Word>)
    requires |p| == WORDS && PortsSoFar(elems, n, None, p)
    ensures Good(elems, PortElementOk) == n == |elems|
  {
    GoodIs(elems, PortElementOk, n);
  }

  // Reads a list of ports into the mask. The mask is cleared first; elements are
  // processed up to the first unacceptable one.
  method Str2MapPorts(s: string, p: array<Word>) returns (r: int)
    requires p.Length == WORDS
    modifies p
    ensures r == 0 <==> Good(Split(s, ','), PortElementOk) == |Split(s, ',')|
    ensures IsPortUnion(p[..], Split(s, ',')[..Good(Split(s, ','), PortElementOk)])
  {
    ghost var elems := Split(s, ',');
    ghost var n := 0;
    ClearPorts(p);
    NoPorts(p[..]);
    assert elems[..0] == [] && elems[0..] == elems;
    var str := Some(s);
    while str != None
      invariant PortsSoFar(elems, n, str, p[..])
      decreases |elems| - n
    {
      var (e, rest) := Strsep(str.value, ',');
      ghost var before := p[..];
      r := AddPortElement(e, p);
      if r != 0 {
        PortsRefused(elems, n, str, p[..]);
        return;
      }
      PortsStep(elems, n, str, before, p[..]);
      n, str := n + 1, rest;
    }
    PortsDone(elems, n, p[..]);
    return 0;
  }

  lemma GoodIs(elems: seq<string>, ok: string -> bool, n: nat)
    requires n <= |elems| && forall i :: 0 <= i < n ==> ok(elems[i])
    requires n < |elems| ==> !ok(elems[n])
    ensures Good(elems, ok) == n
  {}

  // ---------- slots and modules ----------

  // Elements that are not one character long are skipped.
  predicate SlotElementOk(e: string, slots: nat) {
    |e| == 1 ==> e[0] in "rRfFbB*" || 1 <= Atoi(e) <= slots
  }

  function GoodSlots(elems: seq<string>, slots: nat): (g: nat)
    ensures g <= |elems|
  {
    Good(elems, e => SlotElementOk(e, slots))
  }

  lemma GoodSlotsIs(elems: seq<string>, slots: nat, n: nat)
    requires n <= |elems| && forall i :: 0 <= i < n ==> SlotElementOk(elems[i], slots)
    requires n < |elems| ==> !SlotElementOk(elems[n], slots)
    ensures GoodSlots(elems, slots) == n
  {
    GoodIs(elems, e => SlotElementOk(e, slots), n);
  }

  // Whether an acceptable element sets bit k.
  predicate SlotElementHas(e: string, k: nat) {
    && |e| == 1
    && if e[0] in "rR" then k == 4
       else if e[0] in "fF" then k == 5
       else if e[0] in "bB" then k == 6
       else if e[0] == '*' then true
       else k + 1 == Atoi(e)
  }

  function SlotUnion(elems: seq<string>): (w: Word)
    ensures forall k :: 0 <= k < 64 ==> (w[k] <==> exists i :: 0 <= i < |elems| && SlotElementHas(elems[i], k))
  {
    seq(64, k requires 0 <= k < 64 => exists i :: 0 <= i < |elems| && SlotElementHas(elems[i], k))
  }

  lemma AtoiOneChar(e: string)
    requires |e| == 1
    ensures Atoi(e) == if IsDigit(e[0]) then e[0] as int - '0' as int else 0
  {
    if IsDigit(e[0]) {
      DigitRunStops(e, []);
      assert e + [] == e && e[..1] == e;
      assert Value(e[..0]) == 0;
    } else if IsSpace(e[0]) {
      assert SkipSpaces(e) == [];
    }
  }

  // Processes one element.
  method AddSlotElement(e: string, slots: nat, was: Word) returns (r: int, sm: Word)
    ensures r == 0 <==> SlotElementOk(e, slots)
    ensures r == 0 ==> forall k :: 0 <= k < 64 ==> (sm[k] <==> was[k] || SlotElementHas(e, k))
    ensures r != 0 ==> sm == was
  {
    sm := was;
    if |e| == 1 {
      AtoiOneChar(e);
      if e[0] == 'r' || e[0] == 'R' {
        sm := sm[4 := true];
      } else if e[0] == 'f' || e[0] == 'F' {
        sm := sm[5 := true];
      } else if e[0] == 'b' || e[0] == 'B' {
        sm := sm[6 := true];
      } else if e[0] == '*' {
        sm := ONES;
      } else {
        var a := Atoi(e);
        if a > slots || a < 1 {
          return 1, was;
        }
        sm := sm[a - 1 := true];
      }
    }
    return 0, sm;
  }

  lemma SlotUnionMore(elems: seq<string>, e: string, sm: Word)
    requires forall k :: 0 <= k < 64 ==> (sm[k] <==> SlotUnion(elems)[k] || SlotElementHas(e, k))
    ensures sm == SlotUnion(elems + [e])
  {
    var all := elems + [e];
    forall k | 0 <= k < 64 ensures sm[k] == SlotUnion(all)[k] {
      if i :| 0 <= i < |elems| && SlotElementHas(elems[i], k) {
        assert all[i] == elems[i];
      }
      assert all[|elems|] == e;
    }
  }

  // n elements of the list are in the word; the rest of the text is at str.
  ghost predicate SlotsSoFar(elems: seq<string>, slots: nat, n: nat, str: Option<string>, sm: Word) {
    && Remain(elems, n, str, ',')
    && (forall i :: 0 <= i < n ==> SlotElementOk(elems[i], slots))
    && sm == SlotUnion(elems[..n])
  }

  lemma SlotsStep(elems: seq<string>, slots: nat, n: nat, str: Option<string>, before: Word, after: Word)
    requires SlotsSoFar(elems, slots, n, str, before) && str.Some?
    requires SlotElementOk(Strsep(str.value, ',').0, slots)
    requires forall k :: 0 <= k < 64 ==> (after[k] <==> before[k] || SlotElementHas(Strsep(str.value, ',').0, k))
    ensures SlotsSoFar(elems, slots, n + 1, Strsep(str.value, ',').1, after)
  {
    NextPiece(elems, n, str, ',');
    SlotUnionMore(elems[..n], elems[n], after);
  }

  lemma SlotsRefused(elems: seq<string>, slots: nat, n: nat, str: Option<string>, sm: Word)
    requires SlotsSoFar(elems, slots, n, str, sm) && str.Some?
    requires !SlotElementOk(Strsep(str.value, ',').0, slots)
    ensures GoodSlots(elems, slots) == n < |elems|
  {
    NextPiece(elems, n, str, ',');
    GoodSlotsIs(elems, slots, n);
  }

  // Reads a list of slots or modules; `slots` is SLOT_NUMBER_PER_SYSTEM. The word is
  // cleared first; elements are processed up to the first unacceptable one.
  method Str2MapSlotModule(s: string, slots: nat) returns (r: int, sm: Word)
    ensures r == 0 <==> GoodSlots(Split(s, ','), slots) == |Split(s, ',')|
    ensures sm == SlotUnion(Split(s, ',')[..GoodSlots(Split(s, ','), slots)])
  {
    ghost var elems := Split(s, ',');
    ghost var n := 0;
    sm := ZERO;
    assert elems[0..] == elems;
    var str := Some(s);
    while str != None
      invariant SlotsSoFar(elems, slots, n, str, sm)
      decreases |elems| - n
    {
      var (e, rest) := Strsep(str.value, ',');
      ghost var before := sm;
      r, sm := AddSlotElement(e, slots, sm);
      if r != 0 {
        SlotsRefused(elems, slots, n, str, sm);
        return;
      }
      SlotsStep(elems, slots, n, str, before, sm);
      n, str := n + 1, rest;
    }
    GoodSlotsIs(elems, slots, n);
    return 0, sm;
  }
}
