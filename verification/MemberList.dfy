/**
  Port, slot and module masks, and the lists of numbers and ranges they print as.
*/
module MemberList {
  import opened Text

  // A 64-bit word; element k is bit k, the one selected by `1ull << k`.
  type Word = w: seq<bool> | |w| == 64 witness seq(64, _ => false)

  const ZERO: Word := seq(64, _ => false)
  const ONES: Word := seq(64, _ => true)

  // A port mask is four words. Ports are numbered from 1; port n is bit n - 1.
  const MAX_PORT_NUMBER := 128
  const WORDS := 4

  predicate Bit(mask: seq<Word>, k: nat)
    requires |mask| == WORDS && k < 64 * WORDS
  {
    mask[k / 64][k % 64]
  }

  // A printed element: a number by itself, or the ends of a range.
  datatype Item = One(lo: nat) | Span(lo: nat, hi: nat) {
    function Last(): nat { if One? then lo else hi }

    predicate Has(n: int) { lo <= n <= Last() }

    function Show(): string { if One? then Dec(lo) else Dec(lo) + "-" + Dec(hi) }
  }

  // The bits examined by a printer: those of its members, and one bit more that is
  // only looked at to see whether the last member goes on. Bit i stands for base + i.
  ghost predicate IsScan(bits: seq<bool>) {
    bits != []
  }

  // End of the run of members at i.
  function RunEnd(bits: seq<bool>, i: nat): (e: nat)
    requires IsScan(bits) && i < |bits|
    ensures i <= e < |bits|
    ensures forall k :: i <= k < e ==> bits[k]
    ensures e == |bits| - 1 || !bits[e]
    decreases |bits| - i
  {
    if i == |bits| - 1 || !bits[i] then i else RunEnd(bits, i + 1)
  }

  // The elements for the members from bit i on. The printers remember an open range
  // by its first number, so a range cannot start at 0.
  function Items(bits: seq<bool>, base: nat, i: nat): seq<Item>
    requires IsScan(bits) && i < |bits|
    decreases |bits| - i
  {
    if i == |bits| - 1 then []
    else if !bits[i] then Items(bits, base, i + 1)
    else if base + i == 0 || !bits[i + 1] then [One(base + i)] + Items(bits, base, i + 1)
    else [Span(base + i, base + RunEnd(bits, i) - 1)] + Items(bits, base, RunEnd(bits, i))
  }

  function Shown(items: seq<Item>): (r: seq<string>)
    ensures |r| == |items| && forall i :: 0 <= i < |items| ==> r[i] == items[i].Show()
  {
    seq(|items|, i requires 0 <= i < |items| => items[i].Show())
  }

  function ListText(items: seq<Item>): string {
    Join(Shown(items), ',')
  }

  // ---------- the printing loops ----------

  // Elements still to be printed, each after a comma unless it is the very first.
  function Rest(items: seq<Item>, printed: bool): string {
    if items == [] then ""
    else (if printed then "," else "") + (items[0].Show() + Rest(items[1..], true))
  }

  lemma JoinFirst(x: string, xs: seq<string>)
    requires xs != []
    ensures Join([x] + xs, ',') == x + ("," + Join(xs, ','))
  {
    assert ([x] + xs)[1..] == xs;
    Associative(x, ",", Join(xs, ','));
  }

  lemma {:induction false} ListTextRest(items: seq<Item>)
    ensures ListText(items) == Rest(items, false)
  {
    hide Dec;
    if |items| > 1 {
      ListTextRest(items[1..]);
      assert Shown(items) == [items[0].Show()] + Shown(items[1..]);
      JoinFirst(items[0].Show(), Shown(items[1..]));
      assert Rest(items[1..], true) == "," + Rest(items[1..], false);
    } else if |items| == 1 {
      assert items[1..] == [];
    }
  }

  // What remains to be printed from bit i on, in every state of the loops.
  function Remaining(bits: seq<bool>, base: nat, i: nat, range: bool, printed: bool): string
    requires IsScan(bits) && i < |bits| && (range ==> base + i > 0)
  {
    if range then
      var e := RunEnd(bits, i);
      ("-" + Dec(base + e - 1)) + Rest(Items(bits, base, e), true)
    else Rest(Items(bits, base, i), printed)
  }

  // What opens an element: a comma if one was printed before, and its first number.
  function Opening(first: nat, printed: bool): string {
    (if printed then "," else "") + Dec(first)
  }

  // What one turn of a printing loop appends, and the state it leaves.
  function Turn(bits: seq<bool>, base: nat, i: nat, range: bool, printed: bool): (string, bool, bool)
    requires IsScan(bits) && i < |bits| - 1 && (range ==> base + i > 0)
  {
    if bits[i] then
      if range then ("", true, printed)
      else (Opening(base + i, printed), bits[i + 1] && base + i != 0, true)
    else if range then ("-" + Dec(base + i - 1), false, printed)
    else ("", false, printed)
  }

  lemma RestFirst(first: Item, items: seq<Item>, printed: bool)
    ensures Rest([first] + items, printed) ==
      (if printed then "," else "") + (first.Show() + Rest(items, true))
  {
    assert ([first] + items)[1..] == items;
  }

  lemma OpensAlone(bits: seq<bool>, base: nat, i: nat, printed: bool)
    requires IsScan(bits) && i < |bits| - 1 && bits[i] && (base + i == 0 || !bits[i + 1])
    ensures Rest(Items(bits, base, i), printed) == Opening(base + i, printed) + Rest(Items(bits, base, i + 1), true)
  {
    var items := Items(bits, base, i + 1);
    assert Items(bits, base, i) == [One(base + i)] + items;
    RestFirst(One(base + i), items, printed);
    Associative(if printed then "," else "", Dec(base + i), Rest(items, true));
  }

  lemma OpensRange(bits: seq<bool>, base: nat, i: nat, printed: bool)
    requires IsScan(bits) && i < |bits| - 1 && bits[i] && base + i != 0 && bits[i + 1]
    ensures var e := RunEnd(bits, i);
      Rest(Items(bits, base, i), printed) ==
        Opening(base + i, printed) + (("-" + Dec(base + e - 1)) + Rest(Items(bits, base, e), true))
  {
    var e := RunEnd(bits, i);
    var items, first := Items(bits, base, e), Span(base + i, base + e - 1);
    var lead, dec, tail := if printed then "," else "", Dec(base + i), "-" + Dec(base + e - 1);
    assert Items(bits, base, i) == [first] + items;
    RestFirst(first, items, printed);
    ShowSpan(base + i, base + e - 1);
    Associative(dec, tail, Rest(items, true));
    Associative(lead, dec, tail + Rest(items, true));
  }

  lemma ShowSpan(lo: nat, hi: nat)
    ensures Span(lo, hi).Show() == Dec(lo) + ("-" + Dec(hi))
  {
    Associative(Dec(lo), "-", Dec(hi));
  }

  lemma TurnOpens(bits: seq<bool>, base: nat, i: nat, printed: bool)
    requires IsScan(bits) && i < |bits| - 1 && bits[i]
    ensures var (piece, range', printed') := Turn(bits, base, i, false, printed);
      Remaining(bits, base, i, false, printed) == piece + Remaining(bits, base, i + 1, range', printed')
  {
    assert bits[i + 1] ==> RunEnd(bits, i) == RunEnd(bits, i + 1);
    hide Items, Rest, RunEnd, Opening;
    if base + i == 0 || !bits[i + 1] {
      OpensAlone(bits, base, i, printed);
    } else {
      OpensRange(bits, base, i, printed);
    }
  }

  // A turn that opens nothing goes on with the run, ends it or passes a bit over.
  lemma TurnGoesOn(bits: seq<bool>, base: nat, i: nat, range: bool, printed: bool)
    requires IsScan(bits) && i < |bits| - 1 && (range ==> base + i > 0 && printed) && (bits[i] ==> range)
    ensures var (piece, range', printed') := Turn(bits, base, i, range, printed);
      Remaining(bits, base, i, range, printed) == piece + Remaining(bits, base, i + 1, range', printed')
  {
    if bits[i] {
      assert RunEnd(bits, i) == RunEnd(bits, i + 1);
    } else {
      assert RunEnd(bits, i) == i && Items(bits, base, i) == Items(bits, base, i + 1);
    }
  }

  // One turn keeps what is printed and what remains together.
  lemma TurnKeeps(bits: seq<bool>, base: nat, i: nat, range: bool, printed: bool, buffer: string, all: string)
    requires IsScan(bits) && i < |bits| - 1 && (range ==> base + i > 0 && printed)
    requires buffer + Remaining(bits, base, i, range, printed) == all
    ensures var (piece, range', printed') := Turn(bits, base, i, range, printed);
      buffer + piece + Remaining(bits, base, i + 1, range', printed') == all
  {
    var (piece, range', printed') := Turn(bits, base, i, range, printed);
    if bits[i] && !range {
      TurnOpens(bits, base, i, printed);
    } else {
      TurnGoesOn(bits, base, i, range, printed);
    }
    Associative(buffer, piece, Remaining(bits, base, i + 1, range', printed'));
  }

  // The state and output of a printing loop before turn i.
  ghost predicate Printing(bits: seq<bool>, base: nat, i: nat, range: bool, printed: bool, buffer: string)
    requires IsScan(bits) && i < |bits|
  {
    && (range ==> base + i > 0 && printed)
    && buffer + Remaining(bits, base, i, range, printed) == ListText(Items(bits, base, 0))
  }

  lemma PrintingStarts(bits: seq<bool>, base: nat)
    requires IsScan(bits)
    ensures Printing(bits, base, 0, false, false, "")
  {
    ListTextRest(Items(bits, base, 0));
  }

  lemma PrintingTurns(bits: seq<bool>, base: nat, i: nat, range: bool, printed: bool, buffer: string)
    requires IsScan(bits) && i < |bits| - 1
    requires Printing(bits, base, i, range, printed, buffer)
    ensures var (piece, range', printed') := Turn(bits, base, i, range, printed);
      Printing(bits, base, i + 1, range', printed', buffer + piece)
  {
    TurnKeeps(bits, base, i, range, printed, buffer, ListText(Items(bits, base, 0)));
  }

  lemma PrintingEnds(bits: seq<bool>, base: nat, range: bool, printed: bool, buffer: string)
    requires IsScan(bits)
    requires Printing(bits, base, |bits| - 1, range, printed, buffer)
    ensures ListText(Items(bits, base, 0)) ==
      buffer + if range then "-" + Dec(base + |bits| - 2) else ""
  {
    if range {
      assert Remaining(bits, base, |bits| - 1, range, printed) == "-" + Dec(base + |bits| - 2) + "";
    }
  }

  method SprintMembersFromMask(mask: Word, max: nat) returns (buffer: string)
    requires max < 64
    ensures buffer == ListText(Items(mask[..max + 1], 0, 0))
  {
    hide Items, ListText, Remaining;
    ghost var bits := mask[..max + 1];
    PrintingStarts(bits, 0);
    var range, printed := 0, false;
    buffer := "";
    for port := 0 to max
      invariant Printing(bits, 0, port, range > 0, printed, buffer)
    {
      PrintingTurns(bits, 0, port, range > 0, printed, buffer);
      if mask[port] {
        if range == 0 {
          var comma := if printed then "," else "";
          buffer := buffer + (comma + Dec(port));
          printed := true;
          if mask[port + 1] {
            range := port;
          }
        }
      } else if range > 0 {
        buffer := buffer + ("-" + Dec(port - 1));
        range := 0;
      }
    }
    PrintingEnds(bits, 0, range > 0, printed, buffer);
    if range > 0 {
      buffer := buffer + ("-" + Dec(max - 1));
    }
  }

  // Whether a port mask has a port, or the bit beyond the last one.
  method CheckPortInPorts(p: array<Word>, port: int) returns (r: int)
    requires p.Length == WORDS
    ensures r == if port < 0 || port > MAX_PORT_NUMBER then -1 else if Bit(p[..], port) then 1 else 0
  {
    if port < 0 || port > MAX_PORT_NUMBER {
      return -1;
    }
    return if p[port / 64][port % 64] then 1 else 0;
  }

  // Ports 1 to 128, and the bit after them.
  function PortBits(mask: seq<Word>): (r: seq<bool>)
    requires |mask| == WORDS
    ensures |r| == MAX_PORT_NUMBER + 1 && forall k :: 0 <= k <= MAX_PORT_NUMBER ==> r[k] == Bit(mask, k)
  {
    seq(MAX_PORT_NUMBER + 1, k requires 0 <= k <= MAX_PORT_NUMBER => Bit(mask, k))
  }

  function PortText(mask: seq<Word>): string
    requires |mask| == WORDS
  {
    ListText(Items(PortBits(mask), 1, 0))
  }

  method SprintPortsFromMask(mask: array<Word>) returns (buffer: string)
    requires mask.Length == WORDS
    ensures buffer == PortText(mask[..])
  {
    hide Items, ListText, Remaining;
    ghost var bits := PortBits(mask[..]);
    PrintingStarts(bits, 1);
    var range, printed, max := 0, false, MAX_PORT_NUMBER;
    buffer := "";
    for port := 0 to MAX_PORT_NUMBER
      invariant Printing(bits, 1, port, range > 0, printed, buffer)
    {
      PrintingTurns(bits, 1, port, range > 0, printed, buffer);
      var here := CheckPortInPorts(mask, port);
      if here != 0 {
        if range == 0 {
          var comma := if printed then "," else "";
          buffer := buffer + (comma + Dec(port + 1));
          printed := true;
          var next := CheckPortInPorts(mask, port + 1);
          if next != 0 {
            range := port + 1;
          }
        }
      } else if range > 0 {
        buffer := buffer + ("-" + Dec(port));
        range := 0;
      }
    }
    PrintingEnds(bits, 1, range > 0, printed, buffer);
    if range > 0 {
      buffer := buffer + ("-" + Dec(max));
    }
  }

  // ---------- what the elements denote ----------

  // Where the element that opens at bit i, or the gap there, ends.
  function Past(bits: seq<bool>, base: nat, i: nat): (e: nat)
    requires IsScan(bits) && i < |bits| - 1
    ensures i < e < |bits|
    ensures forall k :: i < k < e ==> bits[i] && bits[k]
    ensures bits[i] && base + i > 0 && e < |bits| - 1 ==> !bits[e]
  {
    if bits[i] && base + i > 0 && bits[i + 1] then RunEnd(bits, i) else i + 1
  }

  function First(bits: seq<bool>, base: nat, i: nat): seq<Item>
    requires IsScan(bits) && i < |bits| - 1
  {
    if !bits[i] then []
    else if base + i == 0 || !bits[i + 1] then [One(base + i)]
    else [Span(base + i, base + Past(bits, base, i) - 1)]
  }

  lemma ItemsUnfold(bits: seq<bool>, base: nat, i: nat)
    requires IsScan(bits) && i < |bits| - 1
    ensures Items(bits, base, i) == First(bits, base, i) + Items(bits, base, Past(bits, base, i))
  {}

  ghost predicate Covered(items: seq<Item>, n: int) {
    exists it :: it in items && it.Has(n)
  }

  // The elements cover exactly the members.
  lemma {:induction false} ItemsDenote(bits: seq<bool>, base: nat, i: nat, n: int)
    requires IsScan(bits) && i < |bits|
    ensures Covered(Items(bits, base, i), n) <==> base + i <= n < base + |bits| - 1 && bits[n - base]
    decreases |bits| - i
  {
    if i < |bits| - 1 {
      var e := Past(bits, base, i);
      ItemsUnfold(bits, base, i);
      ItemsDenote(bits, base, e, n);
      var items, first, rest := Items(bits, base, i), First(bits, base, i), Items(bits, base, e);
      assert forall it :: it in items <==> it in first || it in rest;
      if bits[i] {
        assert first[0] in items;
        assert Covered(items, n) <==> first[0].Has(n) || Covered(rest, n);
      } else {
        assert [] + rest == rest;
      }
    }
  }

  // Elements between two numbers, each starting at a member and past a gap after the
  // one before it; only an element that is 0 may be followed at once.
  ghost predicate Canonical(items: seq<Item>, bits: seq<bool>, base: nat, low: int) {
    && (forall k :: 0 <= k < |items| ==> IsElement(items[k], bits, base, low))
    && forall j, k :: 0 <= j < k < |items| ==> Apart(items[j], items[k])
  }

  ghost predicate IsElement(it: Item, bits: seq<bool>, base: nat, low: int) {
    && base <= it.lo && low <= it.lo <= it.Last() < base + |bits| - 1
    && bits[it.lo - base]
  }

  ghost predicate Apart(a: Item, b: Item) {
    if a.lo == 0 then a.Last() < b.lo else a.Last() + 1 < b.lo
  }

  lemma CanonicalFirst(first: Item, rest: seq<Item>, bits: seq<bool>, base: nat, low: int, next: int)
    requires IsElement(first, bits, base, low) && Canonical(rest, bits, base, next)
    requires low <= next == first.Last() + 1
    requires first.lo > 0 && next < base + |bits| - 1 ==> base <= next && !bits[next - base]
    ensures Canonical([first] + rest, bits, base, low)
  {
    forall k | 0 <= k < |rest| ensures Apart(first, rest[k]) && IsElement(rest[k], bits, base, low) {
      assert IsElement(rest[k], bits, base, next);
    }
  }

  lemma CanonicalLower(items: seq<Item>, bits: seq<bool>, base: nat, low: int, next: int)
    requires Canonical(items, bits, base, next) && low <= next
    ensures Canonical(items, bits, base, low)
  {
    assert forall k :: 0 <= k < |items| ==> IsElement(items[k], bits, base, next);
  }

  // The elements are the maximal runs in order. Only a run that starts at 0 is broken
  // in two.
  lemma {:induction false} ItemsCanonical(bits: seq<bool>, base: nat, i: nat)
    requires IsScan(bits) && i < |bits|
    ensures Canonical(Items(bits, base, i), bits, base, base + i)
    decreases |bits| - i
  {
    if i < |bits| - 1 {
      var e := Past(bits, base, i);
      ItemsUnfold(bits, base, i);
      ItemsCanonical(bits, base, e);
      var first, rest := First(bits, base, i), Items(bits, base, e);
      if bits[i] {
        CanonicalFirst(first[0], rest, bits, base, base + i, base + e);
      } else {
        assert [] + rest == rest;
        CanonicalLower(rest, bits, base, base + i, base + e);
      }
    }
  }

  // No element touches the one before it.
  ghost predicate Gapped(items: seq<Item>) {
    forall j, k :: 0 <= j < k < |items| ==> items[j].Last() + 1 < items[k].lo
  }

  lemma GappedWithoutZero(items: seq<Item>, bits: seq<bool>, base: nat, low: int)
    requires Canonical(items, bits, base, low) && forall it <- items :: it.lo > 0
    ensures Gapped(items)
  {
    forall j, k | 0 <= j < k < |items| ensures items[j].Last() + 1 < items[k].lo {
      assert items[j] in items && Apart(items[j], items[k]);
    }
  }

  lemma GappedFirst(first: Item, rest: seq<Item>)
    requires Gapped(rest) && forall k :: 0 <= k < |rest| ==> first.Last() + 1 < rest[k].lo
    ensures Gapped([first] + rest)
  {
    var items := [first] + rest;
    forall j, k | 0 <= j < k < |items| ensures items[j].Last() + 1 < items[k].lo {
      if j > 0 {
        assert items[j] == rest[j - 1] && items[k] == rest[k - 1];
      }
    }
  }

  lemma GappedAfterZero(rest: seq<Item>, bits: seq<bool>)
    requires Canonical(rest, bits, 0, 1)
    ensures Gapped([One(0)] + rest) <==> rest == [] || rest[0].lo > 1
  {
    var items := [One(0)] + rest;
    forall k | 0 <= k < |rest| ensures rest[k].lo >= rest[0].lo >= 1 && rest[k] == items[k + 1] {
      assert IsElement(rest[k], bits, 0, 1);
      assert k > 0 ==> Apart(rest[0], rest[k]);
    }
    if rest != [] && rest[0].lo > 1 {
      GappedWithoutZero(rest, bits, 0, 1);
      GappedFirst(One(0), rest);
    } else if rest != [] {
      assert items[0].Last() + 1 == items[1].lo;
    }
  }

  // The elements are the maximal runs, except when members 0 and 1 are both printed:
  // then 0 stands alone before the run that goes on from 1.
  lemma GappedIff(bits: seq<bool>, base: nat)
    requires IsScan(bits)
    ensures Gapped(Items(bits, base, 0)) <==> !(base == 0 && |bits| > 2 && bits[0] && bits[1])
  {
    var items := Items(bits, base, 0);
    if base == 0 && |bits| > 1 && bits[0] {
      ItemsUnfold(bits, base, 0);
      var rest := Items(bits, base, 1);
      ItemsCanonical(bits, base, 1);
      GappedAfterZero(rest, bits);
      if |bits| > 2 && bits[1] {
        ItemsUnfold(bits, base, 1);
      } else if rest != [] {
        assert IsElement(rest[0], bits, 0, 1);
      }
    } else {
      ItemsCanonical(bits, base, 0);
      forall it | it in items ensures it.lo > 0 {
        var k :| 0 <= k < |items| && items[k] == it;
        assert IsElement(items[k], bits, base, base);
      }
      GappedWithoutZero(items, bits, base, base);
    }
  }

  // Bit j opens an element of its own when the elements are listed from bit i on.
  ghost predicate StandsAlone(bits: seq<bool>, base: nat, i: nat, j: nat)
    requires IsScan(bits) && i <= j
  {
    && j < |bits| - 1 && bits[j]
    && (base + j == 0 || (!bits[j + 1] && (j == i || (base == 0 && j == 1) || !bits[j - 1])))
  }

  // Which members stand alone.
  lemma {:induction false} AloneIff(bits: seq<bool>, base: nat, i: nat, j: nat)
    requires IsScan(bits) && i < |bits| && i <= j
    ensures One(base + j) in Items(bits, base, i) <==> StandsAlone(bits, base, i, j)
    decreases |bits| - i
  {
    if i < |bits| - 1 {
      var e := Past(bits, base, i);
      ItemsUnfold(bits, base, i);
      var first, rest := First(bits, base, i), Items(bits, base, e);
      assert One(base + j) in Items(bits, base, i) <==> One(base + j) in first || One(base + j) in rest;
      if j >= e {
        AloneIff(bits, base, e, j);
      } else {
        ItemsCanonical(bits, base, e);
        assert One(base + j) !in rest;
      }
    }
  }
}
