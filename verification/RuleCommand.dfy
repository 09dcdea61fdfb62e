/**
  SET RULE: the output port ids of a rule are collected in an array, and the request
  carries the rule as a flat list of numbers. A reader of the text gets the rule back.
*/
module RuleCommand {
  import opened Wrappers
  import Text
  import opened JsonTokens
  import opened JsonBuilder
  import opened JsonText
  import RpcJson
  import opened CommandJson

  type U64 = Text.U64

  // An id, or two ids with a dash between.
  datatype PortItem = One(id: U64) | Span(first: U64, last: U64)

  datatype Forward = Drop | OutPorts(items: seq<PortItem>)

  datatype Rule = Rule(id: U64, inport: U64, forward: Forward, vlans: seq<U64>)

  // DEFAULT_ACLS_NUMBER, MAX_INPORTS_ID and MAX_OUTPORTS_ID.
  datatype Limits = Limits(rules: nat, inports: nat, outports: nat)

  predicate Within(id: U64, limit: nat) {
    1 <= id <= limit
  }

  predicate ItemOk(it: PortItem, limit: nat) {
    match it
    case One(id) => Within(id, limit)
    case Span(first, last) => Within(first, limit) && Within(last, limit)
  }

  predicate VlanOk(v: U64) {
    2 <= v < 4096
  }

  // What acceptance asks, number by number.
  lemma AcceptedIff(r: Rule, lim: Limits)
    ensures Accepted(r, lim) <==>
      && 1 <= r.id <= lim.rules && 1 <= r.inport <= lim.inports
      && (forall v <- r.vlans :: 2 <= v <= 4095)
      && (r.forward.OutPorts? ==>
            (forall p: U64 :: One(p) in r.forward.items ==> 1 <= p <= lim.outports)
            && forall a: U64, b: U64 :: Span(a, b) in r.forward.items ==>
              1 <= a <= lim.outports && 1 <= b <= lim.outports)
  {
    if forall v <- r.vlans :: 2 <= v <= 4095 {
      assert forall k :: 0 <= k < |r.vlans| ==> r.vlans[k] in r.vlans;
    }
    if r.forward.OutPorts? {
      forall it | it in r.forward.items
        ensures it == if it.One? then One(it.id) else Span(it.first, it.last)
      {}
    }
  }

  // Every id is within its limits.
  predicate Accepted(r: Rule, lim: Limits) {
    && Within(r.id, lim.rules) && Within(r.inport, lim.inports)
    && (r.forward.OutPorts? ==> forall it <- r.forward.items :: ItemOk(it, lim.outports))
    && forall k :: 0 <= k < |r.vlans| ==> VlanOk(r.vlans[k])
  }

  // The ids first, first + 1, up to last; none if last comes before first.
  function Interval(first: U64, last: U64): seq<U64>
    decreases last - first
  {
    if first > last then []
    else if first == last then [first]
    else [first] + Interval(first + 1, last)
  }

  function ItemPorts(it: PortItem): seq<U64> {
    match it
    case One(id) => [id]
    case Span(first, last) => Interval(first, last)
  }

  // The ids stored for a list, up to the first item that is refused.
  function Ports(items: seq<PortItem>, limit: nat): seq<U64> {
    if items == [] || !ItemOk(items[0], limit) then []
    else ItemPorts(items[0]) + Ports(items[1..], limit)
  }

  predicate Covers(it: PortItem, p: U64) {
    match it
    case One(id) => p == id
    case Span(first, last) => first <= p <= last
  }

  lemma {:induction false} IntervalAt(first: U64, last: U64)
    ensures |Interval(first, last)| == if first <= last then last - first + 1 else 0
    ensures forall i :: 0 <= i < |Interval(first, last)| ==> Interval(first, last)[i] == first + i
    decreases last - first
  {
    if first < last {
      var rest := Interval(first + 1, last);
      IntervalAt(first + 1, last);
      assert Interval(first, last) == [first] + rest;
    }
  }

  // The numbers from first to last in order, none if the ends are the wrong way round.
  lemma IntervalHolds(first: U64, last: U64)
    ensures forall p :: p in Interval(first, last) <==> first <= p <= last
    ensures |Interval(first, last)| == if first <= last then last - first + 1 else 0
    ensures forall i :: 0 <= i < |Interval(first, last)| ==> Interval(first, last)[i] == first + i
  {
    IntervalAt(first, last);
    hide Interval;
    forall p: U64 | first <= p <= last ensures p in Interval(first, last) {
      assert Interval(first, last)[p - first] == p;
    }
  }

  // An accepted list names exactly the ports that some item covers.
  lemma {:induction false} PortsCovered(items: seq<PortItem>, limit: nat, p: U64)
    requires forall it <- items :: ItemOk(it, limit)
    ensures p in Ports(items, limit) <==> exists it <- items :: Covers(it, p)
  {
    if items != [] {
      var it := items[0];
      if it.Span? {
        IntervalHolds(it.first, it.last);
      }
      var rest := items[1..];
      PortsCovered(rest, limit, p);
      assert items == [it] + rest;
      assert p in ItemPorts(it) <==> Covers(it, p);
      if k :| k in rest && Covers(k, p) {
        assert k in items;
      }
    }
  }

  // ---------- the array of ports ----------

  // PastEnd where the code goes on writing after the last cell of the array.
  datatype Outcome = Done | Refused | PastEnd

  function Fitting(s: seq<U64>, size: nat): seq<U64> {
    if |s| <= size then s else s[..size]
  }

  class PortList {
    // hash_outports and outports_num.
    const cells: array<U64>
    var num: nat

    ghost predicate Valid()
      reads this
    {
      num <= cells.Length < 0x8000_0000
    }

    ghost function Contents(): seq<U64>
      requires Valid()
      reads this, cells
    {
      cells[..num]
    }

    constructor (size: nat)
      requires size < 0x8000_0000
      ensures Valid() && Contents() == [] && cells.Length == size && fresh(cells)
    {
      cells := new U64[size](_ => 0);
      num := 0;
    }

    method Reset()
      requires Valid()
      modifies this, cells
      ensures Valid() && Contents() == [] && forall i :: 0 <= i < cells.Length ==> cells[i] == 0
    {
      num := 0;
      forall i | 0 <= i < cells.Length {
        cells[i] := 0;
      }
    }

    method Add(p: U64) returns (room: bool)
      requires Valid()
      modifies this, cells
      ensures Valid() && room == (old(num) < cells.Length)
      ensures Contents() == Fitting(old(Contents()) + [p], cells.Length)
    {
      room := num < cells.Length;
      if room {
        cells[num] := p;
        num := num + 1;
      }
    }

    // The actions of one item.
    method AddItem(it: PortItem, limit: nat) returns (how: Outcome)
      requires Valid()
      modifies this, cells
      ensures Valid() && (how.Refused? <==> !ItemOk(it, limit))
      ensures how.PastEnd? <==> ItemOk(it, limit) && old(num) + |ItemPorts(it)| > cells.Length
      ensures Contents() == if how.Refused? then old(Contents())
        else Fitting(old(Contents()) + ItemPorts(it), cells.Length)
    {
      match it {
      case One(id) =>
        if id < 1 || id > limit {
          return Refused;
        }
        var room := Add(id);
        return if room then Done else PastEnd;
      case Span(first, last) =>
        if first < 1 || first > limit {
          return Refused;
        }
        if last < 1 || last > limit {
          return Refused;
        }
        how := AddSpan(first, last);
      }
    }

    method AddSpan(first: U64, last: U64) returns (how: Outcome)
      requires Valid()
      modifies this, cells
      ensures Valid() && !how.Refused?
      ensures how.PastEnd? <==> old(num) + |Interval(first, last)| > cells.Length
      ensures Contents() == Fitting(old(Contents()) + Interval(first, last), cells.Length)
    {
      IntervalHolds(first, last);
      ghost var was, ports := Contents(), Interval(first, last);
      hide Interval;
      var i := first;
      while i <= last
        invariant Valid() && i >= first && (first <= last ==> i <= last + 1)
        invariant num == old(num) + (i - first) && (first > last ==> i == first)
        invariant Contents() == was + ports[..i - first]
      {
        var room := Add(i);
        if !room {
          assert (was + ports)[..num] == was + ports[..i - first];
          return PastEnd;
        }
        i := i + 1;
      }
      return Done;
    }

    // A whole list.
    method AddItems(items: seq<PortItem>, limit: nat) returns (how: Outcome)
      requires Valid()
      modifies this, cells
      ensures Valid() && (how.PastEnd? <==> old(num) + |Ports(items, limit)| > cells.Length)
      ensures !how.PastEnd? ==> (how.Done? <==> forall it <- items :: ItemOk(it, limit))
      ensures Contents() == Fitting(old(Contents()) + Ports(items, limit), cells.Length)
    {
      var i := 0;
      ghost var all := Contents() + Ports(items, limit);
      while i < |items|
        invariant 0 <= i <= |items| && Valid()
        invariant forall it <- items[..i] :: ItemOk(it, limit)
        invariant Contents() + Ports(items[i..], limit) == all
      {
        ghost var before := Contents();
        assert items[i..][1..] == items[i + 1..] && items[..i + 1] == items[..i] + [items[i]];
        how := AddItem(items[i], limit);
        Text.Associative(before, ItemPorts(items[i]), Ports(items[i + 1..], limit));
        if !how.Done? {
          return;
        }
        i := i + 1;
      }
      assert items[..i] == items;
      return Done;
    }
  }

  // ---------- the request ----------

  // The numbers of the request: rule, inport, always two vlans, and for a rule that
  // forwards the number of ports and the ports.
  function Numbers(r: Rule, limit: nat): seq<U64>
    requires |r.vlans| <= 2
    requires r.forward.OutPorts? ==> |Ports(r.forward.items, limit)| < 0x8000_0000
  {
    [r.id, r.inport] + r.vlans + Zeros(|r.vlans|)
    + match r.forward
      case Drop => []
      case OutPorts(items) => [|Ports(items, limit)|] + Ports(items, limit)
  }

  function NumberAtoms(vs: seq<U64>): (js: seq<Json>)
    ensures |js| == |vs| && forall i :: 0 <= i < |vs| ==> js[i] == Atom(Text.DecInt(Text.Signed64(vs[i])))
  {
    seq(|vs|, i requires 0 <= i < |vs| => Atom(Text.DecInt(Text.Signed64(vs[i]))))
  }

  function NumberCall(v: U64): Call {
    Value(Atom(Text.DecInt(Text.Signed64(v))))
  }

  function NumberCalls(vs: seq<U64>): (cs: seq<Call>)
    ensures |cs| == |vs| && forall i :: 0 <= i < |vs| ==> cs[i] == NumberCall(vs[i])
  {
    seq(|vs|, i requires 0 <= i < |vs| => NumberCall(vs[i]))
  }

  lemma {:induction false} NumbersAreElements(vs: seq<U64>, sides: seq<Side>)
    requires SidePairs(sides) == []
    ensures Legal(NumberCalls(vs)) && Elements(NumberCalls(vs), sides) == NumberAtoms(vs)
  {
    if vs != [] {
      assert NumberCalls(vs)[1..] == NumberCalls(vs[1..]);
      assert NumberAtoms(vs) == [NumberAtoms(vs)[0]] + NumberAtoms(vs[1..]);
      NumbersAreElements(vs[1..], sides);
    }
  }

  datatype Sent = Sent(text: string, flags: Flags)

  function Now(req: RpcJson.Request): Sent
    reads req
  {
    Sent(req.sb, req.Now())
  }

  // Writing v leads from one state of the request to the next.
  ghost predicate Writes(s: Sent, v: U64, s': Sent) {
    s' == Sent(s.text + ShowAll(Emitted(s.flags, NumberCall(v))), Next(s.flags, NumberCall(v)))
  }

  ghost predicate Step(run: seq<Sent>, vs: seq<U64>, k: nat)
    requires |run| == |vs| + 1 && k < |vs|
  {
    Writes(run[k], vs[k], run[k + 1])
  }

  // The states of a request that writes the numbers vs.
  ghost predicate IsRun(run: seq<Sent>, vs: seq<U64>) {
    && |run| == |vs| + 1 && run[0] == Sent("", START)
    && forall k {:trigger Step(run, vs, k)} :: 0 <= k < |vs| ==> Step(run, vs, k)
  }

  lemma IsRunMore(run: seq<Sent>, vs: seq<U64>, v: U64, next: Sent)
    requires IsRun(run, vs) && Writes(run[|vs|], v, next)
    ensures IsRun(run + [next], vs + [v])
  {
    forall k | 0 <= k <= |vs| ensures Step(run + [next], vs + [v], k) {
      assert k < |vs| ==> Step(run, vs, k);
    }
  }

  // What a request is after the numbers vs.
  ghost function SentAfter(vs: seq<U64>): Sent {
    Sent(ShowAll(Written(NumberCalls(vs))), After(NumberCalls(vs)))
  }

  lemma SentAfterMore(vs: seq<U64>, v: U64)
    ensures Writes(SentAfter(vs), v, SentAfter(vs + [v]))
  {
    assert NumberCalls(vs + [v]) == NumberCalls(vs) + [NumberCall(v)];
    OneMoreCall(NumberCalls(vs), NumberCall(v));
  }

  lemma {:induction false} RunOf(vs: seq<U64>) returns (run: seq<Sent>)
    ensures IsRun(run, vs) && run[|vs|] == SentAfter(vs)
  {
    if vs == [] {
      run := [SentAfter([])];
    } else {
      hide IsRun, Writes, SentAfter;
      var n := |vs| - 1;
      run := RunOf(vs[..n]);
      assert vs == vs[..n] + [vs[n]];
      SentAfterMore(vs[..n], vs[n]);
      IsRunMore(run, vs[..n], vs[n], SentAfter(vs));
      run := run + [SentAfter(vs)];
    }
  }

  // The next number of the run is written.
  method Put(req: RpcJson.Request, v: U64, ghost run: seq<Sent>, ghost vs: seq<U64>, ghost n: nat)
    requires IsRun(run, vs) && n < |vs| && vs[n] == v && Now(req) == run[n]
    modifies req
    ensures Now(req) == run[n + 1]
  {
    assert Step(run, vs, n);
    req.ConvertVal(v);
  }

  // The numbers vs have more from place n on.
  predicate Continues(vs: seq<U64>, n: nat, more: seq<U64>) {
    n + |more| <= |vs| && forall k :: 0 <= k < |more| ==> vs[n + k] == more[k]
  }

  // vlan_id, once or twice.
  method PutVlans(req: RpcJson.Request, vlans: seq<U64>, ghost run: seq<Sent>, ghost vs: seq<U64>, ghost n: nat)
    returns (ok: bool)
    requires IsRun(run, vs) && Continues(vs, n, vlans) && Now(req) == run[n]
    modifies req
    ensures ok <==> forall k :: 0 <= k < |vlans| ==> 2 <= vlans[k] <= 4095
    ensures ok ==> Now(req) == run[n + |vlans|]
  {
    for i := 0 to |vlans|
      invariant Now(req) == run[n + i]
      invariant forall k :: 0 <= k < i ==> 2 <= vlans[k] <= 4095
    {
      if vlans[i] < 2 || vlans[i] >= 4096 {
        return false;
      }
      Put(req, vlans[i], run, vs, n + i);
    }
    return true;
  }

  // The zeros that stand for vlans not given.
  function Zeros(given: nat): seq<U64> {
    if given == 0 then [0, 0] else if given == 1 then [0] else []
  }

  method PutZeros(req: RpcJson.Request, given: nat, ghost run: seq<Sent>, ghost vs: seq<U64>, ghost n: nat)
    requires IsRun(run, vs) && Continues(vs, n, Zeros(given)) && Now(req) == run[n]
    modifies req
    ensures Now(req) == run[n + |Zeros(given)|]
  {
    ghost var zeros := Zeros(given);
    if given == 0 {
      assert vs[n + 0] == zeros[0] && vs[n + 1] == zeros[1];
      Put(req, 0, run, vs, n);
      Put(req, 0, run, vs, n + 1);
    } else if given == 1 {
      assert vs[n + 0] == zeros[0];
      Put(req, 0, run, vs, n);
    }
  }

  method PutPorts(req: RpcJson.Request, o: PortList, ghost run: seq<Sent>, ghost vs: seq<U64>, ghost n: nat)
    requires o.Valid() && IsRun(run, vs) && Continues(vs, n, [o.num] + o.Contents()) && Now(req) == run[n]
    modifies req
    ensures Now(req) == run[n + 1 + o.num]
  {
    ghost var list := [o.num] + o.Contents();
    assert vs[n + 0] == list[0];
    Put(req, o.num, run, vs, n);
    for i := 0 to o.num
      invariant Now(req) == run[n + 1 + i]
    {
      assert vs[n + (1 + i)] == list[1 + i];
      Put(req, o.cells[i], run, vs, n + 1 + i);
    }
  }

  // What a reader of the text makes of a rule.
  datatype Meaning = Meaning(id: U64, inport: U64, vlans: seq<U64>, ports: Option<seq<U64>>)

  function MeaningOf(r: Rule, limit: nat): Meaning {
    Meaning(r.id, r.inport, r.vlans,
      match r.forward
      case Drop => None
      case OutPorts(items) => Some(Ports(items, limit)))
  }

  function NumbersOf(js: seq<Json>): Option<seq<U64>> {
    if js == [] then Some([])
    else
      match (NumberOf(js[0]), NumbersOf(js[1..]))
      case (Some(v), Some(vs)) => Some([v] + vs)
      case _ => None
  }

  // Rule, inport, two places for vlans that are 0 when empty; then nothing, or a count
  // and as many ports.
  function Decode(vs: seq<U64>): Option<Meaning> {
    if |vs| < 4 then None
    else
      var vlans := if vs[2] == 0 then [] else if vs[3] == 0 then [vs[2]] else vs[2..4];
      if |vs| == 4 then Some(Meaning(vs[0], vs[1], vlans, None))
      else if vs[4] == |vs| - 5 then Some(Meaning(vs[0], vs[1], vlans, Some(vs[5..])))
      else None
  }

  function ReadRule(text: string): Option<Meaning> {
    match ReadText(text)
    case Some(List(js)) =>
      (match NumbersOf(js)
      case Some(vs) => Decode(vs)
      case None => None)
    case _ => None
  }

  lemma {:induction false} NumbersBack(vs: seq<U64>)
    ensures NumbersOf(NumberAtoms(vs)) == Some(vs)
  {
    if vs != [] {
      NumberBack(vs[0]);
      assert NumberAtoms(vs)[1..] == NumberAtoms(vs[1..]);
      NumbersBack(vs[1..]);
      assert vs == [vs[0]] + vs[1..];
    }
  }

  lemma Pieces(ids: seq<U64>, two: seq<U64>, tail: seq<U64>)
    requires |ids| == 2 && |two| == 2
    ensures var vs := ids + two + tail;
      && |vs| == 4 + |tail| && vs[0] == ids[0] && vs[1] == ids[1]
      && vs[2] == two[0] && vs[3] == two[1] && vs[2..4] == two
      && (tail != [] ==> vs[4] == tail[0] && vs[5..] == tail[1..])
  {}

  // The numbers of an accepted rule give the rule back.
  lemma DecodeNumbers(r: Rule, lim: Limits)
    requires |r.vlans| <= 2 && Accepted(r, lim)
    requires r.forward.OutPorts? ==> |Ports(r.forward.items, lim.outports)| < 0x8000_0000
    ensures Decode(Numbers(r, lim.outports)) == Some(MeaningOf(r, lim.outports))
  {
    var two := r.vlans + Zeros(|r.vlans|);
    var ports := if r.forward.OutPorts? then Ports(r.forward.items, lim.outports) else [];
    var tail := if r.forward.OutPorts? then [|ports|] + ports else [];
    assert Numbers(r, lim.outports) == [r.id, r.inport] + two + tail;
    Pieces([r.id, r.inport], two, tail);
    assert (if two[0] == 0 then [] else if two[1] == 0 then [two[0]] else two) == r.vlans;
    if r.forward.OutPorts? {
      assert tail[1..] == ports;
    }
  }

  lemma ReadNumbers(vs: seq<U64>, sides: seq<Side>)
    requires vs != [] && sides != [] && forall s <- sides :: s.items == []
    ensures ReadText(ShowAll(Output(START, NumberCalls(vs), sides))) == Some(List(NumberAtoms(vs)))
  {
    forall c | c in NumberCalls(vs) ensures IsCall(c) && IsSpelt(c.json) {
      var i :| 0 <= i < |vs| && NumberCalls(vs)[i] == c;
      DecSpelt(Text.Signed64(vs[i]));
    }
    NoPairs(sides);
    RequestTextReadsBack(NumberCalls(vs), sides);
    NumbersAreElements(vs, sides);
  }

  lemma {:induction false} NoPairs(sides: seq<Side>)
    requires forall s <- sides :: s.items == []
    ensures SidePairs(sides) == []
  {
    if sides != [] {
      NoPairs(sides[1..]);
    }
  }

  // The two ids that a rule begins with.
  method PutIds(req: RpcJson.Request, r: Rule, lim: Limits, ghost run: seq<Sent>, ghost vs: seq<U64>) returns (ok: bool)
    requires IsRun(run, vs) && Continues(vs, 0, [r.id, r.inport]) && Now(req) == run[0]
    modifies req
    ensures ok <==> 1 <= r.id <= lim.rules && 1 <= r.inport <= lim.inports
    ensures ok ==> Now(req) == run[2]
  {
    ghost var ids := [r.id, r.inport];
    assert vs[0 + 0] == ids[0] && vs[0 + 1] == ids[1];
    if r.id < 1 || r.id > lim.rules {
      return false;
    }
    Put(req, r.id, run, vs, 0);
    if r.inport < 1 || r.inport > lim.inports {
      return false;
    }
    Put(req, r.inport, run, vs, 1);
    return true;
  }

  // The parts of the numbers of a rule, each in its place.
  ghost predicate InPlace(vs: seq<U64>, r: Rule, limit: nat) {
    && Continues(vs, 0, [r.id, r.inport])
    && Continues(vs, 2, r.vlans)
    && Continues(vs, 2 + |r.vlans|, Zeros(|r.vlans|))
    && |r.vlans| + |Zeros(|r.vlans|)| == 2
    && (r.forward.OutPorts? ==>
          var ports := Ports(r.forward.items, limit);
          |ports| < 0x8000_0000 && |vs| == 5 + |ports| && Continues(vs, 4, [|ports|] + ports))
    && (r.forward.Drop? ==> |vs| == 4)
  }

  lemma NumbersInPlace(r: Rule, limit: nat)
    requires |r.vlans| <= 2
    requires r.forward.OutPorts? ==> |Ports(r.forward.items, limit)| < 0x8000_0000
    ensures InPlace(Numbers(r, limit), r, limit)
  {}

  // The ports that are stored for the rule have room in the array.
  predicate HasRoom(f: Forward, limit: nat, size: nat) {
    f.OutPorts? ==> |Ports(f.items, limit)| <= size
  }

  // The output ports, if the rule forwards.
  method CollectPorts(o: PortList, f: Forward, limit: nat) returns (how: Outcome)
    requires o.Valid() && o.Contents() == []
    modifies o, o.cells
    ensures how.PastEnd? <==> !HasRoom(f, limit, o.cells.Length)
    ensures !how.PastEnd? ==> (how.Done? <==> (f.OutPorts? ==> forall it <- f.items :: ItemOk(it, limit)))
    ensures how.Done? && f.OutPorts? ==> o.Valid() && o.Contents() == Ports(f.items, limit)
  {
    how := Done;
    if f.OutPorts? {
      how := o.AddItems(f.items, limit);
    }
  }

  // Everything but the close: the numbers of the rule, or none when an id is refused or
  // the ports have no room.
  method PutRule(req: RpcJson.Request, o: PortList, r: Rule, lim: Limits, ghost run: seq<Sent>, ghost vs: seq<U64>)
    returns (how: Outcome)
    requires o.Valid() && o.Contents() == []
    requires IsRun(run, vs) && Now(req) == run[0] && Continues(vs, 0, [r.id, r.inport])
    requires HasRoom(r.forward, lim.outports, o.cells.Length) ==> InPlace(vs, r, lim.outports)
    modifies req, o, o.cells
    ensures how == RuleOutcome(r, lim, o.cells.Length)
    ensures how.Done? ==> Now(req) == run[|vs|]
  {
    hide Ports, IsRun, Continues, Zeros, ItemOk;
    var ok := PutIds(req, r, lim, run, vs);
    if !ok {
      return Refused;
    }
    how := CollectPorts(o, r.forward, lim.outports);
    if !how.Done? {
      return;
    }
    ok := PutVlans(req, r.vlans, run, vs, 2);
    if !ok {
      return Refused;
    }
    PutZeros(req, |r.vlans|, run, vs, 2 + |r.vlans|);
    if r.forward.OutPorts? {
      PutPorts(req, o, run, vs, 4);
    }
  }

  // A rule whose ids are in their limits runs past the array exactly if its ports have
  // no room; any other rule is carried out exactly if it is accepted.
  function RuleOutcome(r: Rule, lim: Limits, size: nat): Outcome {
    if !Within(r.id, lim.rules) || !Within(r.inport, lim.inports) then Refused
    else if !HasRoom(r.forward, lim.outports, size) then PastEnd
    else if Accepted(r, lim) then Done
    else Refused
  }

  // The text of a rule's numbers reads back as the rule.
  lemma RuleReadsBack(r: Rule, lim: Limits, sides: seq<Side>)
    requires |r.vlans| <= 2 && Accepted(r, lim)
    requires r.forward.OutPorts? ==> |Ports(r.forward.items, lim.outports)| < 0x8000_0000
    requires sides != [] && forall s <- sides :: s.items == []
    ensures ReadRule(ShowAll(Output(START, NumberCalls(Numbers(r, lim.outports)), sides))) ==
      Some(MeaningOf(r, lim.outports))
  {
    var vs := Numbers(r, lim.outports);
    ReadNumbers(vs, sides);
    NumbersBack(vs);
    DecodeNumbers(r, lim);
  }

  lemma OutcomeDone(r: Rule, lim: Limits, size: nat)
    ensures RuleOutcome(r, lim, size).Done? <==> Accepted(r, lim) && HasRoom(r.forward, lim.outports, size)
  {}

  // The numbers that a rule will write, if its ports have room, and the states of the
  // request that writes them.
  lemma Prepare(r: Rule, lim: Limits, size: nat) returns (vs: seq<U64>, run: seq<Sent>)
    requires |r.vlans| <= 2 && size < 0x8000_0000
    ensures IsRun(run, vs) && run[0] == Sent("", START) && run[|vs|] == SentAfter(vs)
    ensures Continues(vs, 0, [r.id, r.inport])
    ensures HasRoom(r.forward, lim.outports, size) ==>
      (r.forward.OutPorts? ==> |Ports(r.forward.items, lim.outports)| < 0x8000_0000)
      && vs == Numbers(r, lim.outports) && InPlace(vs, r, lim.outports)
  {
    var fitting := if HasRoom(r.forward, lim.outports, size) then r else r.(forward := Drop);
    vs := Numbers(fitting, lim.outports);
    NumbersInPlace(fitting, lim.outports);
    hide Numbers, Ports;
    run := RunOf(vs);
  }

  // The text of a request that has written the numbers vs.
  method CloseRule(c: Command, ghost vs: seq<U64>) returns (text: string)
    requires c.Buffers() && Now(c.req) == SentAfter(vs)
    modifies c.req
    ensures text == ShowAll(Output(START, NumberCalls(vs), old(c.Sides())))
  {
    OutputText(NumberCalls(vs), c.Sides());
    c.CloseJson();
    text := c.req.sb;
  }

  // The whole command: the text of a rule that is carried out gives the rule back.
  method SetRule(c: Command, o: PortList, r: Rule, lim: Limits) returns (how: Outcome, text: string)
    requires o.Valid() && |r.vlans| <= 2
    modifies c, c.req, o, o.cells
    ensures how == RuleOutcome(r, lim, o.cells.Length)
    ensures how.Done? <==> Accepted(r, lim) && HasRoom(r.forward, lim.outports, o.cells.Length)
    ensures how.Done? ==> ReadRule(text) == Some(MeaningOf(r, lim.outports))
  {
    c.Reset();
    o.Reset();
    hide IsRun, InPlace, Continues, Numbers, Accepted, HasRoom, Ports, SentAfter, ReadRule, RuleOutcome;
    OutcomeDone(r, lim, o.cells.Length);
    ghost var vs, run := Prepare(r, lim, o.cells.Length);
    how := PutRule(c.req, o, r, lim, run, vs);
    text := "";
    if how.Done? {
      RuleReadsBack(r, lim, c.Sides());
      text := CloseRule(c, vs);
    }
  }
}
