/**
  ADD RULE and DELETE RULE: a rule id and any list of clauses that describe packets. The
  request is always readable, and says what the clauses say.
*/
module ClassCommand {
  import opened Wrappers
  import opened Text
  import opened JsonTokens
  import opened JsonBuilder
  import opened JsonText
  import RpcJson
  import opened CommandJson

  // A clause of a class entry, with the key it is written under and the largest number
  // that it admits.
  datatype Clause =
    | Number(key: int, value: U64, limit: nat)
    | Pattern(key: int, value: U64, mask: U64, limit: nat)
    | TextPattern(key: int, text: string, textMask: string)
    | TcpFlags(key: int, ms: seq<Mention>)
    | Data(n: int, data: U64, dataMask: U64)
    | Between(kind: int, min: U64, max: U64, invert: int, low: nat, high: nat)

  // What the parser does for a clause.
  function ClauseParts(c: Clause): seq<Part> {
    match c
    case Number(key, v, limit) => [Check(v, 0, limit), Convert(RpcJson.IntKey(key)), Convert(RpcJson.Val(v))]
    case Pattern(key, v, m, limit) =>
      [Check(v, 0, limit), Check(m, 0, limit), Convert(RpcJson.IntKey(key)), Masked(v, m)]
    case TextPattern(key, text, mask) => [Convert(RpcJson.IntKey(key)), SpecMasked(text, mask)]
    case TcpFlags(key, ms) => [FlagList(key, ms)]
    case Data(n, d, m) => [UserData(n, d, m)]
    case Between(kind, min, max, invert, low, high) => [Range(kind, min, max, invert, low, high)]
  }

  function RuleParts(id: U64, maxId: nat, cs: seq<Clause>): seq<Part> {
    if cs == [] then [Check(id, 1, maxId), Convert(RpcJson.Val(id))]
    else RuleParts(id, maxId, cs[..|cs| - 1]) + ClauseParts(cs[|cs| - 1])
  }

  // ---------- what the clauses say ----------

  // The mentions of flags in all clauses.
  function AllMentions(cs: seq<Clause>): seq<Mention> {
    if cs == [] then []
    else
      AllMentions(cs[..|cs| - 1]) +
      match cs[|cs| - 1]
      case TcpFlags(_, ms) => ms
      case _ => []
  }

  // The pair of a keyed clause; that of a flag list carries all mentions so far.
  function ClausePairs(c: Clause, ms: seq<Mention>): seq<Pair> {
    match c
    case Number(key, v, _) => [Pair(Atom(DecInt(key)), Atom(DecInt(Signed64(v))))]
    case Pattern(key, v, m, _) =>
      [Pair(Atom(DecInt(key)), List(Atoms([DecInt(Signed64(v)), DecInt(Signed64(m))])))]
    case TextPattern(key, text, mask) => [Pair(Atom(DecInt(key)), List([Str(text), Str(mask)]))]
    case TcpFlags(key, more) => [Pair(Atom(DecInt(key)), Atom(DecInt(FlagsNumber(ms + more))))]
    case _ => []
  }

  function KeyedPairs(cs: seq<Clause>): seq<Pair> {
    if cs == [] then []
    else KeyedPairs(cs[..|cs| - 1]) + ClausePairs(cs[|cs| - 1], AllMentions(cs[..|cs| - 1]))
  }

  function DataItems(cs: seq<Clause>): seq<Json> {
    if cs == [] then []
    else
      DataItems(cs[..|cs| - 1]) +
      match cs[|cs| - 1]
      case Data(n, d, m) => [UserDataItem(n, Int32(d), Int32(m))]
      case _ => []
  }

  // Item i carries index i.
  function BetweenItems(cs: seq<Clause>): seq<Json> {
    if cs == [] then []
    else
      var items := BetweenItems(cs[..|cs| - 1]);
      items +
      match cs[|cs| - 1]
      case Between(kind, min, max, invert, _, _) => [RangeItem(|items|, kind, Int32(min), Int32(max), invert)]
      case _ => []
  }

  predicate ClauseOk(c: Clause, ranges: nat) {
    match c
    case Number(_, v, limit) => v <= limit
    case Pattern(_, v, m, limit) => v <= limit && m <= limit
    case Data(_, d, m) => d <= 0xffff_ffff && m <= 0xffff_ffff
    case Between(_, min, max, _, low, high) => low <= min <= max <= high && ranges < MAX_RANGES
    case _ => true
  }

  // Every clause is within its limits, and there are at most 33 ranges.
  predicate ClausesOk(cs: seq<Clause>) {
    cs == [] || (ClausesOk(cs[..|cs| - 1]) && ClauseOk(cs[|cs| - 1], |BetweenItems(cs[..|cs| - 1])|))
  }

  // What a reader of the request gets.
  function RuleDoc(id: U64, cs: seq<Clause>, keyUd: int, keyRange: int): Json {
    var pairs := KeyedPairs(cs) + SideEntry(keyUd, DataItems(cs)) + SideEntry(keyRange, BetweenItems(cs));
    List([Atom(DecInt(Signed64(id)))] + MapIfAny(pairs))
  }

  // ---------- the calls of a rule ----------

  function PairCalls(ps: seq<Pair>): seq<Call> {
    if ps == [] then [] else PairCalls(ps[..|ps| - 1]) + [Key(ps[|ps| - 1].key), Value(ps[|ps| - 1].value)]
  }

  lemma {:induction false} PairCallsFirst(p: Pair, ps: seq<Pair>)
    ensures PairCalls([p] + ps) == [Key(p.key), Value(p.value)] + PairCalls(ps)
  {
    var all := [p] + ps;
    if ps == [] {
      assert all == [p] && all[..0] == [];
    } else {
      PairCallsFirst(p, ps[..|ps| - 1]);
      assert all[..|all| - 1] == [p] + ps[..|ps| - 1];
    }
  }

  lemma {:induction false} PairCallsLegal(ps: seq<Pair>)
    ensures LegalPairs(PairCalls(ps)) && PairsOf(PairCalls(ps)) == ps
  {
    if ps != [] {
      PairCallsFirst(ps[0], ps[1..]);
      assert ps == [ps[0]] + ps[1..];
      PairCallsLegal(ps[1..]);
      assert PairCalls(ps)[2..] == PairCalls(ps[1..]);
    }
  }

  // What the parts done so far amount to.
  datatype Effect = Effect(calls: seq<Call>, ms: seq<Mention>, uds: seq<Json>, ranges: seq<Json>, ok: bool)

  function Of(ps: seq<Part>): Effect {
    Effect(Calls(ps), Mentions(ps), UserItems(ps), RangeItems(ps), PartsOk(ps))
  }

  function More(e: Effect, p: Part): Effect {
    Effect(e.calls + PartCalls(p, e.ms),
      if p.FlagList? then e.ms + p.ms else e.ms,
      if p.UserData? then e.uds + [UserDataItem(p.n, Int32(p.data), Int32(p.dataMask))] else e.uds,
      if p.Range? then e.ranges + [RangeItem(|e.ranges|, p.kind, Int32(p.min), Int32(p.max), p.invert)] else e.ranges,
      e.ok && PartOk(p, |e.ranges|))
  }

  lemma OneMorePart(ps: seq<Part>, p: Part)
    ensures Of(ps + [p]) == More(Of(ps), p)
  {
    assert (ps + [p])[..|ps|] == ps;
  }

  lemma TwoMoreParts(ps: seq<Part>, p: Part, q: Part)
    ensures Of(ps + [p, q]) == More(More(Of(ps), p), q)
  {
    OneMorePart(ps, p);
    OneMorePart(ps + [p], q);
    assert ps + [p, q] == ps + [p] + [q];
  }

  // What a clause adds.
  function MoreClause(e: Effect, c: Clause): Effect {
    Effect(e.calls + PairCalls(ClausePairs(c, e.ms)),
      e.ms + (match c case TcpFlags(_, ms) => ms case _ => []),
      e.uds + (match c case Data(n, d, m) => [UserDataItem(n, Int32(d), Int32(m))] case _ => []),
      e.ranges + (match c
        case Between(kind, min, max, invert, _, _) => [RangeItem(|e.ranges|, kind, Int32(min), Int32(max), invert)]
        case _ => []),
      e.ok && ClauseOk(c, |e.ranges|))
  }

  lemma SinglePair(p: Pair)
    ensures PairCalls([p]) == [Key(p.key), Value(p.value)]
  {
    assert [p][..0] == [];
  }

  // A key and its value.
  lemma KeyThenValue(ps: seq<Part>, p: Part, q: Part, key: Json, value: Json)
    requires PartCalls(p, Mentions(ps)) == [Key(key)] && p.Convert?
    requires PartCalls(q, Mentions(ps)) == [Value(value)] && (q.Convert? || q.Masked? || q.SpecMasked?)
    ensures Of(ps + [p, q]) == Of(ps).(calls := Calls(ps) + PairCalls([Pair(key, value)]))
  {
    hide Calls, Mentions, UserItems, RangeItems, PartsOk, PairCalls;
    TwoMoreParts(ps, p, q);
    SinglePair(Pair(key, value));
    Associative(Calls(ps), [Key(key)], [Value(value)]);
  }

  // A keyed clause adds its pair and nothing else.
  lemma KeyedAdds(e: Effect, c: Clause)
    requires c.Number? || c.Pattern? || c.TextPattern?
    ensures MoreClause(e, c) ==
      e.(calls := e.calls + PairCalls(ClausePairs(c, e.ms)), ok := e.ok && ClauseOk(c, |e.ranges|))
  {
    assert e.ms + [] == e.ms && e.uds + [] == e.uds && e.ranges + [] == e.ranges;
  }

  // A check changes nothing but whether the command goes on.
  lemma OneMoreCheck(ps: seq<Part>, p: Part)
    requires p.Check?
    ensures Of(ps + [p]) == Of(ps).(ok := PartsOk(ps) && PartOk(p, 0))
  {
    OneMorePart(ps, p);
    assert Calls(ps) + [] == Calls(ps);
  }

  lemma NumberClause(ps: seq<Part>, c: Clause)
    requires c.Number?
    ensures Of(ps + ClauseParts(c)) == MoreClause(Of(ps), c)
  {
    hide Calls, Mentions, UserItems, RangeItems, PairCalls, More;
    var check, key, value := Check(c.value, 0, c.limit), Convert(RpcJson.IntKey(c.key)), Convert(RpcJson.Val(c.value));
    var pair := ClausePairs(c, Mentions(ps))[0];
    KeyedAdds(Of(ps), c);
    OneMoreCheck(ps, check);
    KeyThenValue(ps + [check], key, value, pair.key, pair.value);
    assert ps + ClauseParts(c) == ps + [check] + [key, value];
  }

  lemma PatternClause(ps: seq<Part>, c: Clause)
    requires c.Pattern?
    ensures Of(ps + ClauseParts(c)) == MoreClause(Of(ps), c)
  {
    hide Calls, Mentions, UserItems, RangeItems, PairCalls, More;
    var check, maskCheck := Check(c.value, 0, c.limit), Check(c.mask, 0, c.limit);
    var key, value := Convert(RpcJson.IntKey(c.key)), Masked(c.value, c.mask);
    var pair := ClausePairs(c, Mentions(ps))[0];
    KeyedAdds(Of(ps), c);
    OneMoreCheck(ps, check);
    OneMoreCheck(ps + [check], maskCheck);
    KeyThenValue(ps + [check] + [maskCheck], key, value, pair.key, pair.value);
    assert ps + ClauseParts(c) == ps + [check] + [maskCheck] + [key, value];
  }

  lemma TextClause(ps: seq<Part>, c: Clause)
    requires c.TextPattern?
    ensures Of(ps + ClauseParts(c)) == MoreClause(Of(ps), c)
  {
    hide Calls, Mentions, UserItems, RangeItems, PairCalls, More;
    var pair := ClausePairs(c, Mentions(ps))[0];
    KeyedAdds(Of(ps), c);
    KeyThenValue(ps, Convert(RpcJson.IntKey(c.key)), SpecMasked(c.text, c.textMask), pair.key, pair.value);
  }

  lemma FlagsClause(ps: seq<Part>, c: Clause)
    requires c.TcpFlags?
    ensures Of(ps + ClauseParts(c)) == MoreClause(Of(ps), c)
  {
    OneMorePart(ps, FlagList(c.key, c.ms));
    SinglePair(ClausePairs(c, Mentions(ps))[0]);
    assert UserItems(ps) + [] == UserItems(ps) && RangeItems(ps) + [] == RangeItems(ps);
  }

  lemma DataClause(ps: seq<Part>, c: Clause)
    requires c.Data?
    ensures Of(ps + ClauseParts(c)) == MoreClause(Of(ps), c)
  {
    OneMorePart(ps, UserData(c.n, c.data, c.dataMask));
    assert Calls(ps) + [] == Calls(ps) && Mentions(ps) + [] == Mentions(ps);
    assert RangeItems(ps) + [] == RangeItems(ps);
  }

  lemma BetweenClause(ps: seq<Part>, c: Clause)
    requires c.Between?
    ensures Of(ps + ClauseParts(c)) == MoreClause(Of(ps), c)
  {
    OneMorePart(ps, Range(c.kind, c.min, c.max, c.invert, c.low, c.high));
    assert Calls(ps) + [] == Calls(ps) && Mentions(ps) + [] == Mentions(ps);
    assert UserItems(ps) + [] == UserItems(ps);
  }

  lemma OneMoreClause(ps: seq<Part>, c: Clause)
    ensures Of(ps + ClauseParts(c)) == MoreClause(Of(ps), c)
  {
    match c
    case Number(_, _, _) => NumberClause(ps, c);
    case Pattern(_, _, _, _) => PatternClause(ps, c);
    case TextPattern(_, _, _) => TextClause(ps, c);
    case TcpFlags(_, _) => FlagsClause(ps, c);
    case Data(_, _, _) => DataClause(ps, c);
    case Between(_, _, _, _, _, _) => BetweenClause(ps, c);
  }

  lemma PairCallsConcat(a: seq<Pair>, b: seq<Pair>)
    requires |b| <= 1
    ensures PairCalls(a + b) == PairCalls(a) + PairCalls(b)
  {
    if b == [] {
      assert a + b == a && PairCalls(a) + [] == PairCalls(a);
    } else {
      assert (a + b)[..|a|] == a && b == [b[0]];
      SinglePair(b[0]);
    }
  }

  // What a rule does, by its clauses.
  function RuleEffect(id: U64, maxId: nat, cs: seq<Clause>): Effect {
    Effect([Value(Atom(DecInt(Signed64(id))))] + PairCalls(KeyedPairs(cs)), AllMentions(cs), DataItems(cs),
      BetweenItems(cs), 1 <= id <= maxId && ClausesOk(cs))
  }

  lemma RuleEffectMore(id: U64, maxId: nat, cs: seq<Clause>)
    requires cs != []
    ensures var n := |cs| - 1; RuleEffect(id, maxId, cs) == MoreClause(RuleEffect(id, maxId, cs[..n]), cs[n])
  {
    var n := |cs| - 1;
    var pairs := ClausePairs(cs[n], AllMentions(cs[..n]));
    PairCallsConcat(KeyedPairs(cs[..n]), pairs);
    Associative([Value(Atom(DecInt(Signed64(id))))], PairCalls(KeyedPairs(cs[..n])), PairCalls(pairs));
  }

  // The parts of a rule do what its clauses say.
  lemma {:induction false} RulePartsDo(id: U64, maxId: nat, cs: seq<Clause>)
    ensures Of(RuleParts(id, maxId, cs)) == RuleEffect(id, maxId, cs)
  {
    if cs == [] {
      TwoMoreParts([], Check(id, 1, maxId), Convert(RpcJson.Val(id)));
      assert [] + RuleParts(id, maxId, cs) == RuleParts(id, maxId, cs);
    } else {
      var n := |cs| - 1;
      RulePartsDo(id, maxId, cs[..n]);
      OneMoreClause(RuleParts(id, maxId, cs[..n]), cs[n]);
      RuleEffectMore(id, maxId, cs);
    }
  }

  lemma StartsWithKey(ps: seq<Pair>)
    ensures PairCalls(ps) != [] ==> PairCalls(ps)[0].Key?
  {
    if ps != [] {
      PairCallsFirst(ps[0], ps[1..]);
      assert ps == [ps[0]] + ps[1..];
    }
  }

  // One value, then pairs.
  lemma ValueThenPairs(id: Json, pairs: seq<Pair>, keyUd: int, uds: seq<Json>, keyRange: int, ranges: seq<Json>)
    ensures var calls := [Value(id)] + PairCalls(pairs);
      && Legal(calls)
      && CommandElements(calls, keyUd, uds, keyRange, ranges) ==
           [id] + MapIfAny(pairs + SideEntry(keyUd, uds) + SideEntry(keyRange, ranges))
  {
    var calls := [Value(id)] + PairCalls(pairs);
    PairCallsLegal(pairs);
    StartsWithKey(pairs);
    assert calls[1..] == PairCalls(pairs);
  }

  // Any list of clauses after a rule id makes a readable request.
  lemma RuleReadable(id: U64, maxId: nat, cs: seq<Clause>, keyUd: int, keyRange: int)
    ensures var ps := RuleParts(id, maxId, cs);
      && Calls(ps) != [] && Legal(Calls(ps)) && (PartsOk(ps) <==> 1 <= id <= maxId && ClausesOk(cs))
      && CommandDoc(ps, keyUd, keyRange) == Some(RuleDoc(id, cs, keyUd, keyRange))
  {
    var ps, head := RuleParts(id, maxId, cs), Atom(DecInt(Signed64(id)));
    var e := Of(ps);
    RulePartsDo(id, maxId, cs);
    ValueThenPairs(head, KeyedPairs(cs), keyUd, DataItems(cs), keyRange, BetweenItems(cs));
    assert e.calls == Calls(ps) && e.uds == UserItems(ps) && e.ranges == RangeItems(ps) && e.ok == PartsOk(ps);
  }

  // The strings of a clause hold no quotes.
  predicate PlainClause(c: Clause) {
    c.TextPattern? ==> IsPlain(Quoted(c.text)) && IsPlain(Quoted(c.textMask))
  }

  lemma {:induction false} RulePartsPlain(id: U64, maxId: nat, cs: seq<Clause>)
    requires forall i :: 0 <= i < |cs| ==> PlainClause(cs[i])
    ensures forall p <- RuleParts(id, maxId, cs) :: PlainPart(p)
  {
    if cs != [] {
      RulePartsPlain(id, maxId, cs[..|cs| - 1]);
      assert PlainClause(cs[|cs| - 1]);
    }
  }

  // ---------- what a reader takes from the request ----------

  // A keyed field.
  datatype Field = OneNumber(v: U64) | TwoNumbers(v: U64, mask: U64) | TwoTexts(text: string, textMask: string)

  // Numbers of 32 bits are unsigned again.
  datatype Described = Described(id: U64, fields: seq<(int, Field)>, data: seq<DataEntry>, ranges: seq<RangeEntry>)

  function ReadField(j: Json): Option<Field> {
    if !j.List? then
      match NumberOf(j)
      case Some(v) => Some(OneNumber(v))
      case None => None
    else if |j.items| != 2 then None
    else if j.items[0].Str? && j.items[1].Str? then Some(TwoTexts(j.items[0].text, j.items[1].text))
    else
      match (NumberOf(j.items[0]), NumberOf(j.items[1]))
      case (Some(v), Some(m)) => Some(TwoNumbers(v, m))
      case _ => None
  }

  // The fields under keys other than those of the side lists.
  function ReadFields(ps: seq<Pair>, keyUd: int, keyRange: int): Option<seq<(int, Field)>> {
    if ps == [] then Some([])
    else
      var n := |ps| - 1;
      match (ReadFields(ps[..n], keyUd, keyRange), IntOf(ps[n].key))
      case (Some(fields), Some(key)) =>
        if key == keyUd || key == keyRange then Some(fields)
        else (match ReadField(ps[n].value) case Some(f) => Some(fields + [(key, f)]) case None => None)
      case _ => None
  }

  // The list under a key, empty if the key is not there.
  function ListUnder(ps: seq<Pair>, key: int): seq<Json> {
    if ps == [] then []
    else
      var n := |ps| - 1;
      if IntOf(ps[n].key) == Some(key) && ps[n].value.List? then ps[n].value.items else ListUnder(ps[..n], key)
  }

  function Unsigned(n: int): int {
    n % 0x1_0000_0000
  }

  function ReadAllData(js: seq<Json>): Option<seq<DataEntry>> {
    if js == [] then Some([])
    else
      match (ReadAllData(js[..|js| - 1]), ReadData(js[|js| - 1]))
      case (Some(es), Some(e)) => Some(es + [DataEntry(e.number, Unsigned(e.data), Unsigned(e.mask))])
      case _ => None
  }

  function ReadAllRanges(js: seq<Json>): Option<seq<RangeEntry>> {
    if js == [] then Some([])
    else
      match (ReadAllRanges(js[..|js| - 1]), ReadRange(js[|js| - 1]))
      case (Some(es), Some(e)) =>
        Some(es + [RangeEntry(e.index, e.kind, Unsigned(e.min), Unsigned(e.max), e.invert)])
      case _ => None
  }

  function ReadPairsOf(id: U64, ps: seq<Pair>, keyUd: int, keyRange: int): Option<Described> {
    match (ReadFields(ps, keyUd, keyRange), ReadAllData(ListUnder(ps, keyUd)), ReadAllRanges(ListUnder(ps, keyRange)))
    case (Some(fields), Some(data), Some(ranges)) => Some(Described(id, fields, data, ranges))
    case _ => None
  }

  // A rule id, then a map or nothing.
  function ReadRule(j: Option<Json>, keyUd: int, keyRange: int): Option<Described> {
    match j
    case Some(List(js)) =>
      if |js| == 1 && NumberOf(js[0]).Some? then Some(Described(NumberOf(js[0]).value, [], [], []))
      else if |js| == 2 && NumberOf(js[0]).Some? && js[1].Map? then
        ReadPairsOf(NumberOf(js[0]).value, js[1].pairs, keyUd, keyRange)
      else None
    case _ => None
  }

  // ---------- what the clauses describe ----------

  // A flag list stands for all mentions so far.
  function FieldOf(c: Clause, before: seq<Mention>): seq<(int, Field)> {
    match c
    case Number(key, v, _) => [(key, OneNumber(v))]
    case Pattern(key, v, m, _) => [(key, TwoNumbers(v, m))]
    case TextPattern(key, text, mask) => [(key, TwoTexts(text, mask))]
    case TcpFlags(key, ms) => [(key, OneNumber(FlagsNumber(before + ms)))]
    case _ => []
  }

  function FieldsOf(cs: seq<Clause>): seq<(int, Field)> {
    if cs == [] then []
    else FieldsOf(cs[..|cs| - 1]) + FieldOf(cs[|cs| - 1], AllMentions(cs[..|cs| - 1]))
  }

  function DataOf(cs: seq<Clause>): seq<DataEntry> {
    if cs == [] then []
    else
      DataOf(cs[..|cs| - 1]) +
      match cs[|cs| - 1]
      case Data(n, d, m) => [DataEntry(n, d, m)]
      case _ => []
  }

  function RangesOf(cs: seq<Clause>): seq<RangeEntry> {
    if cs == [] then []
    else
      var before := RangesOf(cs[..|cs| - 1]);
      before +
      match cs[|cs| - 1]
      case Between(kind, min, max, invert, _, _) => [RangeEntry(|before|, kind, min, max, invert)]
      case _ => []
  }

  // The keys of the clauses are not those of the side lists, and the limits of ranges
  // have 32 bits.
  predicate KeysApart(cs: seq<Clause>, keyUd: int, keyRange: int) {
    forall i :: 0 <= i < |cs| ==> ClauseApart(cs[i], keyUd, keyRange)
  }

  predicate ClauseApart(c: Clause, keyUd: int, keyRange: int) {
    match c
    case Number(key, _, _) => key != keyUd && key != keyRange
    case Pattern(key, _, _, _) => key != keyUd && key != keyRange
    case TextPattern(key, _, _) => key != keyUd && key != keyRange
    case TcpFlags(key, _) => key != keyUd && key != keyRange
    case Data(_, _, _) => true
    case Between(_, _, _, _, _, high) => high <= 0xffff_ffff
  }

  lemma UnsignedBack(v: int)
    requires 0 <= v <= 0xffff_ffff
    ensures Unsigned(Int32(v)) == v
  {}

  lemma FieldBack(c: Clause, ms: seq<Mention>)
    ensures |ClausePairs(c, ms)| == |FieldOf(c, ms)| <= 1
    ensures forall p, f :: ClausePairs(c, ms) == [p] && FieldOf(c, ms) == [f] ==>
      IntOf(p.key) == Some(f.0) && ReadField(p.value) == Some(f.1)
  {
    match c
    case Number(key, v, _) =>
      IntBack(key);
      NumberBack(v);
    case Pattern(key, v, m, _) =>
      IntBack(key);
      NumberBack(v);
      NumberBack(m);
    case TextPattern(key, text, mask) =>
      IntBack(key);
    case TcpFlags(key, more) =>
      IntBack(key);
      NumberBack(FlagsNumber(ms + more));
      assert Signed64(FlagsNumber(ms + more)) == FlagsNumber(ms + more);
    case _ =>
  }

  lemma {:induction false} FieldsBack(cs: seq<Clause>, keyUd: int, keyRange: int)
    requires KeysApart(cs, keyUd, keyRange)
    ensures ReadFields(KeyedPairs(cs), keyUd, keyRange) == Some(FieldsOf(cs))
    ensures ListUnder(KeyedPairs(cs), keyUd) == [] && ListUnder(KeyedPairs(cs), keyRange) == []
  {
    if cs != [] {
      var n := |cs| - 1;
      var before, ms := KeyedPairs(cs[..n]), AllMentions(cs[..n]);
      assert ClauseApart(cs[n], keyUd, keyRange);
      FieldsBack(cs[..n], keyUd, keyRange);
      FieldBack(cs[n], ms);
      if ClausePairs(cs[n], ms) == [] {
        assert before + [] == before && FieldsOf(cs[..n]) + [] == FieldsOf(cs[..n]);
      } else {
        var p, f := ClausePairs(cs[n], ms)[0], FieldOf(cs[n], ms)[0];
        assert ClausePairs(cs[n], ms) == [p] && FieldOf(cs[n], ms) == [f];
        assert (before + [p])[..|before|] == before;
      }
    }
  }

  lemma {:induction false} DataItemsBack(cs: seq<Clause>)
    requires ClausesOk(cs)
    ensures ReadAllData(DataItems(cs)) == Some(DataOf(cs))
  {
    if cs != [] {
      var n := |cs| - 1;
      var before := DataItems(cs[..n]);
      DataItemsBack(cs[..n]);
      if cs[n].Data? {
        var item := UserDataItem(cs[n].n, Int32(cs[n].data), Int32(cs[n].dataMask));
        DataBack(cs[n].n, Int32(cs[n].data), Int32(cs[n].dataMask));
        UnsignedBack(cs[n].data);
        UnsignedBack(cs[n].dataMask);
        assert (before + [item])[..|before|] == before;
      } else {
        assert before + [] == before && DataOf(cs[..n]) + [] == DataOf(cs[..n]);
      }
    }
  }

  lemma {:induction false} RangeItemsBack(cs: seq<Clause>, keyUd: int, keyRange: int)
    requires ClausesOk(cs) && KeysApart(cs, keyUd, keyRange)
    ensures ReadAllRanges(BetweenItems(cs)) == Some(RangesOf(cs)) && |BetweenItems(cs)| == |RangesOf(cs)|
  {
    if cs != [] {
      var n := |cs| - 1;
      var before := BetweenItems(cs[..n]);
      RangeItemsBack(cs[..n], keyUd, keyRange);
      assert ClauseApart(cs[n], keyUd, keyRange);
      if cs[n].Between? {
        var c := cs[n];
        var item := RangeItem(|before|, c.kind, Int32(c.min), Int32(c.max), c.invert);
        RangeBack(|before|, c.kind, Int32(c.min), Int32(c.max), c.invert);
        UnsignedBack(c.min);
        UnsignedBack(c.max);
        assert (before + [item])[..|before|] == before;
      } else {
        assert before + [] == before && RangesOf(cs[..n]) + [] == RangesOf(cs[..n]);
      }
    }
  }

  // A side entry at the end is found under its own key and is no field.
  lemma SideBack(ps: seq<Pair>, key: int, items: seq<Json>, keyUd: int, keyRange: int)
    requires (key == keyUd || key == keyRange) && ListUnder(ps, key) == []
    ensures var all := ps + SideEntry(key, items);
      && ReadFields(all, keyUd, keyRange) == ReadFields(ps, keyUd, keyRange)
      && ListUnder(all, key) == items
      && forall k :: k != key ==> ListUnder(all, k) == ListUnder(ps, k)
  {
    if items == [] {
      assert ps + [] == ps;
    } else {
      var p := Pair(Atom(DecInt(key)), List(items));
      IntBack(key);
      assert (ps + [p])[..|ps|] == ps;
    }
  }

  lemma PairsDescribed(id: U64, cs: seq<Clause>, keyUd: int, keyRange: int)
    requires ClausesOk(cs) && keyUd != keyRange && KeysApart(cs, keyUd, keyRange)
    ensures var pairs := KeyedPairs(cs) + SideEntry(keyUd, DataItems(cs)) + SideEntry(keyRange, BetweenItems(cs));
      ReadPairsOf(id, pairs, keyUd, keyRange) == Some(Described(id, FieldsOf(cs), DataOf(cs), RangesOf(cs)))
  {
    var keyed := KeyedPairs(cs);
    FieldsBack(cs, keyUd, keyRange);
    DataItemsBack(cs);
    RangeItemsBack(cs, keyUd, keyRange);
    hide ReadFields, ListUnder, SideEntry, ReadAllData, ReadAllRanges, KeyedPairs, DataItems, BetweenItems;
    SideBack(keyed, keyUd, DataItems(cs), keyUd, keyRange);
    SideBack(keyed + SideEntry(keyUd, DataItems(cs)), keyRange, BetweenItems(cs), keyUd, keyRange);
  }

  lemma MapRead(id: U64, pairs: seq<Pair>, keyUd: int, keyRange: int)
    ensures ReadRule(Some(List([Atom(DecInt(Signed64(id)))] + MapIfAny(pairs))), keyUd, keyRange) ==
      ReadPairsOf(id, pairs, keyUd, keyRange)
  {
    NumberBack(id);
  }

  // A reader of the request finds the rule id, every keyed field, the user data and the
  // ranges with the very numbers of the command.
  lemma RuleDescribed(id: U64, cs: seq<Clause>, keyUd: int, keyRange: int)
    requires ClausesOk(cs) && keyUd != keyRange && KeysApart(cs, keyUd, keyRange)
    ensures ReadRule(Some(RuleDoc(id, cs, keyUd, keyRange)), keyUd, keyRange) ==
      Some(Described(id, FieldsOf(cs), DataOf(cs), RangesOf(cs)))
  {
    var pairs := KeyedPairs(cs) + SideEntry(keyUd, DataItems(cs)) + SideEntry(keyRange, BetweenItems(cs));
    PairsDescribed(id, cs, keyUd, keyRange);
    MapRead(id, pairs, keyUd, keyRange);
  }

  // The whole command: refused exactly when the id or a clause is out of its limits;
  // otherwise its text is read back as the id, the keyed clauses and the two side lists.
  method AddRule(id: U64, maxId: nat, cs: seq<Clause>, keyUd: int, keyRange: int) returns (text: Option<string>)
    requires forall i :: 0 <= i < |cs| ==> PlainClause(cs[i])
    ensures text.Some? <==> 1 <= id <= maxId && ClausesOk(cs)
    ensures text.Some? ==> ReadText(text.value) == Some(RuleDoc(id, cs, keyUd, keyRange))
    ensures text.Some? && keyUd != keyRange && KeysApart(cs, keyUd, keyRange) ==>
      ReadRule(ReadText(text.value), keyUd, keyRange) == Some(Described(id, FieldsOf(cs), DataOf(cs), RangesOf(cs)))
  {
    if ClausesOk(cs) && keyUd != keyRange && KeysApart(cs, keyUd, keyRange) {
      RuleDescribed(id, cs, keyUd, keyRange);
    }
    RuleReadable(id, maxId, cs, keyUd, keyRange);
    RulePartsPlain(id, maxId, cs);
    text := RunCommand(RuleParts(id, maxId, cs), keyUd, keyRange);
  }
}
