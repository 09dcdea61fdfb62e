/**
  The request of one command: the builder of the RPC client over the parser's globals,
  with pairs of a value and a mask, two lists kept aside until the request is closed,
  and the TCP flag word.
*/
module CommandJson {
  import opened Wrappers
  import opened Text
  import opened JsonTokens
  import opened JsonBuilder
  import opened JsonText
  import RpcJson

  // ---------- TCP flags ----------

  datatype TcpFlag = FIN | SYN | RST | PSH | ACK | URG

  // A 32-bit word; element k is bit k.
  type Bits = w: seq<bool> | |w| == 32 witness seq(32, _ => false)

  const NO_BITS: Bits := seq(32, _ => false)

  // Flag f is the word's bit 0x01, 0x02, 0x04, 0x08, 0x10 or 0x20.
  function FlagBit(f: TcpFlag): (k: nat)
    ensures k < 6
  {
    match f
    case FIN => 0
    case SYN => 1
    case RST => 2
    case PSH => 3
    case ACK => 4
    case URG => 5
  }

  // One item of a flag list: a flag, or a flag after an exclamation mark.
  datatype Mention = Mention(flag: TcpFlag, positive: bool)

  // Whether the last mention of f sets it; never mentioned counts as clear.
  function LastSets(ms: seq<Mention>, f: TcpFlag): bool {
    if ms == [] then false
    else if ms[|ms| - 1].flag == f then ms[|ms| - 1].positive
    else LastSets(ms[..|ms| - 1], f)
  }

  // Each flag of the word is as its last mention left it, and no other bit is set.
  ghost predicate FlagsAre(word: Bits, ms: seq<Mention>) {
    && (forall f :: word[FlagBit(f)] <==> LastSets(ms, f))
    && forall k :: 6 <= k < 32 ==> !word[k]
  }

  lemma OneMoreMention(word: Bits, ms: seq<Mention>, m: Mention)
    requires FlagsAre(word, ms)
    ensures FlagsAre(word[FlagBit(m.flag) := m.positive], ms + [m])
  {
    assert (ms + [m])[..|ms|] == ms;
    forall f ensures word[FlagBit(m.flag) := m.positive][FlagBit(f)] <==> LastSets(ms + [m], f) {
      assert FlagBit(f) == FlagBit(m.flag) <==> f == m.flag;
    }
  }

  function Weight(f: TcpFlag): (n: nat)
    ensures n > 0
  {
    match f
    case FIN => 0x01
    case SYN => 0x02
    case RST => 0x04
    case PSH => 0x08
    case ACK => 0x10
    case URG => 0x20
  }

  // The number that a word of flags is.
  function FlagsValue(w: Bits): (n: nat)
    ensures n < 0x40
  {
    (if w[0] then 0x01 else 0) + (if w[1] then 0x02 else 0) + (if w[2] then 0x04 else 0)
    + (if w[3] then 0x08 else 0) + (if w[4] then 0x10 else 0) + (if w[5] then 0x20 else 0)
  }

  function Digit(ms: seq<Mention>, f: TcpFlag): (n: nat)
    ensures n <= 1
  {
    if LastSets(ms, f) then 1 else 0
  }

  // The number written after the mentions ms.
  function FlagsNumber(ms: seq<Mention>): (n: nat)
    ensures n < 0x40
  {
    Digit(ms, FIN) + 0x02 * Digit(ms, SYN) + 0x04 * Digit(ms, RST) + 0x08 * Digit(ms, PSH) + 0x10 * Digit(ms, ACK)
    + 0x20 * Digit(ms, URG)
  }

  lemma FlagsWritten(word: Bits, ms: seq<Mention>)
    requires FlagsAre(word, ms)
    ensures FlagsValue(word) == FlagsNumber(ms)
  {
    assert forall f :: word[FlagBit(f)] <==> LastSets(ms, f);
    assert word[FlagBit(FIN)] == word[0] && word[FlagBit(SYN)] == word[1] && word[FlagBit(RST)] == word[2];
    assert word[FlagBit(PSH)] == word[3] && word[FlagBit(ACK)] == word[4] && word[FlagBit(URG)] == word[5];
  }

  lemma AtLeastOnce(w: int, k: int)
    requires w > 0
    ensures (k >= 1 ==> w * k >= w) && (k <= -1 ==> w * k <= -w)
  {}

  lemma Quotient(n: nat, w: nat, q: nat, low: nat)
    requires low < w && n == w * q + low
    ensures n / w == q
  {
    assert w * (n / w - q) == low - n % w;
    AtLeastOnce(w, n / w - q);
  }

  lemma Parity(d: nat, q: nat)
    requires d <= 1
    ensures (d + 2 * q) % 2 == d
  {}

  lemma Digits(d0: nat, d1: nat, d2: nat, d3: nat, d4: nat, d5: nat)
    requires d0 <= 1 && d1 <= 1 && d2 <= 1 && d3 <= 1 && d4 <= 1 && d5 <= 1
    ensures var n := d0 + 0x02 * d1 + 0x04 * d2 + 0x08 * d3 + 0x10 * d4 + 0x20 * d5;
      && n % 2 == d0 && n / 0x02 % 2 == d1 && n / 0x04 % 2 == d2
      && n / 0x08 % 2 == d3 && n / 0x10 % 2 == d4 && n / 0x20 % 2 == d5
  {
    var n := d0 + 0x02 * d1 + 0x04 * d2 + 0x08 * d3 + 0x10 * d4 + 0x20 * d5;
    var q5, q4 := d5, d4 + 2 * d5;
    var q3 := d3 + 2 * q4;
    var q2 := d2 + 2 * q3;
    var q1 := d1 + 2 * q2;
    Parity(d0, q1);
    Parity(d1, q2);
    Parity(d2, q3);
    Parity(d3, q4);
    Parity(d4, q5);
    Quotient(n, 0x02, q1, d0);
    Quotient(n, 0x04, q2, d0 + 2 * d1);
    Quotient(n, 0x08, q3, d0 + 2 * d1 + 4 * d2);
    Quotient(n, 0x10, q4, d0 + 2 * d1 + 4 * d2 + 8 * d3);
    Quotient(n, 0x20, q5, d0 + 2 * d1 + 4 * d2 + 8 * d3 + 16 * d4);
  }

  // The number tells of each flag whether its last mention set it.
  lemma FlagsReadable(ms: seq<Mention>, f: TcpFlag)
    ensures FlagsNumber(ms) / Weight(f) % 2 == 1 <==> LastSets(ms, f)
  {
    Digits(Digit(ms, FIN), Digit(ms, SYN), Digit(ms, RST), Digit(ms, PSH), Digit(ms, ACK), Digit(ms, URG));
    assert FlagsNumber(ms) / Weight(f) % 2 == Digit(ms, f) by {
      match f
      case FIN =>
      case SYN =>
      case RST =>
      case PSH =>
      case ACK =>
      case URG =>
    }
  }

  // ---------- the command ----------

  const MAX_RANGES := 33

  // Item i of the range list.
  function RangeItem(i: int, kind: int, min: int, max: int, invert: int): Json {
    List(Atoms([DecInt(i), DecInt(kind), DecInt(min), DecInt(max), DecInt(invert)]))
  }

  function UserDataItem(ud: int, data: int, mask: int): Json {
    List(Atoms([DecInt(ud), DecInt(data), DecInt(mask)]))
  }

  // An item of either list as the server reads it, every part from its own place.
  datatype RangeEntry = RangeEntry(index: int, kind: int, min: int, max: int, invert: int)

  datatype DataEntry = DataEntry(number: int, data: int, mask: int)

  function ReadRange(j: Json): Option<RangeEntry> {
    if !j.List? then None
    else match IntsOf(j.items)
      case Some(ns) => if |ns| == 5 then Some(RangeEntry(ns[0], ns[1], ns[2], ns[3], ns[4])) else None
      case None => None
  }

  function ReadData(j: Json): Option<DataEntry> {
    if !j.List? then None
    else match IntsOf(j.items)
      case Some(ns) => if |ns| == 3 then Some(DataEntry(ns[0], ns[1], ns[2])) else None
      case None => None
  }

  lemma RangeBack(i: int, kind: int, min: int, max: int, invert: int)
    ensures ReadRange(RangeItem(i, kind, min, max, invert)) == Some(RangeEntry(i, kind, min, max, invert))
  {
    var ns := [i, kind, min, max, invert];
    assert DecAll(ns) == [DecInt(i), DecInt(kind), DecInt(min), DecInt(max), DecInt(invert)];
    IntsBack(ns);
  }

  lemma DataBack(n: int, data: int, mask: int)
    ensures ReadData(UserDataItem(n, data, mask)) == Some(DataEntry(n, data, mask))
  {
    var ns := [n, data, mask];
    assert DecAll(ns) == [DecInt(n), DecInt(data), DecInt(mask)];
    IntsBack(ns);
  }

  class Command {
    // g_sb, in_list, in_pair and in_map.
    const req: RpcJson.Request
    var ud: string
    var udFlag: bool
    var range: string
    var rangeFlag: bool
    var rangeNum: nat
    var tcpflag: Bits

    // KEY_UD and KEY_RANGE.
    const keyUd: int
    const keyRange: int

    ghost var udItems: seq<Json>
    ghost var rangeItems: seq<Json>

    // The side buffers hold their items.
    ghost predicate Buffers()
      reads this`ud, this`udFlag, this`udItems, this`range, this`rangeFlag, this`rangeItems
    {
      && udFlag == (udItems != []) && ud == ShowAll(SideTokens(Side(keyUd, udItems)))
      && rangeFlag == (rangeItems != []) && range == ShowAll(SideTokens(Side(keyRange, rangeItems)))
    }

    ghost function Sides(): seq<Side>
      reads this
    {
      [Side(keyUd, udItems), Side(keyRange, rangeItems)]
    }

    constructor (keyUd: int, keyRange: int)
      ensures this.keyUd == keyUd && this.keyRange == keyRange && fresh(req)
      ensures Buffers() && udItems == [] && rangeItems == [] && rangeNum == 0 && tcpflag == NO_BITS
      ensures req.sb == "" && req.Now() == START
    {
      this.keyUd, this.keyRange := keyUd, keyRange;
      req := new RpcJson.Request();
      ud, udFlag, range, rangeFlag, rangeNum, tcpflag := "", false, "", false, 0, NO_BITS;
      udItems, rangeItems := [], [];
    }

    // cli_reset_command
    method Reset()
      modifies this, req
      ensures Buffers() && udItems == [] && rangeItems == [] && rangeNum == 0 && tcpflag == NO_BITS
      ensures req.sb == "" && req.Now() == START
    {
      req.sb, req.inList, req.inMap, req.inPair := "", false, false, false;
      tcpflag := NO_BITS;
      ud, udFlag := "", false;
      range, rangeFlag, rangeNum := "", false, 0;
      udItems, rangeItems := [], [];
    }

    method ConvertValMask(value: U64, mask: U64)
      modifies req
      ensures var c := Value(List(Atoms([DecInt(Signed64(value)), DecInt(Signed64(mask))])));
        && req.sb == old(req.sb) + ShowAll(Emitted(old(req.Now()), c))
        && req.Now() == Next(old(req.Now()), c)
    {
      ghost var texts := [DecInt(Signed64(value)), DecInt(Signed64(mask))];
      AtomListText(texts);
      ShowAllConcat(Lead(req.Now()), Write(List(Atoms(texts))));
      Associative(req.sb, ShowAll(Lead(req.Now())), ShowAll(Write(List(Atoms(texts)))));
      req.Separate();
      req.sb := req.sb + ("[" + Join([DecInt(Signed64(value)), DecInt(Signed64(mask))], ',') + "]");
      req.inPair := false;
    }

    method ConvertSpecValMask(value: string, mask: string)
      modifies req
      ensures var c := Value(List([Str(value), Str(mask)]));
        && req.sb == old(req.sb) + ShowAll(Emitted(old(req.Now()), c))
        && req.Now() == Next(old(req.Now()), c)
    {
      ghost var j := List([Str(value), Str(mask)]);
      StrPairText(value, mask);
      ShowAllConcat(Lead(req.Now()), Write(j));
      Associative(req.sb, ShowAll(Lead(req.Now())), ShowAll(Write(j)));
      req.Separate();
      req.sb := req.sb + ("[" + ("\"" + value + "\"" + "," + ("\"" + mask + "\"")) + "]");
      req.inPair := false;
    }

    // Both side buffers grow alike: the key and a bracket before the first item, a comma
    // after every item.
    static method AddSideItem(was: string, flag: bool, key: int, texts: seq<string>, ghost items: seq<Json>)
      returns (buffer: string)
      requires flag == (items != []) && was == ShowAll(SideTokens(Side(key, items)))
      ensures buffer == ShowAll(SideTokens(Side(key, items + [List(Atoms(texts))])))
    {
      MoreSideWords(key, items, texts);
      buffer := was;
      if !flag {
        assert was == "";
        buffer := DecInt(key) + ":" + "[";
      }
      buffer := buffer + ("[" + Join(texts, ',') + "]" + ",");
    }

    method ConvertUdData(n: int, data: int, mask: int)
      requires Buffers()
      modifies this`ud, this`udFlag, this`udItems
      ensures Buffers() && udItems == old(udItems) + [UserDataItem(n, data, mask)]
    {
      ud := AddSideItem(ud, udFlag, keyUd, [DecInt(n), DecInt(data), DecInt(mask)], udItems);
      udFlag := true;
      udItems := udItems + [UserDataItem(n, data, mask)];
    }

    // The user data action.
    method UserDataAction(n: int, data: U64, mask: U64) returns (ok: bool)
      requires Buffers()
      modifies this`ud, this`udFlag, this`udItems
      ensures Buffers()
      ensures ok <==> data <= 0xffff_ffff && mask <= 0xffff_ffff
      ensures udItems == old(udItems) + if ok then [UserDataItem(n, Int32(data), Int32(mask))] else []
    {
      if data > 0xffff_ffff {
        return false;
      }
      if mask > 0xffff_ffff {
        return false;
      }
      ConvertUdData(n, Int32(data), Int32(mask));
      return true;
    }

    method ConvertRangeData(kind: int, min: int, max: int, invert: int)
      requires Buffers()
      modifies this`range, this`rangeFlag, this`rangeItems
      ensures Buffers() && rangeItems == old(rangeItems) + [RangeItem(rangeNum, kind, min, max, invert)]
    {
      range := AddSideItem(range, rangeFlag, keyRange,
        [DecInt(rangeNum), DecInt(kind), DecInt(min), DecInt(max), DecInt(invert)], rangeItems);
      rangeFlag := true;
      rangeItems := rangeItems + [RangeItem(rangeNum, kind, min, max, invert)];
    }

    // The range actions: a range must be the right way round, within the limits of its
    // kind, and there must be room for it. Anything else aborts the command.
    method RangeAction(kind: int, min: U64, max: U64, invert: int, low: nat, high: nat) returns (ok: bool)
      requires Buffers()
      modifies this`range, this`rangeFlag, this`rangeItems, this`rangeNum
      ensures Buffers()
      ensures ok <==> low <= min <= max <= high && old(rangeNum) < 33
      ensures rangeNum == if ok then old(rangeNum) + 1 else old(rangeNum)
      ensures rangeItems == old(rangeItems)
        + if ok then [RangeItem(old(rangeNum), kind, Int32(min), Int32(max), invert)] else []
    {
      if min > max || min < low || max > high {
        return false;
      }
      if rangeNum > 32 {
        return false;
      }
      ConvertRangeData(kind, Int32(min), Int32(max), invert);
      rangeNum := rangeNum + 1;
      return true;
    }

    // Writes a side list into the map, opening the map if need be.
    method CloseSide(flag: bool, buffer: string, ghost s: Side, ghost sides: seq<Side>)
      requires flag == (s.items != []) && buffer == ShowAll(SideTokens(s))
      modifies req
      ensures req.Now() == if flag then old(req.Now()).(inMap := true) else old(req.Now())
      ensures req.sb + ShowAll(Closing(req.Now(), sides)) ==
        old(req.sb) + ShowAll(Closing(old(req.Now()), [s] + sides))
    {
      SideClosed(req.sb, req.Now(), s, sides, flag, buffer);
      if flag {
        var comma := if req.inPair then "" else ",";
        var open := if req.inMap then "," else "{";
        req.sb := req.sb + comma + open + buffer + "]";
        req.inMap := true;
      }
    }

    // close_json
    method CloseJson()
      requires Buffers()
      modifies req
      ensures req.sb == old(req.sb) + ShowAll(Closing(old(req.Now()), Sides()))
    {
      ghost var first, second := Side(keyUd, udItems), Side(keyRange, rangeItems);
      assert Sides() == [first] + [second] && [second] == [second] + [];
      CloseSide(udFlag, ud, first, [second]);
      CloseSide(rangeFlag, range, second, []);
      req.Close();
    }

    method SetTcpFlag(m: Mention)
      modifies this`tcpflag
      ensures tcpflag == old(tcpflag)[FlagBit(m.flag) := m.positive]
    {
      if m.positive {
        tcpflag := tcpflag[FlagBit(m.flag) := true];
      } else {
        tcpflag := tcpflag[FlagBit(m.flag) := false];
      }
    }

    // A flag list: of all mentions since the reset, the last one of each flag decides.
    method TcpFlags(ms: seq<Mention>, ghost before: seq<Mention>)
      requires FlagsAre(tcpflag, before)
      modifies this`tcpflag
      ensures FlagsAre(tcpflag, before + ms)
    {
      assert before + ms[..0] == before;
      for i := 0 to |ms|
        invariant FlagsAre(tcpflag, before + ms[..i])
      {
        OneMoreMention(tcpflag, before + ms[..i], ms[i]);
        assert before + ms[..i + 1] == before + ms[..i] + [ms[i]];
        SetTcpFlag(ms[i]);
      }
      assert ms[..|ms|] == ms;
    }
  }

  lemma StrPairText(value: string, mask: string)
    ensures ShowAll(Write(List([Str(value), Str(mask)]))) ==
      "[" + ("\"" + value + "\"" + "," + ("\"" + mask + "\"")) + "]"
  {
    var a, b := Quoted(value), Quoted(mask);
    assert [Str(value), Str(mask)][1..] == [Str(mask)];
    assert WriteItems([Str(mask)]) == [b];
    assert WriteItems([Str(value), Str(mask)]) == [a] + [Comma] + [b];
    BracketedPair(a, b);
  }

  // What closing one side list adds, and what is still to come.
  lemma SideClosed(was: string, f: Flags, s: Side, sides: seq<Side>, flag: bool, buffer: string)
    requires flag == (s.items != []) && buffer == ShowAll(SideTokens(s))
    ensures
      if flag then
        was + (if f.inPair then "" else ",") + (if f.inMap then "," else "{") + buffer + "]"
          + ShowAll(Closing(f.(inMap := true), sides))
        == was + ShowAll(Closing(f, [s] + sides))
      else Closing(f, [s] + sides) == Closing(f, sides)
  {
    if flag {
      ClosingSide(f, s, sides);
      var comma, open := if f.inPair then "" else ",", if f.inMap then "," else "{";
      var rest := ShowAll(Closing(f.(inMap := true), sides));
      Associative5(was + comma, open, buffer, "]", rest);
      Associative(was, comma, open + (buffer + ("]" + rest)));
    } else {
      ClosingEmptySide(f, s, sides);
    }
  }

  // ---------- whole commands ----------

  // What the parts of one command do, in the order the parser meets them.
  datatype Part =
    | Convert(op: RpcJson.Op)
    | Masked(value: U64, mask: U64)
    | SpecMasked(text: string, textMask: string)
    | UserData(n: int, data: U64, dataMask: U64)
    | Range(kind: int, min: U64, max: U64, invert: int, low: nat, high: nat)
    | FlagList(key: int, ms: seq<Mention>)
    | Check(number: U64, low: nat, high: nat)   // gives the command up out of the limits

  // The mentions of flags so far.
  function Mentions(ps: seq<Part>): seq<Mention> {
    if ps == [] then []
    else
      var ms := Mentions(ps[..|ps| - 1]);
      match ps[|ps| - 1]
      case FlagList(_, more) => ms + more
      case _ => ms
  }

  function FlagsCalls(key: int, ms: seq<Mention>): seq<Call> {
    [Key(Atom(DecInt(key))), Value(Atom(DecInt(FlagsNumber(ms))))]
  }

  // The calls of a part, after the mentions ms.
  function PartCalls(p: Part, ms: seq<Mention>): seq<Call> {
    match p
    case Convert(op) => [RpcJson.AsCall(op)]
    case FlagList(key, more) => FlagsCalls(key, ms + more)
    case Masked(v, m) => [Value(List(Atoms([DecInt(Signed64(v)), DecInt(Signed64(m))])))]
    case SpecMasked(v, m) => [Value(List([Str(v), Str(m)]))]
    case _ => []
  }

  function Calls(ps: seq<Part>): seq<Call> {
    if ps == [] then [] else Calls(ps[..|ps| - 1]) + PartCalls(ps[|ps| - 1], Mentions(ps[..|ps| - 1]))
  }

  function UserItems(ps: seq<Part>): seq<Json> {
    if ps == [] then []
    else
      var items := UserItems(ps[..|ps| - 1]);
      match ps[|ps| - 1]
      case UserData(n, d, m) => items + [UserDataItem(n, Int32(d), Int32(m))]
      case _ => items
  }

  function RangeItems(ps: seq<Part>): seq<Json> {
    if ps == [] then []
    else
      var items := RangeItems(ps[..|ps| - 1]);
      match ps[|ps| - 1]
      case Range(kind, min, max, invert, _, _) => items + [RangeItem(|items|, kind, Int32(min), Int32(max), invert)]
      case _ => items
  }

  // Whether a part is accepted after the parts before it.
  predicate PartOk(p: Part, ranges: nat) {
    match p
    case UserData(_, d, m) => d <= 0xffff_ffff && m <= 0xffff_ffff
    case Range(_, min, max, _, low, high) => low <= min <= max <= high && ranges < MAX_RANGES
    case Check(number, low, high) => low <= number <= high
    case _ => true
  }

  predicate PartsOk(ps: seq<Part>) {
    ps == [] || (PartsOk(ps[..|ps| - 1]) && PartOk(ps[|ps| - 1], |RangeItems(ps[..|ps| - 1])|))
  }

  lemma {:induction false} PartsOkPrefix(ps: seq<Part>, n: nat)
    requires n <= |ps| && PartsOk(ps)
    ensures PartsOk(ps[..n])
  {
    if n == |ps| {
      assert ps[..n] == ps;
    } else {
      PartsOkPrefix(ps[..|ps| - 1], n);
      assert ps[..|ps| - 1][..n] == ps[..n];
    }
  }

  // Range item i carries index i, and there are never more than 33.
  lemma {:induction false} RangesIndexed(ps: seq<Part>, i: nat)
    requires PartsOk(ps) && i < |RangeItems(ps)|
    ensures |RangeItems(ps)| <= 33
    ensures exists kind, min, max, invert :: RangeItems(ps)[i] == RangeItem(i, kind, min, max, invert)
  {
    var before := ps[..|ps| - 1];
    if i < |RangeItems(before)| {
      RangesIndexed(before, i);
    }
  }

  // The state of a command after some of its parts.
  ghost predicate At(ps: seq<Part>, sb: string, f: Flags, uds: seq<Json>, ranges: seq<Json>, num: nat) {
    && sb == ShowAll(Written(Calls(ps))) && f == After(Calls(ps))
    && uds == UserItems(ps) && ranges == RangeItems(ps) && num == |ranges|
  }

  // A part that is not put aside adds its calls.
  lemma OneMoreWriting(ps: seq<Part>, p: Part)
    requires !p.UserData? && !p.Range?
    ensures Calls(ps + [p]) == Calls(ps) + PartCalls(p, Mentions(ps))
    ensures UserItems(ps + [p]) == UserItems(ps) && RangeItems(ps + [p]) == RangeItems(ps)
  {
    assert (ps + [p])[..|ps|] == ps;
  }

  lemma AtConvert(ps: seq<Part>, p: Part, call: Call, sb: string, f: Flags, uds: seq<Json>, ranges: seq<Json>, num: nat)
    requires At(ps, sb, f, uds, ranges, num) && PartCalls(p, Mentions(ps)) == [call]
    ensures At(ps + [p], sb + ShowAll(Emitted(f, call)), Next(f, call), uds, ranges, num)
  {
    hide Calls, Mentions, UserItems, RangeItems, Written, After, Emitted, ShowAll;
    OneMoreWriting(ps, p);
    OneMoreCall(Calls(ps), call);
  }

  // A key and its value.
  lemma AtPair(ps: seq<Part>, p: Part, key: Call, value: Call, sb: string, f: Flags, uds: seq<Json>, ranges: seq<Json>,
      num: nat)
    requires At(ps, sb, f, uds, ranges, num) && PartCalls(p, Mentions(ps)) == [key, value] && p.FlagList?
    ensures var f' := Next(f, key);
      At(ps + [p], sb + ShowAll(Emitted(f, key)) + ShowAll(Emitted(f', value)), Next(f', value), uds, ranges, num)
  {
    hide Calls, Mentions, UserItems, RangeItems, PartCalls, Written, After, Emitted, ShowAll, Next;
    var calls := Calls(ps);
    OneMoreWriting(ps, p);
    OneMoreCall(calls, key);
    OneMoreCall(calls + [key], value);
    Associative(calls, [key], [value]);
    assert [key] + [value] == [key, value];
  }

  lemma AtSide(ps: seq<Part>, p: Part, sb: string, f: Flags, uds: seq<Json>, ranges: seq<Json>, num: nat)
    requires At(ps, sb, f, uds, ranges, num) && (p.UserData? || p.Range? || p.Check?)
    ensures Calls(ps + [p]) == Calls(ps)
    ensures p.UserData? ==>
      At(ps + [p], sb, f, uds + [UserDataItem(p.n, Int32(p.data), Int32(p.dataMask))], ranges, num)
    ensures p.Range? ==>
      At(ps + [p], sb, f, uds, ranges + [RangeItem(num, p.kind, Int32(p.min), Int32(p.max), p.invert)], num + 1)
    ensures p.Check? ==> At(ps + [p], sb, f, uds, ranges, num)
  {
    assert (ps + [p])[..|ps|] == ps;
    assert Calls(ps) + [] == Calls(ps);
  }

  lemma MoreMentions(ps: seq<Part>, p: Part)
    ensures Mentions(ps + [p]) == if p.FlagList? then Mentions(ps) + p.ms else Mentions(ps)
  {
    assert (ps + [p])[..|ps|] == ps;
  }

  ghost predicate HoldsParts(c: Command, ps: seq<Part>)
    reads c, c.req
  {
    && c.Buffers() && At(ps, c.req.sb, c.req.Now(), c.udItems, c.rangeItems, c.rangeNum)
    && FlagsAre(c.tcpflag, Mentions(ps))
  }

  // A part that writes at once.
  method ApplyCall(c: Command, p: Part, ghost before: seq<Part>)
    requires HoldsParts(c, before) && (p.Convert? || p.Masked? || p.SpecMasked?)
    modifies c, c.req
    ensures HoldsParts(c, before + [p])
  {
    MoreMentions(before, p);
    ghost var calls := PartCalls(p, Mentions(before));
    AtConvert(before, p, calls[0], c.req.sb, c.req.Now(), c.udItems, c.rangeItems, c.rangeNum);
    hide Calls, Mentions, UserItems, RangeItems, Written, After, ShowAll, SideTokens, FlagsAre, At, Emitted;
    match p
    case Convert(op) => RpcJson.Apply(c.req, op);
    case Masked(v, m) => c.ConvertValMask(v, m);
    case SpecMasked(v, m) => c.ConvertSpecValMask(v, m);
  }

  // A number under a number key.
  method PutKeyAndValue(c: Command, key: int, v: U64, ghost p: Part, ghost before: seq<Part>)
    requires At(before, c.req.sb, c.req.Now(), c.udItems, c.rangeItems, c.rangeNum)
    requires p.FlagList?
    requires PartCalls(p, Mentions(before)) == [Key(Atom(DecInt(key))), Value(Atom(DecInt(Signed64(v))))]
    modifies c.req
    ensures At(before + [p], c.req.sb, c.req.Now(), c.udItems, c.rangeItems, c.rangeNum)
  {
    ghost var calls := PartCalls(p, Mentions(before));
    AtPair(before, p, calls[0], calls[1], c.req.sb, c.req.Now(), c.udItems, c.rangeItems, c.rangeNum);
    c.req.ConvertIntKey(key);
    c.req.ConvertVal(v);
  }

  // The flag word goes under its key.
  method PutFlags(c: Command, p: Part, ghost before: seq<Part>)
    requires At(before, c.req.sb, c.req.Now(), c.udItems, c.rangeItems, c.rangeNum)
    requires p.FlagList? && FlagsAre(c.tcpflag, Mentions(before) + p.ms)
    modifies c.req
    ensures At(before + [p], c.req.sb, c.req.Now(), c.udItems, c.rangeItems, c.rangeNum)
  {
    FlagsWritten(c.tcpflag, Mentions(before) + p.ms);
    PutKeyAndValue(c, p.key, FlagsValue(c.tcpflag), p, before);
  }

  // A flag list.
  method ApplyFlags(c: Command, p: Part, ghost before: seq<Part>)
    requires HoldsParts(c, before) && p.FlagList?
    modifies c, c.req
    ensures HoldsParts(c, before + [p])
  {
    hide Calls, Mentions, UserItems, RangeItems, Written, After, ShowAll, SideTokens, LastSets, At;
    MoreMentions(before, p);
    c.TcpFlags(p.ms, Mentions(before));
    PutFlags(c, p, before);
  }

  // User data goes on its side list.
  method ApplyUserData(c: Command, p: Part, ghost before: seq<Part>) returns (ok: bool)
    requires HoldsParts(c, before) && p.UserData?
    modifies c, c.req
    ensures ok <==> PartOk(p, |RangeItems(before)|)
    ensures ok ==> HoldsParts(c, before + [p])
  {
    hide Calls, Mentions, UserItems, Written, After, ShowAll, SideTokens, FlagsAre;
    MoreMentions(before, p);
    AtSide(before, p, c.req.sb, c.req.Now(), c.udItems, c.rangeItems, c.rangeNum);
    ok := c.UserDataAction(p.n, p.data, p.dataMask);
  }

  // A range goes on its side list.
  method ApplyRange(c: Command, p: Part, ghost before: seq<Part>) returns (ok: bool)
    requires HoldsParts(c, before) && p.Range?
    modifies c, c.req
    ensures ok <==> PartOk(p, |RangeItems(before)|)
    ensures ok ==> HoldsParts(c, before + [p])
  {
    hide Calls, Mentions, UserItems, Written, After, ShowAll, SideTokens, FlagsAre;
    MoreMentions(before, p);
    AtSide(before, p, c.req.sb, c.req.Now(), c.udItems, c.rangeItems, c.rangeNum);
    ok := c.RangeAction(p.kind, p.min, p.max, p.invert, p.low, p.high);
  }

  // A check of a number's limits.
  method ApplyCheck(c: Command, p: Part, ghost before: seq<Part>) returns (ok: bool)
    requires HoldsParts(c, before) && p.Check?
    ensures ok <==> PartOk(p, |RangeItems(before)|)
    ensures ok ==> HoldsParts(c, before + [p])
  {
    MoreMentions(before, p);
    AtSide(before, p, c.req.sb, c.req.Now(), c.udItems, c.rangeItems, c.rangeNum);
    ok := !(p.number < p.low || p.number > p.high);
  }

  // One part; false when it is refused and the command is given up.
  method ApplyPart(c: Command, p: Part, ghost before: seq<Part>) returns (ok: bool)
    requires HoldsParts(c, before)
    modifies c, c.req
    ensures ok <==> PartOk(p, |RangeItems(before)|)
    ensures ok ==> HoldsParts(c, before + [p])
  {
    match p {
      case UserData(_, _, _) => ok := ApplyUserData(c, p, before);
      case Range(_, _, _, _, _, _) => ok := ApplyRange(c, p, before);
      case Check(_, _, _) => ok := ApplyCheck(c, p, before);
      case FlagList(_, _) =>
        ApplyFlags(c, p, before);
        ok := true;
      case _ =>
        ApplyCall(c, p, before);
        ok := true;
    }
  }

  predicate PlainPart(p: Part) {
    match p
    case Convert(op) => RpcJson.IsPlainOp(op)
    case SpecMasked(v, m) => IsPlain(Quoted(v)) && IsPlain(Quoted(m))
    case _ => true
  }

  lemma {:induction false} PartsSpelt(ps: seq<Part>)
    requires forall p <- ps :: PlainPart(p)
    ensures SpeltCalls(Calls(ps))
    ensures forall v <- UserItems(ps) + RangeItems(ps) :: IsFlat(v) && IsSpelt(v)
  {
    if ps != [] {
      var n := |ps| - 1;
      var p := ps[n];
      PartsSpelt(ps[..n]);
      assert PlainPart(p);
      forall call | call in PartCalls(p, Mentions(ps[..n])) ensures IsCall(call) && IsSpelt(call.json) {
        PartSpelt(p, Mentions(ps[..n]), call);
      }
      forall v | v in UserItems(ps) + RangeItems(ps) ensures IsFlat(v) && IsSpelt(v) {
        if v !in UserItems(ps[..n]) + RangeItems(ps[..n]) {
          ItemSpelt(p, |RangeItems(ps[..n])|, v);
        }
      }
    }
  }

  lemma WordsSpelt(texts: seq<string>)
    requires forall i :: 0 <= i < |texts| ==> IsPlain(Word(texts[i]))
    ensures IsFlat(List(Atoms(texts))) && IsSpelt(List(Atoms(texts)))
  {}

  lemma PartSpelt(p: Part, ms: seq<Mention>, call: Call)
    requires PlainPart(p) && call in PartCalls(p, ms)
    ensures IsCall(call) && IsSpelt(call.json)
  {
    match p
    case Convert(op) => RpcJson.OpSpelt(op);
    case Masked(v, m) =>
      DecSpelt(Signed64(v));
      DecSpelt(Signed64(m));
      WordsSpelt([DecInt(Signed64(v)), DecInt(Signed64(m))]);
    case FlagList(key, more) =>
      DecSpelt(key);
      DecSpelt(FlagsNumber(ms + more));
    case _ =>
  }

  lemma ItemSpelt(p: Part, i: nat, v: Json)
    requires match p
      case UserData(n, d, m) => v == UserDataItem(n, Int32(d), Int32(m))
      case Range(kind, min, max, invert, _, _) => v == RangeItem(i, kind, Int32(min), Int32(max), invert)
      case _ => false
    ensures IsFlat(v) && IsSpelt(v)
  {
    match p
    case UserData(n, d, m) => UserItemSpelt(n, Int32(d), Int32(m));
    case Range(kind, min, max, invert, _, _) => RangeItemSpelt(i, kind, Int32(min), Int32(max), invert);
  }

  lemma UserItemSpelt(n: int, data: int, mask: int)
    ensures IsFlat(UserDataItem(n, data, mask)) && IsSpelt(UserDataItem(n, data, mask))
  {
    DecSpelt(n);
    DecSpelt(data);
    DecSpelt(mask);
    WordsSpelt([DecInt(n), DecInt(data), DecInt(mask)]);
  }

  lemma RangeItemSpelt(i: int, kind: int, min: int, max: int, invert: int)
    ensures IsFlat(RangeItem(i, kind, min, max, invert)) && IsSpelt(RangeItem(i, kind, min, max, invert))
  {
    DecSpelt(i);
    DecSpelt(kind);
    DecSpelt(min);
    DecSpelt(max);
    DecSpelt(invert);
    WordsSpelt([DecInt(i), DecInt(kind), DecInt(min), DecInt(max), DecInt(invert)]);
  }

  function SideEntry(key: int, items: seq<Json>): seq<Pair> {
    if items == [] then [] else [Pair(Atom(DecInt(key)), List(items))]
  }

  // The reader of a closed command finds the values, then one map with the pairs, one
  // entry for the user data and one for the ranges, each with its items in order.
  function CommandElements(calls: seq<Call>, keyUd: int, uds: seq<Json>, keyRange: int, ranges: seq<Json>): seq<Json>
    requires Legal(calls)
  {
    if calls != [] && calls[0].Value? then
      [calls[0].json] + CommandElements(calls[1..], keyUd, uds, keyRange, ranges)
    else
      MapIfAny(PairsOf(calls) + SideEntry(keyUd, uds) + SideEntry(keyRange, ranges))
  }

  lemma {:induction false} CommandElementsAre(calls: seq<Call>, keyUd: int, uds: seq<Json>, keyRange: int,
      ranges: seq<Json>)
    requires Legal(calls)
    ensures Elements(calls, [Side(keyUd, uds), Side(keyRange, ranges)]) ==
      CommandElements(calls, keyUd, uds, keyRange, ranges)
  {
    if calls != [] && calls[0].Value? {
      CommandElementsAre(calls[1..], keyUd, uds, keyRange, ranges);
    } else {
      var sides := [Side(keyUd, uds), Side(keyRange, ranges)];
      assert sides[1..] == [Side(keyRange, ranges)] && sides[1..][1..] == [];
      assert SidePairs(sides[1..]) == SideEntry(keyRange, ranges);
      assert SidePairs(sides) == SideEntry(keyUd, uds) + SideEntry(keyRange, ranges);
      Associative(PairsOf(calls), SideEntry(keyUd, uds), SideEntry(keyRange, ranges));
    }
  }

  // What the text of a command means.
  function CommandDoc(ps: seq<Part>, keyUd: int, keyRange: int): Option<Json> {
    if Calls(ps) != [] && Legal(Calls(ps)) then
      Some(List(CommandElements(Calls(ps), keyUd, UserItems(ps), keyRange, RangeItems(ps))))
    else None
  }

  lemma CommandReadsBack(ps: seq<Part>, keyUd: int, keyRange: int)
    requires forall p <- ps :: PlainPart(p)
    ensures ReadText(ShowAll(Output(START, Calls(ps), [Side(keyUd, UserItems(ps)), Side(keyRange, RangeItems(ps))])))
      == CommandDoc(ps, keyUd, keyRange)
  {
    PartsSpelt(ps);
    var sides := [Side(keyUd, UserItems(ps)), Side(keyRange, RangeItems(ps))];
    forall s, v | s in sides && v in s.items ensures IsFlat(v) && IsSpelt(v) {
      assert v in UserItems(ps) + RangeItems(ps);
    }
    RequestTextReadsBack(Calls(ps), sides);
    if Legal(Calls(ps)) {
      CommandElementsAre(Calls(ps), keyUd, UserItems(ps), keyRange, RangeItems(ps));
    }
  }

  lemma PartsStep(ps: seq<Part>, i: nat)
    requires i < |ps| && PartsOk(ps[..i])
    ensures ps[..i + 1] == ps[..i] + [ps[i]]
    ensures PartsOk(ps[..i + 1]) <==> PartOk(ps[i], |RangeItems(ps[..i])|)
    ensures PartsOk(ps) ==> PartsOk(ps[..i + 1])
  {
    assert ps[..i + 1][..i] == ps[..i];
    if PartsOk(ps) {
      PartsOkPrefix(ps, i + 1);
    }
  }

  // A whole command, from reset to close; given up at the first refused part.
  method BuildCommand(ps: seq<Part>, keyUd: int, keyRange: int) returns (text: Option<string>)
    ensures text == if PartsOk(ps)
      then Some(ShowAll(Output(START, Calls(ps), [Side(keyUd, UserItems(ps)), Side(keyRange, RangeItems(ps))])))
      else None
  {
    var c := new Command(keyUd, keyRange);
    c.Reset();
    for i := 0 to |ps|
      invariant fresh(c) && fresh(c.req) && HoldsParts(c, ps[..i]) && PartsOk(ps[..i])
    {
      PartsStep(ps, i);
      var ok := ApplyPart(c, ps[i], ps[..i]);
      if !ok {
        return None;
      }
    }
    assert ps[..|ps|] == ps;
    OutputText(Calls(ps), c.Sides());
    c.CloseJson();
    return Some(c.req.sb);
  }

  // The text of an accepted command reads back exactly when some value or key came
  // before the close and values and keys came in a legal order.
  method RunCommand(ps: seq<Part>, keyUd: int, keyRange: int) returns (text: Option<string>)
    ensures text.Some? <==> PartsOk(ps)
    ensures text.Some? && (forall p <- ps :: PlainPart(p)) ==> ReadText(text.value) == CommandDoc(ps, keyUd, keyRange)
  {
    text := BuildCommand(ps, keyUd, keyRange);
    if forall p <- ps :: PlainPart(p) {
      CommandReadsBack(ps, keyUd, keyRange);
    }
  }
}
