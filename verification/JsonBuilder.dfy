/**
  The incremental request builder as a machine over three flags, and what a reader of
  its output gets back, for every sequence of calls.
*/
module JsonBuilder {
  import opened Wrappers
  import opened Text
  import opened JsonTokens

  datatype Flags = Flags(inList: bool, inPair: bool, inMap: bool)

  const START := Flags(false, false, false)

  // One call of a convert function, with the value or key it writes.
  datatype Call = Value(json: Json) | Key(json: Json)

  predicate IsCall(c: Call) {
    match c
    case Value(j) => IsFlat(j)
    case Key(k) => IsKey(k)
  }

  // The bracket or comma that a call writes first.
  function Lead(f: Flags): seq<Token> {
    if !f.inList then [LBracket] else if !f.inPair then [Comma] else []
  }

  function Emitted(f: Flags, c: Call): seq<Token> {
    match c
    case Value(j) => Lead(f) + Write(j)
    case Key(k) => Lead(f) + (if f.inMap then [] else [LBrace]) + (Write(k) + [Colon])
  }

  function Next(f: Flags, c: Call): Flags {
    match c
    case Value(_) => Flags(true, false, f.inMap)
    case Key(_) => Flags(true, true, true)
  }

  // A side list that the closing call puts in the map under its own key, if it has
  // items. The items were collected with a comma after each.
  datatype Side = Side(key: int, items: seq<Json>)

  function Trail(items: seq<Json>): seq<Token> {
    if items == [] then [] else Trail(items[..|items| - 1]) + (Write(items[|items| - 1]) + [Comma])
  }

  function SideTokens(s: Side): seq<Token> {
    if s.items == [] then [] else [Word(DecInt(s.key)), Colon, LBracket] + Trail(s.items)
  }

  function Closing(f: Flags, sides: seq<Side>): seq<Token>
    decreases |sides|, 1
  {
    if sides == [] then (if f.inMap then [RBrace] else []) + (if f.inList then [RBracket] else [])
    else if sides[0].items == [] then Closing(f, sides[1..])
    else
      (if f.inPair then [] else [Comma]) + ([if f.inMap then Comma else LBrace]
        + SideBody(f, sides))
  }

  // The first side list and what follows it.
  function SideBody(f: Flags, sides: seq<Side>): seq<Token>
    requires sides != []
    decreases |sides|, 0
  {
    SideTokens(sides[0]) + ([RBracket] + Closing(f.(inMap := true), sides[1..]))
  }

  // All that is written from flags f on.
  function Output(f: Flags, calls: seq<Call>, sides: seq<Side>): seq<Token>
    decreases |calls|
  {
    if calls == [] then Closing(f, sides)
    else Emitted(f, calls[0]) + Output(Next(f, calls[0]), calls[1..], sides)
  }

  // ---------- the legal sequences and what they mean ----------

  predicate LegalPairs(calls: seq<Call>) {
    calls == [] || (|calls| >= 2 && calls[0].Key? && calls[1].Value? && LegalPairs(calls[2..]))
  }

  // Values, then keys each with its value.
  predicate Legal(calls: seq<Call>) {
    if calls != [] && calls[0].Value? then Legal(calls[1..]) else LegalPairs(calls)
  }

  function PairsOf(calls: seq<Call>): seq<Pair>
    requires LegalPairs(calls)
  {
    if calls == [] then [] else [Pair(calls[0].json, calls[1].json)] + PairsOf(calls[2..])
  }

  function SidePair(s: Side): Pair {
    Pair(Atom(DecInt(s.key)), List(s.items))
  }

  function SidePairs(sides: seq<Side>): seq<Pair> {
    if sides == [] then []
    else if sides[0].items == [] then SidePairs(sides[1..])
    else [SidePair(sides[0])] + SidePairs(sides[1..])
  }

  function MapIfAny(pairs: seq<Pair>): seq<Json> {
    if pairs == [] then [] else [Map(pairs)]
  }

  // The elements of the request: the values, then the map if it has a pair.
  function Elements(calls: seq<Call>, sides: seq<Side>): seq<Json>
    requires Legal(calls)
  {
    if calls != [] && calls[0].Value? then [calls[0].json] + Elements(calls[1..], sides)
    else MapIfAny(PairsOf(calls) + SidePairs(sides))
  }

  // ---------- reading the closing text ----------

  ghost predicate AreSides(sides: seq<Side>) {
    forall s <- sides, v <- s.items :: IsFlat(v)
  }

  lemma TrailLast(items: seq<Json>, rest: seq<Token>)
    requires items != []
    ensures var n := |items| - 1;
      Trail(items) + rest == Trail(items[..n]) + (Write(items[n]) + ([Comma] + rest))
  {
    var n := |items| - 1;
    Associative(Trail(items[..n]), Write(items[n]) + [Comma], rest);
    Associative(Write(items[n]), [Comma], rest);
  }

  lemma {:induction false} ReadTrail(items: seq<Json>, rest: seq<Token>, vs: seq<Json>, after: seq<Token>)
    requires forall v <- items :: IsFlat(v)
    requires ReadItems(rest) == Some((vs, after))
    ensures ReadItems(Trail(items) + rest) == Some((items + vs, after))
  {
    if items == [] {
      assert Trail(items) + rest == rest && items + vs == vs;
    } else {
      var n := |items| - 1;
      TrailLast(items, rest);
      var tail := Write(items[n]) + ([Comma] + rest);
      assert ReadItems(tail) == Some(([items[n]] + vs, after)) by {
        ItemThen(items[n], [Comma] + rest);
        CommaSkipped(rest);
      }
      ReadTrail(items[..n], tail, [items[n]] + vs, after);
      assert items == items[..n] + [items[n]];
      Associative(items[..n], [items[n]], vs);
    }
  }

  // A key with a list that is still open.
  lemma PairOfList(key: string, body: seq<Token>, items: seq<Json>, rest: seq<Token>)
    requires ReadItems(body) == Some((items, rest)) && EndsPair(rest)
    ensures ReadPairs([Word(key), Colon, LBracket] + body) == MorePairs(Pair(Atom(key), List(items)), ReadPairs(rest))
  {
    var ts := [Word(key), Colon, LBracket] + body;
    assert ts[2..] == [LBracket] + body;
    OpenList(body, items, rest);
  }

  lemma OpenList(body: seq<Token>, items: seq<Json>, rest: seq<Token>)
    requires ReadItems(body) == Some((items, rest))
    ensures ReadValue([LBracket] + body) == Some((List(items), rest))
  {
    assert ([LBracket] + body)[1..] == body;
  }

  lemma ReadSide(s: Side, rest: seq<Token>)
    requires s.items != [] && (forall v <- s.items :: IsFlat(v)) && EndsPair(rest)
    ensures ReadPairs(SideTokens(s) + ([RBracket] + rest)) == MorePairs(SidePair(s), ReadPairs(rest))
  {
    var close := [RBracket] + rest;
    assert ReadItems(close) == Some(([], rest)) by {
      assert close[1..] == rest;
    }
    ReadTrail(s.items, close, [], rest);
    assert s.items + [] == s.items;
    Associative([Word(DecInt(s.key)), Colon, LBracket], Trail(s.items), close);
    PairOfList(DecInt(s.key), Trail(s.items) + close, s.items, rest);
  }

  lemma {:induction false} ReadClosingMap(f: Flags, sides: seq<Side>)
    requires f.inList && f.inMap && AreSides(sides)
    ensures EndsPair(Closing(f, sides))
    ensures ReadPairs(Closing(f, sides)) == Some((SidePairs(sides), [RBracket]))
  {
    if sides != [] {
      assert AreSides(sides[1..]) && sides[0] in sides;
      ReadClosingMap(f, sides[1..]);
      if sides[0].items != [] {
        assert f.(inMap := true) == f;
        ReadSide(sides[0], Closing(f, sides[1..]));
        var body := SideBody(f, sides);
        CommaSkipped(body);
        CommaSkipped([Comma] + body);
        assert [] + ([Comma] + body) == [Comma] + body;
      }
    }
  }

  lemma {:induction false} ReadClosingList(sides: seq<Side>)
    requires AreSides(sides)
    ensures EndsItem(Closing(IN_LIST, sides))
    ensures ReadItems(Closing(IN_LIST, sides)) == Some((MapIfAny(SidePairs(sides)), []))
  {
    if sides == [] {
      assert Closing(IN_LIST, sides) == [RBracket];
    } else {
      assert AreSides(sides[1..]) && sides[0] in sides;
      if sides[0].items == [] {
        ReadClosingList(sides[1..]);
      } else {
        ReadClosingMap(IN_MAP, sides[1..]);
        ReadSide(sides[0], Closing(IN_MAP, sides[1..]));
        var body := SideBody(IN_LIST, sides);
        MapCloses(body);
        CommaSkipped([LBrace] + body);
        assert Closing(IN_LIST, sides) == [Comma] + ([LBrace] + body);
      }
    }
  }

  // ---------- reading everything ----------

  // The flags after a value and after a pair.
  const IN_LIST := Flags(true, false, false)
  const IN_MAP := Flags(true, false, true)
  const IN_PAIR := Flags(true, true, true)

  ghost predicate AreCalls(calls: seq<Call>) {
    forall c <- calls :: IsCall(c)
  }

  lemma StartsAfterPair(f: Flags, calls: seq<Call>, sides: seq<Side>)
    requires f == IN_MAP || (f == IN_PAIR && calls == [])
    requires AreSides(sides)
    ensures EndsPair(Output(f, calls, sides))
  {
    if calls == [] {
      ReadClosingMap(f, sides);
    }
  }

  // One call and what follows it.
  function CallBody(c: Call, inMap: bool, calls: seq<Call>, sides: seq<Side>): seq<Token> {
    match c
    case Value(j) => Write(j) + Output(Flags(true, false, inMap), calls, sides)
    case Key(k) => Write(k) + [Colon] + Output(IN_PAIR, calls, sides)
  }

  lemma UnrollInMap(f: Flags, c: Call, calls: seq<Call>, sides: seq<Side>)
    requires f == IN_MAP || f == IN_PAIR
    ensures Output(f, [c] + calls, sides) ==
      if f == IN_MAP then [Comma] + CallBody(c, true, calls, sides) else CallBody(c, true, calls, sides)
  {
    var all := [c] + calls;
    assert all[0] == c && all[1..] == calls;
    var rest := Output(Next(f, c), calls, sides);
    var own := match c case Value(j) => Write(j) case Key(k) => Write(k) + [Colon];
    assert Emitted(f, c) == Lead(f) + own;
    Associative(Lead(f), own, rest);
  }

  // What the reader makes of the output after a pair: the remaining pairs when the
  // calls go on legally, and a failure otherwise.
  lemma {:induction false} ReadAfterPair(calls: seq<Call>, sides: seq<Side>)
    requires AreCalls(calls) && AreSides(sides)
    ensures ReadPairs(Output(IN_MAP, calls, sides)) ==
      if LegalPairs(calls) then Some((PairsOf(calls) + SidePairs(sides), [RBracket])) else None
    decreases |calls|, 1
  {
    if calls == [] {
      ReadClosingMap(IN_MAP, sides);
      assert PairsOf(calls) + SidePairs(sides) == SidePairs(sides);
    } else {
      assert IsCall(calls[0]);
      assert calls == [calls[0]] + calls[1..];
      UnrollInMap(IN_MAP, calls[0], calls[1..], sides);
      CommaSkipped(CallBody(calls[0], true, calls[1..], sides));
      match calls[0]
      case Value(j) =>
        StartsAfterPair(IN_MAP, calls[1..], sides);
        NotAKey(j, Output(IN_MAP, calls[1..], sides));
      case Key(k) =>
        ReadFromKey(calls, sides);
    }
  }

  lemma {:induction false} ReadFromKey(calls: seq<Call>, sides: seq<Side>)
    requires AreCalls(calls) && AreSides(sides)
    requires calls != [] && calls[0].Key?
    ensures ReadPairs(CallBody(calls[0], true, calls[1..], sides)) ==
      if LegalPairs(calls) then Some((PairsOf(calls) + SidePairs(sides), [RBracket])) else None
    decreases |calls|, 0
  {
    var k := calls[0].json;
    assert IsCall(calls[0]);
    if |calls| == 1 {
      StartsAfterPair(IN_PAIR, calls[1..], sides);
      KeyThenEnd(k, Output(IN_PAIR, calls[1..], sides));
    } else {
      assert IsCall(calls[1]);
      assert calls[1..] == [calls[1]] + calls[2..];
      UnrollInMap(IN_PAIR, calls[1], calls[2..], sides);
      match calls[1]
      case Key(k2) =>
        KeyThenKey(k, k2, Output(IN_PAIR, calls[2..], sides));
      case Value(j) =>
        var rest := Output(IN_MAP, calls[2..], sides);
        StartsAfterPair(IN_MAP, calls[2..], sides);
        PairThen(k, j, rest);
        ReadAfterPair(calls[2..], sides);
        if LegalPairs(calls) {
          Associative([Pair(k, j)], PairsOf(calls[2..]), SidePairs(sides));
        }
    }
  }

  // An element of the list and everything after it.
  function ElementBody(c: Call, calls: seq<Call>, sides: seq<Side>): seq<Token> {
    if c.Value? then CallBody(c, false, calls, sides) else [LBrace] + CallBody(c, true, calls, sides)
  }

  lemma UnrollInList(f: Flags, c: Call, calls: seq<Call>, sides: seq<Side>)
    requires f == START || f == IN_LIST
    ensures Output(f, [c] + calls, sides) == [if f == START then LBracket else Comma] + ElementBody(c, calls, sides)
  {
    var all := [c] + calls;
    assert all[0] == c && all[1..] == calls;
    var rest := Output(Next(f, c), calls, sides);
    match c
    case Value(j) =>
      Associative(Lead(f), Write(j), rest);
    case Key(k) =>
      var own := Write(k) + [Colon];
      assert Emitted(f, c) == Lead(f) + [LBrace] + own;
      assert Lead(f) + [LBrace] + own + rest == Lead(f) + ([LBrace] + (own + rest));
  }

  // What the next element of a list and everything after it are read as.
  lemma {:induction false} ReadFromElement(calls: seq<Call>, sides: seq<Side>)
    requires AreCalls(calls) && AreSides(sides) && calls != []
    ensures ReadItems(ElementBody(calls[0], calls[1..], sides)) ==
      if Legal(calls) then Some((Elements(calls, sides), [])) else None
    decreases |calls|, 0
  {
    assert IsCall(calls[0]);
    match calls[0]
    case Value(j) =>
      ReadAfterValue(calls[1..], sides);
      ItemThen(j, Output(IN_LIST, calls[1..], sides));
    case Key(k) =>
      ReadFromKey(calls, sides);
      MapCloses(CallBody(calls[0], true, calls[1..], sides));
  }

  lemma {:induction false} ReadAfterValue(calls: seq<Call>, sides: seq<Side>)
    requires AreCalls(calls) && AreSides(sides)
    ensures EndsItem(Output(IN_LIST, calls, sides))
    ensures ReadItems(Output(IN_LIST, calls, sides)) ==
      if Legal(calls) then Some((Elements(calls, sides), [])) else None
    decreases |calls|, 1
  {
    if calls == [] {
      ReadClosingList(sides);
      assert PairsOf(calls) + SidePairs(sides) == SidePairs(sides);
    } else {
      ReadFromElement(calls, sides);
      assert calls == [calls[0]] + calls[1..];
      UnrollInList(IN_LIST, calls[0], calls[1..], sides);
      CommaSkipped(ElementBody(calls[0], calls[1..], sides));
    }
  }

  lemma {:induction false} ClosingNothing(sides: seq<Side>)
    ensures Read(Closing(START, sides)) == None
  {
    if sides != [] {
      ClosingNothing(sides[1..]);
    }
  }

  // Every run of the builder: the output is read back, as the values and pairs that
  // were written and the side lists, exactly when at least one call was made and the
  // calls came in a legal order.
  lemma RequestReadsBack(calls: seq<Call>, sides: seq<Side>)
    requires AreCalls(calls) && AreSides(sides)
    ensures Read(Output(START, calls, sides)) ==
      if calls != [] && Legal(calls) then Some(List(Elements(calls, sides))) else None
  {
    if calls == [] {
      ClosingNothing(sides);
    } else {
      ReadFromElement(calls, sides);
      assert calls == [calls[0]] + calls[1..];
      UnrollInList(START, calls[0], calls[1..], sides);
      var body := ElementBody(calls[0], calls[1..], sides);
      assert ([LBracket] + body)[1..] == body;
    }
  }

  // ---------- the exact text ----------

  lemma {:induction false} TokensAfterPair(calls: seq<Call>)
    requires LegalPairs(calls)
    ensures Output(IN_MAP, calls, []) ==
      (if calls == [] then [] else [Comma] + WritePairs(PairsOf(calls))) + [RBrace, RBracket]
    decreases |calls|
  {
    if calls != [] {
      TokensFromKey(calls);
      assert calls == [calls[0]] + calls[1..];
      UnrollInMap(IN_MAP, calls[0], calls[1..], []);
      Associative([Comma], WritePairs(PairsOf(calls)), [RBrace, RBracket]);
    }
  }

  lemma WriteFirstPair(p: Pair, pairs: seq<Pair>)
    ensures WritePairs([p] + pairs) ==
      if pairs == [] then WritePair(p) else WritePair(p) + ([Comma] + WritePairs(pairs))
  {
    assert ([p] + pairs)[0] == p && ([p] + pairs)[1..] == pairs;
    Associative(WritePair(p), [Comma], WritePairs(pairs));
  }

  lemma WriteFirstItem(j: Json, items: seq<Json>)
    ensures WriteItems([j] + items) == if items == [] then Write(j) else Write(j) + ([Comma] + WriteItems(items))
  {
    assert ([j] + items)[0] == j && ([j] + items)[1..] == items;
    Associative(Write(j), [Comma], WriteItems(items));
  }

  lemma {:induction false} TokensFromKey(calls: seq<Call>)
    requires LegalPairs(calls) && calls != []
    ensures CallBody(calls[0], true, calls[1..], []) == WritePairs(PairsOf(calls)) + [RBrace, RBracket]
    decreases |calls|, 0
  {
    var rest := calls[2..];
    var p := Pair(calls[0].json, calls[1].json);
    TokensAfterPair(rest);
    assert calls[1..] == [calls[1]] + rest;
    UnrollInMap(IN_PAIR, calls[1], rest, []);
    var own, more := Write(p.key) + [Colon], Write(p.value);
    Associative(own, more, Output(IN_MAP, rest, []));
    assert WritePair(p) == own + more;
    var pairs, tail := PairsOf(rest), [RBrace, RBracket];
    assert PairsOf(calls) == [p] + pairs;
    WriteFirstPair(p, pairs);
    if rest != [] {
      Associative(WritePair(p), [Comma] + WritePairs(pairs), tail);
    } else {
      assert [] + tail == tail;
    }
  }

  lemma NoElements()
    ensures Elements([], []) == []
  {
    assert PairsOf([]) + SidePairs([]) == [];
  }

  lemma {:induction false} TokensFromElement(calls: seq<Call>)
    requires Legal(calls) && calls != []
    ensures ElementBody(calls[0], calls[1..], []) == WriteItems(Elements(calls, [])) + [RBracket]
  {
    if calls[0].Key? {
      TokensFromKey(calls);
      var pairs := PairsOf(calls);
      assert pairs + [] == pairs;
      Associative([LBrace] + WritePairs(pairs), [RBrace], [RBracket]);
      Associative([LBrace], WritePairs(pairs), [RBrace] + [RBracket]);
      assert [RBrace] + [RBracket] == [RBrace, RBracket];
    } else {
      var j, rest := calls[0].json, calls[1..];
      WriteFirstItem(j, Elements(rest, []));
      if rest == [] {
        NoElements();
      } else {
        TokensFromElement(rest);
        assert rest == [rest[0]] + rest[1..];
        UnrollInList(IN_LIST, rest[0], rest[1..], []);
        SomeElements(rest);
        Associative([Comma], WriteItems(Elements(rest, [])), [RBracket]);
        Associative(Write(j), [Comma] + WriteItems(Elements(rest, [])), [RBracket]);
      }
    }
  }

  lemma SomeElements(calls: seq<Call>)
    requires Legal(calls) && calls != []
    ensures Elements(calls, []) != []
  {
    if calls[0].Key? {
      assert PairsOf(calls) + SidePairs([]) != [];
    }
  }

  // A legal run without side lists writes exactly its list: brackets, commas and
  // colons where the notation has them and nowhere else; no call, no text.
  lemma RequestTokens(calls: seq<Call>)
    requires Legal(calls)
    ensures Output(START, calls, []) == if calls == [] then [] else Write(List(Elements(calls, [])))
  {
    if calls != [] {
      TokensFromElement(calls);
      assert calls == [calls[0]] + calls[1..];
      UnrollInList(START, calls[0], calls[1..], []);
      Associative([LBracket], WriteItems(Elements(calls, [])), [RBracket]);
    }
  }

  // ---------- from tokens to text ----------

  ghost predicate SpeltCalls(calls: seq<Call>) {
    forall c <- calls :: IsCall(c) && IsSpelt(c.json)
  }

  ghost predicate SpeltSides(sides: seq<Side>) {
    forall s <- sides, v <- s.items :: IsFlat(v) && IsSpelt(v)
  }

  lemma DecSpelt(n: int)
    ensures IsPlain(Word(DecInt(n)))
  {
    if n < 0 {
      forall c | c in DecInt(n) ensures !IsSpecial(c) {
        assert c == '-' || c in Dec(-n);
      }
    }
  }

  lemma {:induction false} TrailSeparated(items: seq<Json>)
    requires forall v <- items :: IsSpelt(v)
    ensures Separated(Trail(items))
    ensures items == [] || Trail(items)[|Trail(items)| - 1] == Comma
  {
    if items != [] {
      var n := |items| - 1;
      TrailSeparated(items[..n]);
      WriteSeparated(items[n]);
      SeparatedConcat(Write(items[n]), [Comma]);
      SeparatedConcat(Trail(items[..n]), Write(items[n]) + [Comma]);
    }
  }

  lemma SideSeparated(s: Side, rest: seq<Token>)
    requires (forall v <- s.items :: IsSpelt(v)) && Separated(rest)
    ensures Separated(SideTokens(s) + ([RBracket] + rest))
  {
    SeparatedConcat([RBracket], rest);
    if s.items != [] {
      TrailSeparated(s.items);
      DecSpelt(s.key);
      SeparatedConcat([Word(DecInt(s.key)), Colon, LBracket], Trail(s.items));
    }
    SeparatedConcat(SideTokens(s), [RBracket] + rest);
  }

  lemma {:induction false} ClosingSeparated(f: Flags, sides: seq<Side>)
    requires SpeltSides(sides)
    ensures Separated(Closing(f, sides))
    ensures Joins([Word("x")], Closing(f, sides))
    decreases |sides|
  {
    if sides != [] {
      assert SpeltSides(sides[1..]) && sides[0] in sides;
      ClosingSeparated(f, sides[1..]);
      if sides[0].items != [] {
        ClosingSeparated(f.(inMap := true), sides[1..]);
        SideSeparated(sides[0], Closing(f.(inMap := true), sides[1..]));
        var open := [if f.inMap then Comma else LBrace];
        SeparatedConcat(open, SideBody(f, sides));
        SeparatedConcat(if f.inPair then [] else [Comma], open + SideBody(f, sides));
      }
    }
  }

  lemma EmittedSeparated(f: Flags, c: Call)
    requires IsCall(c) && IsSpelt(c.json)
    ensures Separated(Emitted(f, c)) && Emitted(f, c) != []
    ensures f.inPair || !Emitted(f, c)[0].Word?
    ensures c.Key? ==> !Emitted(f, c)[|Emitted(f, c)| - 1].Word?
  {
    WriteSeparated(c.json);
    WriteStarts(c.json);
    match c
    case Value(j) =>
      SeparatedConcat(Lead(f), Write(j));
    case Key(k) =>
      var opening := Lead(f) + (if f.inMap then [] else [LBrace]);
      SeparatedConcat(Lead(f), if f.inMap then [] else [LBrace]);
      SeparatedConcat(Write(k), [Colon]);
      SeparatedConcat(opening, Write(k) + [Colon]);
  }

  lemma {:induction false} OutputSeparated(f: Flags, calls: seq<Call>, sides: seq<Side>)
    requires SpeltCalls(calls) && SpeltSides(sides)
    ensures Separated(Output(f, calls, sides))
    ensures f.inPair || Joins([Word("x")], Output(f, calls, sides))
    decreases |calls|
  {
    if calls == [] {
      ClosingSeparated(f, sides);
    } else {
      assert calls[0] in calls;
      EmittedSeparated(f, calls[0]);
      OutputSeparated(Next(f, calls[0]), calls[1..], sides);
      SeparatedConcat(Emitted(f, calls[0]), Output(Next(f, calls[0]), calls[1..], sides));
    }
  }

  // The same of the text itself, when no quoted string holds a quote and no bare word
  // holds punctuation.
  lemma RequestTextReadsBack(calls: seq<Call>, sides: seq<Side>)
    requires SpeltCalls(calls) && SpeltSides(sides)
    ensures ReadText(ShowAll(Output(START, calls, sides))) ==
      if calls != [] && Legal(calls) then Some(List(Elements(calls, sides))) else None
  {
    hide Output, Legal, Elements, ShowAll, Separated, Lex, Read;
    OutputSeparated(START, calls, sides);
    LexShowAll(Output(START, calls, sides));
    RequestReadsBack(calls, sides);
  }

  // ---------- what has been written so far ----------

  function After(calls: seq<Call>): Flags {
    if calls == [] then START else Next(After(calls[..|calls| - 1]), calls[|calls| - 1])
  }

  function Written(calls: seq<Call>): seq<Token> {
    if calls == [] then []
    else
      var done := calls[..|calls| - 1];
      Written(done) + Emitted(After(done), calls[|calls| - 1])
  }

  lemma {:induction false} OutputSplits(calls: seq<Call>, more: seq<Call>, sides: seq<Side>)
    ensures Output(START, calls + more, sides) == Written(calls) + Output(After(calls), more, sides)
  {
    if calls == [] {
      assert calls + more == more;
    } else {
      var n := |calls| - 1;
      var last := calls[n];
      assert calls + more == calls[..n] + ([last] + more);
      OutputSplits(calls[..n], [last] + more, sides);
      assert ([last] + more)[1..] == more;
      Associative(Written(calls[..n]), Emitted(After(calls[..n]), last), Output(After(calls), more, sides));
    }
  }

  lemma OneMoreCall(calls: seq<Call>, c: Call)
    ensures After(calls + [c]) == Next(After(calls), c)
    ensures ShowAll(Written(calls + [c])) == ShowAll(Written(calls)) + ShowAll(Emitted(After(calls), c))
  {
    assert (calls + [c])[..|calls|] == calls;
    ShowAllConcat(Written(calls), Emitted(After(calls), c));
  }

  lemma OutputText(calls: seq<Call>, sides: seq<Side>)
    ensures ShowAll(Output(START, calls, sides)) ==
      ShowAll(Written(calls)) + ShowAll(Closing(After(calls), sides))
  {
    OutputSplits(calls, [], sides);
    assert calls + [] == calls;
    ShowAllConcat(Written(calls), Closing(After(calls), sides));
  }

  // The closing text, one side list at a time.
  lemma ClosingSide(f: Flags, s: Side, sides: seq<Side>)
    requires s.items != []
    ensures ShowAll(Closing(f, [s] + sides)) ==
      (if f.inPair then "" else ",") + ((if f.inMap then "," else "{")
        + (ShowAll(SideTokens(s)) + ("]" + ShowAll(Closing(f.(inMap := true), sides)))))
  {
    var rest := Closing(f.(inMap := true), sides);
    assert ([s] + sides)[1..] == sides;
    ShowAllConcat([RBracket], rest);
    ShowAllConcat(SideTokens(s), [RBracket] + rest);
    var open := [if f.inMap then Comma else LBrace];
    ShowAllConcat(open, SideBody(f, [s] + sides));
    ShowAllConcat(if f.inPair then [] else [Comma], open + SideBody(f, [s] + sides));
  }

  lemma ClosingEmptySide(f: Flags, s: Side, sides: seq<Side>)
    requires s.items == []
    ensures Closing(f, [s] + sides) == Closing(f, sides)
  {
    assert ([s] + sides)[1..] == sides;
  }

  lemma ClosingText(f: Flags)
    ensures ShowAll(Closing(f, [])) == (if f.inMap then "}" else "") + (if f.inList then "]" else "")
  {
    ShowAllConcat(if f.inMap then [RBrace] else [], if f.inList then [RBracket] else []);
  }

  // A list of words, spelt out.
  function Atoms(texts: seq<string>): (r: seq<Json>)
    ensures |r| == |texts| && forall i :: 0 <= i < |texts| ==> r[i] == Atom(texts[i])
  {
    seq(|texts|, i requires 0 <= i < |texts| => Atom(texts[i]))
  }

  lemma {:induction false} AtomsText(texts: seq<string>)
    ensures ShowAll(WriteItems(Atoms(texts))) == Join(texts, ',')
  {
    var items := Atoms(texts);
    if |texts| > 1 {
      assert items[1..] == Atoms(texts[1..]);
      AtomsText(texts[1..]);
      ShowAllConcat([Word(texts[0])] + [Comma], WriteItems(items[1..]));
      ShowAllConcat([Word(texts[0])], [Comma]);
    }
  }

  lemma AtomListText(texts: seq<string>)
    ensures ShowAll(Write(List(Atoms(texts)))) == "[" + Join(texts, ',') + "]"
  {
    AtomsText(texts);
    ShowAllConcat([LBracket] + WriteItems(Atoms(texts)), [RBracket]);
    ShowAllConcat([LBracket], WriteItems(Atoms(texts)));
  }

  // The start of a side list.
  lemma SideHeadText(key: int)
    ensures ShowAll([Word(DecInt(key)), Colon, LBracket]) == DecInt(key) + ":" + "["
  {
    var w := Word(DecInt(key));
    ShowAllConcat([w, Colon], [LBracket]);
    ShowAllConcat([w], [Colon]);
    assert [w, Colon] + [LBracket] == [w, Colon, LBracket] && [w] + [Colon] == [w, Colon];
  }

  function SideHead(key: int): seq<Token> {
    [Word(DecInt(key)), Colon, LBracket]
  }

  lemma SideTokensMore(key: int, items: seq<Json>, item: Json)
    ensures SideTokens(Side(key, items + [item])) == SideHead(key) + Trail(items) + (Write(item) + [Comma])
  {
    assert (items + [item])[..|items|] == items;
    Associative(SideHead(key), Trail(items), Write(item) + [Comma]);
  }

  // One more item on a side list.
  lemma MoreSideText(key: int, items: seq<Json>, item: Json)
    ensures ShowAll(SideTokens(Side(key, items + [item]))) ==
      (if items == [] then DecInt(key) + ":" + "[" else ShowAll(SideTokens(Side(key, items))))
      + (ShowAll(Write(item)) + ",")
  {
    SideTokensMore(key, items, item);
    ShowAllConcat(SideHead(key) + Trail(items), Write(item) + [Comma]);
    ShowAllConcat(Write(item), [Comma]);
    ShowOne(Comma);
    if items == [] {
      assert SideHead(key) + Trail(items) == SideHead(key);
      SideHeadText(key);
    }
  }

  // The same for an item that is a list of words.
  lemma MoreSideWords(key: int, items: seq<Json>, texts: seq<string>)
    ensures ShowAll(SideTokens(Side(key, items + [List(Atoms(texts))]))) ==
      (if items == [] then DecInt(key) + ":" + "[" else ShowAll(SideTokens(Side(key, items))))
      + ("[" + Join(texts, ',') + "]" + ",")
  {
    AtomListText(texts);
    MoreSideText(key, items, List(Atoms(texts)));
  }
}
