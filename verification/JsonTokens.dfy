/**
  The request notation: a list of values, possibly ending in a map. Its tokens, how
  they are spelt, and a reader that skips empty elements between commas. Words are
  not quoted and quoted strings have no escapes.
*/
module JsonTokens {
  import opened Wrappers
  import opened Text

  datatype Token =
    | LBracket | RBracket | LBrace | RBrace | Comma | Colon
    | Word(text: string)
    | Quoted(text: string)

  datatype Json =
    | Atom(text: string)
    | Str(text: string)
    | List(items: seq<Json>)
    | Map(pairs: seq<Pair>)

  datatype Pair = Pair(key: Json, value: Json)

  // ---------- spelling ----------

  predicate IsSpecial(c: char) {
    c in "[]{},:\""
  }

  predicate IsPlain(t: Token) {
    match t
    case Word(s) => s != [] && forall c <- s :: !IsSpecial(c)
    case Quoted(s) => '"' !in s
    case _ => true
  }

  function Show(t: Token): string {
    match t
    case LBracket => "["
    case RBracket => "]"
    case LBrace => "{"
    case RBrace => "}"
    case Comma => ","
    case Colon => ":"
    case Word(s) => s
    case Quoted(s) => "\"" + s + "\""
  }

  function ShowAll(ts: seq<Token>): string {
    if ts == [] then "" else Show(ts[0]) + ShowAll(ts[1..])
  }

  lemma {:induction false} ShowAllConcat(a: seq<Token>, b: seq<Token>)
    ensures ShowAll(a + b) == ShowAll(a) + ShowAll(b)
  {
    if a == [] {
      assert a + b == b;
    } else {
      var all := a + b;
      var first := Show(a[0]);
      assert all[0] == a[0] && all[1..] == a[1..] + b;
      assert ShowAll(all) == first + ShowAll(all[1..]);
      ShowAllConcat(a[1..], b);
      Associative(first, ShowAll(a[1..]), ShowAll(b));
    }
  }

  lemma ShowOne(t: Token)
    ensures ShowAll([t]) == Show(t)
  {
    assert [t][1..] == [];
  }

  lemma BracketedPair(a: Token, b: Token)
    ensures ShowAll([LBracket] + ([a] + [Comma] + [b]) + [RBracket]) == "[" + (Show(a) + "," + Show(b)) + "]"
  {
    var pair := [a] + [Comma] + [b];
    ShowAllConcat([LBracket] + pair, [RBracket]);
    ShowAllConcat([LBracket], pair);
    ShowAllConcat([a] + [Comma], [b]);
    ShowAllConcat([a], [Comma]);
    ShowOne(a);
    ShowOne(b);
    ShowOne(LBracket);
    ShowOne(Comma);
    ShowOne(RBracket);
    assert ShowAll(pair) == Show(a) + "," + Show(b) == Show(a) + ("," + Show(b));
  }

  // Length of the word at the front.
  function WordRun(s: string): (k: nat)
    ensures k <= |s|
  {
    if s == [] || IsSpecial(s[0]) then 0 else 1 + WordRun(s[1..])
  }

  function Punctuation(c: char): Token {
    match c
    case '[' => LBracket
    case ']' => RBracket
    case '{' => LBrace
    case '}' => RBrace
    case ',' => Comma
    case _ => Colon
  }

  // Cuts a text into tokens; None when a quote is never closed.
  function Lex(s: string): Option<seq<Token>>
    decreases |s|
  {
    if s == [] then Some([])
    else
      var k := if s[0] == '"' then Find(s[1..], '"') else WordRun(s);
      if s[0] == '"' && k == |s| - 1 then None
      else
        var (first, rest) :=
          if s[0] == '"' then (Quoted(s[1..][..k]), s[k + 2..])
          else if k > 0 then (Word(s[..k]), s[k..])
          else (Punctuation(s[0]), s[1..]);
        match Lex(rest) case None => None case Some(ts) => Some([first] + ts)
  }

  // Plain tokens, no two words side by side.
  ghost predicate Separated(ts: seq<Token>) {
    && (forall i :: 0 <= i < |ts| ==> IsPlain(ts[i]))
    && forall i :: 0 <= i < |ts| - 1 ==> !(ts[i].Word? && ts[i + 1].Word?)
  }

  lemma {:induction false} WordRunStops(w: string, rest: string)
    requires forall c <- w :: !IsSpecial(c)
    requires rest == [] || IsSpecial(rest[0])
    ensures WordRun(w + rest) == |w|
  {
    if w == [] {
      assert w + rest == rest;
    } else {
      assert !IsSpecial(w[0]);
      assert (w + rest)[1..] == w[1..] + rest;
      WordRunStops(w[1..], rest);
    }
  }

  // The result of cutting a first token off.
  function Prefixed(t: Token, rest: Option<seq<Token>>): Option<seq<Token>> {
    match rest case None => None case Some(ts) => Some([t] + ts)
  }

  lemma LexWord(w: string, rest: string)
    requires IsPlain(Word(w)) && (rest == [] || IsSpecial(rest[0]))
    ensures Lex(w + rest) == Prefixed(Word(w), Lex(rest))
  {
    var s := w + rest;
    WordRunStops(w, rest);
    assert s[0] == w[0] && !IsSpecial(w[0]);
    assert s[..|w|] == w && s[|w|..] == rest;
  }

  lemma LexQuoted(q: string, rest: string)
    requires '"' !in q
    ensures Lex("\"" + q + "\"" + rest) == Prefixed(Quoted(q), Lex(rest))
  {
    var s := "\"" + q + "\"" + rest;
    assert s[0] == '"' && s[1..] == q + ("\"" + rest);
    FindAfter(q, "\"" + rest, '"');
    assert s[1..][..|q|] == q && s[|q| + 2..] == rest;
  }

  lemma LexPunctuation(t: Token, rest: string)
    requires !t.Word? && !t.Quoted?
    ensures Lex(Show(t) + rest) == Prefixed(t, Lex(rest))
  {
    var s := Show(t) + rest;
    assert |Show(t)| == 1 && s[0] == Show(t)[0];
    assert s[1..] == rest;
    assert IsSpecial(s[0]) && s[0] != '"' && Punctuation(s[0]) == t;
    assert WordRun(s) == 0;
  }

  lemma LexOne(t: Token, rest: string)
    requires IsPlain(t)
    requires t.Word? ==> rest == [] || IsSpecial(rest[0])
    ensures Lex(Show(t) + rest) == Prefixed(t, Lex(rest))
  {
    match t
    case Word(w) => LexWord(w, rest);
    case Quoted(q) => LexQuoted(q, rest);
    case _ => LexPunctuation(t, rest);
  }

  // Tokens spelt out are cut back into the same tokens.
  lemma {:induction false} LexShowAll(ts: seq<Token>)
    requires Separated(ts)
    ensures Lex(ShowAll(ts)) == Some(ts)
  {
    if ts != [] {
      LexShowAll(ts[1..]);
      if ts[0].Word? && |ts| > 1 {
        assert Show(ts[1])[0] == ShowAll(ts[1..])[0];
      }
      LexOne(ts[0], ShowAll(ts[1..]));
      assert [ts[0]] + ts[1..] == ts;
    }
  }

  // ---------- writing and reading values ----------

  function Write(j: Json): seq<Token>
    decreases j, 0
  {
    match j
    case Atom(s) => [Word(s)]
    case Str(s) => [Quoted(s)]
    case List(items) => [LBracket] + WriteItems(items) + [RBracket]
    case Map(pairs) => [LBrace] + WritePairs(pairs) + [RBrace]
  }

  function WriteItems(items: seq<Json>): seq<Token>
    decreases items, 1
  {
    if items == [] then []
    else if |items| == 1 then Write(items[0])
    else Write(items[0]) + [Comma] + WriteItems(items[1..])
  }

  function WritePair(p: Pair): seq<Token>
    decreases p, 1
  {
    Write(p.key) + [Colon] + Write(p.value)
  }

  function WritePairs(pairs: seq<Pair>): seq<Token>
    decreases pairs, 2
  {
    if pairs == [] then []
    else if |pairs| == 1 then WritePair(pairs[0])
    else WritePair(pairs[0]) + [Comma] + WritePairs(pairs[1..])
  }

  // A value at the front, and what follows it.
  function ReadValue(ts: seq<Token>): (r: Option<(Json, seq<Token>)>)
    ensures r.Some? ==> |r.value.1| < |ts|
    decreases |ts|, 0
  {
    if ts == [] then None
    else match ts[0]
      case Word(s) => Some((Atom(s), ts[1..]))
      case Quoted(s) => Some((Str(s), ts[1..]))
      case LBracket => (match ReadItems(ts[1..]) case None => None case Some((v, rest)) => Some((List(v), rest)))
      case LBrace => (match ReadPairs(ts[1..]) case None => None case Some((v, rest)) => Some((Map(v), rest)))
      case _ => None
  }

  // The elements of a list up to its bracket. Commas before an element are skipped; an
  // element is followed by a comma or the bracket.
  function ReadItems(ts: seq<Token>): (r: Option<(seq<Json>, seq<Token>)>)
    ensures r.Some? ==> |r.value.1| < |ts|
    decreases |ts|, 1
  {
    if ts == [] then None
    else if ts[0] == RBracket then Some(([], ts[1..]))
    else if ts[0] == Comma then ReadItems(ts[1..])
    else match ReadValue(ts)
      case None => None
      case Some((v, rest)) =>
        if rest == [] || (rest[0] != Comma && rest[0] != RBracket) then None
        else match ReadItems(rest)
          case None => None
          case Some((vs, rest)) => Some(([v] + vs, rest))
  }

  function ReadPairs(ts: seq<Token>): (r: Option<(seq<Pair>, seq<Token>)>)
    ensures r.Some? ==> |r.value.1| < |ts|
    decreases |ts|, 1
  {
    if ts == [] then None
    else if ts[0] == RBrace then Some(([], ts[1..]))
    else if ts[0] == Comma then ReadPairs(ts[1..])
    else if !(ts[0].Word? || ts[0].Quoted?) || |ts| == 1 || ts[1] != Colon then None
    else match ReadValue(ts[2..])
      case None => None
      case Some((v, rest)) =>
        if rest == [] || (rest[0] != Comma && rest[0] != RBrace) then None
        else match ReadPairs(rest)
          case None => None
          case Some((ps, rest)) =>
            Some(([Pair(if ts[0].Word? then Atom(ts[0].text) else Str(ts[0].text), v)] + ps, rest))
  }

  // A whole request.
  function Read(ts: seq<Token>): Option<Json> {
    match ReadValue(ts)
    case None => None
    case Some((v, rest)) => if rest == [] then Some(v) else None
  }

  function ReadText(s: string): Option<Json> {
    match Lex(s) case None => None case Some(ts) => Read(ts)
  }

  // Values without maps inside, the only ones requests put under keys or in lists.
  predicate IsFlat(j: Json) {
    match j
    case List(items) => forall v <- items :: IsFlat(v)
    case Map(_) => false
    case _ => true
  }

  lemma {:induction false} ReadWrite(j: Json, rest: seq<Token>)
    requires IsFlat(j)
    ensures ReadValue(Write(j) + rest) == Some((j, rest))
    decreases j, 0
  {
    match j
    case List(items) =>
      ReadWriteItems(items, rest);
      assert (Write(j) + rest)[1..] == WriteItems(items) + ([RBracket] + rest);
    case Map(_) =>
    case _ =>
      assert (Write(j) + rest)[1..] == rest;
  }

  lemma WriteStarts(j: Json)
    ensures Write(j) != [] && Write(j)[0] != Comma && Write(j)[0] != RBracket && Write(j)[0] != RBrace
      && Write(j)[0] != Colon
  {}

  lemma {:induction false} ReadWriteItems(items: seq<Json>, rest: seq<Token>)
    requires forall v <- items :: IsFlat(v)
    ensures ReadItems(WriteItems(items) + ([RBracket] + rest)) == Some((items, rest))
    decreases items, 1
  {
    if items == [] {
      assert WriteItems(items) + ([RBracket] + rest) == [RBracket] + rest;
    } else {
      var close, more := [RBracket] + rest, items[1..];
      var tail := if more == [] then close else [Comma] + (WriteItems(more) + close);
      WriteMore(items, close);
      ReadWrite(items[0], tail);
      WriteStarts(items[0]);
      ReadWriteItems(more, rest);
      assert tail[1..] == if more == [] then rest else WriteItems(more) + close;
      assert items == [items[0]] + more;
    }
  }

  lemma WriteMore(items: seq<Json>, close: seq<Token>)
    requires items != []
    ensures WriteItems(items) + close ==
      Write(items[0]) + if items[1..] == [] then close else [Comma] + (WriteItems(items[1..]) + close)
  {
    if |items| > 1 {
      Associative4(Write(items[0]), [Comma], WriteItems(items[1..]), close);
    }
  }

  // ---------- one step of the reader ----------

  predicate EndsItem(ts: seq<Token>) {
    ts != [] && (ts[0] == Comma || ts[0] == RBracket)
  }

  predicate EndsPair(ts: seq<Token>) {
    ts != [] && (ts[0] == Comma || ts[0] == RBrace)
  }

  predicate IsKey(k: Json) {
    k.Atom? || k.Str?
  }

  function MoreItems(v: Json, r: Option<(seq<Json>, seq<Token>)>): Option<(seq<Json>, seq<Token>)> {
    match r case None => None case Some((vs, rest)) => Some(([v] + vs, rest))
  }

  function MorePairs(p: Pair, r: Option<(seq<Pair>, seq<Token>)>): Option<(seq<Pair>, seq<Token>)> {
    match r case None => None case Some((ps, rest)) => Some(([p] + ps, rest))
  }

  lemma CommaSkipped(ts: seq<Token>)
    ensures ReadItems([Comma] + ts) == ReadItems(ts)
    ensures ReadPairs([Comma] + ts) == ReadPairs(ts)
  {
    assert ([Comma] + ts)[1..] == ts;
  }

  lemma ItemThen(j: Json, rest: seq<Token>)
    requires IsFlat(j) && EndsItem(rest)
    ensures ReadItems(Write(j) + rest) == MoreItems(j, ReadItems(rest))
  {
    WriteStarts(j);
    ReadWrite(j, rest);
  }

  // A map that ends its list.
  lemma MapCloses(body: seq<Token>)
    requires ReadPairs(body).Some? ==> ReadPairs(body).value.1 == [RBracket]
    ensures ReadItems([LBrace] + body) ==
      if ReadPairs(body).Some? then Some(([Map(ReadPairs(body).value.0)], [])) else None
  {
    var ts := [LBrace] + body;
    assert ts[1..] == body;
    assert ReadItems([RBracket]) == Some(([], []));
    if ReadPairs(body).Some? {
      var m := Map(ReadPairs(body).value.0);
      assert ReadValue(ts) == Some((m, [RBracket]));
      assert [m] + [] == [m];
    }
  }

  lemma PairThen(k: Json, j: Json, rest: seq<Token>)
    requires IsKey(k) && IsFlat(j) && EndsPair(rest)
    ensures ReadPairs(Write(k) + [Colon] + (Write(j) + rest)) == MorePairs(Pair(k, j), ReadPairs(rest))
  {
    var ts := Write(k) + [Colon] + (Write(j) + rest);
    assert ts[2..] == Write(j) + rest;
    ReadWrite(j, rest);
  }

  lemma KeyThenKey(k: Json, k2: Json, rest: seq<Token>)
    requires IsKey(k) && IsKey(k2)
    ensures ReadPairs(Write(k) + [Colon] + (Write(k2) + [Colon] + rest)) == None
  {
    var ts := Write(k) + [Colon] + (Write(k2) + [Colon] + rest);
    assert ts[2..] == Write(k2) + ([Colon] + rest);
    ReadWrite(k2, [Colon] + rest);
  }

  lemma KeyThenEnd(k: Json, rest: seq<Token>)
    requires IsKey(k) && EndsPair(rest)
    ensures ReadPairs(Write(k) + [Colon] + rest) == None
  {
    var ts := Write(k) + [Colon] + rest;
    assert ts[2..] == rest;
  }

  lemma NotAKey(j: Json, rest: seq<Token>)
    requires IsFlat(j) && EndsPair(rest)
    ensures ReadPairs(Write(j) + rest) == None
  {
    WriteStarts(j);
    assert j.List? || (Write(j) + rest)[1] == rest[0];
  }

  // ---------- well-spelt values ----------

  // Quoted strings without quotes, words without punctuation.
  predicate IsSpelt(j: Json) {
    match j
    case Atom(s) => IsPlain(Word(s))
    case Str(s) => IsPlain(Quoted(s))
    case List(items) => forall v <- items :: IsSpelt(v)
    case Map(_) => false
  }

  // Side by side, the two do not run words together.
  ghost predicate Joins(a: seq<Token>, b: seq<Token>) {
    a == [] || b == [] || !a[|a| - 1].Word? || !b[0].Word?
  }

  lemma SeparatedConcat(a: seq<Token>, b: seq<Token>)
    requires Separated(a) && Separated(b) && Joins(a, b)
    ensures Separated(a + b)
  {
    var ts := a + b;
    forall i | 0 <= i < |ts| - 1 ensures !(ts[i].Word? && ts[i + 1].Word?) {
      if i + 1 < |a| {
        assert ts[i] == a[i] && ts[i + 1] == a[i + 1];
      } else if i >= |a| {
        assert ts[i] == b[i - |a|] && ts[i + 1] == b[i - |a| + 1];
      }
    }
  }

  lemma {:induction false} WriteSeparated(j: Json)
    requires IsSpelt(j)
    ensures Separated(Write(j))
    decreases j, 0
  {
    match j
    case List(items) =>
      WriteItemsSeparated(items);
      SeparatedConcat([LBracket], WriteItems(items));
      SeparatedConcat([LBracket] + WriteItems(items), [RBracket]);
    case _ =>
  }

  lemma {:induction false} WriteItemsSeparated(items: seq<Json>)
    requires forall v <- items :: IsSpelt(v)
    ensures Separated(WriteItems(items))
    decreases items, 1
  {
    if items != [] {
      WriteSeparated(items[0]);
      if |items| > 1 {
        WriteItemsSeparated(items[1..]);
        SeparatedConcat(Write(items[0]), [Comma]);
        SeparatedConcat(Write(items[0]) + [Comma], WriteItems(items[1..]));
      }
    }
  }
}
