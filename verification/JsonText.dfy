/**
  The text of requests: how a value is spelt, character by character, and how the numbers
  in it are read.
*/
module JsonText {
  import opened Wrappers
  import opened Text
  import opened JsonTokens
  import opened JsonBuilder

  // ---------- spelling ----------

  // The notation: lists in brackets, maps in braces, commas between.
  function Spelt(j: Json): string
    decreases j, 0
  {
    match j
    case Atom(s) => s
    case Str(s) => "\"" + s + "\""
    case List(items) => "[" + Join(SpeltAll(items), ',') + "]"
    case Map(pairs) => "{" + Join(SpeltPairs(pairs), ',') + "}"
  }

  function SpeltAll(items: seq<Json>): (r: seq<string>)
    ensures |r| == |items|
    decreases items, 1
  {
    if items == [] then [] else [Spelt(items[0])] + SpeltAll(items[1..])
  }

  function SpeltPair(p: Pair): string
    decreases p, 1
  {
    Spelt(p.key) + ":" + Spelt(p.value)
  }

  function SpeltPairs(pairs: seq<Pair>): (r: seq<string>)
    ensures |r| == |pairs|
    decreases pairs, 2
  {
    if pairs == [] then [] else [SpeltPair(pairs[0])] + SpeltPairs(pairs[1..])
  }

  lemma ShowBetween(open: Token, body: seq<Token>, close: Token)
    ensures ShowAll([open] + body + [close]) == Show(open) + ShowAll(body) + Show(close)
  {
    ShowAllConcat([open] + body, [close]);
    ShowAllConcat([open], body);
    ShowOne(open);
    ShowOne(close);
  }

  lemma ShowThree(first: seq<Token>, mid: Token, rest: seq<Token>)
    ensures ShowAll(first + [mid] + rest) == ShowAll(first) + Show(mid) + ShowAll(rest)
  {
    ShowAllConcat(first + [mid], rest);
    ShowAllConcat(first, [mid]);
    ShowOne(mid);
  }

  lemma {:induction false} ShowWrite(j: Json)
    ensures ShowAll(Write(j)) == Spelt(j)
    decreases j, 0
  {
    match j
    case Atom(s) => ShowOne(Word(s));
    case Str(s) => ShowOne(Quoted(s));
    case List(items) =>
      ShowItems(items);
      ShowBetween(LBracket, WriteItems(items), RBracket);
    case Map(pairs) =>
      ShowPairs(pairs);
      ShowBetween(LBrace, WritePairs(pairs), RBrace);
  }

  lemma {:induction false} ShowItems(items: seq<Json>)
    ensures ShowAll(WriteItems(items)) == Join(SpeltAll(items), ',')
    decreases items, 1
  {
    if items != [] {
      ShowWrite(items[0]);
      if |items| > 1 {
        ShowItems(items[1..]);
        ShowThree(Write(items[0]), Comma, WriteItems(items[1..]));
        assert SpeltAll(items)[1..] == SpeltAll(items[1..]);
      }
    }
  }

  lemma {:induction false} ShowPairs(pairs: seq<Pair>)
    ensures ShowAll(WritePairs(pairs)) == Join(SpeltPairs(pairs), ',')
    decreases pairs, 2
  {
    if pairs != [] {
      ShowOnePair(pairs[0]);
      if |pairs| > 1 {
        ShowPairs(pairs[1..]);
        ShowThree(WritePair(pairs[0]), Comma, WritePairs(pairs[1..]));
        assert SpeltPairs(pairs)[1..] == SpeltPairs(pairs[1..]);
      }
    }
  }

  lemma {:induction false} ShowOnePair(p: Pair)
    ensures ShowAll(WritePair(p)) == SpeltPair(p)
    decreases p, 1
  {
    ShowWrite(p.key);
    ShowWrite(p.value);
    ShowThree(Write(p.key), Colon, Write(p.value));
  }

  // The text of a legal run without side lists, to the character.
  lemma RequestText(calls: seq<Call>)
    requires Legal(calls)
    ensures ShowAll(Output(START, calls, [])) == if calls == [] then "" else Spelt(List(Elements(calls, [])))
  {
    RequestTokens(calls);
    if calls != [] {
      ShowWrite(List(Elements(calls, [])));
    }
  }

  // ---------- numbers ----------

  // A number as `%d` reads it, with nothing after it.
  function IntOf(j: Json): Option<int> {
    if !j.Atom? then None
    else match ScanInt(j.text)
      case Some((n, rest)) => if rest == "" then Some(n) else None
      case None => None
  }

  lemma IntBack(n: int)
    ensures IntOf(Atom(DecInt(n))) == Some(n)
  {
    ScanDecInt(n, "");
    assert DecInt(n) + "" == DecInt(n);
  }

  // The same as an unsigned number of 64 bits.
  function NumberOf(j: Json): Option<U64> {
    match IntOf(j)
    case Some(n) => if -(TWO_64 as int) < n < TWO_64 then Some(n % TWO_64) else None
    case None => None
  }

  lemma NumberBack(v: U64)
    ensures NumberOf(Atom(DecInt(Signed64(v)))) == Some(v)
  {
    IntBack(Signed64(v));
  }

  function IntsOf(js: seq<Json>): Option<seq<int>> {
    if js == [] then Some([])
    else
      match (IntOf(js[0]), IntsOf(js[1..]))
      case (Some(n), Some(ns)) => Some([n] + ns)
      case _ => None
  }

  function DecAll(ns: seq<int>): (r: seq<string>)
    ensures |r| == |ns| && forall i :: 0 <= i < |ns| ==> r[i] == DecInt(ns[i])
  {
    seq(|ns|, i requires 0 <= i < |ns| => DecInt(ns[i]))
  }

  lemma {:induction false} IntsBack(ns: seq<int>)
    ensures IntsOf(Atoms(DecAll(ns))) == Some(ns)
  {
    if ns != [] {
      IntBack(ns[0]);
      assert Atoms(DecAll(ns))[1..] == Atoms(DecAll(ns[1..]));
      IntsBack(ns[1..]);
      assert ns == [ns[0]] + ns[1..];
    }
  }
}
