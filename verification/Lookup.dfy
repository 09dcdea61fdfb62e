/**
  The runtime side of keyword abbreviation: an entry matches an input that is long
  enough and agrees with its name in any letter case, and the scan of the table
  stops as soon as the initial letters have passed the input's.
*/
module Lookup {
  import opened Wrappers
  import opened Keywords
  import opened BnfParser

  // Entry e accepts the input.
  predicate Matches(e: Entry, input: string) {
    && e.matchLen <= |input| <= |e.name|
    && forall i :: 0 <= i < |input| ==> Upper(input[i]) == Upper(e.name[i])
  }

  // The first entry that accepts the input, wherever it stands in the table.
  function FullScan(table: seq<Entry>, input: string): Option<Entry> {
    if table == [] || table[0].matchLen == 0 then None
    else if Matches(table[0], input) then Some(table[0])
    else FullScan(table[1..], input)
  }

  lemma SameCapital(x: char, y: char)
    requires Lower(x) == Lower(y)
    ensures Upper(x) == Upper(y)
  {}

  // Letter case does not matter.
  lemma {:induction false} CaseFolds(table: seq<Entry>, a: string, b: string)
    requires LowerAll(a) == LowerAll(b)
    ensures FullScan(table, a) == FullScan(table, b)
  {
    if table != [] {
      assert |a| == |LowerAll(a)| == |b|;
      forall i | 0 <= i < |a| ensures Upper(a[i]) == Upper(b[i]) {
        assert LowerAll(a)[i] == LowerAll(b)[i];
        SameCapital(a[i], b[i]);
      }
      CaseFolds(table[1..], a, b);
    }
  }

  // What the scan relies on: named entries in order of initial letter, then the
  // terminator.
  ghost predicate Scannable(table: seq<Entry>) {
    && table != []
    && table[|table| - 1].matchLen == 0
    && (forall i :: 0 <= i < |table| - 1 ==> table[i].matchLen > 0 && IsKeyword(table[i].name))
    && forall i, j :: 0 <= i < j < |table| - 1 ==> table[i].name[0] <= table[j].name[0]
  }

  // Character i of a C string; the terminating NUL follows the last one.
  function At(s: string, i: nat): char {
    if i < |s| then s[i] else '\0'
  }

  // 0 when str2 is an acceptable abbreviation of str1; 2 when str2 goes on after
  // str1 has ended; 1 otherwise.
  method StrMatch(str1: string, str2: string, minMatch: nat) returns (r: int)
    ensures 0 <= r <= 2
    ensures r == 0 <==> minMatch <= |str2| <= |str1|
                        && forall i :: 0 <= i < |str2| ==> Upper(str2[i]) == Upper(str1[i])
    ensures r == 2 <==> |str1| < |str2| && forall i :: 0 <= i < |str1| ==> Upper(str2[i]) == Upper(str1[i])
  {
    var len := 0;
    while len < |str1| && len < |str2|
      invariant len <= |str1| && len <= |str2|
      invariant forall i :: 0 <= i < len ==> Upper(str2[i]) == Upper(str1[i])
    {
      if Upper(str1[len]) != Upper(str2[len]) {
        return 1;
      }
      len := len + 1;
    }
    if len == |str1| && len < |str2| {
      return 2;
    }
    return if len >= minMatch then 0 else 1;
  }

  lemma MatchSharesLetter(e: Entry, input: string)
    requires IsKeyword(e.name) && e.matchLen > 0 && Matches(e, input)
    ensures input != [] && Lower(input[0]) == e.name[0]
  {
    assert Upper(input[0]) == Upper(e.name[0]);
  }

  lemma {:induction false} NothingFurther(table: seq<Entry>, input: string)
    requires Scannable(table)
    requires table[0].matchLen > 0 && Lower(At(input, 0)) < table[0].name[0]
    ensures FullScan(table, input) == None
  {
    if Matches(table[0], input) {
      MatchSharesLetter(table[0], input);
    }
    if table[1].matchLen > 0 {
      NothingFurther(table[1..], input);
    }
  }

  lemma ScannableTail(table: seq<Entry>, t: nat)
    requires Scannable(table) && t < |table|
    ensures Scannable(table[t..])
  {}

  // The early-exit scan finds what a scan of the whole table finds.
  method Scan(table: seq<Entry>, input: string) returns (found: Option<Entry>)
    requires Scannable(table)
    ensures found == FullScan(table, input)
  {
    var t := 0;
    while table[t].matchLen != 0
      invariant t < |table|
      invariant FullScan(table[t..], input) == FullScan(table, input)
      decreases |table| - t
    {
      assert table[t..][1..] == table[t + 1..];
      if Lower(At(input, 0)) == table[t].name[0] {
        var r := StrMatch(table[t].name, input, table[t].matchLen);
        if r == 0 {
          return Some(table[t]);
        }
      } else if Matches(table[t], input) {
        MatchSharesLetter(table[t], input);
      }
      if Lower(At(input, 0)) < table[t].name[0] {
        ScannableTail(table, t);
        NothingFurther(table[t..], input);
        return None;
      }
      t := t + 1;
    }
    return None;
  }

  // The token macro selected by the input; None stands for token 0, no keyword.
  method FindToken(table: seq<Entry>, input: string) returns (token: Option<string>)
    requires Scannable(table)
    ensures token == match FullScan(table, input) case None => None case Some(e) => Some(e.token)
  {
    var found := Scan(table, input);
    token := if found == None then None else Some(found.value.token);
  }

  // The full spelling of the selected keyword; None stands for NULL.
  method BackTokenStr(table: seq<Entry>, input: string) returns (name: Option<string>)
    requires Scannable(table)
    ensures name == match FullScan(table, input) case None => None case Some(e) => Some(e.name)
  {
    var found := Scan(table, input);
    name := if found == None then None else Some(found.value.name);
  }

  lemma TableScannable(table: seq<Entry>, words: seq<string>)
    requires IsTable(table, words)
    ensures Scannable(table)
  {
    var rows := table[..|table| - 1];
    forall i | 0 <= i < |rows| ensures table[i].matchLen > 0 && IsKeyword(table[i].name) {
      assert table[i] == rows[i] && IsRow(words, Names(rows), i, rows[i]);
    }
    forall i, j | 0 <= i < j < |rows| ensures table[i].name[0] <= table[j].name[0] {
      assert AtMost(Names(rows)[i], Names(rows)[j]);
    }
  }

  // A row matches exactly the inputs that resolve to its keyword.
  lemma MatchesIffResolves(words: seq<string>, e: Entry, input: string)
    requires IsKeyword(e.name) && e.name in words && IsMatchLength(words, e.name, e.matchLen)
    ensures Matches(e, input) <==> Resolves(words, e.name, input)
  {
    var p, w, n := LowerAll(input), e.name, e.matchLen;
    forall i | 0 <= i < |input| && i < |w|
      ensures Upper(input[i]) == Upper(w[i]) <==> p[i] == w[i]
    {
      assert w[i] in w;
    }
    if p <= w {
      assert p == w[..|p|];
      if |p| >= n {
        if Shared(words, w, p) {
          var v :| v in words && v != w && p <= v;
          assert w[..n] <= v;
        }
      } else if |p| >= 1 {
        assert Shared(words, w, w[..|p|]);
      }
    }
  }

  // The input selects keyword w: it resolves to w, and spells it out if w is there more
  // than once.
  ghost predicate Selects(words: seq<string>, w: string, input: string) {
    Resolves(words, w, input) && (Repeated(words, w) ==> LowerAll(input) == w)
  }

  // The first row of a keyword matches exactly the inputs that select it, the other
  // rows nothing.
  lemma RowMatchesIff(words: seq<string>, names: seq<string>, k: nat, e: Entry, input: string)
    requires k < |names| && IsRow(words, names, k, e) && multiset(names) == multiset(words)
    ensures Matches(e, input) <==> Selects(words, names[k], input) && names[k] !in names[..k]
  {
    var w := names[k];
    SameMembers(names, words);
    CountAt(names, k);
    if !Repeated(words, w) {
      MatchesIffResolves(words, e, input);
    } else if w !in names[..k] && |input| == |w| {
      forall i | 0 <= i < |w| ensures Upper(input[i]) == Upper(w[i]) <==> LowerAll(input)[i] == w[i] {
        assert w[i] in w;
      }
    }
  }

  lemma {:induction false} ScanFirst(table: seq<Entry>, k: nat, input: string)
    requires Scannable(table) && k < |table| - 1 && Matches(table[k], input)
    requires forall i :: 0 <= i < k ==> !Matches(table[i], input)
    ensures FullScan(table, input) == Some(table[k])
  {
    if k > 0 {
      ScanFirst(table[1..], k - 1, input);
    }
  }

  lemma {:induction false} ScanNone(table: seq<Entry>, input: string)
    requires Scannable(table)
    requires forall i :: 0 <= i < |table| - 1 ==> !Matches(table[i], input)
    ensures FullScan(table, input) == None
  {
    if |table| > 1 {
      ScanNone(table[1..], input);
    }
  }

  // End to end: on a generated table, an input finds keyword w exactly when it selects
  // w among all the keywords, and finds nothing exactly when it selects none.
  lemma TableFinds(table: seq<Entry>, words: seq<string>, input: string)
    requires IsTable(table, words)
    ensures Scannable(table)
    ensures forall w :: Selects(words, w, input) <==>
      FullScan(table, input).Some? && FullScan(table, input).value.name == w
    ensures FullScan(table, input).Some? ==>
      IsMacroOf(FullScan(table, input).value.token, FullScan(table, input).value.name)
  {
    TableScannable(table, words);
    var rows := table[..|table| - 1];
    var names := Names(rows);
    forall i | 0 <= i < |rows|
      ensures Matches(table[i], input) <==> Selects(words, names[i], input) && names[i] !in names[..i]
    {
      assert IsRow(words, names, i, rows[i]);
      RowMatchesIff(words, names, i, rows[i], input);
    }
    if k :| 0 <= k < |rows| && Matches(table[k], input) {
      forall i | 0 <= i < k ensures !Matches(table[i], input) {
        assert names[i] == names[..k][i];
        if Matches(table[i], input) {
          ResolvesUnique(words, names[i], names[k], input);
        }
      }
      ScanFirst(table, k, input);
      RowMacros(table, words);
      assert table[k].name == names[k] && IsRow(words, names, k, rows[k]);
      forall w ensures Selects(words, w, input) <==> w == names[k] {
        if Selects(words, w, input) {
          ResolvesUnique(words, w, names[k], input);
        }
      }
    } else {
      ScanNone(table, input);
      forall w ensures !Selects(words, w, input) {
        if Selects(words, w, input) {
          SameMembers(names, words);
          var i := FirstAt(names, w);
        }
      }
    }
  }

  lemma {:induction false} FirstAt(names: seq<string>, w: string) returns (i: nat)
    requires w in names
    ensures i < |names| && names[i] == w && w !in names[..i]
  {
    if names[0] == w {
      i := 0;
    } else {
      assert names == [names[0]] + names[1..];
      var n := FirstAt(names[1..], w);
      i := n + 1;
      assert names[..i] == [names[0]] + names[1..][..n];
    }
  }

  // With distinct keywords every unambiguous abbreviation is found.
  lemma AbbreviationsResolve(table: seq<Entry>, words: seq<string>, input: string)
    requires IsTable(table, words) && Distinct(words)
    ensures Scannable(table)
    ensures forall w :: Resolves(words, w, input) <==>
      FullScan(table, input).Some? && FullScan(table, input).value.name == w
  {
    TableFinds(table, words, input);
    DistinctIff(words);
    forall w ensures Selects(words, w, input) <==> Resolves(words, w, input) {}
  }

  lemma SpeltOut(words: seq<string>, w: string, input: string)
    requires Resolves(words, w, input) && IsMatchLength(words, w, |w|)
    ensures LowerAll(input) == w
  {
    assert LowerAll(input) == w[..|input|];
  }

  // Otherwise that is so exactly when every repeated keyword has no abbreviation that
  // could be lost: each of its proper beginnings begins another keyword as well.
  lemma AllResolveIff(words: seq<string>)
    requires forall w <- words :: IsKeyword(w)
    ensures (forall w, input :: Selects(words, w, input) <==> Resolves(words, w, input)) <==>
      (forall w :: Repeated(words, w) ==> IsMatchLength(words, w, |w|))
  {
    if forall w, input :: Selects(words, w, input) <==> Resolves(words, w, input) {
      forall w | Repeated(words, w) ensures IsMatchLength(words, w, |w|) {
        assert w in multiset(words) && w in words;
        forall m | 1 <= m < |w| ensures Shared(words, w, w[..m]) {
          var p := w[..m];
          assert forall i :: 0 <= i < m ==> p[i] in w;
          assert LowerAll(p) == p;
          assert Selects(words, w, p) <==> Resolves(words, w, p);
        }
      }
    }
    if forall w :: Repeated(words, w) ==> IsMatchLength(words, w, |w|) {
      forall w, input ensures Selects(words, w, input) <==> Resolves(words, w, input) {
        if Resolves(words, w, input) && Repeated(words, w) {
          SpeltOut(words, w, input);
        }
      }
    }
  }

  // A repeated word is found by none of its abbreviations, though they resolve to it.
  lemma RepeatedLosesAbbreviations(table: seq<Entry>, words: seq<string>, w: string, input: string)
    requires IsTable(table, words) && Repeated(words, w)
    requires Resolves(words, w, input) && LowerAll(input) != w
    ensures FullScan(table, input) == None
  {
    hide FullScan, LowerAll, IsTable, Repeated;
    TableFinds(table, words, input);
    if FullScan(table, input).Some? {
      var found := FullScan(table, input).value.name;
      assert Selects(words, found, input);
      ResolvesUnique(words, w, found, input);
    }
  }

  // How often a word is listed: once if the grammar yields it, and as often as it is
  // built in.
  function Listed(collected: seq<string>, builtin: seq<string>, w: string): nat {
    (if w in collected then 1 else 0) + multiset(builtin)[w]
  }

  // The input selects a keyword among the words of the grammar and the built-in ones.
  ghost predicate Chooses(collected: seq<string>, builtin: seq<string>, w: string, input: string) {
    Resolves(collected + builtin, w, input) && (Listed(collected, builtin, w) > 1 ==> LowerAll(input) == w)
  }

  lemma ChoosesIff(collected: seq<string>, builtin: seq<string>, words: seq<string>, w: string, input: string)
    requires forall v :: multiset(words)[v] == Listed(collected, builtin, v)
    ensures Selects(words, w, input) <==> Chooses(collected, builtin, w, input)
  {
    var all := collected + builtin;
    forall v ensures v in words <==> v in all {
      assert v in words <==> v in multiset(words);
      assert v in builtin <==> v in multiset(builtin);
    }
    var p := LowerAll(input);
    assert Shared(words, w, p) <==> Shared(all, w, p) by {
      if v :| v in words && v != w && p <= v {
        assert v in all;
      }
      if v :| v in all && v != w && p <= v {
        assert v in words;
      }
    }
  }

  lemma {:induction false} FlattenDistinct(lists: seq<seq<string>>, n: nat)
    requires AreBuckets(lists) && n <= LETTERS && forall j :: 0 <= j < LETTERS ==> Distinct(lists[j])
    ensures Distinct(Flatten(lists[..n]))
    ensures forall w <- Flatten(lists[..n]) :: IsKeyword(w) && Bucket(w) < n
  {
    if n > 0 {
      FlattenDistinct(lists, n - 1);
      FlattenTake(lists, n - 1);
      var a, b := Flatten(lists[..n - 1]), lists[n - 1];
      forall i, j | 0 <= i < j < |a + b| ensures (a + b)[i] != (a + b)[j] {
        if i < |a| <= j {
          assert a[i] in a && b[j - |a|] in b;
        }
      }
    }
  }

  lemma CollectedUnion(lists: seq<seq<string>>, collected: seq<string>, builtin: seq<string>, words: seq<string>)
    requires AreBuckets(lists) && forall j :: 0 <= j < LETTERS ==> Distinct(lists[j])
    requires forall w :: w in Flatten(lists) <==> w in collected
    requires multiset(words) == multiset(Flatten(lists)) + multiset(builtin)
    ensures forall w :: multiset(words)[w] == Listed(collected, builtin, w)
  {
    FlattenDistinct(lists, LETTERS);
    assert lists[..LETTERS] == lists;
    DistinctIff(Flatten(lists));
    forall w ensures multiset(words)[w] == Listed(collected, builtin, w) {
      assert !Repeated(Flatten(lists), w);
      assert w in multiset(Flatten(lists)) <==> w in Flatten(lists);
    }
  }

  lemma UnionFinds(table: seq<Entry>, collected: seq<string>, builtin: seq<string>, words: seq<string>, input: string)
    requires IsTable(table, words) && forall v :: multiset(words)[v] == Listed(collected, builtin, v)
    ensures Scannable(table)
    ensures forall w :: Chooses(collected, builtin, w, input) <==>
      FullScan(table, input).Some? && FullScan(table, input).value.name == w
    ensures FullScan(table, input).Some? ==>
      IsMacroOf(FullScan(table, input).value.token, FullScan(table, input).value.name)
  {
    hide *;
    TableFinds(table, words, input);
    forall w ensures Selects(words, w, input) <==> Chooses(collected, builtin, w, input) {
      ChoosesIff(collected, builtin, words, w, input);
    }
  }

  // Compiler and lookup composed: whatever words the grammar yields beside the
  // built-in ones, an input finds the one keyword it selects, if there is one.
  method CompileAndFind(collected: seq<string>, builtin: seq<seq<string>>, input: string)
    returns (token: Option<string>)
    requires AreBuckets(builtin) && forall w <- collected :: IsKeyword(w)
    ensures forall w :: Chooses(collected, Flatten(builtin), w, input) ==>
      token.Some? && IsMacroOf(token.value, w)
    ensures token.Some? ==> exists w :: Chooses(collected, Flatten(builtin), w, input) && IsMacroOf(token.value, w)
  {
    var g := new Generator();
    g.CollectTokens(collected);
    ghost var lists := g.tokenList[..];
    var table := g.GenLookup(builtin);
    CollectedUnion(lists, collected, Flatten(builtin), g.Words());
    UnionFinds(table, collected, Flatten(builtin), g.Words(), input);
    token := FindToken(table, input);
  }

  // The built-in words, were `size` the only one.
  function SizeBuiltIn(): (lists: seq<seq<string>>)
    ensures |lists| == LETTERS && forall j :: 0 <= j < LETTERS ==> lists[j] == if j == 18 then ["size"] else []
  {
    seq(LETTERS, j => if j == 18 then ["size"] else [])
  }

  lemma {:induction false} OneList(lists: seq<seq<string>>, k: nat, n: nat)
    requires k < |lists| && n <= |lists| && forall j :: 0 <= j < |lists| && j != k ==> lists[j] == []
    ensures Flatten(lists[..n]) == if k < n then lists[k] else []
  {
    if n > 0 {
      OneList(lists, k, n - 1);
      FlattenTake(lists, n - 1);
    }
  }

  lemma SizeAlone()
    ensures Flatten(SizeBuiltIn()) == ["size"] && AreBuckets(SizeBuiltIn()) && IsKeyword("size")
  {
    var builtin := SizeBuiltIn();
    SizeIsKeyword();
    OneList(builtin, 18, LETTERS);
    assert builtin[..LETTERS] == builtin;
    hide IsKeyword, Bucket, Flatten;
  }

  lemma SizeIsKeyword()
    ensures IsKeyword("size") && Bucket("size") == 18
  {}

  // `size` is built in; should the grammar name it too, `siz` resolves to it among all
  // keywords but finds nothing.
  method SizeListedTwice() returns (token: Option<string>)
    ensures Resolves(["size"] + Flatten(SizeBuiltIn()), "size", "siz") && token == None
  {
    var builtin := SizeBuiltIn();
    SizeAlone();
    hide Flatten, AreBuckets, IsKeyword, SizeBuiltIn;
    assert LowerAll("siz") == "siz" && "siz" <= "size";
    token := CompileAndFind(["size"], builtin, "siz");
    assert forall w :: Chooses(["size"], ["size"], w, "siz") ==> w == "size";
    assert Listed(["size"], ["size"], "size") == 2;
    assert |LowerAll("siz")| != |"size"|;
  }
}
