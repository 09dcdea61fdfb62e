/**
  The generator of the keyword table: words of the command grammar are collected
  into one list per initial letter, each list is sorted, and one pass over
  neighbouring words gives every keyword its minimum match length.
*/
module BnfParser {
  import opened Keywords

  // One row of the generated table: a keyword, the name of its token macro and the
  // number of characters needed to select it. The row after the last keyword has
  // match length 0.
  datatype Entry = Entry(name: string, token: string, matchLen: nat)

  const TERMINATOR := Entry("", "", 0)
  const LETTERS := 26

  function Bucket(w: string): (j: int)
    requires IsKeyword(w)
    ensures 0 <= j < LETTERS
  {
    w[0] as int - 'a' as int
  }

  function Flatten(lists: seq<seq<string>>): seq<string> {
    if lists == [] then [] else Flatten(lists[..|lists| - 1]) + lists[|lists| - 1]
  }

  lemma {:induction false} InFlatten(lists: seq<seq<string>>, w: string)
    ensures w in Flatten(lists) <==> exists j :: 0 <= j < |lists| && w in lists[j]
  {
    if lists != [] {
      var n := |lists| - 1;
      InFlatten(lists[..n], w);
      assert forall j :: 0 <= j < n ==> lists[..n][j] == lists[j];
    }
  }

  lemma FlattenTake(lists: seq<seq<string>>, n: nat)
    requires n < |lists|
    ensures Flatten(lists[..n + 1]) == Flatten(lists[..n]) + lists[n]
  {
    assert lists[..n + 1][..n] == lists[..n];
  }

  // Appends to every letter's list its built-in words.
  function Extended(lists: seq<seq<string>>, builtin: seq<seq<string>>): (r: seq<seq<string>>)
    requires |lists| == |builtin| == LETTERS
    ensures |r| == LETTERS && forall j :: 0 <= j < LETTERS ==> r[j] == lists[j] + builtin[j]
  {
    seq(LETTERS, j requires 0 <= j < LETTERS => lists[j] + builtin[j])
  }

  // Every list holds keywords with its own initial letter.
  ghost predicate AreBuckets(lists: seq<seq<string>>) {
    && |lists| == LETTERS
    && forall j :: 0 <= j < LETTERS ==> forall w <- lists[j] :: IsKeyword(w) && Bucket(w) == j
  }

  function Names(rows: seq<Entry>): (r: seq<string>)
    ensures |r| == |rows| && forall i :: 0 <= i < |rows| ==> r[i] == rows[i].name
  {
    seq(|rows|, i requires 0 <= i < |rows| => rows[i].name)
  }

  // The length written for row k. A word that is there once gets its globally shortest
  // abbreviation. Of a word that is repeated, the first row asks for the whole word and
  // the later ones for more than that.
  ghost predicate IsRowLength(words: seq<string>, names: seq<string>, k: nat, n: nat)
    requires k < |names|
  {
    var w := names[k];
    if w in names[..k] then n == |w| + 1
    else if w in names[k + 1..] then n == |w|
    else IsMatchLength(words, w, n)
  }

  // Row k of rows with these names.
  ghost predicate IsRow(words: seq<string>, names: seq<string>, k: nat, e: Entry)
    requires k < |names|
  {
    e.name == names[k] && IsKeyword(e.name) && e.token == UpperAll(e.name) && IsRowLength(words, names, k, e.matchLen)
  }

  ghost predicate AreRows(words: seq<string>, rows: seq<Entry>) {
    && Ordered(Names(rows))
    && forall k :: 0 <= k < |rows| ==> IsRow(words, Names(rows), k, rows[k])
  }

  // What the table of a keyword collection is, without letters or neighbours: all
  // keywords in one ascending run.
  ghost predicate IsTable(table: seq<Entry>, words: seq<string>) {
    && table != []
    && table[|table| - 1] == Entry("", "", 0)
    && var rows := table[..|table| - 1];
       multiset(Names(rows)) == multiset(words) && AreRows(words, rows)
  }

  // Comparing a word with its sorted neighbours decides sharing with every word.
  lemma NeighboursDecide(s: seq<string>, k: nat, m: nat)
    requires Ordered(s) && k < |s| && 1 <= m <= |s[k]|
    requires (k > 0 ==> s[k - 1] != s[k]) && (k + 1 < |s| ==> s[k + 1] != s[k])
    ensures Shared(s, s[k], s[k][..m]) <==>
      (k > 0 && m <= Lcp(s[k - 1], s[k])) || (k + 1 < |s| && m <= Lcp(s[k], s[k + 1]))
  {
    var w := s[k];
    if k > 0 {
      assert s[k - 1] in s;
      LcpPrefix(w, s[k - 1], m);
      LcpSymmetric(w, s[k - 1]);
    }
    if k + 1 < |s| {
      assert s[k + 1] in s;
      LcpPrefix(w, s[k + 1], m);
    }
    if Shared(s, w, w[..m]) {
      var v :| v in s && v != w && w[..m] <= v;
      var i :| 0 <= i < |s| && s[i] == v;
      LcpPrefix(w, v, m);
      LcpSymmetric(w, v);
      if i < k {
        BetweenShares(s, i, k - 1, k);
      } else {
        BetweenShares(s, k, k + 1, i);
      }
    }
  }

  lemma BetweenShares(s: seq<string>, a: nat, b: nat, c: nat)
    requires Ordered(s) && a <= b <= c < |s| && s[a] != s[c]
    ensures Lcp(s[a], s[c]) <= Lcp(s[a], s[b]) && Lcp(s[a], s[c]) <= Lcp(s[b], s[c])
  {
    LcpPrefix(s[a], s[c], 0);
    LcpStops(s[a], s[a], |s[a]|);
    LcpStops(s[c], s[c], |s[c]|);
    if s[a] != s[b] && s[b] != s[c] {
      LcpSandwich(s[a], s[b], s[c]);
    }
  }

  // The value the pass leaves for a word that differs from its neighbours.
  lemma NeighbourMatchLength(s: seq<string>, k: nat, n: nat)
    requires Ordered(s) && k < |s| && s[k] != []
    requires (k > 0 ==> s[k - 1] != s[k]) && (k + 1 < |s| ==> s[k + 1] != s[k])
    requires n >= 1
    requires k > 0 ==> n >= Lcp(s[k - 1], s[k]) + 1
    requires k + 1 < |s| ==> n >= if Lcp(s[k], s[k + 1]) == |s[k]| then |s[k]| else Lcp(s[k], s[k + 1]) + 1
    requires n <= |s[k]|
    requires n == 1 || (k > 0 && n == Lcp(s[k - 1], s[k]) + 1)
      || (k + 1 < |s| && n <= Lcp(s[k], s[k + 1]) + 1)
    ensures IsMatchLength(s, s[k], n)
  {
    forall m | 1 <= m < n ensures Shared(s, s[k], s[k][..m]) {
      NeighboursDecide(s, k, m);
    }
    if n < |s[k]| {
      NeighboursDecide(s, k, n);
    }
  }

  // In order, copies of a word stand side by side.
  lemma CopiesAdjacent(s: seq<string>, k: nat)
    requires Ordered(s) && k < |s|
    ensures s[k] in s[..k] <==> k > 0 && s[k - 1] == s[k]
    ensures s[k] in s[k + 1..] <==> k + 1 < |s| && s[k + 1] == s[k]
  {
    if i :| 0 <= i < k && s[i] == s[k] {
      assert AtMost(s[i], s[k - 1]) && AtMost(s[k - 1], s[k]);
      NotBoth(s[k - 1], s[k]);
    }
    if i :| k < i < |s| && s[i] == s[k] {
      assert i == k + 1 || AtMost(s[k + 1], s[i]);
      assert AtMost(s[k], s[k + 1]);
      NotBoth(s[k], s[k + 1]);
    }
    if k > 0 {
      assert s[k - 1] == s[..k][k - 1];
    }
    if k + 1 < |s| {
      assert s[k + 1] == s[k + 1..][0];
    }
  }

  lemma NotBoth(a: string, b: string)
    ensures !(Less(a, b) && Less(b, a))
  {}

  // Words of other letters never share a nonempty prefix.
  lemma BucketMatchLength(lists: seq<seq<string>>, j: int, s: seq<string>, w: string, n: nat)
    requires AreBuckets(lists) && 0 <= j < LETTERS && w in lists[j]
    requires forall v :: v in s <==> v in lists[j]
    requires IsMatchLength(s, w, n)
    ensures IsMatchLength(Flatten(lists), w, n)
  {
    forall m | 1 <= m <= |w|
      ensures Shared(Flatten(lists), w, w[..m]) <==> Shared(s, w, w[..m])
    {
      var p := w[..m];
      if Shared(s, w, p) {
        var v :| v in s && v != w && p <= v;
        InFlatten(lists, v);
      }
      if Shared(Flatten(lists), w, p) {
        var v :| v in Flatten(lists) && v != w && p <= v;
        InFlatten(lists, v);
        var i :| 0 <= i < |lists| && v in lists[i];
        assert p[0] == v[0] == w[0];
        assert Bucket(v) == i && Bucket(w) == j;
      }
    }
  }

  // The inner loop: index of the first difference.
  method FirstDifference(token: string, next: string) returns (index: nat)
    ensures index == Lcp(token, next)
  {
    index := 0;
    while index < |token| && index < |next| && token[index] == next[index]
      invariant index <= |token| && index <= |next|
      invariant token[..index] == next[..index]
    {
      index := index + 1;
    }
    LcpStops(token, next, index);
  }

  // One letter's rows. matchLen is carried from row to row.
  method EmitLetter(s: seq<string>) returns (rows: seq<Entry>)
    requires Ordered(s) && forall w <- s :: IsKeyword(w)
    ensures Names(rows) == s && AreRows(s, rows)
  {
    rows := [];
    var matchLen := 0;
    for k := 0 to |s|
      invariant Names(rows) == s[..k]
      invariant forall i :: 0 <= i < k ==> IsRow(s, s, i, rows[i])
      invariant k < |s| ==> matchLen == if k == 0 then 0 else Lcp(s[k - 1], s[k]) + 1
    {
      var token := s[k];
      assert token in s;
      var emitted;
      if k > 0 {
        PreviousShares(s, k);
      }
      CopiesAdjacent(s, k);
      if k + 1 < |s| {
        var index := FirstDifference(token, s[k + 1]);
        LcpPrefix(token, s[k + 1], |token|);
        if matchLen > index {
          emitted := matchLen;
          matchLen := index + 1;
        } else {
          matchLen := if index == |token| then index else index + 1;
          emitted := matchLen;
          if index == |token| {
            matchLen := matchLen + 1;
          }
        }
      } else {
        if matchLen == 0 {
          matchLen := matchLen + 1;
        }
        emitted := matchLen;
      }
      if (k == 0 || s[k - 1] != token) && (k + 1 == |s| || s[k + 1] != token) {
        NeighbourMatchLength(s, k, emitted);
      }
      rows := rows + [Entry(token, UpperAll(token), emitted)];
    }
    assert s[..|s|] == s;
  }

  // The words of one letter are sorted, then written.
  method SortAndEmit(words: seq<string>) returns (rows: seq<Entry>)
    requires forall w <- words :: IsKeyword(w)
    ensures multiset(Names(rows)) == multiset(words) && AreRows(Names(rows), rows)
  {
    rows := [];
    if words != [] {
      var sorted := Sorted(words);
      SortedOrdered(words);
      SameMembers(sorted, words);
      rows := EmitLetter(sorted);
    }
  }

  // What a word shares with the one before it: everything if they are the same word,
  // else less than the whole of it.
  lemma PreviousShares(s: seq<string>, k: nat)
    requires Ordered(s) && 0 < k < |s|
    ensures Lcp(s[k - 1], s[k]) <= |s[k]|
    ensures Lcp(s[k - 1], s[k]) == |s[k]| <==> s[k - 1] == s[k]
  {
    LcpPrefix(s[k], s[k - 1], |s[k]|);
    LcpSymmetric(s[k], s[k - 1]);
    assert s[k][..|s[k]|] == s[k];
    if s[k - 1] != s[k] {
      assert AtMost(s[k - 1], s[k]);
      PrefixNotLess(s[k - 1], s[k]);
    }
  }

  lemma PrefixNotLess(a: string, b: string)
    requires Less(a, b)
    ensures !(b <= a)
  {
  }

  lemma AcrossBuckets(v: string, w: string)
    requires IsKeyword(v) && IsKeyword(w) && Bucket(v) < Bucket(w)
    ensures Less(v, w)
  {}

  class Generator {
    // The words collected so far, by initial letter.
    const tokenList: array<seq<string>>

    ghost predicate Valid()
      reads this, tokenList
    {
      AreBuckets(tokenList[..])
    }

    // No word has been collected twice.
    ghost predicate AllDistinct()
      reads this, tokenList
    {
      tokenList.Length == LETTERS && forall j :: 0 <= j < LETTERS ==> Distinct(tokenList[j])
    }

    ghost function Words(): seq<string>
      reads this, tokenList
    {
      Flatten(tokenList[..])
    }

    constructor ()
      ensures Valid() && AllDistinct() && fresh(tokenList)
      ensures forall w :: w !in Words()
    {
      tokenList := new seq<string>[LETTERS](_ => []);
      new;
      forall w ensures w !in Words() {
        InFlatten(tokenList[..], w);
      }
    }

    // Adds a word to the list of its letter unless it is there.
    method GetPureWord(word: string)
      requires Valid() && AllDistinct() && IsKeyword(word)
      modifies tokenList
      ensures Valid() && AllDistinct()
      ensures forall w :: w in Words() <==> w == word || w in old(Words())
    {
      var index := Bucket(word);
      if word !in tokenList[index] {
        tokenList[index] := tokenList[index] + [word];
      }
      forall w ensures w in Words() <==> w == word || w in old(Words()) {
        InFlatten(tokenList[..], w);
        InFlatten(old(tokenList[..]), w);
        if w in old(Words()) {
          var j :| 0 <= j < LETTERS && w in old(tokenList[..])[j];
          assert w in tokenList[..][j];
        }
      }
    }

    // The word loop over the command grammar.
    method CollectTokens(words: seq<string>)
      requires Valid() && AllDistinct() && forall w <- words :: IsKeyword(w)
      modifies tokenList
      ensures Valid() && AllDistinct()
      ensures forall w :: w in Words() <==> w in words || w in old(Words())
    {
      for i := 0 to |words|
        invariant Valid() && AllDistinct()
        invariant forall w :: w in Words() <==> w in words[..i] || w in old(Words())
      {
        GetPureWord(words[i]);
      }
    }

    // Adds the built-in words of every letter, which are appended unchecked, and
    // writes the table.
    method GenLookup(builtin: seq<seq<string>>) returns (table: seq<Entry>)
      requires Valid() && AreBuckets(builtin)
      modifies tokenList
      ensures Valid()
      ensures multiset(Words()) == old(multiset(Words())) + multiset(Flatten(builtin))
      ensures IsTable(table, Words())
      ensures forall k :: 0 <= k < |table| - 1 ==> IsMacroOf(table[k].token, table[k].name)
    {
      hide AreRows, IsTable, IsMacroOf;
      ghost var before := tokenList[..];
      ghost var lists := Extended(before, builtin);
      var rows := [];
      NoRows(lists);
      for j := 0 to LETTERS
        invariant forall i :: 0 <= i < j ==> tokenList[i] == lists[i]
        invariant forall i :: j <= i < LETTERS ==> tokenList[i] == before[i]
        invariant RowsUpTo(lists, j, rows)
      {
        tokenList[j] := tokenList[j] + builtin[j];
        var more := SortAndEmit(tokenList[j]);
        AppendRows(lists, j, rows, more);
        rows := rows + more;
      }
      assert tokenList[..] == lists;
      table := rows + [TERMINATOR];
      assert lists[..LETTERS] == lists;
      TableOf(rows, Flatten(lists));
      ExtendedWords(before, builtin, LETTERS);
      assert before[..LETTERS] == before && builtin[..LETTERS] == builtin;
      RowMacros(table, Words());
    }
  }

  lemma NoRows(lists: seq<seq<string>>)
    ensures RowsUpTo(lists, 0, [])
  {
    assert lists[..0] == [] && Names([]) == [];
  }

  lemma TableOf(rows: seq<Entry>, words: seq<string>)
    requires multiset(Names(rows)) == multiset(words) && AreRows(words, rows)
    ensures IsTable(rows + [Entry("", "", 0)], words)
  {
    assert (rows + [Entry("", "", 0)])[..|rows|] == rows;
  }

  // Every row of a table carries its keyword in capitals.
  lemma RowMacros(table: seq<Entry>, words: seq<string>)
    requires IsTable(table, words)
    ensures forall k :: 0 <= k < |table| - 1 ==> IsMacroOf(table[k].token, table[k].name)
  {
    var rows := table[..|table| - 1];
    forall k | 0 <= k < |rows| ensures IsMacroOf(table[k].token, table[k].name) {
      assert IsRow(words, Names(rows), k, rows[k]) && table[k] == rows[k];
      MacroName(rows[k].name);
    }
  }

  lemma SameMembers(a: seq<string>, b: seq<string>)
    requires multiset(a) == multiset(b)
    ensures forall w :: w in a <==> w in b
  {
    forall w ensures w in a <==> w in b {
      assert w in a <==> w in multiset(a);
      assert w in b <==> w in multiset(b);
    }
  }

  // The rows of the letters before j.
  ghost predicate RowsUpTo(lists: seq<seq<string>>, j: int, rows: seq<Entry>)
    requires 0 <= j <= |lists|
  {
    multiset(Names(rows)) == multiset(Flatten(lists[..j])) && AreRows(Flatten(lists), rows)
  }

  lemma {:induction false} ExtendedWords(lists: seq<seq<string>>, builtin: seq<seq<string>>, n: nat)
    requires |lists| == |builtin| == LETTERS && n <= LETTERS
    ensures multiset(Flatten(Extended(lists, builtin)[..n])) ==
      multiset(Flatten(lists[..n])) + multiset(Flatten(builtin[..n]))
  {
    if n > 0 {
      var all := Extended(lists, builtin);
      ExtendedWords(lists, builtin, n - 1);
      FlattenTake(all, n - 1);
      FlattenTake(lists, n - 1);
      FlattenTake(builtin, n - 1);
      assert multiset(all[n - 1]) == multiset(lists[n - 1]) + multiset(builtin[n - 1]);
    }
  }

  // Rows of one letter, seen among rows of earlier letters, have the same lengths.
  lemma RowAmongAll(lists: seq<seq<string>>, j: int, names: seq<string>, sorted: seq<string>, b: nat, e: Entry)
    requires AreBuckets(lists) && 0 <= j < LETTERS && b < |sorted|
    requires multiset(sorted) == multiset(lists[j]) && forall v <- names :: v !in lists[j]
    requires IsRow(sorted, sorted, b, e)
    ensures IsRow(Flatten(lists), names + sorted, |names| + b, e)
  {
    var all, k := names + sorted, |names| + b;
    SameMembers(sorted, lists[j]);
    assert sorted[b] in sorted;
    assert all[..k] == names + sorted[..b] && all[k + 1..] == sorted[b + 1..];
    if sorted[b] !in sorted[..b] && sorted[b] !in sorted[b + 1..] {
      BucketMatchLength(lists, j, sorted, sorted[b], e.matchLen);
    }
  }

  // Rows keep their lengths when rows of a later letter follow.
  lemma RowKeeps(words: seq<string>, names: seq<string>, sorted: seq<string>, k: nat, e: Entry)
    requires k < |names| && (forall v <- names :: v !in sorted) && IsRow(words, names, k, e)
    ensures IsRow(words, names + sorted, k, e)
  {
    assert names[k] in names;
    assert (names + sorted)[..k] == names[..k] && (names + sorted)[k + 1..] == names[k + 1..] + sorted;
  }

  lemma EarlierLetters(lists: seq<seq<string>>, j: int, names: seq<string>)
    requires AreBuckets(lists) && 0 <= j < LETTERS && multiset(names) == multiset(Flatten(lists[..j]))
    ensures forall v <- names :: IsKeyword(v) && Bucket(v) < j
  {
    SameMembers(names, Flatten(lists[..j]));
    forall v | v in names ensures IsKeyword(v) && Bucket(v) < j {
      InFlatten(lists[..j], v);
      var i :| 0 <= i < j && v in lists[..j][i];
      assert v in lists[i];
    }
  }

  lemma LetterAfterLetters(names: seq<string>, sorted: seq<string>, j: int)
    requires Ordered(names) && Ordered(sorted)
    requires forall v <- names :: IsKeyword(v) && Bucket(v) < j
    requires forall v <- sorted :: IsKeyword(v) && Bucket(v) == j
    ensures Ordered(names + sorted)
  {
    forall a, b | 0 <= a < |names| && 0 <= b < |sorted| ensures Less(names[a], sorted[b]) {
      assert names[a] in names && sorted[b] in sorted;
      AcrossBuckets(names[a], sorted[b]);
    }
  }

  lemma NamesConcat(a: seq<Entry>, b: seq<Entry>)
    ensures Names(a + b) == Names(a) + Names(b)
    ensures multiset(Names(a + b)) == multiset(Names(a)) + multiset(Names(b))
  {
    assert Names(a + b) == Names(a) + Names(b);
  }

  lemma AppendRows(lists: seq<seq<string>>, j: int, rows: seq<Entry>, more: seq<Entry>)
    requires AreBuckets(lists) && 0 <= j < LETTERS
    requires RowsUpTo(lists, j, rows)
    requires multiset(Names(more)) == multiset(lists[j]) && AreRows(Names(more), more)
    ensures RowsUpTo(lists, j + 1, rows + more)
  {
    AppendCounts(lists, j, rows, more);
    EarlierLetters(lists, j, Names(rows));
    SameMembers(Names(more), lists[j]);
    BothAreRows(lists, j, rows, more);
  }

  lemma AppendCounts(lists: seq<seq<string>>, j: int, rows: seq<Entry>, more: seq<Entry>)
    requires 0 <= j < |lists|
    requires multiset(Names(rows)) == multiset(Flatten(lists[..j])) && multiset(Names(more)) == multiset(lists[j])
    ensures multiset(Names(rows + more)) == multiset(Flatten(lists[..j + 1]))
  {
    NamesConcat(rows, more);
    FlattenTake(lists, j);
  }

  // Every row has its length among the rows of both.
  lemma RowStays(lists: seq<seq<string>>, j: int, rows: seq<Entry>, more: seq<Entry>, k: nat)
    requires AreBuckets(lists) && 0 <= j < LETTERS && k < |rows + more|
    requires AreRows(Flatten(lists), rows) && AreRows(Names(more), more)
    requires multiset(Names(more)) == multiset(lists[j]) && forall v <- Names(rows) :: v !in lists[j]
    ensures IsRow(Flatten(lists), Names(rows) + Names(more), k, (rows + more)[k])
  {
    var names, sorted, b := Names(rows), Names(more), k - |rows|;
    hide IsRow, Ordered;
    if k < |rows| {
      SameMembers(sorted, lists[j]);
      assert IsRow(Flatten(lists), names, k, rows[k]);
      RowKeeps(Flatten(lists), names, sorted, k, rows[k]);
    } else {
      assert IsRow(sorted, sorted, b, more[b]);
      RowAmongAll(lists, j, names, sorted, b, more[b]);
    }
  }

  lemma BothAreRows(lists: seq<seq<string>>, j: int, rows: seq<Entry>, more: seq<Entry>)
    requires AreBuckets(lists) && 0 <= j < LETTERS
    requires AreRows(Flatten(lists), rows) && forall v <- Names(rows) :: IsKeyword(v) && Bucket(v) < j
    requires multiset(Names(more)) == multiset(lists[j]) && AreRows(Names(more), more)
    requires forall v <- Names(more) :: IsKeyword(v) && Bucket(v) == j
    ensures AreRows(Flatten(lists), rows + more)
  {
    var names, sorted := Names(rows), Names(more);
    NamesConcat(rows, more);
    assert forall v <- names :: v !in lists[j];
    LetterAfterLetters(names, sorted, j);
    forall k | 0 <= k < |rows + more| ensures IsRow(Flatten(lists), names + sorted, k, (rows + more)[k]) {
      hide *;
      RowStays(lists, j, rows, more, k);
    }
  }

  // ---------- tables of distinct keywords ----------

  // Every row has its keyword's globally shortest abbreviation exactly when no keyword
  // is repeated.
  lemma ShortestIffDistinct(table: seq<Entry>, words: seq<string>)
    requires IsTable(table, words)
    ensures (forall k :: 0 <= k < |table| - 1 ==> IsMatchLength(words, table[k].name, table[k].matchLen))
      <==> Distinct(words)
  {
    var rows := table[..|table| - 1];
    var names := Names(rows);
    DistinctIff(words);
    DistinctIff(names);
    assert forall w :: Repeated(words, w) == Repeated(names, w);
    if Distinct(names) {
      forall k | 0 <= k < |rows| ensures IsMatchLength(words, table[k].name, table[k].matchLen) {
        assert IsRow(words, names, k, rows[k]);
        CountAt(names, k);
      }
    } else {
      var i, k :| 0 <= i < k < |names| && names[i] == names[k];
      assert names[k] == names[..k][i] && IsRow(words, names, k, rows[k]);
      assert table[k] == rows[k];
    }
  }
}
