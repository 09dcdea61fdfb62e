/**
  Words of the command language: their order, their common prefixes, and what it
  means for an abbreviation to be unambiguous among a collection of keywords.
*/
module Keywords {

  predicate IsKeyword(w: string) {
    && w != []
    && 'a' <= w[0] <= 'z'
    && forall c <- w :: 'a' <= c <= 'z' || '0' <= c <= '9' || c == '_'
  }

  // C `tolower` and `toupper` in the "C" locale.
  function Lower(c: char): char {
    if 'A' <= c <= 'Z' then c - 'A' + 'a' else c
  }

  function Upper(c: char): char {
    if 'a' <= c <= 'z' then c - 'a' + 'A' else c
  }

  function LowerAll(s: string): (r: string)
    ensures |r| == |s| && forall i :: 0 <= i < |s| ==> r[i] == Lower(s[i])
  {
    seq(|s|, i requires 0 <= i < |s| => Lower(s[i]))
  }

  function UpperAll(s: string): (r: string)
    ensures |r| == |s| && forall i :: 0 <= i < |s| ==> r[i] == Upper(s[i])
  {
    seq(|s|, i requires 0 <= i < |s| => Upper(s[i]))
  }

  // The two cases of the alphabet, letter by letter.
  const SMALL := "abcdefghijklmnopqrstuvwxyz"
  const CAPITAL := "ABCDEFGHIJKLMNOPQRSTUVWXYZ"

  // u is the capital of the letter c, or c itself if that is no small letter.
  predicate IsCapitalOf(u: char, c: char) {
    if c in SMALL then exists k :: 0 <= k < 26 && SMALL[k] == c && CAPITAL[k] == u else u == c
  }

  // u is w in capitals.
  ghost predicate IsMacroOf(u: string, w: string) {
    |u| == |w| && forall i :: 0 <= i < |w| ==> IsCapitalOf(u[i], w[i])
  }

  lemma SmallAt(k: nat)
    requires k < 26
    ensures SMALL[k] as int == 'a' as int + k && CAPITAL[k] as int == 'A' as int + k
  {}

  lemma SmallIff(c: char)
    ensures c in SMALL <==> 'a' <= c <= 'z'
    ensures c in CAPITAL <==> 'A' <= c <= 'Z'
  {
    if 'a' <= c <= 'z' {
      SmallAt(c as int - 'a' as int);
      assert SMALL[c as int - 'a' as int] == c;
    }
    if 'A' <= c <= 'Z' {
      SmallAt(c as int - 'A' as int);
      assert CAPITAL[c as int - 'A' as int] == c;
    }
    if c in SMALL {
      var k :| 0 <= k < 26 && SMALL[k] == c;
      SmallAt(k);
    }
    if c in CAPITAL {
      var k :| 0 <= k < 26 && CAPITAL[k] == c;
      SmallAt(k);
    }
  }

  // Small letters have their capitals, and back; anything else stays.
  lemma CaseTable(c: char)
    ensures forall k :: 0 <= k < 26 ==> Upper(SMALL[k]) == CAPITAL[k] && Lower(CAPITAL[k]) == SMALL[k]
    ensures c !in SMALL ==> Upper(c) == c
    ensures c !in CAPITAL ==> Lower(c) == c
  {
    forall k | 0 <= k < 26 ensures Upper(SMALL[k]) == CAPITAL[k] && Lower(CAPITAL[k]) == SMALL[k] {
      SmallAt(k);
    }
    SmallIff(c);
  }

  lemma UpperIsCapital(c: char)
    ensures IsCapitalOf(Upper(c), c)
  {
    CaseTable(c);
    if c in SMALL {
      var k :| 0 <= k < 26 && SMALL[k] == c;
      assert Upper(SMALL[k]) == CAPITAL[k];
    }
  }

  lemma CapitalOf(c: char)
    requires 'a' <= c <= 'z' || '0' <= c <= '9' || c == '_'
    ensures IsCapitalOf(Upper(c), c) && Upper(c) !in SMALL && Lower(Upper(c)) == c
  {
    UpperIsCapital(c);
    SmallIff(Upper(c));
    hide IsCapitalOf;
  }

  // The macro name of a keyword: the same word without small letters, which in lower
  // case is the keyword again.
  lemma MacroName(w: string)
    requires IsKeyword(w)
    ensures IsMacroOf(UpperAll(w), w)
    ensures forall c <- UpperAll(w) :: c !in SMALL
    ensures LowerAll(UpperAll(w)) == w
  {
    hide IsCapitalOf, Upper, Lower;
    forall i | 0 <= i < |w|
      ensures IsCapitalOf(UpperAll(w)[i], w[i]) && UpperAll(w)[i] !in SMALL && Lower(Upper(w[i])) == w[i]
    {
      assert w[i] in w;
      CapitalOf(w[i]);
    }
  }

  // The macro names written for distinct keywords are distinct.
  lemma UpperAllInjective(a: string, b: string)
    requires IsKeyword(a) && IsKeyword(b) && UpperAll(a) == UpperAll(b)
    ensures a == b
  {
    forall i | 0 <= i < |a| ensures a[i] == b[i] {
      assert a[i] in a && b[i] in b;
      assert UpperAll(a)[i] == UpperAll(b)[i];
    }
  }

  // Comparison of Python strings.
  predicate Less(a: string, b: string) {
    && b != []
    && (a == [] || a[0] < b[0] || (a[0] == b[0] && Less(a[1..], b[1..])))
  }

  // At place i the two differ for the first time: a ends there or has the smaller
  // character.
  predicate DiffersAt(a: string, b: string, i: nat) {
    i <= |a| && i < |b| && a[..i] == b[..i] && (i == |a| || a[i] < b[i])
  }

  lemma DiffersLater(a: string, b: string, i: nat)
    requires a != [] && b != [] && a[0] == b[0]
    ensures DiffersAt(a, b, i + 1) <==> DiffersAt(a[1..], b[1..], i)
  {
    if i < |a| && i < |b| {
      assert a[..i + 1] == [a[0]] + a[1..][..i] && b[..i + 1] == [b[0]] + b[1..][..i];
      assert a[1..][..i] == a[..i + 1][1..] && b[1..][..i] == b[..i + 1][1..];
    }
  }

  // What the comparison means.
  lemma {:induction false} LessIff(a: string, b: string)
    ensures Less(a, b) <==> exists i: nat :: DiffersAt(a, b, i)
  {
    if b == [] || a == [] || a[0] < b[0] {
      assert b != [] ==> DiffersAt(a, b, 0);
    } else if a[0] == b[0] {
      LessIff(a[1..], b[1..]);
      if i: nat :| DiffersAt(a[1..], b[1..], i) {
        DiffersLater(a, b, i);
      }
      if i: nat :| DiffersAt(a, b, i) {
        DiffersLater(a, b, i - 1);
      }
    } else {
      forall i: nat ensures !DiffersAt(a, b, i) {
        if 0 < i <= |a| && i <= |b| {
          assert a[..i][0] == a[0] && b[..i][0] == b[0];
        }
      }
    }
  }

  predicate AtMost(a: string, b: string) {
    a == b || Less(a, b)
  }

  // In order; a word may be there more than once.
  ghost predicate Ordered(s: seq<string>) {
    forall i, j :: 0 <= i < j < |s| ==> AtMost(s[i], s[j])
  }

  ghost predicate Distinct(s: seq<string>) {
    forall i, j :: 0 <= i < j < |s| ==> s[i] != s[j]
  }

  lemma LessTransitive(a: string, b: string, c: string)
    requires Less(a, b) && Less(b, c)
    ensures Less(a, c)
  {}

  lemma LessTotal(a: string, b: string)
    ensures a == b || Less(a, b) || Less(b, a)
  {
    if a != [] && b != [] && a[0] == b[0] {
      LessTotal(a[1..], b[1..]);
      assert a == [a[0]] + a[1..] && b == [b[0]] + b[1..];
    }
  }

  // Python `sorted`.
  function Insert(w: string, s: seq<string>): seq<string> {
    if s == [] || Less(w, s[0]) then [w] + s else [s[0]] + Insert(w, s[1..])
  }

  function Sorted(s: seq<string>): seq<string> {
    if s == [] then [] else Insert(s[0], Sorted(s[1..]))
  }

  lemma {:induction false} InsertCounts(w: string, s: seq<string>)
    ensures multiset(Insert(w, s)) == multiset([w]) + multiset(s)
  {
    if s != [] && !Less(w, s[0]) {
      InsertCounts(w, s[1..]);
      assert s == [s[0]] + s[1..];
    }
  }

  lemma AtMostTransitive(a: string, b: string, c: string)
    requires AtMost(a, b) && AtMost(b, c)
    ensures AtMost(a, c)
  {
    if a != b && b != c {
      LessTransitive(a, b, c);
    }
  }

  lemma OrderedFrom(first: string, s: seq<string>)
    requires Ordered(s) && (s == [] || AtMost(first, s[0]))
    ensures Ordered([first] + s)
  {
    forall j | 0 <= j < |s| ensures AtMost(first, s[j]) {
      AtMostTransitive(first, s[0], s[j]);
    }
  }

  lemma {:induction false} InsertOrdered(w: string, s: seq<string>)
    requires Ordered(s)
    ensures Ordered(Insert(w, s))
    ensures Insert(w, s)[0] == w || (s != [] && Insert(w, s)[0] == s[0])
  {
    if s == [] || Less(w, s[0]) {
      OrderedFrom(w, s);
    } else {
      LessTotal(w, s[0]);
      assert |s| > 1 ==> AtMost(s[0], s[1]);
      InsertOrdered(w, s[1..]);
      OrderedFrom(s[0], Insert(w, s[1..]));
    }
  }

  // Sorting keeps every word as often as it is there.
  lemma {:induction false} SortedOrdered(s: seq<string>)
    ensures Ordered(Sorted(s)) && multiset(Sorted(s)) == multiset(s)
  {
    if s != [] {
      SortedOrdered(s[1..]);
      InsertCounts(s[0], Sorted(s[1..]));
      InsertOrdered(s[0], Sorted(s[1..]));
      assert s == [s[0]] + s[1..];
    }
  }

  // Length of the longest common prefix.
  function Lcp(a: string, b: string): nat {
    if a == [] || b == [] || a[0] != b[0] then 0 else 1 + Lcp(a[1..], b[1..])
  }

  lemma LcpPrefix(a: string, b: string, m: nat)
    requires m <= |a|
    ensures a[..m] <= b <==> m <= Lcp(a, b)
    ensures Lcp(a, b) <= |a| && Lcp(a, b) <= |b|
  {
    if a == [] || b == [] || a[0] != b[0] {
      if m > 0 {
        assert a[..m][0] == a[0];
      }
    } else if m > 0 {
      LcpPrefix(a[1..], b[1..], m - 1);
      assert a[..m] == [a[0]] + a[1..][..m - 1];
      assert b == [b[0]] + b[1..];
    } else {
      LcpPrefix(a[1..], b[1..], 0);
    }
  }

  lemma LcpStops(a: string, b: string, i: nat)
    requires i <= |a| && i <= |b| && a[..i] == b[..i]
    requires i == |a| || i == |b| || a[i] != b[i]
    ensures Lcp(a, b) == i
  {
    LcpPrefix(a, b, i);
    if i < |a| {
      LcpPrefix(a, b, i + 1);
      assert a[..i + 1][i] == a[i];
    }
  }

  lemma LcpSymmetric(a: string, b: string)
    ensures Lcp(a, b) == Lcp(b, a)
  {}

  // In sorted order a word shares most with its neighbours.
  lemma {:induction false} LcpSandwich(a: string, b: string, c: string)
    requires Less(a, b) && Less(b, c)
    ensures Lcp(a, c) <= Lcp(a, b) && Lcp(a, c) <= Lcp(b, c)
  {
    if a != [] && a[0] == b[0] == c[0] {
      LcpSandwich(a[1..], b[1..], c[1..]);
    }
  }

  // p abbreviates some keyword other than w.
  ghost predicate Shared(words: seq<string>, w: string, p: string) {
    exists v :: v in words && v != w && p <= v
  }

  // n is the least length at which a prefix of w stops abbreviating any other
  // keyword, or the whole of w when no proper prefix does.
  ghost predicate IsMatchLength(words: seq<string>, w: string, n: nat) {
    && 1 <= n <= |w|
    && (n < |w| ==> !Shared(words, w, w[..n]))
    && (forall m :: 1 <= m < n ==> Shared(words, w, w[..m]))
  }

  lemma MatchLengthUnique(words: seq<string>, w: string, n: nat, m: nat)
    requires IsMatchLength(words, w, n) && IsMatchLength(words, w, m)
    ensures n == m
  {}

  // w is written more than once.
  ghost predicate Repeated(words: seq<string>, w: string) {
    multiset(words)[w] > 1
  }

  lemma CountAt(words: seq<string>, k: nat)
    requires k < |words|
    ensures Repeated(words, words[k]) <==> words[k] in words[..k] || words[k] in words[k + 1..]
  {
    var w, a, b := words[k], words[..k], words[k + 1..];
    assert words == a + [w] + b;
    assert multiset(words)[w] == multiset(a)[w] + 1 + multiset(b)[w];
    assert w in multiset(a) <==> w in a;
    assert w in multiset(b) <==> w in b;
  }

  lemma DistinctIff(words: seq<string>)
    ensures Distinct(words) <==> forall w :: !Repeated(words, w)
  {
    if Distinct(words) {
      forall w ensures !Repeated(words, w) {
        if w in words {
          var k :| 0 <= k < |words| && words[k] == w;
          CountAt(words, k);
        }
      }
    } else {
      var i, j :| 0 <= i < j < |words| && words[i] == words[j];
      assert words[j] == words[i + 1..][j - i - 1];
      CountAt(words, i);
    }
  }

  // The user's input, in any letter case, names keyword w: it is w, or it begins w
  // and no other keyword.
  ghost predicate Resolves(words: seq<string>, w: string, input: string) {
    && w in words
    && input != []
    && LowerAll(input) <= w
    && (LowerAll(input) == w || !Shared(words, w, LowerAll(input)))
  }

  lemma ResolvesUnique(words: seq<string>, v: string, w: string, input: string)
    requires Resolves(words, v, input) && Resolves(words, w, input)
    ensures v == w
  {}
}
