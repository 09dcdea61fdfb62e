/**
  The C library's view of text, as far as the client uses it: decimal output and
  input, and cutting a string at a separator.
*/
module Text {
  import opened Wrappers

  lemma Associative<T>(a: seq<T>, b: seq<T>, c: seq<T>)
    ensures a + b + c == a + (b + c)
  {}

  lemma TakeMore<T>(s: seq<T>, i: nat)
    requires i < |s|
    ensures s[..i + 1] == s[..i] + [s[i]]
  {}

  lemma Associative4<T>(a: seq<T>, b: seq<T>, c: seq<T>, d: seq<T>)
    ensures a + b + c + d == a + (b + (c + d))
  {
    Associative(a + b, c, d);
    Associative(a, b, c + d);
  }

  lemma Associative5<T>(a: seq<T>, b: seq<T>, c: seq<T>, d: seq<T>, e: seq<T>)
    ensures a + b + c + d + e == a + (b + (c + (d + e)))
  {
    Associative4(a + b, c, d, e);
    Associative(a, b, c + (d + e));
  }

  predicate IsDigit(c: char) {
    '0' <= c <= '9'
  }

  predicate IsSpace(c: char) {
    c == ' ' || 9 as char <= c <= 13 as char
  }

  // `%d` of a non-negative number.
  function Dec(n: nat): (s: string)
    ensures s != [] && forall c <- s :: IsDigit(c)
  {
    if n < 10 then ['0' + n as char] else Dec(n / 10) + ['0' + (n % 10) as char]
  }

  // `%d` of any number.
  function DecInt(n: int): string {
    if n < 0 then "-" + Dec(-n) else Dec(n)
  }

  lemma DecIntSign(n: int)
    ensures DecInt(n) != [] && (DecInt(n)[0] == '-' <==> n < 0)
  {
    assert n >= 0 ==> IsDigit(Dec(n)[0]);
  }

  function Value(s: string): nat
    requires forall c <- s :: IsDigit(c)
  {
    if s == [] then 0
    else
      assert IsDigit(s[|s| - 1]);
      10 * Value(s[..|s| - 1]) + (s[|s| - 1] as int - '0' as int)
  }

  lemma {:induction false} ValueOfDec(n: nat)
    ensures Value(Dec(n)) == n
  {
    if n >= 10 {
      ValueOfDec(n / 10);
      assert Dec(n)[..|Dec(n)| - 1] == Dec(n / 10);
    }
  }

  lemma DecInjective(m: nat, n: nat)
    requires Dec(m) == Dec(n)
    ensures m == n
  {
    ValueOfDec(m);
    ValueOfDec(n);
  }

  lemma DecIntInjective(m: int, n: int)
    requires DecInt(m) == DecInt(n)
    ensures m == n
  {
    DecIntSign(m);
    DecIntSign(n);
    if m < 0 {
      assert DecInt(m)[1..] == Dec(-m) && DecInt(n)[1..] == Dec(-n);
      DecInjective(-m, -n);
    } else {
      DecInjective(m, n);
    }
  }

  lemma DecLength(n: nat)
    ensures |Dec(n)| == 1 <==> n < 10
    ensures |Dec(n)| <= 2 <==> n < 100
    ensures |Dec(n)| <= 3 <==> n < 1000
  {
    if n >= 10 {
      assert |Dec(n)| == |Dec(n / 10)| + 1;
      if n >= 100 {
        assert |Dec(n / 10)| == |Dec(n / 100)| + 1 by {
          assert n / 10 / 10 == n / 100;
        }
        if n >= 1000 {
          assert n / 100 / 10 == n / 1000;
        }
      }
    }
  }

  // Number of digits at the front.
  function DigitRun(s: string): (k: nat)
    ensures k <= |s| && (forall c <- s[..k] :: IsDigit(c)) && (k == |s| || !IsDigit(s[k]))
  {
    if s == [] || !IsDigit(s[0]) then 0
    else
      var k := 1 + DigitRun(s[1..]);
      assert s[..k] == [s[0]] + s[1..][..k - 1];
      k
  }

  function SkipSpaces(s: string): string {
    if s != [] && IsSpace(s[0]) then SkipSpaces(s[1..]) else s
  }

  // One `%d` conversion: optional spaces, optional sign, at least one digit; yields
  // the number and the text after it.
  function ScanInt(s: string): Option<(int, string)> {
    var t := SkipSpaces(s);
    var signed := t != [] && (t[0] == '-' || t[0] == '+');
    var d := if signed then t[1..] else t;
    var k := DigitRun(d);
    if k == 0 then None
    else Some((if signed && t[0] == '-' then -(Value(d[..k]) as int) else Value(d[..k]) as int, d[k..]))
  }

  function Atoi(s: string): int {
    match ScanInt(s) case None => 0 case Some(p) => p.0
  }

  lemma {:induction false} DigitRunStops(d: string, rest: string)
    requires forall c <- d :: IsDigit(c)
    requires rest == [] || !IsDigit(rest[0])
    ensures DigitRun(d + rest) == |d|
  {
    if d == [] {
      assert d + rest == rest;
    } else {
      assert IsDigit(d[0]) && (d + rest)[1..] == d[1..] + rest;
      DigitRunStops(d[1..], rest);
    }
  }

  lemma ScanDec(n: nat, rest: string)
    requires rest == [] || !IsDigit(rest[0])
    ensures ScanInt(Dec(n) + rest) == Some((n, rest))
  {
    var d := Dec(n);
    assert IsDigit(d[0]) && (d + rest)[0] == d[0];
    DigitRunStops(d, rest);
    assert (d + rest)[..|d|] == d && (d + rest)[|d|..] == rest;
    ValueOfDec(n);
  }

  // The blanks that a conversion skips.
  const SPACES := [' ', '\t', '\n', 11 as char, 12 as char, '\r']

  lemma SpacesAre(c: char)
    ensures IsSpace(c) <==> c in SPACES
  {
    assert SPACES[0] == ' ' && SPACES[1] == 9 as char && SPACES[2] == 10 as char;
    assert SPACES[3] == 11 as char && SPACES[4] == 12 as char && SPACES[5] == 13 as char;
    if k :| 0 <= k < 6 && SPACES[k] == c {
      assert IsSpace(SPACES[k]);
    }
  }

  lemma {:induction false} SkipBlanks(blanks: string, rest: string)
    requires forall c <- blanks :: c in SPACES
    requires rest == [] || rest[0] !in SPACES
    ensures SkipSpaces(blanks + rest) == rest
  {
    if blanks == [] {
      assert blanks + rest == rest;
      if rest != [] {
        SpacesAre(rest[0]);
      }
    } else {
      SpacesAre(blanks[0]);
      assert (blanks + rest)[1..] == blanks[1..] + rest;
      SkipBlanks(blanks[1..], rest);
    }
  }

  // Blanks before a number do not matter.
  lemma ScanBlanks(blanks: string, t: string)
    requires (forall c <- blanks :: c in SPACES) && (t == [] || t[0] !in SPACES)
    ensures ScanInt(blanks + t) == ScanInt(t)
  {
    SkipBlanks(blanks, t);
    SkipBlanks([], t);
    assert [] + t == t;
  }

  function WithSign(sign: string, n: int): int {
    if sign == "-" then -n else n
  }

  // A number: a sign or none, and digits up to the first other character.
  lemma ScanDigits(sign: string, d: string, rest: string)
    requires sign in ["", "+", "-"] && d != [] && forall c <- d :: IsDigit(c)
    requires rest == [] || !IsDigit(rest[0])
    ensures ScanInt(sign + (d + rest)) == Some((WithSign(sign, Value(d)), rest))
  {
    assert WithSign(sign, Value(d)) == if sign == "-" then -(Value(d) as int) else Value(d) as int;
    var body := d + rest;
    assert IsDigit(d[0]) && body[0] == d[0];
    DigitRunStops(d, rest);
    assert body[..|d|] == d && body[|d|..] == rest;
    SignFirst(sign, body);
    hide *;
    ScanFrom(sign + body, body, |d|);
  }

  lemma ScanFrom(t: string, body: string, k: nat)
    requires t != [] && !IsSpace(t[0]) && DigitRun(body) == k > 0
    requires body == if t[0] == '-' || t[0] == '+' then t[1..] else t
    ensures ScanInt(t) == Some((if t[0] == '-' then -(Value(body[..k]) as int) else Value(body[..k]) as int, body[k..]))
  {}

  lemma SignFirst(sign: string, body: string)
    ensures sign == "" ==> sign + body == body
    ensures |sign| == 1 ==> (sign + body)[0] == sign[0] && (sign + body)[1..] == body
  {}

  // Without a digit there is no number.
  lemma ScanNothing(sign: string, rest: string)
    requires sign in ["", "+", "-"] && (rest == [] || !IsDigit(rest[0]))
    requires sign == "" && rest != [] ==> rest[0] !in ['+', '-'] && rest[0] !in SPACES
    ensures ScanInt(sign + rest) == None
  {
    var t := sign + rest;
    if t != [] {
      SpacesAre(t[0]);
    }
    if sign == "" {
      assert t == rest;
    } else {
      assert t[1..] == rest;
    }
  }

  // A number written by `%d` is read back by `%d`.
  lemma ScanDecInt(n: int, rest: string)
    requires rest == [] || !IsDigit(rest[0])
    ensures ScanInt(DecInt(n) + rest) == Some((n, rest))
  {
    if n < 0 {
      ValueOfDec(-n);
      hide Dec, Value, ScanInt;
      ScanDigits("-", Dec(-n), rest);
      Associative("-", Dec(-n), rest);
    } else {
      ScanDec(n, rest);
    }
  }

  // The first digit is the highest, and zeros before it do not count.
  lemma {:induction false} DecLeads(n: nat)
    requires n > 0
    ensures Dec(n)[0] != '0'
  {
    if n >= 10 {
      DecLeads(n / 10);
      assert Dec(n)[0] == Dec(n / 10)[0];
    }
  }

  lemma {:induction false} ValueZero(s: string)
    requires forall c <- s :: IsDigit(c)
    ensures Value("0" + s) == Value(s)
  {
    var t, n := "0" + s, |s| - 1;
    if s == [] {
      assert t[..0] == [];
    } else {
      ValueZero(s[..n]);
      assert t[..n + 1] == "0" + s[..n];
    }
  }

  lemma DecMore(v: nat, d: nat)
    requires v > 0 && d < 10
    ensures Dec(10 * v + d) == Dec(v) + ['0' + d as char]
  {}

  // A digit string without a leading zero is the decimal spelling of its value.
  lemma {:induction false} DecOfValue(s: string)
    requires s != [] && s[0] != '0' && forall c <- s :: IsDigit(c)
    ensures Value(s) > 0 && Dec(Value(s)) == s
  {
    var n := |s| - 1;
    assert IsDigit(s[n]) && IsDigit(s[0]);
    if n == 0 {
      assert Value(s[..0]) == 0;
      assert s == [s[0]];
    } else {
      DecOfValue(s[..n]);
      DecMore(Value(s[..n]), s[n] as int - '0' as int);
      hide Dec;
      assert s == s[..n] + [s[n]];
    }
  }

  lemma AtoiDec(n: nat)
    ensures Atoi(Dec(n)) == n
  {
    ScanDec(n, []);
    assert Dec(n) + [] == Dec(n);
  }

  // Position of the first c, or the length when there is none.
  function Find(s: string, c: char): (k: nat)
    ensures k <= |s| && c !in s[..k] && (k < |s| ==> s[k] == c)
  {
    if s == [] || s[0] == c then 0
    else
      var k := 1 + Find(s[1..], c);
      assert s[..k] == [s[0]] + s[1..][..k - 1];
      k
  }

  // One call of `strsep`: the piece before the first separator, and the pointer it
  // leaves, which is NULL when there was no separator.
  function Strsep(s: string, c: char): (string, Option<string>) {
    var k := Find(s, c);
    (s[..k], if k < |s| then Some(s[k + 1..]) else None)
  }

  // All the pieces that repeated calls of `strsep` yield.
  function Split(s: string, c: char): (r: seq<string>)
    ensures r != []
    decreases |s|
  {
    var (piece, rest) := Strsep(s, c);
    if rest == None then [piece] else [piece] + Split(rest.value, c)
  }

  // The pieces from the n-th on are those of the text at str, if it is not NULL.
  ghost predicate Remain(pieces: seq<string>, n: nat, str: Option<string>, c: char) {
    && n <= |pieces|
    && pieces[n..] == if str == None then [] else Split(str.value, c)
  }

  // One more call of `strsep`.
  lemma NextPiece(pieces: seq<string>, n: nat, str: Option<string>, c: char)
    requires Remain(pieces, n, str, c) && str.Some?
    ensures n < |pieces| && pieces[n] == Strsep(str.value, c).0
    ensures Remain(pieces, n + 1, Strsep(str.value, c).1, c)
    ensures pieces[..n + 1] == pieces[..n] + [pieces[n]]
  {
    assert pieces[n] == pieces[n..][0];
    assert pieces[n + 1..] == pieces[n..][1..];
  }

  function Join(xs: seq<string>, c: char): string {
    if xs == [] then "" else if |xs| == 1 then xs[0] else xs[0] + [c] + Join(xs[1..], c)
  }

  lemma {:induction false} FindAfter(x: string, rest: string, c: char)
    requires c !in x && (rest == [] || rest[0] == c)
    ensures Find(x + rest, c) == |x|
  {
    if x == [] {
      assert x + rest == rest;
    } else {
      assert (x + rest)[1..] == x[1..] + rest;
      FindAfter(x[1..], rest, c);
    }
  }

  lemma SplitFirst(x: string, rest: string, c: char)
    requires c !in x
    ensures Split(x + ([c] + rest), c) == [x] + Split(rest, c)
  {
    var s := x + ([c] + rest);
    FindAfter(x, [c] + rest, c);
    assert s[..|x|] == x && s[|x| + 1..] == rest;
  }

  lemma {:induction false} SplitJoin(xs: seq<string>, c: char)
    requires xs != [] && forall x <- xs :: c !in x
    ensures Split(Join(xs, c), c) == xs
  {
    if |xs| == 1 {
      FindAfter(xs[0], [], c);
      assert xs[0] + [] == xs[0];
    } else {
      var rest := Join(xs[1..], c);
      assert Join(xs, c) == xs[0] + ([c] + rest);
      SplitFirst(xs[0], rest, c);
      SplitJoin(xs[1..], c);
    }
  }

  lemma {:induction false} JoinSplit(s: string, c: char)
    ensures Join(Split(s, c), c) == s
    ensures forall x <- Split(s, c) :: c !in x
    decreases |s|
  {
    var k := Find(s, c);
    if k < |s| {
      JoinSplit(s[k + 1..], c);
      assert s == s[..k] + [c] + s[k + 1..];
      assert Split(s, c)[1..] == Split(s[k + 1..], c);
    } else {
      assert s[..k] == s;
    }
  }

  // `%lld` and `%ld` of an unsigned 64-bit value: printed as signed.
  const TWO_64: nat := 0x1_0000_0000_0000_0000

  type U64 = v: nat | v < TWO_64

  function Signed64(v: U64): int {
    if v < TWO_64 / 2 then v else v - TWO_64
  }

  // The argument a long long becomes when it is passed as an int.
  function Int32(v: int): int {
    var w := v % 0x1_0000_0000;
    if w < 0x8000_0000 then w else w - 0x1_0000_0000
  }

  // The int is the number down to 32 bits, read as signed.
  lemma Int32Is(v: int)
    ensures -0x8000_0000 <= Int32(v) < 0x8000_0000
    ensures (v - Int32(v)) % 0x1_0000_0000 == 0
  {}

  // The same for the 64 bits of an unsigned value.
  lemma Signed64Is(v: U64)
    ensures -0x8000_0000_0000_0000 <= Signed64(v) < 0x8000_0000_0000_0000
    ensures (v - Signed64(v)) % 0x1_0000_0000_0000_0000 == 0
  {}

  // `%-Nd` and `%-Ns`: filled up with spaces on the right.
  function Pad(s: string, width: nat): string
    decreases width - |s|
  {
    if |s| < width then Pad(s + " ", width) else s
  }

  lemma {:induction false} PadIs(s: string, width: nat)
    ensures s <= Pad(s, width) && |Pad(s, width)| == if |s| < width then width else |s|
    ensures forall i :: |s| <= i < |Pad(s, width)| ==> Pad(s, width)[i] == ' '
    decreases width - |s|
  {
    if |s| < width {
      PadIs(s + " ", width);
      assert s <= s + " ";
    }
  }

  // What C takes a buffer to hold: the characters before the first NUL.
  function CString(s: string): (r: string)
    ensures r <= s && '\0' !in r && (|r| < |s| ==> s[|r|] == '\0')
  {
    s[..Find(s, '\0')]
  }
}
