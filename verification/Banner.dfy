/**
  The banner: characters are painted as glyphs of seven by eight points into one flat
  buffer, each glyph through a view of the buffer shifted by eight columns.
*/
module Banner {
  import opened Text

  const NLINES := 7
  const PPOSS := 85   // columns of a line, the last for the NUL
  const POSPCH := 8   // columns of a character
  const CHPLN := 10   // characters of a banner

  const BLANK := ' '
  const PLOT := '#'
  const NUL := '\0'

  // One glyph: a byte a line, as its bits.
  type Glyph = g: seq<seq<bool>> | |g| == NLINES && forall i :: 0 <= i < NLINES ==> |g[i]| == POSPCH
    witness seq(NLINES, _ => seq(POSPCH, _ => false))

  type CharCode = n: nat | n < 256

  // The glyph of every character code.
  type Font = f: seq<Glyph> | |f| == 256
    witness seq(256, _ => seq(NLINES, _ => seq(POSPCH, _ => false)))

  // A C string: codes without a NUL among them.
  type CText = s: seq<CharCode> | forall c <- s :: c != 0 witness []

  predicate IsBuffer(b: array<char>) {
    b.Length == NLINES * PPOSS
  }

  // Cell k of the buffer is column k % PPOSS of line k / PPOSS.
  predicate IsCell(k: int) {
    0 <= k < NLINES * PPOSS
  }

  method Banset(c: char, p: array<char>)
    requires IsBuffer(p)
    modifies p
    ensures forall k :: IsCell(k) && k % PPOSS < PPOSS - 1 ==> p[k] == c
  {
    for i := 0 to NLINES
      invariant forall k :: 0 <= k < i * PPOSS && k % PPOSS < PPOSS - 1 ==> p[k] == c
    {
      for j := 0 to PPOSS - 1
        invariant forall k :: 0 <= k < i * PPOSS + j && k % PPOSS < PPOSS - 1 ==> p[k] == c
      {
        p[i * PPOSS + j] := c;
      }
    }
  }

  // Whether a glyph seen from offset r has a point at cell k.
  predicate Hits(c: Glyph, r: nat, k: int)
    requires IsCell(k)
  {
    r <= k % PPOSS < r + POSPCH && c[k / PPOSS][k % PPOSS - r]
  }

  // Paints a glyph in the buffer seen from offset r.
  method Banfil(c: Glyph, p: array<char>, r: nat)
    requires IsBuffer(p) && r + POSPCH <= PPOSS - 1
    modifies p
    ensures forall k :: IsCell(k) ==> p[k] == if Hits(c, r, k) then PLOT else old(p[k])
  {
    for i := 0 to NLINES
      invariant forall k :: IsCell(k) ==> p[k] == if k < i * PPOSS && Hits(c, r, k) then PLOT else old(p[k])
    {
      for j := 0 to POSPCH
        invariant forall k :: IsCell(k) ==>
          p[k] == if k < i * PPOSS + r + j && Hits(c, r, k) then PLOT else old(p[k])
      {
        if c[i][j] {
          p[r + (i * PPOSS + j)] := PLOT;
        }
      }
    }
  }

  // Point (i, x) of the first n characters of the text.
  function Point(font: Font, s: CText, n: nat, i: nat, x: nat): char
    requires n <= |s| && i < NLINES
  {
    if x / POSPCH < n && font[s[x / POSPCH]][i][x % POSPCH] then PLOT else BLANK
  }

  // How many characters of the text are painted.
  function Painted(s: CText): (n: nat)
    ensures n <= |s| && n <= CHPLN && (n == |s| || n == CHPLN)
  {
    if |s| < CHPLN then |s| else CHPLN
  }

  // The buffer shows the first n characters.
  ghost predicate Shows(b: seq<char>, font: Font, s: CText, n: nat)
    requires n <= |s|
  {
    && |b| == NLINES * PPOSS
    && forall k :: IsCell(k) && k % PPOSS < PPOSS - 1 ==> b[k] == Point(font, s, n, k / PPOSS, k % PPOSS)
  }

  lemma OneMoreGlyph(font: Font, s: CText, n: nat, before: seq<char>, after: seq<char>)
    requires n < |s| && n < CHPLN && Shows(before, font, s, n) && |after| == |before|
    requires forall k :: IsCell(k) ==>
      after[k] == if Hits(font[s[n]], n * POSPCH, k) then PLOT else before[k]
    ensures Shows(after, font, s, n + 1)
  {
    forall k | IsCell(k) && k % PPOSS < PPOSS - 1
      ensures after[k] == Point(font, s, n + 1, k / PPOSS, k % PPOSS)
    {
      var x := k % PPOSS;
      if n * POSPCH <= x < n * POSPCH + POSPCH {
        assert x / POSPCH == n && x % POSPCH == x - n * POSPCH;
      }
    }
  }

  // Whatever the buffer held, afterwards it shows the text, of which only the first ten
  // characters are painted.
  method PaintBanner(font: Font, s: CText, p: array<char>)
    requires IsBuffer(p)
    modifies p
    ensures Shows(p[..], font, s, Painted(s))
  {
    Banset(BLANK, p);
    var n, r := 0, 0;
    while n < |s|
      invariant n <= Painted(s) && r == n * POSPCH
      invariant Shows(p[..], font, s, n)
    {
      if n + 1 > CHPLN {
        return;
      }
      ghost var before := p[..];
      Banfil(font[s[n]], p, r);
      OneMoreGlyph(font, s, n, before, p[..]);
      n, r := n + 1, r + POSPCH;
    }
  }

  function TrimRight(s: string): string {
    if s != "" && s[|s| - 1] == BLANK then TrimRight(s[..|s| - 1]) else s
  }

  // The columns of line i before the one of its NUL.
  function Line(b: seq<char>, i: nat): string
    requires |b| == NLINES * PPOSS && i < NLINES
  {
    b[i * PPOSS..i * PPOSS + PPOSS - 1]
  }

  lemma {:induction false} CStringOf(s: string, rest: string)
    requires NUL !in s && rest != "" && rest[0] == NUL
    ensures CString(s + rest) == s
  {
    FindAfter(s, rest, NUL);
  }

  // The first n columns of a line, then a NUL.
  lemma TrimmedText(row: string, was: string, n: nat)
    requires n < |row| && n <= |was| && row[..n] == was[..n] && row[n] == NUL && NUL !in was
    ensures CString(row) == was[..n]
  {
    assert row == was[..n] + row[n..];
    assert forall c <- was[..n] :: c in was;
    CStringOf(was[..n], row[n..]);
  }

  lemma TrimBlank(was: string, n: nat)
    requires n < |was| && was[n] == BLANK
    ensures TrimRight(was[..n + 1]) == TrimRight(was[..n])
  {
    assert was[..n + 1][..n] == was[..n];
  }

  // Line i up to its first NUL, after the blanks at its end have become NULs.
  method TrimLine(p: array<char>, i: nat) returns (text: string)
    requires IsBuffer(p) && i < NLINES && NUL !in Line(p[..], i)
    modifies p
    ensures text == TrimRight(old(Line(p[..], i)))
    ensures forall k :: IsCell(k) && k / PPOSS != i ==> p[k] == old(p[k])
  {
    var start := i * PPOSS;
    ghost var was := Line(p[..], i);
    p[start + PPOSS - 1] := NUL;
    var j := PPOSS - 2;
    assert was[..PPOSS - 1] == was;
    while j >= 0
      invariant -1 <= j <= PPOSS - 2
      invariant p[start..start + j + 1] == was[..j + 1]
      invariant p[start + (j + 1)] == NUL
      invariant TrimRight(was[..j + 1]) == TrimRight(was)
      invariant forall k :: IsCell(k) && k / PPOSS != i ==> p[k] == old(p[k])
    {
      hide TrimRight;
      assert p[start + j] == p[start..start + j + 1][j] == was[j];
      if p[start + j] != BLANK {
        break;
      }
      TrimBlank(was, j);
      p[start + j] := NUL;
      assert p[start..start + j] == was[..j];
      j := j - 1;
    }
    ghost var line := p[start..start + PPOSS];
    assert line[..j + 1] == p[start..start + j + 1] == was[..j + 1] && line[j + 1] == p[start + (j + 1)];
    TrimmedText(line, was, j + 1);
    text := CString(p[start..start + PPOSS]);
  }

  // The printed lines, and an empty one after them.
  method PrintBanner(p: array<char>) returns (lines: seq<string>)
    requires IsBuffer(p)
    requires forall i :: 0 <= i < NLINES ==> NUL !in Line(p[..], i)
    modifies p
    ensures |lines| == NLINES + 1 && lines[NLINES] == ""
    ensures forall i :: 0 <= i < NLINES ==> lines[i] == TrimRight(old(Line(p[..], i)))
  {
    lines := [];
    for i := 0 to NLINES
      invariant |lines| == i
      invariant forall k :: 0 <= k < i ==> lines[k] == TrimRight(old(Line(p[..], k)))
      invariant forall k :: IsCell(k) && k / PPOSS >= i ==> p[k] == old(p[k])
    {
      assert Line(p[..], i) == old(Line(p[..], i)) by {
        forall x | 0 <= x < PPOSS - 1 ensures Line(p[..], i)[x] == old(Line(p[..], i))[x] {
          assert IsCell(i * PPOSS + x) && (i * PPOSS + x) / PPOSS == i;
        }
      }
      var text := TrimLine(p, i);
      lines := lines + [text];
    }
    lines := lines + [""];
  }

  // Line i of the banner of a text.
  function BannerLine(font: Font, s: CText, i: nat): (r: string)
    requires i < NLINES
    ensures |r| == PPOSS - 1
    ensures forall x :: 0 <= x < PPOSS - 1 ==> r[x] == Point(font, s, Painted(s), i, x)
  {
    seq(PPOSS - 1, x requires 0 <= x < PPOSS - 1 => Point(font, s, Painted(s), i, x))
  }

  lemma ShownLine(b: seq<char>, font: Font, s: CText, i: nat)
    requires Shows(b, font, s, Painted(s)) && i < NLINES
    ensures Line(b, i) == BannerLine(font, s, i)
  {
    forall x | 0 <= x < PPOSS - 1 ensures Line(b, i)[x] == BannerLine(font, s, i)[x] {
      var k := i * PPOSS + x;
      assert IsCell(k) && k / PPOSS == i && k % PPOSS == x;
      assert Line(b, i)[x] == b[k];
    }
  }

  // Point for point the banner of the text, whatever was painted in the buffer before.
  method BannerMaker(font: Font, s: CText, p: array<char>) returns (lines: seq<string>)
    requires IsBuffer(p)
    modifies p
    ensures |lines| == NLINES + 1 && lines[NLINES] == ""
    ensures forall i :: 0 <= i < NLINES ==> lines[i] == TrimRight(BannerLine(font, s, i))
  {
    PaintBanner(font, s, p);
    forall i | 0 <= i < NLINES
      ensures Line(p[..], i) == BannerLine(font, s, i) && NUL !in Line(p[..], i)
    {
      ShownLine(p[..], font, s, i);
    }
    lines := PrintBanner(p);
  }

  // Seven lines of 84 columns: eight columns a character, for ten characters.
  lemma BannerPoint(font: Font, s: CText, i: nat, x: nat)
    requires i < 7 && x < 84
    ensures |BannerLine(font, s, i)| == 84
    ensures BannerLine(font, s, i)[x] == if x < 80 && x / 8 < |s| && font[s[x / 8]][i][x % 8] then '#' else ' '
  {
    assert x < 80 <==> x / 8 < 10;
  }

  // Only the first ten characters show.
  lemma RestDoesNotShow(font: Font, s: CText, t: CText, i: nat)
    requires |s| >= CHPLN && |t| >= CHPLN && s[..CHPLN] == t[..CHPLN] && i < NLINES
    ensures BannerLine(font, s, i) == BannerLine(font, t, i)
  {
    forall x | 0 <= x < PPOSS - 1 ensures BannerLine(font, s, i)[x] == BannerLine(font, t, i)[x] {
      if x / POSPCH < CHPLN {
        assert s[x / POSPCH] == s[..CHPLN][x / POSPCH] && t[x / POSPCH] == t[..CHPLN][x / POSPCH];
      }
    }
  }

  // What trimming removes: blanks at the end, all of them and nothing else.
  lemma {:induction false} TrimRightIs(s: string)
    ensures TrimRight(s) <= s
    ensures forall i :: |TrimRight(s)| <= i < |s| ==> s[i] == BLANK
    ensures TrimRight(s) != "" ==> TrimRight(s)[|TrimRight(s)| - 1] != BLANK
  {
    if s != "" && s[|s| - 1] == BLANK {
      TrimRightIs(s[..|s| - 1]);
    }
  }
}
