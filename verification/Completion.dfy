/**
  Tab completion: a generator that is called again and again during one completion and
  keeps its place in the help table between calls.
*/
module Completion {
  import opened Wrappers
  import opened Text
  import opened Keywords

  // token_is_variable, on the first character; the empty word starts with NUL.
  predicate IsVariable(word: string) {
    word == "" || word[0] < 'a' || word[0] > 'z'
  }

  lemma VariableIff(word: string)
    ensures IsVariable(word) <==> word == "" || word[0] !in SMALL
  {
    if word != "" {
      SmallIff(word[0]);
    }
  }

  // strncasecmp(text, token, strlen(text)) == 0
  predicate Extends(token: string, text: string) {
    LowerAll(text) <= LowerAll(token)
  }

  // The text begins the token, letter by letter in either case.
  lemma ExtendsIff(token: string, text: string)
    ensures Extends(token, text) <==>
      |text| <= |token| && forall i :: 0 <= i < |text| ==> Upper(text[i]) == Upper(token[i])
  {
    if |text| <= |token| {
      forall i | 0 <= i < |text|
        ensures LowerAll(text)[i] == LowerAll(token)[i] <==> Upper(text[i]) == Upper(token[i])
      {}
    }
  }

  // Some keyword of column `column` begins with the word.
  predicate BeginsKeyword(columns: seq<seq<string>>, column: nat, word: string) {
    column < |columns| && exists k :: 0 <= k < |columns[column]| && word <= columns[column][k]
  }

  // Word i of the line fits word i of a help row: one begins with the other, or the row
  // has a variable there and the word begins no keyword of the column being typed.
  predicate WordFits(row: seq<string>, line: seq<string>, columns: seq<seq<string>>, i: nat)
    requires i < |line| <= |row|
  {
    || row[i] <= line[i]
    || line[i] <= row[i]
    || (IsVariable(row[i]) && |line| <= |columns| && !BeginsKeyword(columns, |line| - 1, line[i]))
  }

  // How many of the first i words get_history_matched_number counts: a variable counts
  // only while everything before it did.
  function MatchCount(row: seq<string>, line: seq<string>, columns: seq<seq<string>>, i: nat): (n: nat)
    requires i <= |line| <= |row|
    ensures n <= i
  {
    if i == 0 then 0
    else
      var n := MatchCount(row, line, columns, i - 1);
      if row[i - 1] <= line[i - 1] || line[i - 1] <= row[i - 1] then n + 1
      else if n == i - 1 && WordFits(row, line, columns, i - 1) then n + 1
      else n
  }

  // All words are counted exactly when every word fits.
  lemma {:induction false} AllCounted(row: seq<string>, line: seq<string>, columns: seq<seq<string>>, i: nat)
    requires i <= |line| <= |row|
    ensures MatchCount(row, line, columns, i) == i <==> forall k :: 0 <= k < i ==> WordFits(row, line, columns, k)
  {
    if i > 0 {
      AllCounted(row, line, columns, i - 1);
    }
  }

  predicate LineFits(row: seq<string>, line: seq<string>, columns: seq<seq<string>>) {
    |line| <= |row| && forall i :: 0 <= i < |line| ==> WordFits(row, line, columns, i)
  }

  // The last word of the line is a proper beginning of the last word of the row.
  predicate Unfinished(row: seq<string>, line: seq<string>) {
    |line| == |row| && row != [] && line[|line| - 1] <= row[|row| - 1] && !(row[|row| - 1] <= line[|line| - 1])
  }

  // Position, in a row, of the word to be completed.
  function Place(line: seq<string>, text: string): nat
    requires text != "" ==> line != []
  {
    if text == "" then |line| else |line| - 1
  }

  // The row offers its next word for the typed text.
  predicate Offers(row: seq<string>, line: seq<string>, columns: seq<seq<string>>, text: string)
    requires text != "" ==> line != []
  {
    && LineFits(row, line, columns)
    && Place(line, text) < |row|
    && (text == "" || !IsVariable(row[Place(line, text)]))
    && Extends(row[Place(line, text)], text)
  }

  // The row ends the completion: the line already fills it.
  predicate Stops(row: seq<string>, line: seq<string>, columns: seq<seq<string>>, text: string) {
    LineFits(row, line, columns) && |row| == |line| && (text == "" || !Unfinished(row, line))
  }

  // A word can be returned if it has not been and, when it is a variable under typed
  // text, no returned word begins with the text and, at first, no keyword does.
  predicate IsFresh(token: string, text: string, matched: seq<string>, line: seq<string>, columns: seq<seq<string>>)
    requires text != "" ==> line != []
  {
    && token !in matched
    && (IsVariable(token) && text != "" ==>
          (forall k :: 0 <= k < |matched| ==> !(text <= matched[k]))
          && (matched == [] ==> !BeginsKeyword(columns, |line| - 1, text)))
  }

  // The answer for a line that fills a row: empty for a keyword or an admissible
  // variable, the inside of the brackets for a bracketed one that the text begins.
  function LastAnswer(token: string, text: string, admissible: bool): Option<string>
    requires token != "" && (token[0] == '[' ==> |token| >= 2)
  {
    if !IsVariable(token) then Some("")
    else if !admissible then None
    else if token[0] == '[' then
      if text <= token[1..|token| - 1] then Some(token[1..|token| - 1]) else None
    else Some("")
  }

  // What a call does at one row.
  datatype Outcome =
    | Skip                      // goes on to the next row
    | Null                      // returns NULL, staying at the row
    | NullPast                  // returns NULL, leaving the row behind
    | Last(r: Option<string>)   // the last answer, staying at the row
    | Hint(word: string)        // returns "" for a variable
    | Offer(word: string)       // returns the row's next word

  // The static variables that a call changes.
  datatype Memory = Memory(index: nat, end: bool, matched: seq<string>)

  // What is returned at a row.
  function Answer(o: Outcome): Option<string> {
    match o
    case Last(r) => r
    case Hint(_) => Some("")
    case Offer(w) => Some(w)
    case _ => None
  }

  // The variables afterwards.
  function AfterRow(m: Memory, o: Outcome): Memory {
    match o
    case Null => m
    case Last(_) => m.(end := true)
    case Hint(w) => m.(index := m.index + 1, matched := m.matched + [w])
    case Offer(w) => m.(index := m.index + 1, matched := m.matched + [w])
    case _ => m.(index := m.index + 1)
  }

  // The word that a call takes from a row, if any.
  function Given(o: Outcome): seq<string> {
    if o.Offer? then [o.word] else []
  }

  // What the last answer can be for a row that ends in `token`.
  predicate IsLastAnswer(r: string, token: string, text: string) {
    r == "" || (text <= r && |token| >= 2 && token[0] == '[' && r == token[1..|token| - 1])
  }

  // The row has a variable at the place of the typed text that admits it.
  predicate Admits(row: seq<string>, line: seq<string>, text: string, check: (string, string) -> bool)
    requires text != "" ==> line != []
  {
    && text != "" && Place(line, text) < |row| && IsVariable(row[Place(line, text)])
    && check(row[Place(line, text)], text)
  }

  // An answer is empty or extends the typed text, and is the row's own: its next word,
  // or what its last word allows when the line fills it and nothing was answered for it.
  predicate IsSound(o: Outcome, row: seq<string>, line: seq<string>, columns: seq<seq<string>>, text: string, end: bool,
      check: (string, string) -> bool)
    requires text != "" ==> line != []
  {
    match o
    case Hint(w) => Admits(row, line, text, check) && w == row[Place(line, text)]
    case Offer(w) => w != "" && Place(line, text) < |row| && w == row[Place(line, text)] && Extends(w, text)
    case Last(r) =>
      && text != "" && !end && Stops(row, line, columns, text)
      && (r.Some? ==> IsLastAnswer(r.value, row[|row| - 1], text) && (r.value == "" || Extends(r.value, text)))
    case _ => true
  }

  predicate MayBeEmpty(row: seq<string>, line: seq<string>, columns: seq<seq<string>>, text: string,
      check: (string, string) -> bool)
    requires text != "" ==> line != []
  {
    Admits(row, line, text, check) || Stops(row, line, columns, text)
  }

  // The matches other than "", in order.
  function NonEmpty(ms: seq<string>): seq<string> {
    if ms == [] then []
    else NonEmpty(ms[..|ms| - 1]) + if ms[|ms| - 1] == "" then [] else [ms[|ms| - 1]]
  }

  // The command table: rows of words and, by position, the plain keywords.
  ghost predicate IsHelp(rows: seq<seq<string>>) {
    forall row <- rows :: row != [] && forall w <- row :: w != "" && (w[0] == '[' ==> |w| >= 2)
  }

  // `strtok` over the line: its words between blanks, tabs and newlines.
  function Words(s: string): seq<string>
    decreases |s|
  {
    if s == "" then []
    else if IsBlank(s[0]) then Words(s[1..])
    else [s[..WordEnd(s)]] + Words(s[WordEnd(s)..])
  }

  predicate IsBlank(c: char) {
    c == ' ' || c == '\t' || c == '\n'
  }

  function WordEnd(s: string): (k: nat)
    ensures k <= |s|
    ensures s != "" && !IsBlank(s[0]) ==> k > 0
  {
    if s == "" || IsBlank(s[0]) then 0 else 1 + WordEnd(s[1..])
  }

  // ---------- the words of a line ----------

  const BLANKS := [' ', '\t', '\n']

  predicate IsGap(s: string) {
    forall c <- s :: c in BLANKS
  }

  predicate IsWord(w: string) {
    w != "" && forall c <- w :: c !in BLANKS
  }

  // Words, and the blanks before, between and after them.
  ghost predicate AreSpaced(words: seq<string>, gaps: seq<string>) {
    && |gaps| == |words| + 1
    && (forall i :: 0 <= i < |words| ==> IsWord(words[i]))
    && (forall i :: 0 <= i < |gaps| ==> IsGap(gaps[i]))
    && forall i :: 0 < i < |words| ==> gaps[i] != ""
  }

  function Laid(words: seq<string>, gaps: seq<string>): string
    requires |gaps| == |words| + 1
  {
    if words == [] then gaps[0] else gaps[0] + (words[0] + Laid(words[1..], gaps[1..]))
  }

  lemma BlankIff(c: char)
    ensures IsBlank(c) <==> c in BLANKS
  {
    assert BLANKS[0] == ' ' && BLANKS[1] == '\t' && BLANKS[2] == '\n';
  }

  lemma {:induction false} GapSkipped(gap: string, rest: string)
    requires IsGap(gap)
    ensures Words(gap + rest) == Words(rest)
  {
    if gap == "" {
      assert gap + rest == rest;
    } else {
      BlankIff(gap[0]);
      assert (gap + rest)[1..] == gap[1..] + rest;
      GapSkipped(gap[1..], rest);
    }
  }

  lemma {:induction false} WordEnds(w: string, rest: string)
    requires (forall c <- w :: c !in BLANKS) && (rest == "" || rest[0] in BLANKS)
    ensures WordEnd(w + rest) == |w|
  {
    if w == "" {
      assert w + rest == rest;
      if rest != "" {
        BlankIff(rest[0]);
      }
    } else {
      BlankIff(w[0]);
      assert (w + rest)[1..] == w[1..] + rest;
      WordEnds(w[1..], rest);
    }
  }

  lemma WordFirst(w: string, rest: string)
    requires IsWord(w) && (rest == "" || rest[0] in BLANKS)
    ensures Words(w + rest) == [w] + Words(rest)
  {
    BlankIff(w[0]);
    WordEnds(w, rest);
    assert (w + rest)[..|w|] == w && (w + rest)[|w|..] == rest;
  }

  // The words of a line come back in order, whatever blanks stand around them.
  lemma {:induction false} WordsOfLaid(words: seq<string>, gaps: seq<string>)
    requires AreSpaced(words, gaps)
    ensures Words(Laid(words, gaps)) == words
  {
    if words == [] {
      GapSkipped(gaps[0], "");
      assert gaps[0] + "" == gaps[0];
    } else {
      var rest := Laid(words[1..], gaps[1..]);
      GapSkipped(gaps[0], words[0] + rest);
      assert AreSpaced(words[1..], gaps[1..]);
      WordsOfLaid(words[1..], gaps[1..]);
      assert rest == "" || rest[0] in BLANKS by {
        LaidStarts(words[1..], gaps[1..]);
      }
      WordFirst(words[0], rest);
    }
  }

  lemma LaidStarts(words: seq<string>, gaps: seq<string>)
    requires AreSpaced(words, gaps) && (words != [] ==> gaps[0] != "")
    ensures Laid(words, gaps) == "" || Laid(words, gaps)[0] in BLANKS
  {
    if gaps[0] != "" {
      assert gaps[0][0] in gaps[0] && Laid(words, gaps)[0] == gaps[0][0];
    }
  }

  // Every line is laid out so.
  lemma {:induction false} LineIsLaid(s: string) returns (gaps: seq<string>)
    ensures AreSpaced(Words(s), gaps) && Laid(Words(s), gaps) == s
    decreases |s|
  {
    if s == "" {
      gaps := [""];
    } else if IsBlank(s[0]) {
      var more := LineIsLaid(s[1..]);
      BlankIff(s[0]);
      gaps := [[s[0]] + more[0]] + more[1..];
      WiderGap(s[0], Words(s), more);
    } else {
      var k := WordEnd(s);
      var more := LineIsLaid(s[k..]);
      FirstWord(s);
      gaps := [""] + more;
      WordBefore(s[..k], Words(s[k..]), more);
    }
  }

  lemma WiderGap(c: char, words: seq<string>, more: seq<string>)
    requires AreSpaced(words, more) && c in BLANKS
    ensures var gaps := [[c] + more[0]] + more[1..];
      AreSpaced(words, gaps) && Laid(words, gaps) == [c] + Laid(words, more)
  {
    var gaps := [[c] + more[0]] + more[1..];
    assert gaps[1..] == more[1..] && IsGap(more[0]);
    if words != [] {
      Associative([c], more[0], words[0] + Laid(words[1..], more[1..]));
    }
  }

  lemma {:induction false} FirstWord(s: string)
    requires s != "" && !IsBlank(s[0])
    ensures IsWord(s[..WordEnd(s)]) && (WordEnd(s) == |s| || s[WordEnd(s)] in BLANKS)
  {
    BlankIff(s[0]);
    var k := WordEnd(s);
    if |s| > 1 && !IsBlank(s[1]) {
      FirstWord(s[1..]);
      assert s[..k] == [s[0]] + s[1..][..k - 1];
    } else {
      assert s[..k] == [s[0]];
      if |s| > 1 {
        BlankIff(s[1]);
      }
    }
  }

  lemma WordBefore(w: string, words: seq<string>, more: seq<string>)
    requires IsWord(w) && AreSpaced(words, more)
    requires Laid(words, more) == "" || Laid(words, more)[0] in BLANKS
    ensures AreSpaced([w] + words, [""] + more) && Laid([w] + words, [""] + more) == w + Laid(words, more)
  {
    var all, gaps := [w] + words, [""] + more;
    assert all[1..] == words && gaps[1..] == more;
    if words != [] {
      assert words[0][0] in words[0];
      FirstOf(more[0], words[0] + Laid(words[1..], more[1..]));
    }
  }

  lemma FirstOf(a: string, b: string)
    requires b != ""
    ensures (a + b)[0] == if a == "" then b[0] else a[0]
  {}

  // get_history_number
  method GetHistoryNumber(typed: string) returns (list: seq<string>)
    ensures list == Words(typed)
  {
    list := [];
    var rest := typed;
    while rest != ""
      invariant list + Words(rest) == Words(typed)
      decreases |rest|
    {
      if IsBlank(rest[0]) {
        rest := rest[1..];
      } else {
        var k := WordEnd(rest);
        list := list + [rest[..k]];
        rest := rest[k..];
      }
    }
  }

  // The loop over the keywords of a column.
  method FindKeyword(columns: seq<seq<string>>, column: nat, word: string) returns (found: bool)
    ensures found <==> BeginsKeyword(columns, column, word)
  {
    if column >= |columns| {
      return false;
    }
    var keywords := columns[column];
    for j := 0 to |keywords|
      invariant forall k :: 0 <= k < j ==> !(word <= keywords[k])
    {
      if word <= keywords[j] {
        return true;
      }
    }
    return false;
  }

  class Generator {
    const rows: seq<seq<string>>
    const columns: seq<seq<string>>
    // variable_match_check(var, str) == 0
    const check: (string, string) -> bool

    // The static variables.
    var index: nat
    var end: bool
    var matched: seq<string>
    var line: seq<string>

    // The rows fully scanned, and the words returned from them, in this completion.
    ghost var scanned: nat
    ghost var tokens: seq<string>

    function Now(): Memory
      reads this
    {
      Memory(index, end, matched)
    }

    ghost predicate Typed(text: string)
      reads this
    {
      IsHelp(rows) && (text != "" ==> line != [])
    }

    // Some scanned row offers the word.
    ghost predicate Offered(text: string, t: string)
      requires Typed(text) && scanned <= |rows|
      reads this
    {
      exists r :: 0 <= r < scanned && Offers(rows[r], line, columns, text) && rows[r][Place(line, text)] == t
    }

    // What the scan of the rows before `scanned` has produced.
    ghost predicate Scanning(text: string)
      reads this
    {
      && Typed(text)
      && scanned <= |rows|
      && Distinct(tokens)
      && (forall t :: t in tokens <==> Offered(text, t))
      && (forall r :: 0 <= r < scanned ==> !Stops(rows[r], line, columns, text))
      && (forall t <- tokens :: t in matched)
      && (forall t <- matched :: t in tokens || (IsVariable(t) && text != ""))
    }

    constructor (rows: seq<seq<string>>, columns: seq<seq<string>>, check: (string, string) -> bool)
      ensures this.rows == rows && this.columns == columns && this.check == check
    {
      this.rows, this.columns, this.check := rows, columns, check;
      index, end, matched, line := 0, false, [], [];
      scanned, tokens := 0, [];
    }

    // What the present call does at row k.
    ghost function OutcomeAt(k: nat, text: string): Outcome
      requires Typed(text) && k < |rows|
      reads this
    {
      var row := rows[k];
      assert row in rows;
      if |row| < |line| then Skip
      else if LineFits(row, line, columns) && |row| == |line| && !Unfinished(row, line) then
        if end || text == "" then Null else FillOutcome(row, text)
      else if MatchCount(row, line, columns, |line|) < Place(line, text) then Skip
      else if Place(line, text) >= |row| then NullPast
      else WordOutcome(row[Place(line, text)], text, LineFits(row, line, columns))
    }

    ghost function FillOutcome(row: seq<string>, text: string): Outcome
      requires Typed(text) && row in rows
      reads this
    {
      var token := row[|row| - 1];
      assert token in row;
      Last(LastAnswer(token, text, check(token, text)))
    }

    ghost function Row(text: string): Outcome
      requires Typed(text) && index < |rows|
      reads this
    {
      OutcomeAt(index, text)
    }

    ghost function WordOutcome(token: string, text: string, fits: bool): Outcome
      requires Typed(text)
      reads this
    {
      if !Extends(token, text) && !IsVariable(token) then Skip
      else if !IsFresh(token, text, matched, line, columns) then Skip
      else if IsVariable(token) && text != "" then if check(token, text) then Hint(token) else Skip
      else if fits then Offer(token)
      else Skip
    }

    // get_history_matched_number
    method GetHistoryMatchedNumber(row: seq<string>) returns (n: nat, atEnd: bool)
      requires |line| <= |row| && row != []
      ensures n == MatchCount(row, line, columns, |line|)
      ensures n == |line| <==> LineFits(row, line, columns)
      ensures atEnd <==> LineFits(row, line, columns) && Unfinished(row, line)
    {
      n, atEnd := 0, false;
      for i := 0 to |line|
        invariant n == MatchCount(row, line, columns, i)
        invariant atEnd <==> n == i == |row| && Unfinished(row, line)
      {
        if row[i] <= line[i] {
          n := n + 1;
        } else if line[i] <= row[i] {
          n := n + 1;
          if n == |row| {
            atEnd := true;
          }
        } else if IsVariable(row[i]) {
          if n == i {
            if |line| - 1 < |columns| {
              var found := FindKeyword(columns, |line| - 1, line[i]);
              if !found {
                n := n + 1;
              }
            }
          }
        }
      }
      AllCounted(row, line, columns, |line|);
    }

    // Whether the token may be returned.
    method IsNew(token: string, text: string) returns (isNew: bool)
      requires Typed(text)
      ensures isNew <==> IsFresh(token, text, matched, line, columns)
    {
      var i := 0;
      while i < |matched|
        invariant 0 <= i <= |matched| && token !in matched[..i]
        invariant IsVariable(token) && text != "" ==> forall k :: 0 <= k < i ==> !(text <= matched[k])
      {
        if matched[i] == token {
          break;
        } else if IsVariable(token) && text != "" && text <= matched[i] {
          break;
        }
        i := i + 1;
      }
      assert i == |matched| ==> matched[..i] == matched;
      if IsVariable(token) && text != "" && |matched| == 0 {
        var found := FindKeyword(columns, |line| - 1, text);
        if found {
          i := i + 1;
        }
      }
      isNew := i == |matched|;
    }

    // One more row is scanned, and the words returned become `more`.
    lemma ScanOneMore(text: string, more: seq<string>)
      requires Scanning(text) && scanned < |rows|
      requires forall t :: t in more <==>
        (t in tokens || (Offers(rows[scanned], line, columns, text) && rows[scanned][Place(line, text)] == t))
      ensures forall t :: t in more <==>
        (exists r :: 0 <= r < scanned + 1 && Offers(rows[r], line, columns, text) && rows[r][Place(line, text)] == t)
    {
      forall t
        ensures t in more <==>
          (exists r :: 0 <= r < scanned + 1 && Offers(rows[r], line, columns, text) && rows[r][Place(line, text)] == t)
      {
        assert t in tokens <==> Offered(text, t);
      }
    }

    // The last answer is out: it was for row `index`, which the line fills.
    ghost predicate AtLast(text: string)
      requires text != "" ==> line != []
      reads this
    {
      text != "" && index < |rows| && Stops(rows[index], line, columns, text)
    }

    // The line fills the row: one last answer, or none.
    method Finish(text: string, row: seq<string>) returns (r: Option<string>)
      requires Scanning(text) && row in rows && |row| == |line|
      modifies this`end
      ensures end == (old(end) || text != "")
      ensures if old(end) || text == "" then r == None else FillOutcome(row, text) == Last(r)
    {
      if !end && text != "" {
        end := true;
        var token := row[|line| - 1];
        assert token in row;
        if IsVariable(token) {
          if check(token, text) {
            if token[0] == '[' {
              var inner := token[1..|token| - 1];
              return if text <= inner then Some(inner) else None;
            }
            return Some("");
          }
          return None;
        }
        return Some("");
      }
      return None;
    }

    // Gives out "" for a variable of row `index`.
    method GiveHint(text: string, token: string) returns (r: Option<string>)
      requires Scanning(text) && scanned == index < |rows| && !Stops(rows[index], line, columns, text)
      requires Place(line, text) < |rows[index]| && token == rows[index][Place(line, text)]
      requires IsVariable(token) && text != ""
      modifies this`index, this`matched, this`scanned
      ensures Scanning(text) && scanned == index == old(index) + 1
      ensures r == Some("") && matched == old(matched) + [token]
    {
      ScanOneMore(text, tokens);
      matched := matched + [token];
      index := index + 1;
      scanned := scanned + 1;
      return Some("");
    }

    // Gives out the next word of row `index`.
    method GiveToken(text: string, token: string) returns (r: Option<string>)
      requires Scanning(text) && scanned == index < |rows| && !Stops(rows[index], line, columns, text)
      requires Offers(rows[index], line, columns, text) && token == rows[index][Place(line, text)]
      requires token !in matched
      modifies this`index, this`matched, this`scanned, this`tokens
      ensures Scanning(text) && scanned == index == old(index) + 1
      ensures r == Some(token) && tokens == old(tokens) + [token] && matched == old(matched) + [token]
    {
      ScanOneMore(text, tokens + [token]);
      matched := matched + [token];
      tokens := tokens + [token];
      index := index + 1;
      scanned := scanned + 1;
      return Some(token);
    }

    // Looks at the next word of row `index`; if it is given out the row is done.
    method Candidate(text: string, token: string, fits: bool) returns (r: Option<string>)
      requires Scanning(text) && scanned == index < |rows|
      requires Place(line, text) < |rows[index]| && token == rows[index][Place(line, text)]
      requires fits <==> LineFits(rows[index], line, columns)
      requires !Stops(rows[index], line, columns, text)
      modifies this`index, this`matched, this`scanned, this`tokens
      ensures Scanning(text) && scanned == index
      ensures r == None <==> old(WordOutcome(token, text, fits)) == Skip
      ensures r == None ==> Now() == old(Now())
      ensures r == Answer(old(WordOutcome(token, text, fits)))
      ensures r != None ==> Now() == AfterRow(old(Now()), old(WordOutcome(token, text, fits)))
      ensures tokens == old(tokens) + old(Given(WordOutcome(token, text, fits)))
      ensures r.None? && Offers(rows[index], line, columns, text) ==> token in tokens
    {
      if Extends(token, text) || IsVariable(token) {
        var isNew := IsNew(token, text);
        if isNew {
          if IsVariable(token) && text != "" {
            if check(token, text) {
              r := GiveHint(text, token);
              return;
            }
          } else if fits {
            r := GiveToken(text, token);
            return;
          }
        }
      }
      return None;
    }

    method Pass(text: string)
      requires Scanning(text) && scanned == index < |rows|
      requires !Stops(rows[index], line, columns, text)
      requires Offers(rows[index], line, columns, text) ==> rows[index][Place(line, text)] in tokens
      modifies this`index, this`scanned
      ensures Scanning(text) && scanned == index == old(index) + 1
    {
      ScanOneMore(text, tokens);
      index := index + 1;
      scanned := scanned + 1;
    }

    // What a call may rely on and leaves behind for the next one.
    ghost predicate Ready(text: string)
      reads this
    {
      Scanning(text) && scanned == index && (end ==> AtLast(text))
    }

    // The part of a turn for a row that the line does not fill.
    method TryWord(text: string, row: seq<string>, n: nat) returns (done: bool, r: Option<string>)
      requires Ready(text) && index < |rows| && row == rows[index] && |line| <= |row|
      requires n == MatchCount(row, line, columns, |line|) && (n == |line| <==> LineFits(row, line, columns))
      requires !(LineFits(row, line, columns) && |row| == |line| && !Unfinished(row, line))
      modifies this`index, this`matched, this`scanned, this`tokens
      ensures Scanning(text) && (r.Some? || !done ==> Ready(text))
      ensures done <==> old(Row(text)) != Skip
      ensures r == Answer(old(Row(text))) && Now() == AfterRow(old(Now()), old(Row(text)))
      ensures done && r.None? ==> scanned == old(index) && Stops(rows[scanned], line, columns, text)
      ensures tokens == old(tokens) + old(Given(Row(text)))
    {
      var place := if text == "" then |line| else |line| - 1;
      if place + 1 - n <= 1 {
        if place >= |row| {
          index := index + 1;
          return true, None;
        }
        r := Candidate(text, row[place], n == |line|);
        if r.Some? {
          return true, r;
        }
      }
      Pass(text);
      return false, None;
    }

    // Row `index`: done with an answer or with NULL, or passed over.
    method TryRow(text: string) returns (done: bool, r: Option<string>)
      requires Ready(text) && index < |rows|
      modifies this`index, this`end, this`matched, this`scanned, this`tokens
      ensures Scanning(text) && (r.Some? || !done ==> Ready(text))
      ensures done <==> old(Row(text)) != Skip
      ensures r == Answer(old(Row(text))) && Now() == AfterRow(old(Now()), old(Row(text)))
      ensures done && r.None? ==> scanned == old(index) && Stops(rows[scanned], line, columns, text)
      ensures tokens == old(tokens) + old(Given(Row(text)))
    {
      var row := rows[index];
      assert row in rows;
      if |row| >= |line| {
        var n, atEnd := GetHistoryMatchedNumber(row);
        if n == |row| && !atEnd {
          r := Finish(text, row);
          done := true;
        } else {
          done, r := TryWord(text, row, n);
        }
      } else {
        Pass(text);
        done, r := false, None;
      }
    }

    // What a row calls for makes a sound answer.
    lemma OutcomeSound(k: nat, text: string)
      requires Typed(text) && k < |rows|
      ensures IsSound(OutcomeAt(k, text), rows[k], line, columns, text, end, check)
    {
      var row := rows[k];
      assert row in rows;
      if Place(line, text) < |row| {
        assert row[Place(line, text)] in row;
      }
    }

    // A hint is given exactly for an admissible variable that comes after words which all
    // count, in a row that the line does not fill, when nothing returned and at first no
    // keyword begins with the text.
    lemma HintIff(k: nat, text: string)
      requires Typed(text) && k < |rows|
      ensures OutcomeAt(k, text).Hint? <==>
        && |line| <= |rows[k]|
        && (LineFits(rows[k], line, columns) && |rows[k]| == |line| ==> Unfinished(rows[k], line))
        && Admits(rows[k], line, text, check) && MatchCount(rows[k], line, columns, |line|) >= |line| - 1
        && rows[k][|line| - 1] !in matched && (forall m <- matched :: !(text <= m))
        && (matched == [] ==> !BeginsKeyword(columns, |line| - 1, text))
    {
      assert rows[k] in rows;
      if forall m <- matched :: !(text <= m) {
        assert forall i :: 0 <= i < |matched| ==> matched[i] in matched;
      }
    }

    // The one answer for a row that the line fills: nothing for a variable that does not
    // admit the text or whose brackets hold something else, the inside of the brackets
    // that the text begins, and otherwise an empty string.
    lemma LastIff(k: nat, text: string)
      requires Typed(text) && k < |rows| && text != "" && !end
      requires LineFits(rows[k], line, columns) && |rows[k]| == |line| && !Unfinished(rows[k], line)
      ensures rows[k] in rows && rows[k][|line| - 1] in rows[k]
      ensures var token, o := rows[k][|line| - 1], OutcomeAt(k, text);
        && o.Last?
        && (o.r == None <==>
             IsVariable(token)
             && (!check(token, text) || (token[0] == '[' && !(text <= token[1..|token| - 1]))))
        && (o.r == Some("") <==> !IsVariable(token) || (check(token, text) && token[0] != '['))
        && (o.r.Some? && o.r.value != "" ==> o.r.value == token[1..|token| - 1])
    {
      assert rows[k] in rows;
      assert rows[k] != [];
    }

    // Some row may be answered with an empty string: it admits the text, or the line
    // fills it.
    ghost predicate SomeEmpty(text: string)
      requires text != "" ==> line != []
      reads this
    {
      text != "" && exists k :: 0 <= k < |rows| && MayBeEmpty(rows[k], line, columns, text, check)
    }

    // The loop of a call: rows are passed over up to the first one at which something is
    // returned, and what is returned is what that row calls for.
    method Advance(text: string) returns (r: Option<string>, ghost at: nat, ghost o: Outcome)
      requires Ready(text)
      modifies this`index, this`end, this`matched, this`scanned, this`tokens
      ensures Scanning(text) && (r.Some? ==> Ready(text))
      ensures old(index) <= at <= |rows|
      ensures forall k :: old(index) <= k < at ==> old(OutcomeAt(k, text)) == Skip
      ensures at == |rows| ==> o == Null && Now() == old(Now()).(index := at)
      ensures at < |rows| ==> o == old(OutcomeAt(at, text)) != Skip && Now() == AfterRow(old(Now()).(index := at), o)
      ensures at < |rows| ==> IsSound(o, rows[at], line, columns, text, old(end), check)
      ensures r == Answer(o) && tokens == old(tokens) + Given(o)
      ensures r.None? ==> scanned == at && (at == |rows| || Stops(rows[at], line, columns, text))
    {
      at, o := index, Null;
      while index < |rows|
        invariant Ready(text) && at == index && old(index) <= index && o == Null
        invariant tokens == old(tokens) && end == old(end) && matched == old(matched)
        invariant forall k :: old(index) <= k < index ==> old(OutcomeAt(k, text)) == Skip
        decreases |rows| - index
      {
        ghost var now := Row(text);
        assert now == old(OutcomeAt(at, text));
        OutcomeSound(at, text);
        var done;
        done, r := TryRow(text);
        if done {
          o := now;
          return;
        }
        at := index;
      }
      return None, at, Null;
    }

    // The answer of a call, once a new completion has been set up.
    method Next(text: string) returns (r: Option<string>, ghost o: Outcome)
      requires Ready(text)
      modifies this`index, this`end, this`matched, this`scanned, this`tokens
      ensures Scanning(text) && r == Answer(o) && tokens == old(tokens) + Given(o)
      ensures r.Some? ==> Ready(text) && (r.value == "" || Extends(r.value, text))
      ensures Progress(index, end) >= Progress(old(index), old(end)) + if r.Some? then 1 else 0
      ensures r.None? ==> scanned == |rows| || Stops(rows[scanned], line, columns, text)
      ensures r.Some? ==> (end <==> o.Last?)
      ensures r.Some? && o.Last? ==> IsLastOf(this, text, [r.value])
      ensures o.Offer? ==> o.word != ""
      ensures r == Some("") ==> SomeEmpty(text)
      ensures old(end) ==> r.None? && scanned == old(scanned)
    {
      ghost var at;
      r, at, o := Advance(text);
      if r == Some("") {
        assert MayBeEmpty(rows[at], line, columns, text, check);
      }
    }

    // command_generator. A call with state 0 begins a completion of the line typed so
    // far; `text` is the word under the cursor. `o` is what the row acted upon called for.
    method Generate(text: string, state: nat, typed: string) returns (r: Option<string>, ghost o: Outcome)
      requires state == 0 ==> IsHelp(rows) && (text != "" ==> Words(typed) != [])
      requires state != 0 ==> Ready(text)
      modifies this
      ensures Scanning(text)
      ensures line == if state == 0 then Words(typed) else old(line)
      ensures r == Answer(o)
      ensures tokens == (if state == 0 then [] else old(tokens)) + Given(o)
      ensures r.Some? ==> Ready(text) && (r.value == "" || Extends(r.value, text))
      ensures Progress(index, end) >=
        (if state == 0 then 0 else Progress(old(index), old(end))) + if r.Some? then 1 else 0
      ensures r.None? ==> scanned == |rows| || Stops(rows[scanned], line, columns, text)
      ensures r.Some? ==> (end <==> o.Last?)
      ensures r.Some? && o.Last? ==> IsLastOf(this, text, [r.value])
      ensures o.Offer? ==> o.word != ""
      ensures r == Some("") ==> SomeEmpty(text)
      ensures state != 0 && old(end) ==> r.None? && scanned == old(scanned)
    {
      if state == 0 {
        var words := GetHistoryNumber(typed);
        index, end, matched, line := 0, false, [], words;
        scanned, tokens := 0, [];
      }
      r, o := Next(text);
    }
  }

  // How far a completion has come: rows left behind, and whether its last answer is out.
  function Progress(index: nat, end: bool): nat {
    index + if end then 1 else 0
  }

  // The matches so far, with the word just taken, are the words of the rows; `last` is
  // the answer for the last word of the filled row.
  ghost predicate Tally(matches: seq<string>, o: Outcome, tokens: seq<string>, last: seq<string>) {
    && NonEmpty(matches) + Given(o) == tokens + last
    && (Answer(o).Some? ==> last == [])
    && (o.Offer? ==> o.word != "")
  }

  function LastGiven(o: Outcome): seq<string> {
    if o.Last? && o.r.Some? && o.r.value != "" then [o.r.value] else []
  }

  lemma OneMoreMatch(matches: seq<string>, o: Outcome, tokens: seq<string>, last: seq<string>, o': Outcome)
    requires Tally(matches, o, tokens, last) && Answer(o).Some?
    requires o.Last? ==> Answer(o').None?
    requires o'.Offer? ==> o'.word != ""
    ensures Tally(matches + [Answer(o).value], o', tokens + Given(o'), LastGiven(o))
  {
    var m := Answer(o).value;
    assert (matches + [m])[..|matches|] == matches;
    assert tokens + last == tokens && NonEmpty(matches) + [] == NonEmpty(matches);
    assert NonEmpty(matches + [m]) == tokens + LastGiven(o);
  }

  // The one answer in `last` is for the last word of the row at which the scan ended.
  ghost predicate IsLastOf(g: Generator, text: string, last: seq<string>)
    reads g
  {
    && |last| == 1 && g.scanned < |g.rows| && |g.rows[g.scanned]| > 0
    && IsLastAnswer(last[0], g.rows[g.scanned][|g.rows[g.scanned]| - 1], text)
  }

  // Between two calls: what has been collected, with the answer just received.
  ghost predicate Underway(g: Generator, text: string, r: Option<string>, o: Outcome, matches: seq<string>,
      last: seq<string>)
    reads g
  {
    && g.Scanning(text) && r == Answer(o)
    && (r.Some? ==> g.Ready(text) && g.end == o.Last? && |matches| < Progress(g.index, g.end))
    && (r.Some? ==> r.value == "" || Extends(r.value, text))
    && (r.Some? && o.Last? ==> IsLastOf(g, text, [r.value]))
    && (r.None? ==> g.scanned == |g.rows| || Stops(g.rows[g.scanned], g.line, g.columns, text))
    && |matches| <= |g.rows|
    && ("" in matches || r == Some("") ==> g.SomeEmpty(text))
    && (forall m <- matches :: m == "" || Extends(m, text))
    && Tally(matches, o, g.tokens, last)
    && (last == [] || (IsLastOf(g, text, last) && last[0] != ""))
  }

  method FirstCall(g: Generator, text: string, typed: string) returns (r: Option<string>, ghost o: Outcome)
    requires IsHelp(g.rows) && (text != "" ==> Words(typed) != [])
    modifies g
    ensures g.line == Words(typed) && Underway(g, text, r, o, [], [])
  {
    r, o := g.Generate(text, 0, typed);
  }

  method OneMoreCall(g: Generator, text: string, typed: string, answer: string, matches: seq<string>,
      ghost o: Outcome, ghost last: seq<string>)
    returns (r: Option<string>, more: seq<string>, ghost o': Outcome, ghost last': seq<string>)
    requires Underway(g, text, Some(answer), o, matches, last)
    modifies g
    ensures more == matches + [answer] && g.line == old(g.line)
    ensures Underway(g, text, r, o', more, last')
    ensures Progress(g.index, g.end) >= old(Progress(g.index, g.end)) + if r.Some? then 1 else 0
  {
    more := matches + [answer];
    ghost var tokens := g.tokens;
    r, o' := g.Generate(text, |more|, typed);
    OneMoreMatch(matches, o, tokens, last, o');
    last' := LastGiven(o);
  }

  // The first row that the line fills, or the number of rows.
  function FirstFilled(rows: seq<seq<string>>, line: seq<string>, columns: seq<seq<string>>, text: string): (k: nat)
    ensures k <= |rows| && (k < |rows| ==> Stops(rows[k], line, columns, text))
    ensures forall i :: 0 <= i < k ==> !Stops(rows[i], line, columns, text)
  {
    if rows == [] || Stops(rows[0], line, columns, text) then 0 else 1 + FirstFilled(rows[1..], line, columns, text)
  }

  // Some row before the first filled one offers the word.
  ghost predicate IsOffered(rows: seq<seq<string>>, line: seq<string>, columns: seq<seq<string>>, text: string,
      t: string)
    requires text != "" ==> line != []
  {
    exists r :: 0 <= r < FirstFilled(rows, line, columns, text)
      && Offers(rows[r], line, columns, text) && rows[r][Place(line, text)] == t
  }

  // A filled row hides what only later rows offer.
  lemma FilledRowHides(rows: seq<seq<string>>, line: seq<string>, columns: seq<seq<string>>, text: string, k: nat,
      t: string)
    requires (text != "" ==> line != []) && k < |rows| && Stops(rows[k], line, columns, text)
    requires forall r :: 0 <= r < k ==> !(Offers(rows[r], line, columns, text) && rows[r][Place(line, text)] == t)
    ensures !IsOffered(rows, line, columns, text, t)
  {
    assert FirstFilled(rows, line, columns, text) <= k;
  }

  // What is completed: the matches that are not empty are `words`, the distinct words
  // offered before the first filled row, and then at most one answer for the last word
  // of that row.
  ghost predicate IsCompletion(rows: seq<seq<string>>, line: seq<string>, columns: seq<seq<string>>, text: string,
      matches: seq<string>, words: seq<string>, last: seq<string>)
    requires text != "" ==> line != []
  {
    && NonEmpty(matches) == words + last && Distinct(words)
    && (forall t :: t in words <==> IsOffered(rows, line, columns, text, t))
    && (last == [] || IsLastAt(rows, FirstFilled(rows, line, columns, text), text, last))
  }

  predicate IsLastAt(rows: seq<seq<string>>, k: nat, text: string, last: seq<string>) {
    |last| == 1 && last[0] != "" && k < |rows| && rows[k] != [] && IsLastAnswer(last[0], rows[k][|rows[k]| - 1], text)
  }

  // Readline's use of the generator: state 0 first, then on until NULL. It ends, with no
  // more matches than rows; every match is empty or extends the typed text.
  method Complete(g: Generator, text: string, typed: string)
    returns (matches: seq<string>, ghost words: seq<string>, ghost last: seq<string>)
    requires IsHelp(g.rows) && (text != "" ==> Words(typed) != [])
    modifies g
    ensures |matches| <= |g.rows|
    ensures forall m <- matches :: m == "" || Extends(m, text)
    ensures "" in matches ==>
      text != "" && exists k :: 0 <= k < |g.rows| && MayBeEmpty(g.rows[k], Words(typed), g.columns, text, g.check)
    ensures IsCompletion(g.rows, Words(typed), g.columns, text, matches, words, last)
  {
    var r;
    ghost var o;
    matches, last := [], [];
    r, o := FirstCall(g, text, typed);
    while r.Some?
      invariant g.line == Words(typed) && Underway(g, text, r, o, matches, last)
      decreases |g.rows| + 1 - Progress(g.index, g.end), r.Some?
    {
      r, matches, o, last := OneMoreCall(g, text, typed, r.value, matches, o, last);
    }
    words := g.tokens;
    AllOffered(g, text, o, matches, last);
  }

  // At the end of a completion the rows scanned are those before the first filled one.
  lemma AllOffered(g: Generator, text: string, o: Outcome, matches: seq<string>, last: seq<string>)
    requires Underway(g, text, None, o, matches, last)
    ensures IsCompletion(g.rows, g.line, g.columns, text, matches, g.tokens, last)
  {
    assert Given(o) == [] && NonEmpty(matches) + [] == NonEmpty(matches);
    assert g.scanned == FirstFilled(g.rows, g.line, g.columns, text);
    forall t ensures t in g.tokens <==> IsOffered(g.rows, g.line, g.columns, text, t) {
      assert t in g.tokens <==> g.Offered(text, t);
    }
  }

  lemma SomeMember(ws: seq<string>)
    ensures ws == [] || exists t :: t in ws
  {
    if ws != [] {
      assert ws[0] in ws;
    }
  }

  // The line "show " fills the row `show`: nothing is completed although the next row
  // goes on with another word.
  method ShowHidesShowSystem() returns (matches: seq<string>)
    ensures NonEmpty(matches) == []
  {
    var rows, columns := [["show"], ["show", "system"]], [["show"]];
    var typed := "show ";
    var g := new Generator(rows, columns, (_, _) => true);
    assert typed[..4] == "show" && typed[4..] == " " && WordEnd(typed[4..]) == 0 && WordEnd(typed[3..]) == 1;
    assert WordEnd(typed[2..]) == 2 && WordEnd(typed[1..]) == 3 && WordEnd(typed) == 4;
    assert typed[4..][1..] == "" && Words(typed[4..]) == [];
    assert Words(typed) == ["show"];
    assert WordFits(rows[0], ["show"], columns, 0);
    ghost var words, last;
    matches, words, last := Complete(g, "", typed);
    forall t ensures t !in words {
      FilledRowHides(rows, ["show"], columns, "", 0, t);
    }
    SomeMember(words);
  }

  lemma OneWord(words: seq<string>, w: string)
    requires Distinct(words) && forall t :: t in words <==> t == w
    ensures words == [w]
  {
    assert |words| >= 2 ==> words[0] != words[1];
    assert w in words;
    forall i | 0 <= i < |words| ensures words[i] == w {
      assert words[i] in words;
    }
  }

  lemma TwoWordsLaid(a: string, b: string)
    requires IsWord(a) && IsWord(b)
    ensures Words(a + (" " + b)) == [a, b]
  {
    var words, gaps := [a, b], ["", " ", ""];
    assert words[1..] == [b] && words[1..][1..] == [] && gaps[1..] == [" ", ""] && gaps[1..][1..] == [""];
    assert Laid([], [""]) == "" && b + "" == b && "" + (a + (" " + b)) == a + (" " + b);
    WordsOfLaid(words, gaps);
  }

  // What a single row offers is completed, unless the line fills the row.
  lemma OnlyOffer(row: seq<string>, line: seq<string>, columns: seq<seq<string>>, text: string)
    requires (text != "" ==> line != []) && Offers(row, line, columns, text) && !Stops(row, line, columns, text)
    ensures FirstFilled([row], line, columns, text) == 1
    ensures forall t :: IsOffered([row], line, columns, text, t) <==> t == row[Place(line, text)]
  {
    assert [row][1..] == [];
    assert [row][0] == row;
  }

  // So such a row alone completes to its word.
  lemma OnlyCompletion(row: seq<string>, line: seq<string>, columns: seq<seq<string>>, text: string,
      matches: seq<string>, words: seq<string>, last: seq<string>)
    requires (text != "" ==> line != []) && Offers(row, line, columns, text) && !Stops(row, line, columns, text)
    requires IsCompletion([row], line, columns, text, matches, words, last)
    ensures NonEmpty(matches) == [row[Place(line, text)]]
  {
    OnlyOffer(row, line, columns, text);
    hide Offers, Stops, FirstFilled, IsOffered, NonEmpty;
    OneWord(words, row[Place(line, text)]);
    assert last == [];
    assert words + [] == words;
  }

  lemma PrefixExtends(token: string, text: string)
    requires text <= token
    ensures Extends(token, text)
  {}

  // A row of two keywords offers the second while it is being typed.
  lemma SecondOffered(first: string, second: string, text: string, columns: seq<seq<string>>)
    requires text <= second && text != second && text != "" && !IsVariable(second)
    ensures Offers([first, second], [first, text], columns, text)
    ensures !Stops([first, second], [first, text], columns, text)
  {
    PrefixExtends(second, text);
    hide Extends, IsVariable;
    assert WordFits([first, second], [first, text], columns, 0) && WordFits([first, second], [first, text], columns, 1);
  }

  lemma ShowSysWords()
    ensures Words("show sys") == ["show", "sys"]
  {
    TwoWordsLaid("show", "sys");
    hide *;
    assert "show sys" == "show" + (" " + "sys");
  }

  lemma ShowSystemIsHelp()
    ensures IsHelp([["show", "system"]])
  {}

  // "show sys" is completed to `system`.
  method ShowSysGivesSystem() returns (matches: seq<string>)
    ensures NonEmpty(matches) == ["system"]
  {
    hide *;
    var row, line := ["show", "system"], ["show", "sys"];
    var g := new Generator([row], [["show"], ["system"]], (_, _) => true);
    ShowSysWords();
    ShowSystemIsHelp();
    SystemBegins();
    SecondOffered("show", "system", "sys", g.columns);
    ghost var words, last;
    matches, words, last := Complete(g, "sys", "show sys");
    OnlyCompletion(row, line, g.columns, "sys", matches, words, last);
    PlaceOf(line);
  }

  lemma SystemBegins()
    ensures "sys" <= "system" && "sys" != "system" && !IsVariable("system")
  {}

  lemma PlaceOf(line: seq<string>)
    requires |line| == 2
    ensures Place(line, "sys") == 1
  {}
}
