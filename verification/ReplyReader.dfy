/**
  The reader that walks a reply in place, printing as it goes.
*/
module ReplyReader {
  import opened Text
  import opened ReplyWalker
  import opened ReplyTables
  import opened ReplyKinds

  class Reader {
    var rest: seq<Cell>
    var error: bool
    var out: string
    // port_link_flag
    var link: bool
    // The decoders of the specifications that read cells of their own.
    const decode: Decoder

    constructor (cells: seq<Cell>, link: bool, decode: Decoder)
      ensures Now() == State(cells, false, link, "") && this.decode == decode
    {
      rest, error, out, this.link, this.decode := cells, false, "", link, decode;
    }

    function Now(): State
      reads this
    {
      State(rest, error, link, out)
    }

    method Print(text: string)
      modifies this
      ensures Now() == Put(old(Now()), text)
    {
      out := out + text;
    }

    method NextTag() returns (tag: MTag)
      modifies this
      ensures (tag, Now()) == ReadTag(old(Now()))
    {
      if error {
        return Other;
      }
      if rest == [] || !rest[0].Tag? {
        error := true;
        return Other;
      }
      tag := rest[0].tag;
      rest := rest[1..];
    }

    method NextString(len: nat) returns (s: string)
      modifies this
      ensures (s, Now()) == ReadString(old(Now()), len)
    {
      if error {
        return "";
      }
      if len > |rest| || !AllBytes(rest[..len]) {
        error := true;
        return "";
      }
      s := CString(Chars(rest[..len]));
      rest := rest[len..];
    }

    method UnpackSpecVal(spec: string, val: int)
      requires Forward(decode)
      modifies this
      ensures Now() == SpecVal(decode, old(Now()), spec, val)
    {
      if spec == "%l" {
        if val != 0 {
          link := true;
          Print(Column("up"));
        } else {
          link := false;
          Print(Column("down"));
        }
      } else if spec == "%o" {
        if val != 0 {
          Print(Column("on"));
        } else {
          Print(Column("off"));
        }
      } else if spec == "%S" {
        if link {
          Print(Column(SpeedText(val)));
        } else {
          Print(Column("--"));
        }
      } else if spec == "%d" {
        if link {
          if val != 0 {
            Print(Column("half"));
          } else {
            Print(Column("full"));
          }
        } else {
          Print(Column("--"));
        }
      } else {
        var after := decode(spec, Now());
        rest, error, link, out := after.rest, after.error, after.link, after.out;
      }
    }

    method UnpackByType(tag: MTag, head: string, depth: nat)
      requires Forward(decode)
      modifies this
      ensures Now() == Walk(decode, old(Now()), tag, head, depth)
      decreases |rest|, Rank(tag), 0
    {
      match tag
      case Uint(v) =>
        if head == "" {
          Print(UintText(v));
        } else {
          UnpackSpecVal(head, Int32(v));
        }
      case Str(len) =>
        var s := NextString(len);
        if head == "" {
          Print(StringText(s));
        } else {
          UnpackSpecVal(head, 0);
        }
      case Array(n) =>
        if n != 0 {
          if head == "" {
            UnpackItems(n, depth);
          } else {
            UnpackSpecVal(head, 0);
          }
        } else {
          Print(Indent(depth) + "-- ");
        }
      case Map(n) => UnpackEntries(n, depth);
      case Other =>
    }

    // The loop over the elements of an array.
    method UnpackItems(n: nat, depth: nat)
      requires Forward(decode)
      modifies this
      ensures Now() == WalkItems(decode, old(Now()), n, depth)
      decreases |rest|, 1, n
    {
      ghost var start := Now();
      for j := 0 to n
        invariant |rest| <= |start.rest|
        invariant WalkItems(decode, Now(), n - j, depth) == WalkItems(decode, start, n, depth)
      {
        var child := NextTag();
        UnpackByType(child, "", depth);
      }
    }

    // The loop over the keys and values of a map.
    method UnpackEntries(n: nat, depth: nat)
      requires Forward(decode)
      modifies this
      ensures Now() == WalkEntries(decode, old(Now()), n, depth)
      decreases |rest|, 1, n + 1
    {
      ghost var start := Now();
      for j := 0 to n
        invariant |rest| <= |start.rest|
        invariant WalkEntries(decode, Now(), n - j, depth) == WalkEntries(decode, start, n, depth)
      {
        UnpackEntry(depth);
      }
    }

    method UnpackEntry(depth: nat)
      requires Forward(decode)
      modifies this
      ensures Now() == WalkEntry(decode, old(Now()), depth)
      decreases |rest|, 1, 0
    {
      var key := NextTag();
      if !key.Str? {
        UnpackByType(key, "", depth);
        var child := NextTag();
        UnpackByType(child, "", depth);
      } else {
        var name := NextString(key.len);
        UnpackNamed(name, depth);
      }
    }

    // The part after a string key.
    method UnpackNamed(name: string, depth: nat)
      requires Forward(decode)
      modifies this
      ensures Now() == WalkNamed(decode, old(Now()), name, depth)
      decreases |rest|, 3, 0
    {
      if '%' in name {
        Print(Indent(depth) + Title(name) + ": ");
        UnpackSpecVal(Spec(name), 0);
      } else {
        Print(Indent(depth) + name + ": ");
        var child := NextTag();
        UnpackByType(child, "", depth);
      }
    }

    method ShowSimpleDimensionalWithoutHead(n: int)
      requires Forward(decode)
      modifies this
      ensures Now() == ShowRows(decode, old(Now()), n)
    {
      hide ShowRows, Walk, ReadTag;
      ghost var all := ShowRows(decode, Now(), n);
      var i := n;
      while i > 0 && !error
        invariant ShowRows(decode, Now(), i) == all
        decreases i
      {
        UnfoldShowRows(decode, Now(), i);
        var tag := NextTag();
        UnpackByType(tag, "", 0);
        Print("\n");
        i := i - 1;
      }
      UnfoldShowRows(decode, Now(), i);
    }

    // One column name, whose title may be printed.
    method ReadHead(titles: bool) returns (name: string)
      modifies this
      ensures name == ReadName(old(Now())).0
      ensures Now() == Put(ReadName(old(Now())).1, TitleText(name, titles))
    {
      var tag := NextTag();
      name := "";
      if !tag.Str? || tag.len > 128 {
        error := true;
      } else {
        name := NextString(tag.len);
      }
      if titles {
        Print(Column(Title(name)));
      } else {
        assert out + "" == out;
      }
    }

    // Keeps the specification of a column, if its name has one.
    method StoreSpec(heads: seq<string>, k: nat, name: string) returns (r: seq<string>)
      requires k < |heads| && heads[k] == ""
      ensures r == heads[k := Spec(name)]
    {
      r := heads;
      if '%' in name {
        r := heads[k := name[Find(name, '%')..]];
      } else {
        assert Find(name, '%') == |name|;
        assert Spec(name) == "" && heads[k := ""] == heads;
      }
    }

    // One turn of the loop over the heads.
    method NextHead(heads: seq<string>, columns: nat, i: nat, titles: bool, ghost start: State) returns (r: seq<string>)
      requires HeadsSoFar(start, Now(), columns, i, heads, titles) && i > 0 && !error
      modifies this
      ensures HeadsSoFar(start, Now(), columns, i - 1, r, titles)
    {
      HeadsStep(start, Now(), columns, i, heads, titles);
      assert |heads| == columns && i <= columns && heads[columns - i] == "";
      hide HeadsSoFar, ReadHeads;
      var name := ReadHead(titles);
      r := StoreSpec(heads, columns - i, name);
    }

    // The loop over the heads.
    method ReadHeadRow(columns: nat, titles: bool) returns (heads: seq<string>)
      modifies this
      ensures (heads, Now()) == ReadHeads(old(Now()), columns, titles)
    {
      hide HeadsSoFar, ReadHeads;
      heads := Blanks(columns);
      ghost var start := Now();
      HeadsStart(start, columns, titles);
      var i := columns;
      while i > 0 && !error
        invariant HeadsSoFar(start, Now(), columns, i, heads, titles)
        decreases i
      {
        heads := NextHead(heads, columns, i, titles, start);
        i := i - 1;
      }
      HeadsEnd(start, Now(), columns, i, heads, titles);
    }

    method ShowSimpleDimensionalWithPrintHead(columns: nat, n: int)
      requires Forward(decode)
      modifies this
      ensures Now() == ShowTable(decode, old(Now()), columns, n)
    {
      var heads := ReadHeadRow(columns, true);
      Print("\n");
      Print(RULE);
      UnpackRows(heads, n, 0);
    }

    // The loop over the rows of a table.
    method UnpackRows(heads: seq<string>, n: int, depth: nat)
      requires Forward(decode)
      modifies this
      ensures Now() == WalkRows(decode, old(Now()), heads, n, depth)
    {
      hide WalkRows, WalkOneRow;
      ghost var all := WalkRows(decode, Now(), heads, n, depth);
      var i := n;
      while i > 0 && !error
        invariant WalkRows(decode, Now(), heads, i, depth) == all
        decreases i
      {
        UnfoldRows(decode, Now(), heads, i, depth);
        UnpackRow(heads, depth);
        i := i - 1;
      }
      UnfoldRows(decode, Now(), heads, i, depth);
    }

    // The loop over the cells of a row.
    method UnpackRow(heads: seq<string>, depth: nat)
      requires Forward(decode)
      modifies this
      ensures Now() == WalkOneRow(decode, old(Now()), heads, depth)
    {
      var tag := NextTag();
      var n := Count(tag);
      ghost var all := WalkCells(decode, Now(), heads, 0, n, depth);
      for j := 0 to n
        invariant WalkCells(decode, Now(), heads, j, n, depth) == all
      {
        var child := NextTag();
        UnpackByType(child, HeadOf(heads, j), depth);
      }
      Print("\n");
    }

    method ShowMulDimensionalWithNotPrintHead(columns: nat, n: int)
      requires Forward(decode)
      modifies this
      ensures Now() == ShowGroup(decode, old(Now()), columns, n)
    {
      var heads := ReadHeadRow(columns, false);
      Print("\n" + RULE);
      UnpackRows(heads, n, 1);
      Print(RULE + "\n");
    }

    // The loop over the groups of a reply.
    method ShowAllGroups(n: int)
      requires Forward(decode)
      modifies this
      ensures Now() == ShowGroups(decode, old(Now()), n)
    {
      hide ShowGroups, ShowOneGroup;
      ghost var all := ShowGroups(decode, Now(), n);
      var i := n;
      while i > 0 && !error
        invariant ShowGroups(decode, Now(), i) == all
        decreases i
      {
        UnfoldGroups(decode, Now(), i);
        ShowNextGroup();
        i := i - 1;
      }
      UnfoldGroups(decode, Now(), i);
    }

    method ShowNextGroup()
      requires Forward(decode)
      modifies this
      ensures Now() == ShowOneGroup(decode, old(Now()))
    {
      hide Walk, ShowGroup, ReadArray, ReadTag;
      var num := ExpectArray();
      var tag := NextTag();
      UnpackByType(tag, "", 0);
      var columns := ExpectArray();
      ShowMulDimensionalWithNotPrintHead(columns, num as int - 2);
    }

    method ShowMulDimensionalWithoutHead(n: int)
      requires Forward(decode)
      modifies this
      ensures Now() == ShowDomains(decode, old(Now()), n)
    {
      hide ShowDomains, ShowDomain;
      ghost var all := ShowDomains(decode, Now(), n);
      var i := n;
      while i > 0 && !error
        invariant ShowDomains(decode, Now(), i) == all
        decreases i
      {
        UnfoldDomains(decode, Now(), i);
        ShowNextDomain();
        i := i - 1;
      }
      UnfoldDomains(decode, Now(), i);
    }

    method ShowNextDomain()
      requires Forward(decode)
      modifies this
      ensures Now() == ShowDomain(decode, old(Now()))
    {
      var n := ExpectArray();
      ShowDomainFrom(n);
    }

    method PrintRuleIf(ruled: bool)
      modifies this
      ensures Now() == Put(old(Now()), RuleIf(ruled))
    {
      if ruled {
        Print(RULE);
      } else {
        assert out + "" == out;
      }
    }

    // A domain after its count.
    method ShowDomainFrom(n: nat)
      requires Forward(decode)
      modifies this
      ensures Now() == DomainFrom(decode, old(Now()), n)
    {
      hide Walk, ShowElements, ReadTag, RuleIf;
      var tag := NextTag();
      UnpackByType(tag, "", 0);
      Print("\n");
      PrintRuleIf(n > 1);
      UnpackElements(n as int - 1);
      PrintRuleIf(n > 1);
      Print("\n");
    }

    // The loop over the elements of a domain.
    method UnpackElements(n: int)
      requires Forward(decode)
      modifies this
      ensures Now() == ShowElements(decode, old(Now()), n)
    {
      hide ShowElements, ShowElement;
      ghost var all := ShowElements(decode, Now(), n);
      var j := n;
      while j > 0 && !error
        invariant ShowElements(decode, Now(), j) == all
        decreases j
      {
        UnfoldElements(decode, Now(), j);
        UnpackElement();
        j := j - 1;
      }
      UnfoldElements(decode, Now(), j);
    }

    method UnpackElement()
      requires Forward(decode)
      modifies this
      ensures Now() == ShowElement(decode, old(Now()))
    {
      var tag := NextTag();
      UnpackAgain(tag, Count(tag));
      Print("\n");
    }

    // The loop that walks one value n times.
    method UnpackAgain(tag: MTag, n: nat)
      requires Forward(decode)
      modifies this
      ensures Now() == WalkAgain(decode, old(Now()), tag, n)
    {
      ghost var all := WalkAgain(decode, Now(), tag, n);
      for k := 0 to n
        invariant WalkAgain(decode, Now(), tag, n - k) == all
      {
        UnpackByType(tag, "", 1);
      }
    }

    // printf_int_key_val_by_index
    method PrintfIntKeyValByIndex(key: int, head: string)
      requires Forward(decode)
      modifies this
      ensures Now() == SparseValue(decode, Put(old(Now()), KeyCaption(key)), head)
    {
      Print(KeyCaption(key));
      if |head| > 0 {
        UnpackSpecVal(head, 0);
      } else {
        var tag := NextTag();
        UnpackByType(tag, "", 0);
      }
    }

    // The loop over the cells of a sparse row.
    method UnpackSparseCells(heads: seq<string>, n: nat)
      requires Forward(decode)
      modifies this
      ensures Now() == SparseCells(decode, old(Now()), heads, n)
    {
      ghost var all := SparseCells(decode, Now(), heads, n);
      for j := 0 to n
        invariant SparseCells(decode, Now(), heads, n - j) == all
      {
        var _ := NextTag();
        var key := NextTag();
        PrintfIntKeyValByIndex(KeyOf(key), SparseHead(heads, KeyOf(key)));
      }
    }

    method UnpackSparseRow(heads: seq<string>)
      requires Forward(decode)
      modifies this
      ensures Now() == SparseRow(decode, old(Now()), heads)
    {
      var tag := NextTag();
      UnpackSparseCells(heads, Count(tag));
      Print("\n");
    }

    // The loop over the sparse rows.
    method UnpackSparseRows(heads: seq<string>, n: int)
      requires Forward(decode)
      modifies this
      ensures Now() == SparseRows(decode, old(Now()), heads, n)
    {
      hide SparseRows, SparseRow;
      ghost var all := SparseRows(decode, Now(), heads, n);
      var i := n;
      while i > 0 && !error
        invariant SparseRows(decode, Now(), heads, i) == all
        decreases i
      {
        UnfoldSparseRows(decode, Now(), heads, i);
        UnpackSparseRow(heads);
        i := i - 1;
      }
      UnfoldSparseRows(decode, Now(), heads, i);
    }

    method ShowSimpleDimensionalWithSparseHead(columns: nat, n: int)
      requires Forward(decode)
      modifies this
      ensures Now() == ShowSparse(decode, old(Now()), columns, n)
    {
      var heads := ReadHeadRow(columns, false);
      UnpackSparseRows(heads, n);
    }

    method ExpectArray() returns (n: nat)
      modifies this
      ensures (n, Now()) == ReadArray(old(Now()))
    {
      var tag := NextTag();
      if !tag.Array? {
        error := true;
        return 0;
      }
      n := tag.n;
    }

    method ExpectU64() returns (v: U64)
      modifies this
      ensures (v, Now()) == ReadU64(old(Now()))
    {
      var tag := NextTag();
      if !tag.Uint? {
        error := true;
        return 0;
      }
      v := tag.v;
    }

    // process_show_cmds
    method ProcessShowCmds(kinds: Kinds)
      requires Forward(decode)
      modifies this
      ensures Now() == Process(decode, old(Now()), kinds)
    {
      var n := ExpectArray();
      var kind := ExpectU64();
      ShowByKind(kinds, kind, n);
    }

    // The switch on the kind of reply.
    method ShowByKind(kinds: Kinds, kind: U64, n: nat)
      requires Forward(decode)
      modifies this
      ensures Now() == ByKind(decode, old(Now()), kinds, kind, n)
    {
      if kind == kinds.oneDimensional || kind == kinds.twoNoHead {
        ShowSimpleDimensionalWithoutHead(n as int - 1);
      } else if kind == kinds.twoWithHead {
        var columns := ExpectArray();
        ShowSimpleDimensionalWithPrintHead(columns, n as int - 2);
      } else if kind == kinds.twoSparse {
        var columns := ExpectArray();
        ShowSimpleDimensionalWithSparseHead(columns, n as int - 2);
      } else if kind == kinds.mulWithHead {
        ShowAllGroups(n as int - 1);
      } else if kind == kinds.mulNoHead {
        ShowMulDimensionalWithoutHead(n as int - 1);
      }
    }
  }
}
