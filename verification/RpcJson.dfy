/**
  The request builder of the RPC client: a text buffer and the flags its convert
  functions are handed.
*/
module RpcJson {
  import opened Wrappers
  import opened Text
  import opened JsonTokens
  import opened JsonBuilder
  import opened JsonText

  class Request {
    var sb: string
    var inList: bool
    var inPair: bool
    var inMap: bool

    constructor ()
      ensures sb == "" && Now() == START
    {
      sb := "";
      inList, inPair, inMap := false, false, false;
    }

    function Now(): Flags
      reads this
    {
      Flags(inList, inPair, inMap)
    }

    // The bracket or comma before whatever comes next.
    method Separate()
      modifies this
      ensures sb == old(sb) + ShowAll(Lead(old(Now())))
      ensures inList && inPair == old(inPair) && inMap == old(inMap)
    {
      if !inList {
        sb := sb + "[";
        inList := true;
      } else {
        if !inPair {
          sb := sb + ",";
        }
      }
    }

    method OpenMap()
      modifies this
      ensures sb == old(sb) + (if old(inMap) then "" else "{")
      ensures inMap && inList == old(inList) && inPair == old(inPair)
    {
      if !inMap {
        sb := sb + "{";
        inMap := true;
      }
    }

    method ConvertVal(value: U64)
      modifies this
      ensures sb == old(sb) + ShowAll(Emitted(old(Now()), Value(Atom(DecInt(Signed64(value))))))
      ensures Now() == Next(old(Now()), Value(Atom(DecInt(Signed64(value)))))
    {
      ValueText(sb, Now(), Atom(DecInt(Signed64(value))));
      Separate();
      sb := sb + DecInt(Signed64(value));
      inPair := false;
    }

    method ConvertSpecStr(val: string)
      modifies this
      ensures sb == old(sb) + ShowAll(Emitted(old(Now()), Value(Str(val))))
      ensures Now() == Next(old(Now()), Value(Str(val)))
    {
      ValueText(sb, Now(), Str(val));
      Separate();
      sb := sb + ("\"" + val + "\"");
      inPair := false;
    }

    method ConvertStrKey(val: string)
      modifies this
      ensures sb == old(sb) + ShowAll(Emitted(old(Now()), Key(Atom(val))))
      ensures Now() == Next(old(Now()), Key(Atom(val)))
    {
      KeyText(sb, Now(), Atom(val));
      Separate();
      OpenMap();
      sb := sb + (val + ":");
      inPair := true;
    }

    method ConvertIntKey(val: int)
      modifies this
      ensures sb == old(sb) + ShowAll(Emitted(old(Now()), Key(Atom(DecInt(val)))))
      ensures Now() == Next(old(Now()), Key(Atom(DecInt(val))))
    {
      KeyText(sb, Now(), Atom(DecInt(val)));
      Separate();
      OpenMap();
      sb := sb + (DecInt(val) + ":");
      inPair := true;
    }

    method ConvertSpecKey(val: string)
      modifies this
      ensures sb == old(sb) + ShowAll(Emitted(old(Now()), Key(Str(val))))
      ensures Now() == Next(old(Now()), Key(Str(val)))
    {
      KeyText(sb, Now(), Str(val));
      Separate();
      OpenMap();
      sb := sb + ("\"" + val + "\"" + ":");
      inPair := true;
    }

    method Close()
      modifies this`sb
      ensures sb == old(sb) + ShowAll(Closing(old(Now()), []))
    {
      ClosingText(Now());
      if inMap {
        sb := sb + "}";
      }
      if inList {
        sb := sb + "]";
      }
    }
  }

  lemma ValueText(was: string, f: Flags, j: Json)
    requires j.Atom? || j.Str?
    ensures was + ShowAll(Lead(f)) + Show(Write(j)[0]) == was + ShowAll(Emitted(f, Value(j)))
  {
    ShowAllConcat(Lead(f), Write(j));
    Associative(was, ShowAll(Lead(f)), Show(Write(j)[0]));
  }

  lemma KeyText(was: string, f: Flags, k: Json)
    requires IsKey(k)
    ensures was + ShowAll(Lead(f)) + (if f.inMap then "" else "{") + (Show(Write(k)[0]) + ":") ==
      was + ShowAll(Emitted(f, Key(k)))
  {
    var open := if f.inMap then [] else [LBrace];
    var own := Write(k) + [Colon];
    ShowAllConcat(Lead(f) + open, own);
    ShowAllConcat(Lead(f), open);
    ShowAllConcat(Write(k), [Colon]);
    assert ShowAll(open) == if f.inMap then "" else "{";
    assert ShowAll(own) == Show(Write(k)[0]) + ":";
    Associative(was, ShowAll(Lead(f)), ShowAll(open));
    Associative(was, ShowAll(Lead(f)) + ShowAll(open), ShowAll(own));
  }

  // The arguments of one call.
  datatype Op =
    | Val(value: U64)
    | SpecStr(text: string)
    | StrKey(text: string)
    | IntKey(key: int)
    | SpecKey(text: string)

  function AsCall(op: Op): Call {
    match op
    case Val(v) => Value(Atom(DecInt(Signed64(v))))
    case SpecStr(s) => Value(Str(s))
    case StrKey(s) => Key(Atom(s))
    case IntKey(k) => Key(Atom(DecInt(k)))
    case SpecKey(s) => Key(Str(s))
  }

  function AsCalls(ops: seq<Op>): (r: seq<Call>)
    ensures |r| == |ops| && forall i :: 0 <= i < |ops| ==> r[i] == AsCall(ops[i])
  {
    seq(|ops|, i requires 0 <= i < |ops| => AsCall(ops[i]))
  }

  method Apply(r: Request, op: Op)
    modifies r
    ensures r.sb == old(r.sb) + ShowAll(Emitted(old(r.Now()), AsCall(op)))
    ensures r.Now() == Next(old(r.Now()), AsCall(op))
  {
    match op
    case Val(v) => r.ConvertVal(v);
    case SpecStr(s) => r.ConvertSpecStr(s);
    case StrKey(s) => r.ConvertStrKey(s);
    case IntKey(k) => r.ConvertIntKey(k);
    case SpecKey(s) => r.ConvertSpecKey(s);
  }

  // What a call writes is read back as its own argument.
  lemma ArgumentBack(op: Op)
    ensures match op
      case Val(v) => AsCall(op).Value? && NumberOf(AsCall(op).json) == Some(v)
      case IntKey(k) => AsCall(op).Key? && IntOf(AsCall(op).json) == Some(k)
      case SpecStr(s) => AsCall(op) == Value(Str(s))
      case SpecKey(s) => AsCall(op) == Key(Str(s))
      case StrKey(s) => AsCall(op) == Key(Atom(s))
  {
    match op
    case Val(v) => NumberBack(v);
    case IntKey(k) => IntBack(k);
    case _ =>
  }

  // Any run of calls, then the closing one. In legal order they write the list of the
  // values with the map of the pairs.
  method Build(ops: seq<Op>) returns (text: string)
    ensures text == ShowAll(Output(START, AsCalls(ops), []))
    ensures Legal(AsCalls(ops)) ==> text == if ops == [] then "" else Spelt(List(Elements(AsCalls(ops), [])))
  {
    var r := new Request();
    ghost var calls := AsCalls(ops);
    for i := 0 to |ops|
      invariant r.sb == ShowAll(Written(calls[..i])) && r.Now() == After(calls[..i])
    {
      TakeMore(calls, i);
      OneMoreCall(calls[..i], calls[i]);
      hide *;
      Apply(r, ops[i]);
    }
    assert calls[..|ops|] == calls;
    OutputText(calls, []);
    r.Close();
    text := r.sb;
    if Legal(calls) {
      RequestText(calls);
    }
  }

  // Strings without quotes and bare keys without punctuation.
  predicate IsPlainOp(op: Op) {
    match op
    case SpecStr(s) => IsPlain(Quoted(s))
    case StrKey(s) => IsPlain(Word(s))
    case SpecKey(s) => IsPlain(Quoted(s))
    case _ => true
  }

  lemma OpSpelt(op: Op)
    requires IsPlainOp(op)
    ensures IsCall(AsCall(op)) && IsSpelt(AsCall(op).json)
  {
    match op
    case Val(v) => DecSpelt(Signed64(v));
    case IntKey(k) => DecSpelt(k);
    case _ =>
  }

  // What is built is read back, exactly when the order of the calls was legal.
  method BuildAndRead(ops: seq<Op>) returns (doc: Option<Json>)
    requires forall op <- ops :: IsPlainOp(op)
    ensures doc == if ops != [] && Legal(AsCalls(ops)) then Some(List(Elements(AsCalls(ops), []))) else None
  {
    var text := Build(ops);
    ghost var calls := AsCalls(ops);
    forall c | c in calls ensures IsCall(c) && IsSpelt(c.json) {
      var i :| 0 <= i < |calls| && calls[i] == c;
      OpSpelt(ops[i]);
    }
    RequestTextReadsBack(calls, []);
    doc := ReadText(text);
  }

  // Different 64-bit values are written differently.
  lemma ValuesDistinct(v: U64, w: U64)
    requires DecInt(Signed64(v)) == DecInt(Signed64(w))
    ensures v == w
  {
    DecIntInjective(Signed64(v), Signed64(w));
  }
}
