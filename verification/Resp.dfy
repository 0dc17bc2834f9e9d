/**
 Commands of the RESP protocol: how they are printed, and what the parser makes of the bytes it has
 buffered when it may not read more.
 */
module Resp {
  import opened Options
  import opened Sequences
  import opened Decimal
  import opened NanoObj
  import opened Frames

  const LF: Byte := 10
  const CR: Byte := 13
  const CRLF: Bytes := [13, 10]
  const TAB: Byte := 9
  const SPACE: Byte := 32
  const DOLLAR: Byte := 36
  const STAR: Byte := 42
  const PLUS: Byte := 43
  const COLON: Byte := 58

  // ----- printing -----

  function MakeArray(count: nat): Bytes {
    [STAR] + (ToText(count) + CRLF)
  }

  function MakeBulkString(s: Bytes): Bytes {
    [DOLLAR] + (ToText(|s|) + CRLF + (s + CRLF))
  }

  function MakeBulkStrings(args: seq<Bytes>): Bytes {
    WriteAll(MakeBulkString, args)
  }

  /** A command as clients send it. */
  function Printed(args: seq<Bytes>): Bytes {
    MakeArray(|args|) + MakeBulkStrings(args)
  }

  // ----- parsing -----

  predicate IsEol(b: Byte) { b == CR || b == LF }

  /** Where the first line terminator is, or the end. */
  function LineEnd(s: Bytes): (n: nat)
    ensures n <= |s|
  {
    if s == [] || IsEol(s[0]) then 0 else 1 + LineEnd(s[1..])
  }

  /** What follows the terminator: a carriage return takes a line feed with it. */
  function AfterEol(s: Bytes): (r: (Bytes, bool))
    requires s != []
  {
    if s[0] == LF then (s[1..], false)
    else if |s| == 1 then ([], true)
    else (s[if s[1] == LF then 2 else 1..], false)
  }

  function Line(s: Bytes): (r: Got<Bytes>) {
    var n := LineEnd(s);
    if n == |s| then Fail(true)
    else var after := AfterEol(s[n..]); Got(s[..n], after.0, after.1)
  }

  /** The object made of the bytes of a bulk string. */
  ghost function BulkObj(data: Bytes): Obj {
    var o := FromString(data);
    if |o.data| <= 20 && IsText(o.data) then Int(TextValue(o.data).value) else o
  }

  /** Two more bytes, whatever they are, if they are there. */
  function SkipTwo(s: Bytes): (r: (Bytes, bool)) {
    if |s| < 2 then ([], true) else (s[2..], false)
  }

  ghost function Bulk(len: int, s: Bytes): (r: Got<Obj>) {
    if len < 0 then Got(Null, s, false)
    else if |s| < len then Fail(true)
    else var after := SkipTwo(s[len..]); Got(BulkObj(s[..len]), after.0, after.1)
  }

  ghost function BulkElement(s: Bytes): (r: Got<Obj>) {
    match Line(s)
    case Fail(f) => Fail(f)
    case Got(text, s1, f) =>
      if TextValue(text).None? then Fail(f)
      else
        match Bulk(TextValue(text).value, s1)
        case Fail(g) => Fail(f || g)
        case Got(o, s2, g) => Got(o, s2, f || g)
  }

  ghost function Tagged(s: Bytes): (r: Got<Obj>) {
    if s == [] then Fail(true)
    else if s[0] == DOLLAR then BulkElement(s[1..])
    else if s[0] == PLUS || s[0] == COLON || s[0] == MINUS then
      match Line(s[1..]) case Fail(f) => Fail(f) case Got(text, rest, f) => Got(FromKey(text), rest, f)
    else Fail(false)
  }

  /** One element of an array; one stray terminator before it is skipped. */
  ghost function Element(s: Bytes): (r: Got<Obj>) {
    if s != [] && IsEol(s[0]) then Tagged(s[1..]) else Tagged(s)
  }

  ghost function Elements(count: nat, s: Bytes, short: bool, acc: seq<Obj>): (r: Got<seq<Obj>>) {
    ReadAll(Element, count, s, short, acc)
  }

  ghost function Array(s: Bytes): (r: Got<seq<Obj>>) {
    match Line(s)
    case Fail(f) => Fail(f)
    case Got(text, rest, f) =>
      if TextValue(text).None? then Fail(f)
      else if TextValue(text).value < 0 then Got([], rest, f)
      else Elements(TextValue(text).value, rest, f, [])
  }

  predicate IsBlank(b: Byte) { b == SPACE || b == TAB }

  function TokenEnd(s: Bytes): (n: nat)
    ensures n <= |s|
  {
    if s == [] || IsBlank(s[0]) then 0 else 1 + TokenEnd(s[1..])
  }

  /** The words of an inline command. */
  ghost function Words(s: Bytes): (r: seq<Obj>)
    decreases |s|
  {
    if s == [] then []
    else if IsBlank(s[0]) then Words(s[1..])
    else [FromKey(s[..TokenEnd(s)])] + Words(s[TokenEnd(s)..])
  }

  ghost function Command(s: Bytes): (r: Got<seq<Obj>>) {
    if s == [] then Fail(true)
    else if s[0] == 0 then Fail(false)
    else if s[0] == STAR then Array(s[1..])
    else
      match Line(s[1..])
      case Fail(f) => Fail(f)
      case Got(text, rest, f) =>
        var words := Words([s[0]] + text);
        if words == [] then Fail(f) else Got(words, rest, f)
  }

  /** `TryParseCommandNoRead`: what it returns, and what it leaves in the buffer on success. */
  datatype Outcome = Parsed(args: seq<Obj>, rest: Bytes) | NeedMore | Malformed

  ghost function TryParse(s: Bytes): (r: Outcome) {
    match Command(s)
    case Got(args, rest, _) => Parsed(args, rest)
    case Fail(short) => if short then NeedMore else Malformed
  }

  // ----- a printed command is parsed back -----

  ghost predicate OneLine(t: Bytes) {
    forall i :: 0 <= i < |t| ==> !IsEol(t[i])
  }

  lemma {:induction false} LineEndIsFirst(s: Bytes)
    ensures LineEnd(s) < |s| ==> IsEol(s[LineEnd(s)])
    ensures forall i :: 0 <= i < LineEnd(s) ==> !IsEol(s[i])
  {
    if s != [] && !IsEol(s[0]) { LineEndIsFirst(s[1..]); }
  }

  lemma {:induction false} LineEndOf(t: Bytes, s: Bytes)
    requires OneLine(t) && (s == [] || IsEol(s[0]))
    ensures LineEnd(t + s) == |t|
  {
    if t == [] {
      assert t + s == s;
    } else {
      assert (t + s)[0] == t[0] && (t + s)[1..] == t[1..] + s;
      LineEndOf(t[1..], s);
    }
  }

  lemma LineOf(t: Bytes, s: Bytes)
    requires OneLine(t) && s != [] && IsEol(s[0])
    ensures Line(t + s) == Got(t, AfterEol(s).0, AfterEol(s).1)
  {
    LineEndOf(t, s);
    assert (t + s)[|t|..] == s && (t + s)[..|t|] == t;
  }

  lemma TextIsOneLine(n: nat)
    ensures OneLine(ToText(n))
  {
    TextForm(n);
  }

  lemma NumberLine(n: Int64, rest: Bytes)
    requires n >= 0
    ensures Line(ToText(n) + CRLF + rest) == Got(ToText(n), rest, false) && TextValue(ToText(n)) == Some(n)
  {
    TextIsOneLine(n);
    assert ToText(n) + CRLF + rest == ToText(n) + (CRLF + rest);
    assert (CRLF + rest)[2..] == rest;
    LineOf(ToText(n), CRLF + rest);
    TextValueOfText(n);
  }

  lemma BulkOf(data: Bytes, rest: Bytes)
    ensures Bulk(|data|, data + CRLF + rest) == Got(BulkObj(data), rest, false)
  {
    var s := data + CRLF + rest;
    assert s[..|data|] == data && s[|data|..] == CRLF + rest;
    assert (CRLF + rest)[2..] == rest;
  }

  lemma ElementOf(data: Bytes, rest: Bytes)
    requires |data| <= INT64_MAX
    ensures Element(MakeBulkString(data) + rest) == Got(BulkObj(data), rest, false)
  {
    var s := MakeBulkString(data) + rest;
    var body := data + CRLF + rest;
    assert s[0] == DOLLAR && s[1..] == ToText(|data|) + CRLF + body;
    NumberLine(|data|, body);
    BulkOf(data, rest);
  }

  ghost function Objs(args: seq<Bytes>): (r: seq<Obj>)
    ensures |r| == |args|
  {
    Map(BulkObj, args)
  }

  ghost predicate Sizes(args: seq<Bytes>) {
    |args| <= INT64_MAX && forall i :: 0 <= i < |args| ==> |args[i]| <= INT64_MAX
  }

  predicate Fitting(data: Bytes) {
    |data| <= INT64_MAX
  }

  lemma ElementReadsBack()
    ensures ReadsBack(Element, MakeBulkString, BulkObj, Fitting)
  {
    forall d, rest | Fitting(d) ensures Element(MakeBulkString(d) + rest) == Got(BulkObj(d), rest, false) {
      ElementOf(d, rest);
    }
  }

  lemma ElementsOf(args: seq<Bytes>, tail: Bytes)
    requires Sizes(args)
    ensures Elements(|args|, MakeBulkStrings(args) + tail, false, []) == Got(Objs(args), tail, false)
  {
    ElementReadsBack();
    ReadAllBack(Element, MakeBulkString, BulkObj, Fitting, args, tail, []);
    assert [] + Objs(args) == Objs(args);
  }

  lemma ArrayIsTried(p: Bytes, body: Bytes)
    requires p != [] && p[0] == STAR && p[1..] == body
    ensures Array(body).Got? ==> TryParse(p) == Parsed(Array(body).value, Array(body).rest)
    ensures Array(body) == Fail(true) ==> TryParse(p) == NeedMore
  {
  }

  lemma ArrayOfNumber(n: Int64, rest: Bytes)
    requires n >= 0
    ensures Array(ToText(n) + CRLF + rest) == Elements(n, rest, false, [])
  {
    NumberLine(n, rest);
  }

  lemma ArrayOf(args: seq<Bytes>, tail: Bytes)
    requires Sizes(args)
    ensures Array(ToText(|args|) + CRLF + (MakeBulkStrings(args) + tail)) == Got(Objs(args), tail, false)
  {
    ArrayOfNumber(|args|, MakeBulkStrings(args) + tail);
    ElementsOf(args, tail);
  }

  /** A command printed in front of anything is parsed back and leaves exactly the rest. */
  lemma ParsesBack(args: seq<Bytes>, tail: Bytes)
    requires Sizes(args)
    ensures TryParse(Printed(args) + tail) == Parsed(Objs(args), tail)
  {
    var s := Printed(args) + tail;
    var body := ToText(|args|) + CRLF + (MakeBulkStrings(args) + tail);
    assert s[0] == STAR && s[1..] == body;
    ArrayOf(args, tail);
    ArrayIsTried(s, body);
  }

  /** The arguments are the objects their texts make as keys. */
  lemma BulkIsKey(data: Bytes)
    requires |data| <= MAX_STRING
    ensures BulkObj(data) == FromKey(data)
  {
    if |data| > INLINE_LEN { assert data[..|data|] == data; }
  }

  // ----- what arguments can be -----

  ghost predicate AreArgs(objs: seq<Obj>) {
    forall i :: 0 <= i < |objs| ==> IsArg(objs[i])
  }

  lemma BulkIsArg(data: Bytes)
    ensures IsArg(BulkObj(data))
  {
    var o := FromString(data);
    if IsText(o.data) {
      var v :| IsInt64(v) && o.data == ToText(v);
      TextLength(v);
    }
  }

  lemma LineShrinks(s: Bytes)
    ensures Line(s).Got? ==> |Line(s).value| <= |s| && |Line(s).rest| <= |s|
  {
  }

  lemma ElementIsArg(s: Bytes)
    requires |s| <= MAX_STRING
    ensures Element(s).Got? ==> IsArg(Element(s).value) && |Element(s).rest| <= |s|
  {
    var u := if s != [] && IsEol(s[0]) then s[1..] else s;
    if u != [] {
      LineShrinks(u[1..]);
      if u[0] == DOLLAR {
        BulkElementIsArg(u[1..]);
      } else if Line(u[1..]).Got? {
        KeyIsArg(Line(u[1..]).value);
      }
    }
  }

  lemma BulkElementIsArg(s: Bytes)
    ensures BulkElement(s).Got? ==> IsArg(BulkElement(s).value) && |BulkElement(s).rest| <= |s|
  {
    LineShrinks(s);
    var line := Line(s);
    if line.Got? && TextValue(line.value).Some? {
      var len := TextValue(line.value).value;
      if 0 <= len <= |line.rest| { BulkIsArg(line.rest[..len]); }
    }
  }

  lemma ElementsAreArgs(count: nat, s: Bytes, short: bool)
    requires |s| <= MAX_STRING
    ensures Elements(count, s, short, []).Got? ==> AreArgs(Elements(count, s, short, []).value)
  {
    EachElementIsArg();
    ReadAllHold(Element, o => IsArg(o), MAX_STRING, count, s, short, []);
  }

  lemma EachElementIsArg()
    ensures EachHolds(Element, o => IsArg(o), MAX_STRING)
  {
    forall u | |u| <= MAX_STRING && Element(u).Got? ensures IsArg(Element(u).value) && |Element(u).rest| <= |u| {
      ElementIsArg(u);
    }
  }

  lemma {:induction false} WordsAreArgs(s: Bytes)
    requires |s| <= MAX_STRING
    ensures AreArgs(Words(s))
    decreases |s|
  {
    if s != [] {
      if IsBlank(s[0]) {
        WordsAreArgs(s[1..]);
      } else {
        KeyIsArg(s[..TokenEnd(s)]);
        WordsAreArgs(s[TokenEnd(s)..]);
      }
    }
  }

  /** What the parser makes of a buffer of up to 65535 bytes: nulls, and objects with the integer form where it fits. */
  lemma ParsedAreArgs(s: Bytes)
    requires |s| <= MAX_STRING
    ensures TryParse(s).Parsed? ==> AreArgs(TryParse(s).args)
  {
    if s != [] {
      LineShrinks(s[1..]);
      var line := Line(s[1..]);
      if line.Got? {
        if s[0] == STAR {
          if TextValue(line.value).Some? && TextValue(line.value).value >= 0 {
            ElementsAreArgs(TextValue(line.value).value, line.rest, line.short);
          }
        } else {
          WordsAreArgs([s[0]] + line.value);
        }
      }
    }
  }

  /** A null bulk string does arrive as a null among the arguments. */
  lemma NullArrives(rest: Bytes)
    ensures Element([DOLLAR] + (ToText(-1) + CRLF) + rest) == Got(Null, rest, false)
  {
    var s := [DOLLAR] + (ToText(-1) + CRLF) + rest;
    var t := ToText(-1);
    assert s[0] == DOLLAR && s[1..] == t + (CRLF + rest);
    TextForm(-1);
    assert OneLine(t);
    LineOf(t, CRLF + rest);
    assert (CRLF + rest)[2..] == rest;
    TextValueOfText(-1);
  }

  // ----- several commands -----

  ghost function PrintedAll(commands: seq<seq<Bytes>>): Bytes {
    if commands == [] then [] else Printed(commands[0]) + PrintedAll(commands[1..])
  }

  /** Up to `n` commands one after the other, until one cannot be parsed, and what is left then. */
  ghost function ParseAll(n: nat, s: Bytes): (seq<seq<Obj>>, Bytes) {
    if n == 0 || !TryParse(s).Parsed? then ([], s)
    else
      var first := TryParse(s);
      var more := ParseAll(n - 1, first.rest);
      ([first.args] + more.0, more.1)
  }

  ghost function AllObjs(commands: seq<seq<Bytes>>): seq<seq<Obj>> {
    if commands == [] then [] else [Objs(commands[0])] + AllObjs(commands[1..])
  }

  lemma ParseStep(n: nat, args: seq<Bytes>, rest: Bytes)
    requires n > 0 && Sizes(args)
    ensures var more := ParseAll(n - 1, rest);
            ParseAll(n, Printed(args) + rest) == ([Objs(args)] + more.0, more.1)
  {
    ParsesBack(args, rest);
  }

  /** Commands in front of any tail come back in order and the tail is what is left. */
  lemma {:induction false} AllParseBack(commands: seq<seq<Bytes>>, tail: Bytes)
    requires forall i :: 0 <= i < |commands| ==> Sizes(commands[i])
    ensures ParseAll(|commands|, PrintedAll(commands) + tail) == (AllObjs(commands), tail)
  {
    if commands == [] {
      assert PrintedAll(commands) + tail == tail;
    } else {
      var more := PrintedAll(commands[1..]);
      Assoc(Printed(commands[0]), more, tail);
      ParseStep(|commands|, commands[0], more + tail);
      AllParseBack(commands[1..], tail);
    }
  }

  // ----- a command that has not arrived completely -----

  /** How many bytes the end of a bulk string can do without: its terminator is never looked at. */
  function Spare(data: Bytes): nat {
    if data == [] then 3 else 2
  }

  lemma Behead<T>(x: T, b: seq<T>, m: nat)
    requires 0 < m <= 1 + |b|
    ensures var p := ([x] + b)[..m]; p[0] == x && p[1..] == b[..m - 1]
  {
  }

  lemma NumberCut(n: Int64, m: nat)
    requires n >= 0 && m < |ToText(n)| + 2
    ensures Line((ToText(n) + CRLF)[..m]) == if m <= |ToText(n)| then Fail(true) else Got(ToText(n), [], true)
  {
    var t := ToText(n);
    var u := (t + CRLF)[..m];
    TextIsOneLine(n);
    if m <= |t| {
      assert u == t[..m] + [];
      LineEndOf(t[..m], []);
    } else {
      assert u == t + [CR];
      LineOf(t, [CR]);
    }
  }

  lemma BulkCut(data: Bytes, k: nat)
    requires k < |data| + 2
    ensures Bulk(|data|, (data + CRLF)[..k]) == if k < |data| then Fail(true) else Got(BulkObj(data), [], true)
  {
    var v := (data + CRLF)[..k];
    if k >= |data| {
      assert v[..|data|] == data;
    }
  }

  lemma BulkElementCut(data: Bytes, m: nat)
    requires |data| <= INT64_MAX && m < |ToText(|data|)| + 4 + |data|
    ensures BulkElement((ToText(|data|) + CRLF + (data + CRLF))[..m]) ==
            if m + Spare(data) >= |ToText(|data|)| + 4 + |data| then Got(BulkObj(data), [], true) else Fail(true)
  {
    var t := ToText(|data|);
    var u := (t + CRLF + (data + CRLF))[..m];
    TextValueOfText(|data|);
    CutConcat(t + CRLF, data + CRLF, m);
    if m < |t| + 2 {
      NumberCut(|data|, m);
    } else {
      var k := m - |t| - 2;
      NumberLine(|data|, (data + CRLF)[..k]);
      BulkCut(data, k);
    }
  }

  /** `BulkElement` as a relation, for a proof that only passes its result on. */
  ghost predicate BulkGives(u: Bytes, g: Got<Obj>) {
    forall b {:trigger BulkElement(b)} :: b == u ==> BulkElement(b) == g
  }

  lemma DollarElement(body: Bytes, m: nat, g: Got<Obj>)
    requires 0 < m <= 1 + |body| && BulkGives(body[..m - 1], g)
    ensures Element(([DOLLAR] + body)[..m]) == g
  {
    Behead(DOLLAR, body, m);
  }

  lemma BulkCutGives(data: Bytes, m: nat, body: Bytes)
    requires |data| <= INT64_MAX && body == ToText(|data|) + CRLF + (data + CRLF) && m < |body|
    ensures BulkGives(body[..m], if m + Spare(data) >= |body| then Got(BulkObj(data), [], true) else Fail(true))
  {
    BulkElementCut(data, m);
  }

  lemma ElementCut(data: Bytes, m: nat)
    requires |data| <= INT64_MAX && m < |MakeBulkString(data)|
    ensures Element(MakeBulkString(data)[..m]) ==
            if m + Spare(data) >= |MakeBulkString(data)| then Got(BulkObj(data), [], true) else Fail(true)
  {
    if m > 0 {
      var body := ToText(|data|) + CRLF + (data + CRLF);
      BulkCutGives(data, m - 1, body);
      DollarElement(body, m, if m - 1 + Spare(data) >= |body| then Got(BulkObj(data), [], true) else Fail(true));
    }
  }

  lemma ElementReadsCut()
    ensures ReadsCut(Element, MakeBulkString, BulkObj, Fitting, Spare)
  {
    forall d, n: nat | Fitting(d) && n < |MakeBulkString(d)|
      ensures Element(MakeBulkString(d)[..n]) == CutResult(BulkObj(d), n + Spare(d) >= |MakeBulkString(d)|)
    {
      ElementCut(d, n);
    }
  }

  /** The grammar as relations, for proofs that only pass its results on. */
  ghost predicate ElementsGive(n: nat, body: Bytes, g: Got<seq<Obj>>) {
    forall b {:trigger Elements(n, b, false, [])} :: b == body ==> Elements(n, b, false, []) == g
  }

  ghost predicate ArrayGives(body: Bytes, g: Got<seq<Obj>>) {
    forall b {:trigger Array(b)} :: b == body ==> Array(b) == g
  }

  ghost predicate TryGives(s: Bytes, r: Outcome) {
    forall b {:trigger TryParse(b)} :: b == s ==> TryParse(b) == r
  }

  lemma ElementsCut(args: seq<Bytes>, n: nat, cut: Bytes, enough: bool)
    requires args != [] && Sizes(args) && n < |MakeBulkStrings(args)| && cut == MakeBulkStrings(args)[..n]
    requires enough == (n + Spare(args[|args| - 1]) >= |MakeBulkStrings(args)|)
    ensures ElementsGive(|args|, cut, CutResult(Objs(args), enough))
  {
    ElementReadsBack();
    ElementReadsCut();
    ReadAllCut(Element, MakeBulkString, BulkObj, Fitting, Spare, args, n, []);
    assert [] + Objs(args) == Objs(args);
  }

  /** A cut in the line of the count asks for more. */
  lemma CountCut(n: Int64, body: Bytes, m: nat, cut: Bytes)
    requires n > 0 && m < |ToText(n)| + 2 && cut == (ToText(n) + CRLF + body)[..m]
    ensures ArrayGives(cut, Fail(true))
  {
    TextValueOfText(n);
    CutConcat(ToText(n) + CRLF, body, m);
    NumberCut(n, m);
  }

  /** A cut behind it leaves the elements cut. */
  lemma BodyCut(n: Int64, body: Bytes, k: nat, cut: Bytes, g: Got<seq<Obj>>)
    requires n >= 0 && k <= |body| && ElementsGive(n, body[..k], g)
    requires cut == (ToText(n) + CRLF + body)[..|ToText(n)| + 2 + k]
    ensures ArrayGives(cut, g)
  {
    CutConcat(ToText(n) + CRLF, body, |ToText(n)| + 2 + k);
    NumberGives(n, body[..k], cut, g);
  }

  lemma NumberGives(n: Int64, rest: Bytes, body: Bytes, g: Got<seq<Obj>>)
    requires n >= 0 && ElementsGive(n, rest, g) && body == ToText(n) + CRLF + rest
    ensures ArrayGives(body, g)
  {
    ArrayOfNumber(n, rest);
  }

  lemma CutTried(body: Bytes, n: nat, objs: seq<Obj>, enough: bool)
    requires 0 < n <= 1 + |body| && ArrayGives(body[..n - 1], CutResult(objs, enough))
    ensures TryGives(([STAR] + body)[..n], if enough then Parsed(objs, []) else NeedMore)
  {
    Behead(STAR, body, n);
    ArrayIsTried(([STAR] + body)[..n], body[..n - 1]);
  }

  lemma CutGives(n: Int64, bulk: Bytes, m: nat, body: Bytes, cut: Bytes, g: Got<seq<Obj>>)
    requires n > 0 && body == ToText(n) + CRLF + bulk && m < |body| && cut == body[..m]
    requires if m < |ToText(n)| + 2 then g == Fail(true) else ElementsGive(n, bulk[..m - |ToText(n)| - 2], g)
    ensures ArrayGives(cut, g)
  {
    if m < |ToText(n)| + 2 {
      CountCut(n, bulk, m, cut);
    } else {
      BodyCut(n, bulk, m - |ToText(n)| - 2, cut, g);
    }
  }

  lemma ArrayCutGives(args: seq<Bytes>, bulk: Bytes, m: nat, body: Bytes, enough: bool)
    requires args != [] && Sizes(args) && bulk == MakeBulkStrings(args) && |bulk| > 3
    requires m < |body| && body == ToText(|args|) + CRLF + bulk
    requires enough == (m + Spare(args[|args| - 1]) >= |body|)
    ensures ArrayGives(body[..m], CutResult(Objs(args), enough))
  {
    var head := |ToText(|args|)| + 2;
    if m >= head { ElementsCut(args, m - head, bulk[..m - head], enough); }
    CutGives(|args|, bulk, m, body, body[..m], CutResult(Objs(args), enough));
  }

  lemma PrintedBody(args: seq<Bytes>, bulk: Bytes)
    requires args != [] && bulk == MakeBulkStrings(args)
    ensures Printed(args) == [STAR] + (ToText(|args|) + CRLF + bulk) && |bulk| > 3
  {
    assert bulk == MakeBulkString(args[0]) + MakeBulkStrings(args[1..]);
  }

  lemma PrefixGives(args: seq<Bytes>, n: nat)
    requires args != [] && Sizes(args) && 0 < n < |Printed(args)|
    ensures TryGives(Printed(args)[..n],
                     if n + Spare(args[|args| - 1]) >= |Printed(args)| then Parsed(Objs(args), []) else NeedMore)
  {
    var bulk := MakeBulkStrings(args);
    PrintedBody(args, bulk);
    var body := ToText(|args|) + CRLF + bulk;
    var enough := n - 1 + Spare(args[|args| - 1]) >= |body|;
    ArrayCutGives(args, bulk, n - 1, body, enough);
    CutTried(body, n, Objs(args), enough);
  }

  /**
   A proper prefix of a command is taken for the whole command exactly when nothing but the last
   terminator is missing (for an empty last argument, also the line feed before it); any shorter
   prefix asks for more.
   */
  lemma PrefixParses(args: seq<Bytes>, n: nat)
    requires args != [] && Sizes(args) && n < |Printed(args)|
    ensures TryParse(Printed(args)[..n]) ==
            if n + Spare(args[|args| - 1]) >= |Printed(args)| then Parsed(Objs(args), []) else NeedMore
  {
    if n == 0 {
      PrintedBody(args, MakeBulkStrings(args));
    } else {
      PrefixGives(args, n);
    }
  }
}
