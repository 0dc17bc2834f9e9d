/** The parser object on its buffer, when it may not read from the socket. */
module RespParser {
  import opened Options
  import opened Sequences
  import opened Decimal
  import opened NanoObj
  import opened Frames
  import opened Resp

  const BUFFER_BYTES: nat := 8192

  /** What a method returned, and where it left the buffer, agree with the grammar. */
  ghost predicate Agrees<T>(spec: Got<T>, got: Option<T>, rest: Bytes, short: bool, before: bool) {
    match spec
    case Fail(f) => got.None? && short == (before || f)
    case Got(value, after, f) => got == Some(value) && rest == after && short == (before || f)
  }

  ghost predicate ReadsElements(read: Bytes -> Got<Obj>) {
    forall u {:trigger Element(u)} :: read(u) == Element(u)
  }

  /** The first `n` bytes of `all` are done and the rest is to come. */
  ghost predicate Copied(all: Bytes, n: nat, done: Bytes, rest: Bytes) {
    n <= |all| && done == all[..n] && rest == all[n..]
  }

  lemma CopyMore(all: Bytes, n: nat, chunk: nat)
    requires n + chunk <= |all|
    ensures Copied(all, n + chunk, all[..n] + all[n..][..chunk], all[n..][chunk..])
  {
  }

  lemma Cut(rest: Bytes, n: nat, front: Bytes, back: Bytes)
    requires n == |front| && rest == front + back
    ensures rest[..n] == front && rest[n..] == back
  {
  }

  class Parser {
    const buffer: array<Byte>
    var pos: nat
    var size: nat
    var needMore: bool

    ghost predicate Valid()
      reads this
    {
      buffer.Length == BUFFER_BYTES && pos <= size <= BUFFER_BYTES
    }

    ghost function Rest(): Bytes
      reads this, buffer
      requires Valid()
    {
      buffer[pos..size]
    }

    /** A buffer that a read has filled with `data`. */
    constructor (data: Bytes)
      requires |data| <= BUFFER_BYTES
      ensures Valid() && Rest() == data && pos == 0
    {
      buffer := new Byte[BUFFER_BYTES](i => if 0 <= i < |data| then data[i] else 0);
      pos, size, needMore := 0, |data|, false;
    }

    method FillBuffer() returns (ok: bool)
      requires Valid()
      modifies this`needMore
      ensures ok == (Rest() != []) && needMore == (old(needMore) || !ok)
    {
      if pos >= size {
        needMore := true;
        return false;
      }
      return true;
    }

    /** The next byte, or zero at the end. */
    method ReadChar() returns (c: Byte)
      requires Valid()
      modifies this`pos, this`needMore
      ensures Valid() && size == old(size)
      ensures old(Rest()) == [] ==> c == 0 && Rest() == [] && needMore
      ensures old(Rest()) != [] ==> c == old(Rest())[0] && Rest() == old(Rest())[1..] && needMore == old(needMore)
    {
      var ok := FillBuffer();
      if !ok {
        return 0;
      }
      c := buffer[pos];
      pos := pos + 1;
    }

    /** `memchr` on what is left. */
    method Find(b: Byte) returns (at: nat)
      requires Valid()
      ensures pos <= at <= size && (at < size ==> buffer[at] == b) && forall i :: pos <= i < at ==> buffer[i] != b
    {
      at := pos;
      while at < size
        invariant pos <= at <= size && forall i :: pos <= i < at ==> buffer[i] != b
      {
        if buffer[at] == b {
          return;
        }
        at := at + 1;
      }
    }

    /** The first terminator of either kind, or the end. */
    method FindTerminator() returns (at: nat)
      requires Valid()
      ensures pos <= at <= size && at - pos == LineEnd(Rest())
    {
      var lf := Find(LF);
      var cr := Find(CR);
      at := if lf < cr then lf else cr;
      ghost var n := LineEnd(Rest());
      LineEndIsFirst(Rest());
      if n < |Rest()| { assert Rest()[n] == buffer[pos + n]; }
      if at < size { assert Rest()[at - pos] == buffer[at]; }
    }

    /** A line without terminator goes to the scratch string, and then the buffer is empty. */
    method ReadLineView() returns (line: Option<Bytes>)
      requires Valid()
      modifies this`pos, this`needMore
      ensures Valid() && size == old(size) && Agrees(Line(old(Rest())), line, Rest(), needMore, old(needMore))
    {
      var scratch: Bytes, used := [], false;
      while true
        invariant Valid() && size == old(size) && needMore == old(needMore)
        invariant if used then Rest() == [] && Line(old(Rest())) == Fail(true) else Rest() == old(Rest())
        decreases !used
      {
        var ok := FillBuffer();
        if !ok {
          return None;
        }
        var at := FindTerminator();
        if at == size {
          used, scratch := true, scratch + buffer[pos..size];
          pos := size;
        } else {
          var segment := TakeLine(at);
          return Some(if used then scratch + segment else segment);
        }
      }
    }

    /** The line up to the terminator, and the terminator with it. */
    method TakeLine(at: nat) returns (segment: Bytes)
      requires Valid() && pos <= at < size && at - pos == LineEnd(Rest())
      modifies this`pos, this`needMore
      ensures Valid() && size == old(size) && Agrees(Line(old(Rest())), Some(segment), Rest(), needMore, old(needMore))
    {
      ghost var all, n := Rest(), LineEnd(Rest());
      LineEndIsFirst(all);
      segment := buffer[pos..at];
      assert segment == all[..n] && all[n..] == buffer[at..size];
      var isCr := buffer[at] == CR;
      pos := at + 1;
      ConsumeCRLF(isCr, all[n..]);
    }

    method ConsumeCRLF(isCr: bool, ghost from: Bytes)
      requires Valid() && from != [] && IsEol(from[0]) && isCr == (from[0] == CR) && Rest() == from[1..]
      modifies this`pos, this`needMore
      ensures Valid() && size == old(size) && Rest() == AfterEol(from).0 && needMore == (old(needMore) || AfterEol(from).1)
    {
      if !isCr {
        return;
      }
      if pos >= size {
        var _ := FillBuffer();
      }
      if pos < size && buffer[pos] == LF {
        pos := pos + 1;
      }
    }

    /** The line of an inline command, whose first byte has been read. */
    method ReadInlineLineView(first: Byte) returns (line: Option<Bytes>)
      requires Valid()
      modifies this`pos, this`needMore
      ensures Valid() && size == old(size)
      ensures Line(old(Rest())).Fail? ==> line.None?
      ensures Line(old(Rest())).Got? ==> line == Some([first] + Line(old(Rest())).value) && Rest() == Line(old(Rest())).rest
      ensures needMore == (old(needMore) || Line(old(Rest())).short)
    {
      var rest := ReadLineView();
      return if rest.None? then None else Some([first] + rest.value);
    }

    /** Copies up to `len` bytes; each turn takes what there is. */
    /** As much as the buffer has of the next `len` bytes. */
    method TakeChunk(len: nat) returns (chunk: Bytes)
      requires Valid()
      modifies this`pos
      ensures Valid() && |chunk| == (if |old(Rest())| < len then |old(Rest())| else len)
      ensures chunk == old(Rest())[..|chunk|] && Rest() == old(Rest())[|chunk|..]
    {
      var n := if size - pos < len then size - pos else len;
      chunk := buffer[pos..pos + n];
      Cut(Rest(), n, chunk, buffer[pos + n..size]);
      pos := pos + n;
    }

    method ReadData(len: nat) returns (data: Option<Bytes>)
      requires Valid()
      modifies this`pos, this`needMore
      ensures Valid() && size == old(size)
      ensures |old(Rest())| < len ==> data.None? && needMore
      ensures |old(Rest())| >= len ==>
        data == Some(old(Rest())[..len]) && Rest() == old(Rest())[len..] && needMore == old(needMore)
    {
      var copied: Bytes := [];
      ghost var all := Rest();
      while |copied| < len
        invariant Valid() && size == old(size) && needMore == old(needMore)
        invariant |copied| <= len && Copied(all, |copied|, copied, Rest())
        decreases |Rest()|
      {
        var ok := FillBuffer();
        if !ok {
          return None;
        }
        var chunk := TakeChunk(len - |copied|);
        CopyMore(all, |copied|, |chunk|);
        copied := copied + chunk;
      }
      return Some(copied);
    }

    /** The two bytes behind the data are dropped unseen. */
    method ReadBulkStringInto(len: Int64) returns (obj: Option<Obj>)
      requires Valid()
      modifies this`pos, this`needMore
      ensures Valid() && size == old(size) && Agrees(Bulk(len, old(Rest())), obj, Rest(), needMore, old(needMore))
    {
      if len < 0 {
        return Some(Null);
      }
      var data := ReadData(len);
      if data.None? {
        return None;
      }
      DropTwo();
      var o := MaybeConvertToInt(FromString(data.value));
      return Some(o);
    }

    method DropTwo()
      requires Valid()
      modifies this`pos, this`needMore
      ensures Valid() && size == old(size)
      ensures Rest() == SkipTwo(old(Rest())).0 && needMore == (old(needMore) || SkipTwo(old(Rest())).1)
    {
      var _ := ReadChar();
      var _ := ReadChar();
    }

    /** A number on a line of its own; the flag may be set by its terminator. */
    method ReadNumber() returns (n: Option<Int64>)
      requires Valid()
      modifies this`pos, this`needMore
      ensures Valid() && size == old(size)
      ensures needMore == (old(needMore) || Line(old(Rest())).short)
      ensures Line(old(Rest())).Fail? ==> n.None?
      ensures Line(old(Rest())).Got? ==> n == TextValue(Line(old(Rest())).value) && Rest() == Line(old(Rest())).rest
    {
      var line := ReadLineView();
      if line.None? {
        return None;
      }
      n := String2ll(line.value);
      if n.Some? { TextValueOfText(n.value); }
    }

    method ReadBulkElement() returns (obj: Option<Obj>)
      requires Valid()
      modifies this`pos, this`needMore
      ensures Valid() && size == old(size) && Agrees(BulkElement(old(Rest())), obj, Rest(), needMore, old(needMore))
    {
      var len := ReadNumber();
      if len.None? {
        return None;
      }
      obj := ReadBulkStringInto(len.value);
    }

    method ReadSimpleElement() returns (obj: Option<Obj>)
      requires Valid()
      modifies this`pos, this`needMore
      ensures Valid() && size == old(size) && needMore == (old(needMore) || Line(old(Rest())).short)
      ensures Line(old(Rest())).Fail? ==> obj.None?
      ensures Line(old(Rest())).Got? ==> obj == Some(FromKey(Line(old(Rest())).value)) && Rest() == Line(old(Rest())).rest
    {
      var line := ReadLineView();
      if line.None? {
        return None;
      }
      var o := SetStringKey(line.value);
      return Some(o);
    }

    /** The body of the loop of `ParseArray`. */
    method ReadElement() returns (obj: Option<Obj>)
      requires Valid()
      modifies this`pos, this`needMore
      ensures Valid() && size == old(size) && Agrees(Element(old(Rest())), obj, Rest(), needMore, old(needMore))
    {
      var c := ReadChar();
      if c == CR || c == LF {
        c := ReadChar();
      }
      if c == DOLLAR {
        obj := ReadBulkElement();
      } else if c == PLUS || c == COLON || c == MINUS {
        obj := ReadSimpleElement();
      } else {
        obj := None;
      }
    }

    /** One turn of the loop: what is left to read after it. */
    method ReadNext(n: nat, ghost read: Bytes -> Got<Obj>, ghost acc: seq<Obj>) returns (obj: Option<Obj>)
      requires Valid() && n > 0 && ReadsElements(read)
      modifies this`pos, this`needMore
      ensures Valid() && size == old(size) && (old(needMore) ==> needMore)
      ensures old(ReadAll(read, n, Rest(), needMore, acc)) ==
              if obj.Some? then ReadAll(read, n - 1, Rest(), needMore, acc + [obj.value]) else Fail(needMore)
    {
      obj := ReadElement();
    }

    method ReadLoop(count: nat, ghost read: Bytes -> Got<Obj>) returns (args: Option<seq<Obj>>)
      requires Valid() && ReadsElements(read)
      modifies this`pos, this`needMore
      ensures Valid() && size == old(size)
      ensures Agrees(ReadAll(read, count, old(Rest()), old(needMore), []), args, Rest(), needMore, old(needMore))
    {
      var objs: seq<Obj> := [];
      ghost var spec := ReadAll(read, count, Rest(), needMore, []);
      for i := 0 to count
        invariant Valid() && size == old(size) && (old(needMore) ==> needMore)
        invariant ReadAll(read, count - i, Rest(), needMore, objs) == spec
      {
        var obj := ReadNext(count - i, read, objs);
        if obj.None? {
          return None;
        }
        objs := objs + [obj.value];
      }
      return Some(objs);
    }

    method ReadElements(count: nat) returns (args: Option<seq<Obj>>)
      requires Valid()
      modifies this`pos, this`needMore
      ensures Valid() && size == old(size)
      ensures Agrees(Elements(count, old(Rest()), old(needMore), []), args, Rest(), needMore, old(needMore))
    {
      args := ReadLoop(count, Element);
    }

    method ParseArray() returns (args: Option<seq<Obj>>)
      requires Valid() && !needMore
      modifies this`pos, this`needMore
      ensures Valid() && size == old(size) && Agrees(Array(old(Rest())), args, Rest(), needMore, false)
    {
      var count := ReadNumber();
      if count.None? {
        return None;
      }
      if count.value < 0 {
        return Some([]);
      }
      args := ReadElements(count.value);
    }

    method ParseCommand() returns (args: Option<seq<Obj>>)
      requires Valid()
      modifies this`pos, this`needMore
      ensures Valid() && size == old(size) && Agrees(Command(old(Rest())), args, Rest(), needMore, false)
    {
      needMore := false;
      var c := ReadChar();
      if c == 0 {
        return None;
      }
      if c == STAR {
        args := ParseArray();
        return;
      }
      var line := ReadInlineLineView(c);
      if line.None? {
        return None;
      }
      args := ParseInlineCommand(line.value);
    }

    /** Success moves the position behind the command; anything else leaves the buffer as it was, without arguments. */
    method TryParseCommandNoRead() returns (r: Outcome)
      requires Valid()
      modifies this`pos, this`size, this`needMore
      ensures Valid() && size == old(size) && r == TryParse(old(Rest()))
      ensures if r.Parsed? then Rest() == r.rest else pos == old(pos)
    {
      var savedPos, savedSize := pos, size;
      var args := ParseCommand();
      if args.Some? {
        return Parsed(args.value, buffer[pos..size]);
      }
      pos, size := savedPos, savedSize;
      return if needMore then NeedMore else Malformed;
    }
  }

  /** The words of a line, separated by blanks. */
  method ParseInlineCommand(line: Bytes) returns (args: Option<seq<Obj>>)
    ensures args == if Words(line) == [] then None else Some(Words(line))
  {
    var objs: seq<Obj> := [];
    var p: nat := 0;
    assert line[0..] == line && [] + Words(line) == Words(line);
    while p < |line|
      invariant p <= |line| && objs + Words(line[p..]) == Words(line)
    {
      p := SkipBlanks(line, p);
      if p >= |line| {
        break;
      }
      var start := p;
      p := SkipWord(line, p);
      if p > start {
        var o := SetStringKey(line[start..p]);
        WordAt(line, start, p);
        Assoc(objs, [o], Words(line[p..]));
        objs := objs + [o];
      }
    }
    assert line[p..] == [] && objs + [] == objs;
    return if objs == [] then None else Some(objs);
  }

  lemma WordAt(line: Bytes, start: nat, p: nat)
    requires start < p <= |line| && !IsBlank(line[start]) && p - start == TokenEnd(line[start..])
    ensures Words(line[start..]) == [FromKey(line[start..p])] + Words(line[p..])
  {
    assert line[start..][..p - start] == line[start..p] && line[start..][p - start..] == line[p..];
  }

  method SkipBlanks(line: Bytes, from: nat) returns (p: nat)
    requires from <= |line|
    ensures from <= p <= |line| && Words(line[p..]) == Words(line[from..]) && (p < |line| ==> !IsBlank(line[p]))
  {
    p := from;
    while p < |line| && IsBlank(line[p])
      invariant from <= p <= |line| && Words(line[p..]) == Words(line[from..])
    {
      assert line[p..][1..] == line[p + 1..];
      p := p + 1;
    }
  }

  method SkipWord(line: Bytes, from: nat) returns (p: nat)
    requires from <= |line|
    ensures from <= p <= |line| && p - from == TokenEnd(line[from..])
  {
    p := from;
    while p < |line| && !IsBlank(line[p])
      invariant from <= p <= |line| && p - from + TokenEnd(line[p..]) == TokenEnd(line[from..])
    {
      assert line[p..][1..] == line[p + 1..];
      p := p + 1;
    }
  }
}
