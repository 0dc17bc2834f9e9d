/**
 Reading several items one after the other, and writing them so: whatever the items are. What is read
 may come to the end of the buffer on its way.
 */
module Frames {
  import opened Decimal
  import opened Sequences

  /** Success with what is left, or failure; in both cases whether the end of the buffer was hit. */
  datatype Got<+T> = Fail(short: bool) | Got(value: T, rest: Bytes, short: bool)

  ghost function ReadAll<T>(read: Bytes -> Got<T>, n: nat, s: Bytes, short: bool, acc: seq<T>): (r: Got<seq<T>>)
    decreases n
  {
    if n == 0 then Got(acc, s, short)
    else
      match read(s)
      case Fail(f) => Fail(short || f)
      case Got(x, rest, f) => ReadAll(read, n - 1, rest, short || f, acc + [x])
  }

  function WriteAll(write: Bytes -> Bytes, args: seq<Bytes>): Bytes {
    if args == [] then [] else write(args[0]) + WriteAll(write, args[1..])
  }

  ghost predicate AllOk<T>(ok: T -> bool, s: seq<T>) {
    forall i :: 0 <= i < |s| ==> ok(s[i])
  }

  /** Every item written in front of anything is read back and leaves exactly the rest. */
  ghost predicate ReadsBack<T>(read: Bytes -> Got<T>, write: Bytes -> Bytes, make: Bytes -> T, ok: Bytes -> bool) {
    forall d, rest {:trigger write(d) + rest} :: ok(d) ==> read(write(d) + rest) == Got(make(d), rest, false)
  }

  lemma {:induction false} ReadAllBack<T>(read: Bytes -> Got<T>, write: Bytes -> Bytes, make: Bytes -> T, ok: Bytes -> bool,
                                          args: seq<Bytes>, tail: Bytes, acc: seq<T>)
    requires ReadsBack(read, write, make, ok) && AllOk(ok, args)
    ensures ReadAll(read, |args|, WriteAll(write, args) + tail, false, acc) == Got(acc + Map(make, args), tail, false)
    decreases |args|
  {
    if args == [] {
      assert WriteAll(write, args) + tail == tail && acc + Map(make, args) == acc;
    } else {
      var first, more := write(args[0]), WriteAll(write, args[1..]);
      Assoc(first, more, tail);
      ReadOne(read, write, make, ok, |args|, args[0], more + tail, acc);
      ReadAllBack(read, write, make, ok, args[1..], tail, acc + [make(args[0])]);
      MapFrom(make, args, acc);
    }
  }

  /** An item can do without the last `spare` bytes written for it, and no more. */
  ghost predicate ReadsCut<T>(read: Bytes -> Got<T>, write: Bytes -> Bytes, make: Bytes -> T, ok: Bytes -> bool, spare: Bytes -> nat) {
    && read([]) == Fail(true)
    && (forall d, e :: ok(d) ==> |write(d)| > spare(e))
    && (forall d, n: nat {:trigger write(d)[..n]} :: ok(d) && n < |write(d)| ==>
          read(write(d)[..n]) == CutResult(make(d), n + spare(d) >= |write(d)|))
  }

  ghost function CutResult<T>(x: T, enough: bool): Got<T> {
    if enough then Got(x, [], true) else Fail(true)
  }

  /** So several items can do without the spare bytes of the last one. */
  lemma {:induction false} ReadAllCut<T>(read: Bytes -> Got<T>, write: Bytes -> Bytes, make: Bytes -> T, ok: Bytes -> bool,
                                         spare: Bytes -> nat, args: seq<Bytes>, n: nat, acc: seq<T>)
    requires ReadsBack(read, write, make, ok) && ReadsCut(read, write, make, ok, spare)
    requires args != [] && AllOk(ok, args) && n < |WriteAll(write, args)|
    ensures ReadAll(read, |args|, WriteAll(write, args)[..n], false, acc) ==
            CutResult(acc + Map(make, args), n + spare(args[|args| - 1]) >= |WriteAll(write, args)|)
    decreases |args|
  {
    var first, more := write(args[0]), WriteAll(write, args[1..]);
    assert WriteAll(write, args) == first + more;
    CutConcat(first, more, n);
    if n < |first| {
      FirstCut(read, write, make, ok, spare, args, n, acc);
    } else {
      assert args[1..][|args| - 2] == args[|args| - 1];
      ReadAllCut(read, write, make, ok, spare, args[1..], n - |first|, acc + [make(args[0])]);
      MapFrom(make, args, acc);
      ReadOne(read, write, make, ok, |args|, args[0], more[..n - |first|], acc);
    }
  }

  lemma ReadOne<T>(read: Bytes -> Got<T>, write: Bytes -> Bytes, make: Bytes -> T, ok: Bytes -> bool,
                   n: nat, d: Bytes, rest: Bytes, acc: seq<T>)
    requires ReadsBack(read, write, make, ok) && ok(d) && n > 0
    ensures ReadAll(read, n, write(d) + rest, false, acc) == ReadAll(read, n - 1, rest, false, acc + [make(d)])
  {
    assert read(write(d) + rest) == Got(make(d), rest, false);
  }

  lemma FirstCut<T>(read: Bytes -> Got<T>, write: Bytes -> Bytes, make: Bytes -> T, ok: Bytes -> bool,
                    spare: Bytes -> nat, args: seq<Bytes>, n: nat, acc: seq<T>)
    requires ReadsCut(read, write, make, ok, spare) && args != [] && AllOk(ok, args) && n < |write(args[0])|
    ensures ReadAll(read, |args|, write(args[0])[..n], false, acc) ==
            CutResult(acc + Map(make, args), n + spare(args[|args| - 1]) >= |WriteAll(write, args)|)
  {
    assert read(write(args[0])[..n]) == CutResult(make(args[0]), n + spare(args[0]) >= |write(args[0])|);
    MapFrom(make, args, acc);
    if |args| == 1 {
      assert args[1..] == [] && WriteAll(write, args) == write(args[0]);
      assert acc + [make(args[0])] + [] == acc + [make(args[0])];
    } else {
      WrittenLength(write, args);
      var last := args[|args| - 1];
      assert ok(last) && ok(args[1]);
      assert |write(args[1])| > spare(last);
    }
  }

  lemma WrittenLength(write: Bytes -> Bytes, args: seq<Bytes>)
    requires |args| > 1
    ensures |WriteAll(write, args)| >= |write(args[0])| + |write(args[1])|
  {
    assert WriteAll(write, args) == write(args[0]) + WriteAll(write, args[1..]);
    assert args[1..][0] == args[1];
  }

  /** What holds of every item, while no more is left to read than `most`, holds of all that are read. */
  ghost predicate EachHolds<T>(read: Bytes -> Got<T>, holds: T -> bool, most: nat) {
    forall u {:trigger read(u)} :: |u| <= most && read(u).Got? ==> holds(read(u).value) && |read(u).rest| <= |u|
  }

  lemma {:induction false} ReadAllHold<T>(read: Bytes -> Got<T>, holds: T -> bool, most: nat, n: nat, s: Bytes, short: bool, acc: seq<T>)
    requires EachHolds(read, holds, most) && |s| <= most && AllOk(holds, acc)
    ensures var g := ReadAll(read, n, s, short, acc); g.Got? ==> AllOk(holds, g.value)
    decreases n
  {
    if n > 0 && read(s).Got? {
      var e := read(s);
      ReadAllHold(read, holds, most, n - 1, e.rest, short || e.short, acc + [e.value]);
    }
  }
}
