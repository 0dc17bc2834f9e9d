/**
 The NRDB file format: what the writer produces for a list of entries, and what the
 loader makes of any sequence of bytes. Lengths are unsigned LEB128 (section 7.6 of DWARF 4).
 */
module Nrdb {
  import opened Options
  import opened Sequences
  import opened Powers
  import opened Decimal
  import opened NanoObj
  import opened Crc32

  const MAGIC: Bytes := [78, 82, 68, 66, 48, 48, 48, 49]
  const DB_SELECT: Byte := 0xF0
  const DB_SIZE: Byte := 0xF1
  const EXPIRE_MS: Byte := 0xFD
  const EOF: Byte := 0xFF
  const DB_COUNT: nat := 16

  const OBJ_STRING: Byte := 0
  const OBJ_INT: Byte := 1
  const OBJ_HASH: Byte := 2
  const OBJ_SET: Byte := 3
  const OBJ_LIST: Byte := 4
  const OBJ_ZSET: Byte := 5

  // Widths of the fixed-size fields.
  const U16: nat := 2
  const U32: nat := 4
  const U64: nat := 8

  /** `last_dbid_` before any entry is written. */
  const NO_DB: nat := 0xFFFF_FFFF

  /** Hashes and sets in the order of their dense storage, without repeated fields or members. */
  datatype Value =
    | Scalar(obj: Obj)
    | HashV(fields: seq<(Bytes, Bytes)>)
    | SetV(members: seq<Bytes>)
    | ListV(items: seq<Obj>)
    | ZsetV

  datatype Entry = Entry(db: nat, key: Obj, value: Value, expireMs: int)

  // ----- writing -----

  function Leb(n: nat): (s: Bytes) {
    if n < 128 then [n] else [n % 128 + 128] + Leb(n / 128)
  }

  /** `k` bytes of `n`, the least significant first. */
  function LittleEndian(n: nat, k: nat): (s: Bytes)
    ensures |s| == k
    decreases k
  {
    if k == 0 then [] else [n % 256] + LittleEndian(n / 256, k - 1)
  }

  function Unsigned64(v: Int64): nat {
    if v < 0 then v + TWO_64 else v
  }

  function Str(s: Bytes): Bytes {
    Leb(|s|) + s
  }

  function Strs(ss: seq<Bytes>): Bytes {
    if ss == [] then [] else Str(ss[0]) + Strs(ss[1..])
  }

  function Pairs(ps: seq<(Bytes, Bytes)>): Bytes {
    if ps == [] then [] else Str(ps[0].0) + Str(ps[0].1) + Pairs(ps[1..])
  }

  function Texts(items: seq<Obj>): (r: seq<Bytes>)
    ensures |r| == |items| && forall i :: 0 <= i < |r| ==> r[i] == ToString(items[i])
  {
    seq(|items|, i requires 0 <= i < |items| => ToString(items[i]))
  }

  function Tag(v: Value): Byte {
    match v
    case Scalar(o) => if o.Int? then OBJ_INT else OBJ_STRING
    case HashV(_) => OBJ_HASH
    case SetV(_) => OBJ_SET
    case ListV(_) => OBJ_LIST
    case ZsetV => OBJ_ZSET
  }

  /** Nothing is written for a sorted set: the writer reports an error there. */
  function Data(v: Value): Bytes {
    match v
    case Scalar(o) => if o.Int? then LittleEndian(Unsigned64(o.ival), U64) else Str(StringView(o))
    case HashV(fs) => Leb(|fs|) + Pairs(fs)
    case SetV(ms) => Leb(|ms|) + Strs(ms)
    case ListV(items) => Leb(|items|) + Strs(Texts(items))
    case ZsetV => []
  }

  function SelectDb(last: nat, db: nat): Bytes {
    if db == last then [] else [DB_SELECT] + Leb(db)
  }

  function Expiry(expireMs: int): Bytes {
    if expireMs > 0 then [EXPIRE_MS] + Leb(expireMs) else []
  }

  function Encode(last: nat, e: Entry): Bytes {
    SelectDb(last, e.db) + Expiry(e.expireMs) + [Tag(e.value)] + Str(StringView(e.key)) + Data(e.value)
  }

  function EncodeAll(last: nat, es: seq<Entry>): Bytes
    decreases |es|
  {
    if es == [] then [] else Encode(last, es[0]) + EncodeAll(es[0].db, es[1..])
  }

  function Header(shard: nat, shards: nat, timestamp: nat): Bytes {
    MAGIC + LittleEndian(shard, U32) + LittleEndian(shards, U32) + LittleEndian(timestamp, U64) + LittleEndian(DB_COUNT, U16)
  }

  /** Everything the checksum covers, then the checksum. */
  function Seal(body: Bytes): Bytes {
    body + LittleEndian(Sum(body), U32)
  }

  function File(shard: nat, shards: nat, timestamp: nat, es: seq<Entry>): Bytes {
    Seal(Header(shard, shards, timestamp) + EncodeAll(NO_DB, es) + [EOF])
  }

  // ----- reading -----

  datatype Read<+T> = Fail | Ok(value: T, rest: Bytes)

  function FromLittleEndian(s: Bytes): nat {
    if s == [] then 0 else s[0] + 256 * FromLittleEndian(s[1..])
  }

  function Signed64(n: nat): (v: int)
    ensures n < TWO_64 ==> IsInt64(v)
  {
    if n >= 0x8000_0000_0000_0000 then n - TWO_64 else n
  }

  /** The bytes of a length; the eleventh may no longer ask for another. */
  function RawLen(s: Bytes, k: nat): (r: Read<nat>)
    ensures r.Ok? ==> |r.rest| < |s|
    decreases |s|
  {
    if s == [] then Fail
    else if s[0] < 128 then Ok(s[0], s[1..])
    else if k >= 10 then Fail
    else
      match RawLen(s[1..], k + 1)
      case Fail => Fail
      case Ok(v, rest) => Ok(s[0] - 128 + 128 * v, rest)
  }

  function Truncate(n: nat, range: nat): (r: nat)
    requires range > 0
    ensures r < range
  {
    if n < range then n else n % range
  }

  /** `ReadLen`, whose accumulator has 64 bits. */
  function ReadLen(s: Bytes): (r: Read<nat>)
    ensures r.Ok? ==> |r.rest| < |s| && r.value < TWO_64
  {
    match RawLen(s, 0)
    case Fail => Fail
    case Ok(v, rest) => Ok(Truncate(v, TWO_64), rest)
  }

  function ReadRaw(s: Bytes, n: nat): (r: Read<Bytes>)
    ensures r.Ok? ==> |r.rest| <= |s|
  {
    if n <= |s| then Ok(s[..n], s[n..]) else Fail
  }

  function ReadString(s: Bytes): (r: Read<Bytes>)
    ensures r.Ok? ==> |r.rest| < |s|
  {
    match ReadLen(s)
    case Fail => Fail
    case Ok(n, rest) => ReadRaw(rest, n)
  }

  /** Assignment to a field of the hash being built: a new field goes to the end. */
  function Upsert(fields: seq<(Bytes, Bytes)>, f: Bytes, v: Bytes): seq<(Bytes, Bytes)> {
    if fields == [] then [(f, v)]
    else if fields[0].0 == f then [(f, v)] + fields[1..]
    else [fields[0]] + Upsert(fields[1..], f, v)
  }

  function ReadField(s: Bytes): (r: Read<(Bytes, Bytes)>)
    ensures r.Ok? ==> |r.rest| < |s|
  {
    match ReadString(s)
    case Fail => Fail
    case Ok(f, s1) => match ReadString(s1) case Fail => Fail case Ok(v, s2) => Ok((f, v), s2)
  }

  function ReadPairs(count: nat, s: Bytes, acc: seq<(Bytes, Bytes)>): (r: Read<seq<(Bytes, Bytes)>>)
    ensures r.Ok? ==> |r.rest| <= |s|
    decreases count
  {
    if count == 0 then Ok(acc, s)
    else
      match ReadField(s)
      case Fail => Fail
      case Ok(p, s1) => ReadPairs(count - 1, s1, Upsert(acc, p.0, p.1))
  }

  function ReadMembers(count: nat, s: Bytes, acc: seq<Bytes>): (r: Read<seq<Bytes>>)
    ensures r.Ok? ==> |r.rest| <= |s|
    decreases count
  {
    if count == 0 then Ok(acc, s)
    else
      match ReadString(s)
      case Fail => Fail
      case Ok(m, s1) => ReadMembers(count - 1, s1, if m in acc then acc else acc + [m])
  }

  function ReadItems(count: nat, s: Bytes, acc: seq<Obj>): (r: Read<seq<Obj>>)
    ensures r.Ok? ==> |r.rest| <= |s|
    decreases count
  {
    if count == 0 then Ok(acc, s)
    else
      match ReadString(s)
      case Fail => Fail
      case Ok(t, s1) => ReadItems(count - 1, s1, acc + [FromString(t)])
  }

  function ReadInt(s: Bytes): (r: Read<Value>)
    ensures r.Ok? ==> |r.rest| <= |s|
  {
    match ReadRaw(s, U64)
    case Fail => Fail
    case Ok(b, rest) =>
      LittleEndianBound(b);
      Ok(Scalar(Int(Signed64(FromLittleEndian(b)))), rest)
  }

  function ReadHash(s: Bytes): (r: Read<Value>)
    ensures r.Ok? ==> |r.rest| <= |s|
  {
    match ReadLen(s)
    case Fail => Fail
    case Ok(n, s1) => match ReadPairs(n, s1, []) case Fail => Fail case Ok(fs, rest) => Ok(HashV(fs), rest)
  }

  function ReadSet(s: Bytes): (r: Read<Value>)
    ensures r.Ok? ==> |r.rest| <= |s|
  {
    match ReadLen(s)
    case Fail => Fail
    case Ok(n, s1) => match ReadMembers(n, s1, []) case Fail => Fail case Ok(ms, rest) => Ok(SetV(ms), rest)
  }

  function ReadList(s: Bytes): (r: Read<Value>)
    ensures r.Ok? ==> |r.rest| <= |s|
  {
    match ReadLen(s)
    case Fail => Fail
    case Ok(n, s1) => match ReadItems(n, s1, []) case Fail => Fail case Ok(items, rest) => Ok(ListV(items), rest)
  }

  function ReadObject(tag: Byte, s: Bytes): (r: Read<Value>)
    ensures r.Ok? ==> |r.rest| <= |s|
  {
    if tag == OBJ_STRING then
      match ReadString(s) case Fail => Fail case Ok(t, rest) => Ok(Scalar(FromString(t)), rest)
    else if tag == OBJ_INT then ReadInt(s)
    else if tag == OBJ_HASH then ReadHash(s)
    else if tag == OBJ_SET then ReadSet(s)
    else if tag == OBJ_LIST then ReadList(s)
    else Fail
  }

  lemma {:induction false} LittleEndianBound(b: Bytes)
    requires |b| == 8
    ensures FromLittleEndian(b) < TWO_64
  {
    FromLittleEndianBound(b, 8);
    assert Pow256(8) == TWO_64 by {
      assert Pow256(4) == TWO_32;
      assert Pow256(8) == 0x1_0000_0000 * Pow256(4);
    }
  }

  function Pow256(k: nat): nat { if k == 0 then 1 else 256 * Pow256(k - 1) }

  lemma {:induction false} FromLittleEndianBound(b: Bytes, k: nat)
    requires |b| == k
    ensures FromLittleEndian(b) < Pow256(k)
  {
    if k > 0 { FromLittleEndianBound(b[1..], k - 1); }
  }

  /** What one turn of the loading loop reads. */
  datatype Item =
    | Broken
    | Select(db: nat, rest: Bytes)
    | Size(rest: Bytes)
    | Expire(ms: int, rest: Bytes)
    | End(rest: Bytes)
    | Record(key: Bytes, value: Value, rest: Bytes)

  function ReadRecord(s: Bytes): (r: Item)
    requires s != []
    ensures !r.Broken? ==> |r.rest| < |s|
  {
    match ReadString(s[1..])
    case Fail => Broken
    case Ok(key, s1) =>
      match ReadObject(s[0], s1)
      case Fail => Broken
      case Ok(value, rest) => Record(key, value, rest)
  }

  function ReadItem(s: Bytes): (r: Item)
    ensures !r.Broken? ==> |r.rest| < |s|
  {
    if s == [] then Broken
    else if s[0] == DB_SELECT then
      match ReadLen(s[1..]) case Fail => Broken case Ok(n, rest) => Select(Truncate(n, TWO_32), rest)
    else if s[0] == DB_SIZE then
      match ReadLen(s[1..]) case Fail => Broken case Ok(_, rest) => Size(rest)
    else if s[0] == EXPIRE_MS then
      match ReadLen(s[1..]) case Fail => Broken case Ok(n, rest) => Expire(Signed64(n), rest)
    else if s[0] == EOF then End(s[1..])
    else ReadRecord(s)
  }

  /** The records up to the end mark: what is handed over, and what follows the mark if it was reached. */
  datatype Records = Records(entries: seq<Entry>, end: Option<Bytes>)

  function ReadRecords(s: Bytes, db: nat, expireMs: int): (r: Records)
    ensures r.end.Some? ==> |r.end.value| < |s|
    decreases |s|
  {
    match ReadItem(s)
    case Broken => Records([], None)
    case Select(n, rest) => ReadRecords(rest, n, 0)
    case Size(rest) => ReadRecords(rest, db, expireMs)
    case Expire(ms, rest) => ReadRecords(rest, db, ms)
    case End(rest) => Records([], Some(rest))
    case Record(key, value, rest) =>
      var r := ReadRecords(rest, db, 0);
      Records([Entry(db, FromString(key), value, expireMs)] + r.entries, r.end)
  }

  const HEADER_SIZE: nat := 26

  predicate HeaderOk(file: Bytes, shard: nat) {
    |file| >= HEADER_SIZE && file[..8] == MAGIC && FromLittleEndian(file[8..12]) == shard
  }

  /** The checksum behind the end mark is that of everything up to the mark. */
  predicate FooterOk(body: Bytes, tail: Bytes) {
    |tail| >= 4 && FromLittleEndian(tail[..4]) == Sum(body)
  }

  /** What `Load` hands over, and whether it succeeds. */
  function Load(file: Bytes, shard: nat): (r: (seq<Entry>, bool)) {
    if !HeaderOk(file, shard) then ([], false)
    else
      var records := ReadRecords(file[HEADER_SIZE..], 0, 0);
      (records.entries, records.end.Some? && FooterOk(file[..|file| - |records.end.value|], records.end.value))
  }

  // ----- what was written is read back -----

  lemma {:induction false} LebLength(n: nat, m: nat)
    requires m >= 1 && n < Pow2(7 * m)
    ensures |Leb(n)| <= m
    decreases m
  {
    if n >= 128 {
      assert Pow2(7) == 128;
      if m == 1 { assert false; }
      Pow2Add(7, 7 * (m - 1));
      LebLength(n / 128, m - 1);
    }
  }

  lemma {:induction false} RawLenOfLeb(n: nat, rest: Bytes, k: nat)
    requires |Leb(n)| + k <= 11
    ensures RawLen(Leb(n) + rest, k) == Ok(n, rest)
    decreases n
  {
    var s := Leb(n) + rest;
    if n < 128 {
      assert s[1..] == rest;
    } else {
      assert s[1..] == Leb(n / 128) + rest;
      RawLenOfLeb(n / 128, rest, k + 1);
    }
  }

  /** A 64-bit length takes at most ten bytes and is read back. */
  lemma ReadLenOfLeb(n: nat, rest: Bytes)
    requires n < TWO_64
    ensures |Leb(n)| <= 10 && ReadLen(Leb(n) + rest) == Ok(n, rest)
  {
    Pow2Constants();
    Pow2Mono(64, 70);
    LebLength(n, 10);
    RawLenOfLeb(n, rest, 0);
  }

  lemma ReadStringOfStr(t: Bytes, rest: Bytes)
    requires |t| < TWO_64
    ensures ReadString(Str(t) + rest) == Ok(t, rest)
  {
    assert Str(t) + rest == Leb(|t|) + (t + rest);
    ReadLenOfLeb(|t|, t + rest);
    assert (t + rest)[..|t|] == t && (t + rest)[|t|..] == rest;
  }

  lemma {:induction false} FromLittleEndianOf(n: nat, k: nat)
    requires n < Pow256(k)
    ensures FromLittleEndian(LittleEndian(n, k)) == n
    decreases k
  {
    if k > 0 { FromLittleEndianOf(n / 256, k - 1); }
  }

  lemma Int64RoundTrip(v: Int64)
    ensures Signed64(FromLittleEndian(LittleEndian(Unsigned64(v), U64))) == v
  {
    assert Pow256(4) == TWO_32;
    assert Pow256(8) == 0x1_0000_0000 * Pow256(4);
    FromLittleEndianOf(Unsigned64(v), U64);
  }

  ghost predicate Distinct<T>(s: seq<T>) {
    forall i, j :: 0 <= i < j < |s| ==> s[i] != s[j]
  }

  ghost predicate DistinctFields(fs: seq<(Bytes, Bytes)>) {
    forall i, j :: 0 <= i < j < |fs| ==> fs[i].0 != fs[j].0
  }

  lemma {:induction false} UpsertNew(fields: seq<(Bytes, Bytes)>, f: Bytes, v: Bytes)
    requires forall i :: 0 <= i < |fields| ==> fields[i].0 != f
    ensures Upsert(fields, f, v) == fields + [(f, v)]
  {
    if fields != [] {
      UpsertNew(fields[1..], f, v);
      assert fields + [(f, v)] == [fields[0]] + (fields[1..] + [(f, v)]);
    }
  }

  lemma PairStep(count: nat, f: Bytes, v: Bytes, tail: Bytes, acc: seq<(Bytes, Bytes)>)
    requires count > 0 && |f| < TWO_64 && |v| < TWO_64
    ensures ReadPairs(count, Str(f) + (Str(v) + tail), acc) == ReadPairs(count - 1, tail, Upsert(acc, f, v))
  {
    ReadStringOfStr(f, Str(v) + tail);
    ReadStringOfStr(v, tail);
  }

  lemma AppendField(acc: seq<(Bytes, Bytes)>, ps: seq<(Bytes, Bytes)>)
    requires ps != [] && DistinctFields(acc + ps)
    ensures Upsert(acc, ps[0].0, ps[0].1) == acc + [ps[0]]
    ensures (acc + [ps[0]]) + ps[1..] == acc + ps
  {
    forall i | 0 <= i < |acc| ensures acc[i].0 != ps[0].0 {
      assert (acc + ps)[i] == acc[i] && (acc + ps)[|acc|] == ps[0];
    }
    UpsertNew(acc, ps[0].0, ps[0].1);
  }

  lemma {:induction false} ReadPairsOfPairs(ps: seq<(Bytes, Bytes)>, rest: Bytes, acc: seq<(Bytes, Bytes)>)
    requires DistinctFields(acc + ps)
    requires forall i :: 0 <= i < |ps| ==> |ps[i].0| < TWO_64 && |ps[i].1| < TWO_64
    ensures ReadPairs(|ps|, Pairs(ps) + rest, acc) == Ok(acc + ps, rest)
    decreases |ps|
  {
    if ps == [] {
      assert Pairs(ps) + rest == rest && acc + ps == acc;
    } else {
      var tail := Pairs(ps[1..]) + rest;
      assert Pairs(ps) + rest == Str(ps[0].0) + (Str(ps[0].1) + tail);
      PairStep(|ps|, ps[0].0, ps[0].1, tail, acc);
      AppendField(acc, ps);
      ReadPairsOfPairs(ps[1..], rest, acc + [ps[0]]);
    }
  }

  lemma MemberStep(count: nat, m: Bytes, tail: Bytes, acc: seq<Bytes>)
    requires count > 0 && |m| < TWO_64 && m !in acc
    ensures ReadMembers(count, Str(m) + tail, acc) == ReadMembers(count - 1, tail, acc + [m])
  {
    ReadStringOfStr(m, tail);
  }

  lemma AppendMember(acc: seq<Bytes>, ms: seq<Bytes>)
    requires ms != [] && Distinct(acc + ms)
    ensures ms[0] !in acc && (acc + [ms[0]]) + ms[1..] == acc + ms
  {
    forall i | 0 <= i < |acc| ensures acc[i] != ms[0] {
      assert (acc + ms)[i] == acc[i] && (acc + ms)[|acc|] == ms[0];
    }
  }

  lemma {:induction false} ReadMembersOfStrs(ms: seq<Bytes>, rest: Bytes, acc: seq<Bytes>)
    requires Distinct(acc + ms)
    requires forall i :: 0 <= i < |ms| ==> |ms[i]| < TWO_64
    ensures ReadMembers(|ms|, Strs(ms) + rest, acc) == Ok(acc + ms, rest)
    decreases |ms|
  {
    if ms == [] {
      assert Strs(ms) + rest == rest && acc + ms == acc;
    } else {
      var tail := Strs(ms[1..]) + rest;
      assert Strs(ms) + rest == Str(ms[0]) + tail;
      AppendMember(acc, ms);
      MemberStep(|ms|, ms[0], tail, acc);
      ReadMembersOfStrs(ms[1..], rest, acc + [ms[0]]);
    }
  }

  function FromStrings(ts: seq<Bytes>): (r: seq<Obj>) {
    seq(|ts|, i requires 0 <= i < |ts| => FromString(ts[i]))
  }

  lemma {:induction false} ReadItemsOfStrs(ts: seq<Bytes>, rest: Bytes, acc: seq<Obj>)
    requires forall i :: 0 <= i < |ts| ==> |ts[i]| < TWO_64
    ensures ReadItems(|ts|, Strs(ts) + rest, acc) == Ok(acc + FromStrings(ts), rest)
    decreases |ts|
  {
    if ts == [] {
      assert Strs(ts) + rest == rest && acc + FromStrings(ts) == acc;
    } else {
      var tail := Strs(ts[1..]) + rest;
      assert Strs(ts) + rest == Str(ts[0]) + tail;
      ReadStringOfStr(ts[0], tail);
      assert (acc + [FromString(ts[0])]) + FromStrings(ts[1..]) == acc + FromStrings(ts);
      ReadItemsOfStrs(ts[1..], rest, acc + [FromString(ts[0])]);
    }
  }

  // ----- what a stored entry is -----

  /** Values as the server can hold them: 16-bit lengths for `NanoObj` strings, 64-bit sizes elsewhere. */
  ghost predicate Storable(v: Value) {
    match v
    case Scalar(o) => ObjOk(o)
    case HashV(fs) =>
      |fs| < TWO_64 && DistinctFields(fs) &&
      forall i :: 0 <= i < |fs| ==> |fs[i].0| < TWO_64 && |fs[i].1| < TWO_64
    case SetV(ms) => |ms| < TWO_64 && Distinct(ms) && forall i :: 0 <= i < |ms| ==> |ms[i]| < TWO_64
    case ListV(items) => |items| < TWO_64 && forall i :: 0 <= i < |items| ==> ObjOk(items[i])
    case ZsetV => false
  }

  /** The database number must differ from the writer's initial mark, which stands for "none yet". */
  ghost predicate Writable(e: Entry) {
    e.db < NO_DB && ObjOk(e.key) && (e.value.ZsetV? || Storable(e.value)) && e.expireMs <= INT64_MAX
  }

  ghost predicate EntryOk(e: Entry) {
    Writable(e) && !e.value.ZsetV?
  }

  /** What the loader makes of a written value. */
  function LoadedValue(v: Value): Value {
    match v
    case Scalar(o) => if o.Int? then v else Scalar(FromString(StringView(o)))
    case ListV(items) => ListV(FromStrings(Texts(items)))
    case _ => v
  }

  function LoadedEntry(e: Entry): Entry {
    Entry(e.db, FromString(StringView(e.key)), LoadedValue(e.value), if e.expireMs > 0 then e.expireMs else 0)
  }

  /** The count and what it counts, one after the other. */
  lemma ReadCounted(s: Bytes, n: nat, body: Bytes, rest: Bytes)
    requires ReadLen(s) == Ok(n, body)
    ensures forall fs :: ReadPairs(n, body, []) == Ok(fs, rest) ==> ReadHash(s) == Ok(HashV(fs), rest)
    ensures forall ms :: ReadMembers(n, body, []) == Ok(ms, rest) ==> ReadSet(s) == Ok(SetV(ms), rest)
    ensures forall items :: ReadItems(n, body, []) == Ok(items, rest) ==> ReadList(s) == Ok(ListV(items), rest)
  {
  }

  lemma CountFirst(n: nat, body: Bytes, rest: Bytes)
    requires n < TWO_64
    ensures ReadLen(Leb(n) + body + rest) == Ok(n, body + rest)
  {
    Assoc(Leb(n), body, rest);
    ReadLenOfLeb(n, body + rest);
  }

  lemma ReadHashOfData(fs: seq<(Bytes, Bytes)>, rest: Bytes)
    requires Storable(HashV(fs))
    ensures ReadHash(Leb(|fs|) + Pairs(fs) + rest) == Ok(HashV(fs), rest)
  {
    CountFirst(|fs|, Pairs(fs), rest);
    assert [] + fs == fs;
    ReadPairsOfPairs(fs, rest, []);
    ReadCounted(Leb(|fs|) + Pairs(fs) + rest, |fs|, Pairs(fs) + rest, rest);
  }

  lemma ReadSetOfData(ms: seq<Bytes>, rest: Bytes)
    requires Storable(SetV(ms))
    ensures ReadSet(Leb(|ms|) + Strs(ms) + rest) == Ok(SetV(ms), rest)
  {
    CountFirst(|ms|, Strs(ms), rest);
    assert [] + ms == ms;
    ReadMembersOfStrs(ms, rest, []);
    ReadCounted(Leb(|ms|) + Strs(ms) + rest, |ms|, Strs(ms) + rest, rest);
  }

  lemma TextsFit(items: seq<Obj>)
    requires forall i :: 0 <= i < |items| ==> ObjOk(items[i])
    ensures forall i :: 0 <= i < |Texts(items)| ==> |Texts(items)[i]| <= MAX_STRING
  {
    forall i | 0 <= i < |items| ensures |ToString(items[i])| <= MAX_STRING {
      if items[i].Int? { TextLength(items[i].ival); }
    }
  }

  lemma ReadListOfStrs(ts: seq<Bytes>, rest: Bytes)
    requires |ts| < TWO_64 && forall i :: 0 <= i < |ts| ==> |ts[i]| < TWO_64
    ensures ReadList(Leb(|ts|) + Strs(ts) + rest) == Ok(ListV(FromStrings(ts)), rest)
  {
    CountFirst(|ts|, Strs(ts), rest);
    ReadItemsOfStrs(ts, rest, []);
    assert [] + FromStrings(ts) == FromStrings(ts);
    ReadCounted(Leb(|ts|) + Strs(ts) + rest, |ts|, Strs(ts) + rest, rest);
  }

  lemma ReadListOfData(items: seq<Obj>, rest: Bytes)
    requires Storable(ListV(items))
    ensures ReadList(Leb(|items|) + Strs(Texts(items)) + rest) == Ok(ListV(FromStrings(Texts(items))), rest)
  {
    TextsFit(items);
    ReadListOfStrs(Texts(items), rest);
  }

  lemma ReadScalarOfData(o: Obj, rest: Bytes)
    requires ObjOk(o)
    ensures ReadObject(Tag(Scalar(o)), Data(Scalar(o)) + rest) == Ok(LoadedValue(Scalar(o)), rest)
  {
    if o.Int? {
      var b := LittleEndian(Unsigned64(o.ival), U64);
      Int64RoundTrip(o.ival);
      assert (b + rest)[..U64] == b && (b + rest)[U64..] == rest;
    } else {
      ReadStringOfStr(StringView(o), rest);
    }
  }

  lemma ReadObjectOfData(v: Value, rest: Bytes)
    requires Storable(v)
    ensures ReadObject(Tag(v), Data(v) + rest) == Ok(LoadedValue(v), rest)
  {
    match v
    case Scalar(o) => ReadScalarOfData(o, rest);
    case HashV(fs) => ReadHashOfData(fs, rest);
    case SetV(ms) => ReadSetOfData(ms, rest);
    case ListV(items) => ReadListOfData(items, rest);
  }

  lemma ReadItemOfParts(tag: Byte, key: Bytes, data: Bytes, v: Value, rest: Bytes)
    requires tag <= OBJ_ZSET && |key| < TWO_64 && ReadObject(tag, data + rest) == Ok(v, rest)
    ensures ReadItem([tag] + Str(key) + data + rest) == Record(key, v, rest)
  {
    Behind(tag, Str(key), data, rest);
    ReadStringOfStr(key, data + rest);
  }

  lemma ReadItemOfRecord(e: Entry, rest: Bytes)
    requires EntryOk(e)
    ensures ReadItem([Tag(e.value)] + Str(StringView(e.key)) + Data(e.value) + rest)
         == Record(StringView(e.key), LoadedValue(e.value), rest)
  {
    ReadObjectOfData(e.value, rest);
    ReadItemOfParts(Tag(e.value), StringView(e.key), Data(e.value), LoadedValue(e.value), rest);
  }

  lemma ReadMark(s: Bytes, n: nat, rest: Bytes)
    requires s != [] && ReadLen(s[1..]) == Ok(n, rest)
    ensures s[0] == EXPIRE_MS ==> ReadItem(s) == Expire(Signed64(n), rest)
    ensures s[0] == DB_SELECT ==> ReadItem(s) == Select(Truncate(n, TWO_32), rest)
  {
  }

  lemma ReadItemOfExpiry(ms: nat, rest: Bytes)
    requires ms <= INT64_MAX
    ensures ReadItem([EXPIRE_MS] + Leb(ms) + rest) == Expire(ms, rest)
  {
    var s := [EXPIRE_MS] + Leb(ms) + rest;
    assert s[0] == EXPIRE_MS && s[1..] == Leb(ms) + rest;
    ReadLenOfLeb(ms, rest);
    ReadMark(s, ms, rest);
  }

  lemma ReadItemOfSelect(db: nat, rest: Bytes)
    requires db < TWO_32
    ensures ReadItem([DB_SELECT] + Leb(db) + rest) == Select(db, rest)
  {
    var s := [DB_SELECT] + Leb(db) + rest;
    assert s[0] == DB_SELECT && s[1..] == Leb(db) + rest;
    ReadLenOfLeb(db, rest);
    ReadMark(s, db, rest);
  }

  lemma ReadExpiry(e: Entry, s: Bytes)
    requires EntryOk(e)
    ensures ReadRecords(Expiry(e.expireMs) + s, e.db, 0) == ReadRecords(s, e.db, if e.expireMs > 0 then e.expireMs else 0)
  {
    if e.expireMs > 0 {
      ReadItemOfExpiry(e.expireMs, s);
    } else {
      assert Expiry(e.expireMs) + s == s;
    }
  }

  lemma ReadSelect(last: nat, db: nat, want: nat, s: Bytes)
    requires want < NO_DB && (want == last ==> db == want)
    ensures ReadRecords(SelectDb(last, want) + s, db, 0) == ReadRecords(s, want, 0)
  {
    if want == last {
      assert SelectDb(last, want) + s == s;
    } else {
      ReadItemOfSelect(want, s);
    }
  }

  /** One whole record, whatever database the loader was in unless the writer relied on it. */
  lemma ReadEntry(last: nat, db: nat, e: Entry, rest: Bytes)
    requires EntryOk(e) && (e.db == last ==> db == e.db)
    ensures var tail := ReadRecords(rest, e.db, 0);
            ReadRecords(Encode(last, e) + rest, db, 0) == Records([LoadedEntry(e)] + tail.entries, tail.end)
  {
    var bare := [Tag(e.value)] + Str(StringView(e.key)) + Data(e.value) + rest;
    TwoAhead(SelectDb(last, e.db), Expiry(e.expireMs), [Tag(e.value)], Str(StringView(e.key)), Data(e.value), rest);
    ReadSelect(last, db, e.db, Expiry(e.expireMs) + bare);
    ReadExpiry(e, bare);
    ReadItemOfRecord(e, rest);
  }

  ghost predicate EntriesOk(es: seq<Entry>) {
    forall i :: 0 <= i < |es| ==> EntryOk(es[i])
  }

  function LoadedEntries(es: seq<Entry>): (r: seq<Entry>) {
    if es == [] then [] else [LoadedEntry(es[0])] + LoadedEntries(es[1..])
  }

  lemma ReadEnd(db: nat, tail: Bytes)
    ensures ReadRecords([EOF] + tail, db, 0) == Records([], Some(tail))
  {
    var s := [EOF] + tail;
    assert s[0] == EOF && s[1..] == tail;
  }

  lemma EncodeMore(last: nat, es: seq<Entry>, stop: Bytes)
    requires es != []
    ensures EncodeAll(last, es) + stop == Encode(last, es[0]) + (EncodeAll(es[0].db, es[1..]) + stop)
  {
    Assoc(Encode(last, es[0]), EncodeAll(es[0].db, es[1..]), stop);
  }

  lemma {:induction false} ReadAll(last: nat, db: nat, es: seq<Entry>, tail: Bytes)
    requires EntriesOk(es)
    requires last == NO_DB || last == db
    ensures ReadRecords(EncodeAll(last, es) + ([EOF] + tail), db, 0) == Records(LoadedEntries(es), Some(tail))
    decreases |es|
  {
    if es == [] {
      assert EncodeAll(last, es) + ([EOF] + tail) == [EOF] + tail;
      ReadEnd(db, tail);
    } else {
      var rest := EncodeAll(es[0].db, es[1..]) + ([EOF] + tail);
      EncodeMore(last, es, [EOF] + tail);
      ReadEntry(last, db, es[0], rest);
      ReadAll(es[0].db, es[0].db, es[1..], tail);
    }
  }

  lemma HeaderIsOk(shard: nat, shards: nat, timestamp: nat)
    requires shard < TWO_32
    ensures |Header(shard, shards, timestamp)| == HEADER_SIZE && HeaderOk(Header(shard, shards, timestamp), shard)
  {
    var id := LittleEndian(shard, U32);
    var more := LittleEndian(shards, U32) + LittleEndian(timestamp, U64) + LittleEndian(DB_COUNT, U16);
    var header := Header(shard, shards, timestamp);
    Nested(MAGIC, id, LittleEndian(shards, U32), LittleEndian(timestamp, U64), LittleEndian(DB_COUNT, U16));
    Apart(MAGIC, id + more);
    Apart(id, more);
    assert header[8..12] == header[8..][..4];
    assert Pow256(4) == TWO_32;
    FromLittleEndianOf(shard, U32);
  }

  lemma HeaderStaysOk(header: Bytes, rest: Bytes, shard: nat)
    requires HeaderOk(header, shard)
    ensures HeaderOk(header + rest, shard)
  {
    Within(header, rest, 0, 8);
    Within(header, rest, 8, 12);
  }

  lemma SealOfSum(body: Bytes, w: Word)
    requires Sums(w, body)
    ensures Seal(body) == body + LittleEndian(w, U32)
  {
    SumsIsSum(w, body);
  }

  lemma SealIsFooter(body: Bytes)
    ensures FooterOk(body, LittleEndian(Sum(body), U32))
  {
    var tail := LittleEndian(Sum(body), U32);
    assert tail[..4] == tail;
    assert Pow256(4) == TWO_32;
    FromLittleEndianOf(Sum(body), U32);
  }

  lemma LoadOfParts(shard: nat, header: Bytes, records: Bytes, tail: Bytes, out: seq<Entry>)
    requires |header| == HEADER_SIZE && HeaderOk(header, shard)
    requires ReadRecords(records + tail, 0, 0) == Records(out, Some(tail))
    ensures Load(header + records + tail, shard) == (out, FooterOk(header + records, tail))
  {
    Assoc(header, records, tail);
    HeaderStaysOk(header, records + tail, shard);
    Apart(header, records + tail);
    Apart(header + records, tail);
  }

  lemma LoadOfSeal(shard: nat, header: Bytes, entries: Bytes, tail: Bytes, out: seq<Entry>)
    requires |header| == HEADER_SIZE && HeaderOk(header, shard)
    requires ReadRecords(entries + ([EOF] + tail), 0, 0) == Records(out, Some(tail))
    ensures Load(header + entries + [EOF] + tail, shard) == (out, FooterOk(header + entries + [EOF], tail))
  {
    Assoc(entries, [EOF], tail);
    Assoc(header, entries, [EOF]);
    LoadOfParts(shard, header, entries + [EOF], tail, out);
  }

  /** Loading a written file hands over every entry, in order, and passes the checksum. */
  lemma LoadOfFile(shard: nat, shards: nat, timestamp: nat, es: seq<Entry>)
    requires shard < TWO_32 && EntriesOk(es)
    ensures Load(File(shard, shards, timestamp, es), shard) == (LoadedEntries(es), true)
  {
    var header := Header(shard, shards, timestamp);
    var body := header + EncodeAll(NO_DB, es) + [EOF];
    var tail := LittleEndian(Sum(body), U32);
    HeaderIsOk(shard, shards, timestamp);
    SealIsFooter(body);
    ReadAll(NO_DB, 0, es, tail);
    LoadOfSeal(shard, header, EncodeAll(NO_DB, es), tail, LoadedEntries(es));
  }

  // ----- when the file was damaged -----

  /** The records can be read up to their end mark, and `tail` is what follows it. */
  predicate EndsAt(file: Bytes, tail: Bytes) {
    |file| >= HEADER_SIZE && ReadRecords(file[HEADER_SIZE..], 0, 0).end == Some(tail)
  }

  lemma LoadOfEnd(body: Bytes, tail: Bytes, shard: nat)
    requires EndsAt(body + tail, tail)
    ensures Load(body + tail, shard).1 <==> HeaderOk(body + tail, shard) && FooterOk(body, tail)
  {
    Apart(body, tail);
  }

  /**
   A loadable file with up to four consecutive bytes changed anywhere before its checksum: if the
   records can still be read up to the same end mark, the checksum refuses it.
   */
  lemma DamageIsDetected(shard: nat, before: Bytes, d: Bytes, e: Bytes, after: Bytes, tail: Bytes)
    requires |d| == |e| <= BURST && d != e
    requires EndsAt(before + d + after + tail, tail) && Load(before + d + after + tail, shard).1
    requires EndsAt(before + e + after + tail, tail)
    ensures !Load(before + e + after + tail, shard).1
  {
    LoadOfEnd(before + d + after, tail, shard);
    LoadOfEnd(before + e + after, tail, shard);
    BurstChangesSum(before, d, e, after);
  }

  // ----- when the entries come back the same -----

  /** Same kind and content; list items are compared by their text. */
  ghost predicate SameValue(a: Value, b: Value) {
    match (a, b)
    case (Scalar(o), Scalar(p)) => Same(o, p)
    case (ListV(xs), ListV(ys)) => Texts(xs) == Texts(ys)
    case _ => a == b
  }

  ghost predicate SameEntry(a: Entry, b: Entry) {
    a.db == b.db && Same(a.key, b.key) && SameValue(a.value, b.value) && a.expireMs == b.expireMs
  }

  lemma StringSurvives(o: Obj)
    requires ObjOk(o)
    ensures Same(FromString(StringView(o)), o) <==> IsString(o)
    ensures ToString(FromString(StringView(o))) == StringView(o)
  {
    if |StringView(o)| > INLINE_LEN {
      assert StringView(o)[..|StringView(o)|] == StringView(o);
    }
  }

  lemma ItemsSurvive(items: seq<Obj>)
    requires forall i :: 0 <= i < |items| ==> ObjOk(items[i])
    ensures Texts(FromStrings(Texts(items))) == Texts(items)
  {
    var ts := Texts(items);
    forall i | 0 <= i < |ts| ensures ToString(FromString(ts[i])) == ts[i] {
      if items[i].Int? {
        TextLength(items[i].ival);
        StringSurvives(Small(ts[i]));
      } else {
        StringSurvives(items[i]);
      }
    }
  }

  /**
   The key has the string form (integer keys are written as the empty string), the value is not
   null and the expiry is not negative.
   */
  ghost predicate Survives(e: Entry) {
    IsString(e.key) && !(e.value.Scalar? && e.value.obj.Null?) && e.expireMs >= 0
  }

  lemma EntrySurvives(e: Entry)
    requires EntryOk(e)
    ensures SameEntry(LoadedEntry(e), e) <==> Survives(e)
  {
    StringSurvives(e.key);
    match e.value
    case Scalar(o) => StringSurvives(o);
    case ListV(items) => ItemsSurvive(items);
    case _ =>
  }

  lemma {:induction false} LoadedAt(es: seq<Entry>, i: nat)
    requires i < |es|
    ensures |LoadedEntries(es)| == |es| && LoadedEntries(es)[i] == LoadedEntry(es[i])
  {
    if |es| > 1 { LoadedAt(es[1..], if i == 0 then 0 else i - 1); }
  }

  /** A file written and loaded gives back, position by position, exactly the entries that survive. */
  lemma RoundTrip(shard: nat, shards: nat, timestamp: nat, es: seq<Entry>, i: nat)
    requires shard < TWO_32 && EntriesOk(es) && i < |es|
    ensures var r := Load(File(shard, shards, timestamp, es), shard);
            r.1 && |r.0| == |es| && (SameEntry(r.0[i], es[i]) <==> Survives(es[i]))
  {
    LoadOfFile(shard, shards, timestamp, es);
    LoadedAt(es, i);
    EntrySurvives(es[i]);
  }
}
