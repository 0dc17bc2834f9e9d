/** The writer of NRDB files. */
module RdbSerializer {
  import opened Options
  import opened Sequences
  import opened Powers
  import opened Decimal
  import opened NanoObj
  import opened Crc32
  import opened Nrdb

  const MAX_LEN_BYTES: nat := 10

  lemma LebMore(done: Bytes, n: nat)
    ensures n < 128 ==> Leb(n) == [n]
    ensures n >= 128 ==> |Leb(n)| == 1 + |Leb(n / 128)| && done + Leb(n) == done + [n % 128 + 128] + Leb(n / 128)
  {
  }

  /** The loop of `SaveLen`: the length fits its ten-byte buffer. */
  method EncodeLen(len: nat) returns (s: Bytes)
    requires len < TWO_64
    ensures s == Leb(len)
  {
    ReadLenOfLeb(len, []);
    var buf := new Byte[MAX_LEN_BYTES];
    var i: nat := 0;
    var rest := len;
    while true
      invariant i + |Leb(rest)| <= MAX_LEN_BYTES
      invariant buf[..i] + Leb(rest) == Leb(len)
      decreases rest
    {
      ghost var before := buf[..i];
      LebMore(before, rest);
      var b := rest % 128;
      var more := rest / 128;
      if more != 0 {
        b := b + 128;
      }
      buf[i] := b;
      assert buf[..i + 1] == before + [b];
      i := i + 1;
      if more == 0 {
        return buf[..i];
      }
      rest := more;
    }
  }

  /** `sink` is everything appended so far; the checksum covers what follows `start`, where the header begins. */
  class Serializer {
    const shard: nat
    const shards: nat
    var sink: Bytes
    var checksum: Word
    var lastDb: nat
    ghost var start: nat

    ghost predicate Valid()
      reads this
    {
      start <= |sink| && Sums(checksum, sink[start..])
    }

    constructor (sink: Bytes, shard: nat, shards: nat)
      ensures Valid() && this.sink == sink && this.shard == shard && this.shards == shards
      ensures lastDb == NO_DB && start == |sink|
    {
      this.sink, this.shard, this.shards := sink, shard, shards;
      checksum, lastDb, start := 0, NO_DB, |sink|;
      SumsNothing();
    }

    method WriteRaw(buf: Bytes)
      requires Valid()
      modifies this`sink, this`checksum
      ensures Valid() && sink == old(sink) + buf
    {
      if |buf| == 0 {
        return;
      }
      SumsMore(checksum, sink[start..], buf);
      assert (sink + buf)[start..] == sink[start..] + buf;
      sink := sink + buf;
      checksum := BuildCrc32(checksum, buf);
    }

    method SaveLen(len: nat)
      requires Valid() && len < TWO_64
      modifies this`sink, this`checksum
      ensures Valid() && sink == old(sink) + Leb(len)
    {
      var buf := EncodeLen(len);
      WriteRaw(buf);
    }

    method SaveString(s: Bytes)
      requires Valid() && |s| < TWO_64
      modifies this`sink, this`checksum
      ensures Valid() && sink == old(sink) + Str(s)
    {
      SaveLen(|s|);
      WriteRaw(s);
    }

    method SaveHashObject(fs: seq<(Bytes, Bytes)>)
      requires Valid() && Storable(HashV(fs))
      modifies this`sink, this`checksum
      ensures Valid() && sink == old(sink) + (Leb(|fs|) + Pairs(fs))
    {
      SaveLen(|fs|);
      assert fs[0..] == fs;
      for i := 0 to |fs|
        invariant Valid()
        invariant sink + Pairs(fs[i..]) == old(sink) + (Leb(|fs|) + Pairs(fs))
      {
        ghost var before := sink;
        SaveString(fs[i].0);
        SaveString(fs[i].1);
        assert fs[i..][1..] == fs[i + 1..];
        Regroup(before, Str(fs[i].0), Str(fs[i].1), Pairs(fs[i + 1..]));
      }
    }

    method SaveSetObject(ms: seq<Bytes>)
      requires Valid() && Storable(SetV(ms))
      modifies this`sink, this`checksum
      ensures Valid() && sink == old(sink) + (Leb(|ms|) + Strs(ms))
    {
      SaveLen(|ms|);
      assert ms[0..] == ms;
      for i := 0 to |ms|
        invariant Valid()
        invariant sink + Strs(ms[i..]) == old(sink) + (Leb(|ms|) + Strs(ms))
      {
        ghost var before := sink;
        SaveString(ms[i]);
        assert ms[i..][1..] == ms[i + 1..];
        Regroup(before, Str(ms[i]), [], Strs(ms[i + 1..]));
      }
    }

    method SaveItem(item: Obj)
      requires Valid() && ObjOk(item)
      modifies this`sink, this`checksum
      ensures Valid() && sink == old(sink) + Str(ToString(item))
    {
      if IsString(item) {
        SaveString(StringView(item));
      } else {
        if item.Int? { TextLength(item.ival); }
        SaveString(ToString(item));
      }
    }

    method SaveListObject(items: seq<Obj>)
      requires Valid() && Storable(ListV(items))
      modifies this`sink, this`checksum
      ensures Valid() && sink == old(sink) + (Leb(|items|) + Strs(Texts(items)))
    {
      ghost var ts := Texts(items);
      SaveLen(|items|);
      assert ts[0..] == ts;
      for i := 0 to |items|
        invariant Valid()
        invariant sink + Strs(ts[i..]) == old(sink) + (Leb(|ts|) + Strs(ts))
      {
        ghost var before := sink;
        SaveItem(items[i]);
        assert ts[i..][1..] == ts[i + 1..];
        Regroup(before, Str(ts[i]), [], Strs(ts[i + 1..]));
      }
    }

    /** Fails on sorted sets only. */
    method SaveObjectData(v: Value) returns (ok: bool)
      requires Valid() && (v.ZsetV? || Storable(v))
      modifies this`sink, this`checksum
      ensures Valid() && sink == old(sink) + Data(v) && ok == !v.ZsetV?
    {
      match v {
        case Scalar(o) =>
          if o.Int? {
            WriteRaw(LittleEndian(Unsigned64(o.ival), U64));
          } else {
            SaveString(StringView(o));
          }
        case HashV(fs) => SaveHashObject(fs);
        case SetV(ms) => SaveSetObject(ms);
        case ListV(items) => SaveListObject(items);
        case ZsetV => return false;
      }
      return true;
    }

    method SaveSelectDb(db: nat)
      requires Valid() && db < NO_DB
      modifies this`sink, this`checksum, this`lastDb
      ensures Valid() && sink == old(sink) + SelectDb(old(lastDb), db) && lastDb == db
    {
      if db == lastDb {
        return;
      }
      Regroup(sink, [DB_SELECT], [], Leb(db));
      WriteRaw([DB_SELECT]);
      SaveLen(db);
      lastDb := db;
    }

    method SaveExpiry(expireMs: int)
      requires Valid() && expireMs <= INT64_MAX
      modifies this`sink, this`checksum
      ensures Valid() && sink == old(sink) + Expiry(expireMs)
    {
      if expireMs > 0 {
        Regroup(sink, [EXPIRE_MS], [], Leb(expireMs));
        WriteRaw([EXPIRE_MS]);
        SaveLen(expireMs);
      }
    }

    /** A sorted set fails after its marks, its tag and its key have been written. */
    method SaveEntry(e: Entry) returns (ok: bool)
      requires Valid() && Writable(e)
      modifies this`sink, this`checksum, this`lastDb
      ensures Valid() && sink == old(sink) + Encode(old(lastDb), e) && lastDb == e.db && ok == !e.value.ZsetV?
    {
      Join(sink, SelectDb(lastDb, e.db), Expiry(e.expireMs), [Tag(e.value)], Str(StringView(e.key)), Data(e.value));
      SaveSelectDb(e.db);
      SaveExpiry(e.expireMs);
      WriteRaw([Tag(e.value)]);
      SaveString(StringView(e.key));
      ok := SaveObjectData(e.value);
    }

    method SaveHeader(timestamp: nat)
      requires shard < TWO_32 && shards < TWO_32 && timestamp < TWO_64
      modifies this`sink, this`checksum, this`start
      ensures Valid() && start == |old(sink)| && sink == old(sink) + Header(shard, shards, timestamp)
    {
      checksum, start := 0, |sink|;
      SumsNothing();
      var id, count := LittleEndian(shard, U32), LittleEndian(shards, U32);
      var time, dbs := LittleEndian(timestamp, U64), LittleEndian(DB_COUNT, U16);
      Join(sink, MAGIC, id, count, time, dbs);
      WriteRaw(MAGIC);
      WriteRaw(id);
      WriteRaw(count);
      WriteRaw(time);
      WriteRaw(dbs);
    }

    /** The checksum that is written covers the end mark but not itself. */
    method SaveFooter()
      requires Valid()
      modifies this`sink, this`checksum
      ensures Valid() && sink[..start] == old(sink[..start])
      ensures sink[start..] == Seal(old(sink)[start..] + [EOF])
    {
      WriteRaw([EOF]);
      ghost var marked := sink;
      assert marked[start..] == old(sink)[start..] + [EOF];
      SealOfSum(marked[start..], checksum);
      var crc := LittleEndian(checksum, U32);
      WriteRaw(crc);
      assert sink[start..] == marked[start..] + crc;
    }
  }

  /** Writing one more entry leaves the same bytes in all. */
  lemma EncodeAllStep(sink: Bytes, last: nat, es: seq<Entry>, i: nat)
    requires i < |es|
    ensures sink + Encode(last, es[i]) + EncodeAll(es[i].db, es[i + 1..]) == sink + EncodeAll(last, es[i..])
  {
    assert es[i..][1..] == es[i + 1..];
    Regroup(sink, Encode(last, es[i]), [], EncodeAll(es[i].db, es[i + 1..]));
  }

  lemma EncodeAllEnds(sink: Bytes, last: nat, es: seq<Entry>)
    ensures sink + EncodeAll(last, es[0..]) == sink + EncodeAll(last, es) && sink + EncodeAll(last, es[|es|..]) == sink
  {
    assert es[0..] == es && es[|es|..] == [];
    assert sink + [] == sink;
  }

  /** Entry `i`; what is written and what is left to write are the same bytes in all. */
  method SaveNext(serializer: Serializer, es: seq<Entry>, i: nat, ghost all: Bytes) returns (ok: bool)
    requires serializer.Valid() && i < |es| && Writable(es[i])
    requires serializer.sink + EncodeAll(serializer.lastDb, es[i..]) == all
    modifies serializer`sink, serializer`checksum, serializer`lastDb
    ensures serializer.Valid() && ok == EntryOk(es[i])
    ensures serializer.sink + EncodeAll(serializer.lastDb, es[i + 1..]) == all
  {
    EncodeAllStep(serializer.sink, serializer.lastDb, es, i);
    ok := serializer.SaveEntry(es[i]);
  }

  /** One entry after the other, up to the first that fails. */
  method SaveEntries(serializer: Serializer, es: seq<Entry>) returns (ok: bool)
    requires serializer.Valid() && forall i :: 0 <= i < |es| ==> Writable(es[i])
    modifies serializer`sink, serializer`checksum, serializer`lastDb
    ensures serializer.Valid() && ok == EntriesOk(es)
    ensures ok ==> serializer.sink == old(serializer.sink) + EncodeAll(old(serializer.lastDb), es)
  {
    ghost var all := serializer.sink + EncodeAll(serializer.lastDb, es);
    EncodeAllEnds(serializer.sink, serializer.lastDb, es);
    for i := 0 to |es|
      invariant serializer.Valid() && forall k :: 0 <= k < i ==> EntryOk(es[k])
      invariant serializer.sink + EncodeAll(serializer.lastDb, es[i..]) == all
    {
      var saved := SaveNext(serializer, es, i, all);
      if !saved {
        return false;
      }
    }
    EncodeAllEnds(serializer.sink, serializer.lastDb, es);
    return true;
  }

  /** `SaveToFile`: the entries of all databases, or nothing as soon as one of them cannot be written. */
  method SaveToFile(shards: nat, timestamp: nat, es: seq<Entry>) returns (file: Option<Bytes>)
    requires shards < TWO_32 && timestamp < TWO_64 && forall i :: 0 <= i < |es| ==> Writable(es[i])
    ensures file.Some? <==> EntriesOk(es)
    ensures file.Some? ==> file.value == File(0, shards, timestamp, es)
  {
    var serializer := new Serializer([], 0, shards);
    serializer.SaveHeader(timestamp);
    var ok := SaveEntries(serializer, es);
    if !ok {
      return None;
    }
    serializer.SaveFooter();
    return Some(serializer.sink);
  }
}
