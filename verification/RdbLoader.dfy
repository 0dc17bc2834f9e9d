/** The reader of NRDB files. */
module RdbLoader {
  import opened Options
  import opened Powers
  import opened Decimal
  import opened NanoObj
  import opened Crc32
  import opened Nrdb

  /** What a method returned, and what it left to read, agree with the format. */
  ghost predicate Agrees<T>(spec: Read<T>, got: Option<T>, rest: Bytes) {
    match spec
    case Fail => got.None?
    case Ok(value, after) => got == Some(value) && rest == after
  }

  lemma SevenBits(v: nat)
    ensures ShiftLeft(v, 7) == 128 * v
  {
    assert ShiftLeft(v, 1) == 2 * v;
    assert ShiftLeft(v, 2) == 4 * v;
    assert ShiftLeft(v, 4) == 4 * ShiftLeft(v, 2);
    assert ShiftLeft(v, 6) == 4 * ShiftLeft(v, 4);
  }

  /** The length of which `total` has been read, in `rounds` bytes, and `s` is to come. */
  ghost function LenFrom(s: Bytes, rounds: nat, total: nat): Read<nat> {
    match RawLen(s, rounds)
    case Fail => Fail
    case Ok(v, rest) => Ok(Truncate(total + ShiftLeft(v, 7 * rounds), TWO_64), rest)
  }

  /** Adding to the low 64 bits of a sum gives the low 64 bits of the new sum. */
  lemma TruncateAdd(a: nat, b: nat)
    ensures Truncate(Truncate(a, TWO_64) + b, TWO_64) == Truncate(a + b, TWO_64)
  {
  }

  /** The value of a length that goes on, in terms of the value of its rest. */
  lemma ShiftedSum(low: nat, v: nat, rounds: nat)
    ensures ShiftLeft(low + 128 * v, 7 * rounds) == ShiftLeft(low, 7 * rounds) + ShiftLeft(v, 7 * (rounds + 1))
  {
    ShiftLeftAdd(low, 128 * v, 7 * rounds);
    SevenBits(v);
    ShiftLeftTwice(v, 7, 7 * rounds);
  }

  /** The same one byte further: the accumulator keeps the low 64 bits of the sum. */
  lemma LenStep(s: Bytes, rounds: nat, total: nat, len: nat)
    requires s != [] && len == Truncate(total, TWO_64)
    ensures var sum := total + ShiftLeft(s[0] % 128, 7 * rounds);
            Truncate(len + ShiftLeft(s[0] % 128, 7 * rounds), TWO_64) == Truncate(sum, TWO_64) &&
            LenFrom(s, rounds, total) ==
            if s[0] < 128 then Ok(Truncate(sum, TWO_64), s[1..])
            else if rounds >= 10 then Fail
            else LenFrom(s[1..], rounds + 1, sum)
  {
    TruncateAdd(total, ShiftLeft(s[0] % 128, 7 * rounds));
    if s[0] >= 128 && rounds < 10 {
      match RawLen(s[1..], rounds + 1)
      case Fail =>
      case Ok(v, rest) => ShiftedSum(s[0] - 128, v, rounds);
    }
  }

  /**
   `source` is the whole file. The checksum covers what was read since `start`. A read past the end
   fails and ends the load.
   */
  class Loader {
    const source: Bytes
    const shard: nat
    var pos: nat
    var checksum: Word
    var delivered: seq<Entry>
    ghost var start: nat

    ghost predicate Valid()
      reads this
    {
      start <= pos <= |source| && Sums(checksum, source[start..pos])
    }

    function Rest(): Bytes
      reads this
      requires pos <= |source|
    {
      source[pos..]
    }

    constructor (source: Bytes, shard: nat)
      ensures Valid() && pos == 0 && delivered == [] && this.source == source && this.shard == shard
    {
      this.source, this.shard := source, shard;
      pos, checksum, delivered, start := 0, 0, [], 0;
      SumsNothing();
    }

    method ReadRaw(n: nat) returns (r: Option<Bytes>)
      requires Valid()
      modifies this`pos, this`checksum
      ensures Valid() && Agrees(Nrdb.ReadRaw(old(Rest()), n), r, Rest())
    {
      if n == 0 {
        return Some([]);
      }
      if n > |source| - pos {
        return None;
      }
      var buf := source[pos..pos + n];
      SumsMore(checksum, source[start..pos], buf);
      assert source[start..pos + n] == source[start..pos] + buf;
      assert source[pos..][..n] == buf && source[pos..][n..] == source[pos + n..];
      pos := pos + n;
      checksum := BuildCrc32(checksum, buf);
      return Some(buf);
    }

    method ReadOpcode() returns (r: Option<Byte>)
      requires Valid()
      modifies this`pos, this`checksum
      ensures Valid()
      ensures old(Rest()) == [] ==> r.None?
      ensures old(Rest()) != [] ==> r == Some(old(Rest())[0]) && Rest() == old(Rest())[1..]
    {
      var buf := ReadRaw(1);
      if buf.None? {
        return None;
      }
      return Some(buf.value[0]);
    }

    method ReadLen() returns (r: Option<nat>)
      requires Valid()
      modifies this`pos, this`checksum
      ensures Valid() && Agrees(Nrdb.ReadLen(old(Rest())), r, Rest())
    {
      var len: nat, shift: nat, rounds: nat := 0, 0, 0;
      ghost var total: nat := 0;
      ghost var spec := Nrdb.ReadLen(Rest());
      while true
        invariant Valid() && rounds <= 10 && shift == 7 * rounds
        invariant len == Truncate(total, TWO_64)
        invariant LenFrom(Rest(), rounds, total) == spec
        decreases 10 - rounds
      {
        ghost var before := Rest();
        var byte := ReadOpcode();
        if byte.None? {
          return None;
        }
        LenStep(before, rounds, total, len);
        var piece := ShiftLeft(byte.value % 128, shift);
        len := Truncate(len + piece, TWO_64);
        if byte.value < 128 {
          return Some(len);
        }
        total := total + piece;
        shift, rounds := shift + 7, rounds + 1;
        if rounds > 10 {
          return None;
        }
      }
    }

    method ReadString() returns (r: Option<Bytes>)
      requires Valid()
      modifies this`pos, this`checksum
      ensures Valid() && Agrees(Nrdb.ReadString(old(Rest())), r, Rest())
    {
      var len := ReadLen();
      if len.None? {
        return None;
      }
      r := ReadRaw(len.value);
    }

    method ReadIntObject() returns (r: Option<Value>)
      requires Valid()
      modifies this`pos, this`checksum
      ensures Valid() && Agrees(ReadInt(old(Rest())), r, Rest())
    {
      var buf := ReadRaw(U64);
      if buf.None? {
        return None;
      }
      LittleEndianBound(buf.value);
      return Some(Scalar(Int(Signed64(FromLittleEndian(buf.value)))));
    }

    method ReadField() returns (r: Option<(Bytes, Bytes)>)
      requires Valid()
      modifies this`pos, this`checksum
      ensures Valid() && Agrees(Nrdb.ReadField(old(Rest())), r, Rest())
    {
      var field := ReadString();
      if field.None? {
        return None;
      }
      var value := ReadString();
      if value.None? {
        return None;
      }
      return Some((field.value, value.value));
    }

    method ReadFields(count: nat) returns (r: Option<seq<(Bytes, Bytes)>>)
      requires Valid()
      modifies this`pos, this`checksum
      ensures Valid() && Agrees(ReadPairs(count, old(Rest()), []), r, Rest())
    {
      var fields: seq<(Bytes, Bytes)> := [];
      for i := 0 to count
        invariant Valid() && ReadPairs(count - i, Rest(), fields) == ReadPairs(count, old(Rest()), [])
      {
        var field := ReadField();
        if field.None? {
          return None;
        }
        fields := Upsert(fields, field.value.0, field.value.1);
      }
      return Some(fields);
    }

    method ReadHashObject() returns (r: Option<Value>)
      requires Valid()
      modifies this`pos, this`checksum
      ensures Valid() && Agrees(ReadHash(old(Rest())), r, Rest())
    {
      var count := ReadLen();
      if count.None? {
        return None;
      }
      var fields := ReadFields(count.value);
      return if fields.None? then None else Some(HashV(fields.value));
    }

    method ReadSetMembers(count: nat) returns (r: Option<seq<Bytes>>)
      requires Valid()
      modifies this`pos, this`checksum
      ensures Valid() && Agrees(ReadMembers(count, old(Rest()), []), r, Rest())
    {
      var members: seq<Bytes> := [];
      ghost var spec := ReadMembers(count, Rest(), []);
      for i := 0 to count
        invariant Valid() && ReadMembers(count - i, Rest(), members) == spec
      {
        var member := ReadString();
        if member.None? {
          return None;
        }
        if member.value !in members {
          members := members + [member.value];
        }
      }
      return Some(members);
    }

    method ReadSetObject() returns (r: Option<Value>)
      requires Valid()
      modifies this`pos, this`checksum
      ensures Valid() && Agrees(ReadSet(old(Rest())), r, Rest())
    {
      var count := ReadLen();
      if count.None? {
        return None;
      }
      var members := ReadSetMembers(count.value);
      return if members.None? then None else Some(SetV(members.value));
    }

    method ReadListItems(count: nat) returns (r: Option<seq<Obj>>)
      requires Valid()
      modifies this`pos, this`checksum
      ensures Valid() && Agrees(ReadItems(count, old(Rest()), []), r, Rest())
    {
      var items: seq<Obj> := [];
      ghost var spec := ReadItems(count, Rest(), []);
      for i := 0 to count
        invariant Valid() && ReadItems(count - i, Rest(), items) == spec
      {
        var item := ReadString();
        if item.None? {
          return None;
        }
        items := items + [FromString(item.value)];
      }
      return Some(items);
    }

    method ReadListObject() returns (r: Option<Value>)
      requires Valid()
      modifies this`pos, this`checksum
      ensures Valid() && Agrees(ReadList(old(Rest())), r, Rest())
    {
      var count := ReadLen();
      if count.None? {
        return None;
      }
      var items := ReadListItems(count.value);
      return if items.None? then None else Some(ListV(items.value));
    }

    method ReadObject(tag: Byte) returns (r: Option<Value>)
      requires Valid()
      modifies this`pos, this`checksum
      ensures Valid() && Agrees(Nrdb.ReadObject(tag, old(Rest())), r, Rest())
    {
      if tag == OBJ_STRING {
        var value := ReadString();
        if value.None? {
          return None;
        }
        return Some(Scalar(FromString(value.value)));
      } else if tag == OBJ_INT {
        r := ReadIntObject();
      } else if tag == OBJ_HASH {
        r := ReadHashObject();
      } else if tag == OBJ_SET {
        r := ReadSetObject();
      } else if tag == OBJ_LIST {
        r := ReadListObject();
      } else {
        r := None;
      }
    }

    method ReadRecord(tag: Byte, ghost before: Bytes) returns (item: Item)
      requires Valid() && before != [] && before[0] == tag && before[1..] == Rest()
      modifies this`pos, this`checksum
      ensures Valid() && item == Nrdb.ReadRecord(before) && (!item.Broken? ==> Rest() == item.rest)
    {
      var key := ReadString();
      if key.None? {
        return Broken;
      }
      var value := ReadObject(tag);
      if value.None? {
        return Broken;
      }
      return Record(key.value, value.value, Rest());
    }

    /** The reading part of one turn of the loop of `Load`. */
    method ReadItem() returns (item: Item)
      requires Valid()
      modifies this`pos, this`checksum
      ensures Valid() && item == Nrdb.ReadItem(old(Rest())) && (!item.Broken? ==> Rest() == item.rest)
    {
      ghost var before := Rest();
      var opcode := ReadOpcode();
      if opcode.None? {
        return Broken;
      }
      if opcode.value == DB_SELECT {
        var n := ReadLen();
        return if n.None? then Broken else Select(Truncate(n.value, TWO_32), Rest());
      }
      if opcode.value == DB_SIZE {
        var n := ReadLen();
        return if n.None? then Broken else Size(Rest());
      }
      if opcode.value == EXPIRE_MS {
        var n := ReadLen();
        return if n.None? then Broken else Expire(Signed64(n.value), Rest());
      }
      if opcode.value == EOF {
        return End(Rest());
      }
      item := ReadRecord(opcode.value, before);
    }

    method LoadHeader() returns (ok: bool)
      requires Valid()
      modifies this`pos, this`checksum
      ensures Valid() && ok == HeaderOk(old(Rest()), shard)
      ensures ok ==> Rest() == old(Rest())[HEADER_SIZE..]
    {
      ghost var file := Rest();
      var magic := ReadRaw(|MAGIC|);
      if magic.None? || magic.value != MAGIC {
        return false;
      }
      var id := ReadRaw(U32);
      if id.None? {
        return false;
      }
      var ignored := ReadRaw(U32 + U64 + U16);
      if ignored.None? {
        return false;
      }
      assert file[8..][..4] == file[8..12] && file[8..][4..][14..] == file[HEADER_SIZE..];
      return FromLittleEndian(id.value) == shard;
    }

    /** The stored checksum is read without being summed itself. */
    method LoadFooter() returns (ok: bool)
      requires Valid()
      modifies this`pos
      ensures ok == FooterOk(source[start..old(pos)], old(Rest()))
    {
      SumsIsSum(checksum, source[start..pos]);
      if |source| - pos < U32 {
        return false;
      }
      var stored := FromLittleEndian(source[pos..pos + U32]);
      assert source[pos..][..4] == source[pos..pos + U32];
      pos := pos + U32;
      return checksum == stored;
    }

    /** The loop of `Load`, up to the end mark; an entry is handed over as soon as it is read. */
    method LoadRecords() returns (ended: bool)
      requires Valid()
      modifies this`pos, this`checksum, this`delivered
      ensures Valid() && delivered == old(delivered) + ReadRecords(old(Rest()), 0, 0).entries
      ensures ReadRecords(old(Rest()), 0, 0).end == if ended then Some(Rest()) else None
    {
      var db: nat, expireMs, hasExpire := 0, 0, false;
      ghost var spec := ReadRecords(Rest(), 0, 0);
      while true
        invariant Valid()
        invariant Continues(spec, old(delivered), delivered, ReadRecords(Rest(), db, if hasExpire then expireMs else 0))
        decreases |Rest()|
      {
        var item := ReadItem();
        match item {
          case Broken =>
            assert delivered + [] == delivered;
            return false;
          case Select(n, _) => db, hasExpire := n, false;
          case Size(_) =>
          case Expire(ms, _) => expireMs, hasExpire := ms, true;
          case End(_) =>
            assert delivered + [] == delivered;
            return true;
          case Record(key, value, _) =>
            var e := Entry(db, FromString(key), value, if hasExpire then expireMs else 0);
            HandOver(spec, old(delivered), delivered, e, ReadRecords(Rest(), db, 0));
            delivered, hasExpire := delivered + [e], false;
        }
      }
    }

    method Load() returns (ok: bool)
      requires Valid()
      modifies this
      ensures delivered == old(delivered) + Nrdb.Load(old(Rest()), shard).0
      ensures ok == Nrdb.Load(old(Rest()), shard).1
    {
      checksum, start := 0, pos;
      SumsNothing();
      assert delivered + [] == delivered;
      var header := LoadHeader();
      if !header {
        return false;
      }
      var ended := LoadRecords();
      if !ended {
        return false;
      }
      SourceParts(source, start, pos);
      ok := LoadFooter();
    }
  }

  /** `all` is what was handed over between `before` and `now`, followed by `rest`. */
  ghost predicate Continues(all: Records, before: seq<Entry>, now: seq<Entry>, rest: Records) {
    before + all.entries == now + rest.entries && all.end == rest.end
  }

  lemma SourceParts(source: Bytes, start: nat, pos: nat)
    requires start <= pos <= |source|
    ensures source[start..pos] == source[start..][..|source[start..]| - |source[pos..]|]
  {
  }

  lemma HandOver(all: Records, before: seq<Entry>, now: seq<Entry>, e: Entry, rest: Records)
    requires Continues(all, before, now, Records([e] + rest.entries, rest.end))
    ensures Continues(all, before, now + [e], rest)
  {
    assert now + ([e] + rest.entries) == now + [e] + rest.entries;
  }
}
