/** The string and integer forms of `NanoObj`, and the canonical form of keys. */
module NanoObj {
  import opened Decimal

  const INLINE_LEN: nat := 14
  const MAX_STRING: nat := 65535

  /** `taglen` tells the form: up to 14 bytes inline, an int64, a heap string with a 16-bit length, or null. */
  datatype Obj = Null | Int(ival: Int64) | Inline(data: Bytes) | Small(data: Bytes)

  predicate IsString(o: Obj) { o.Inline? || o.Small? }

  /** `FromString`; the length of a heap string is cut to 16 bits. */
  function FromString(s: Bytes): (o: Obj) {
    if |s| <= INLINE_LEN then Inline(s) else Small(s[..|s| % (MAX_STRING + 1)])
  }

  /** `FromKey`, which prefers the integer form; what `SetStringKey` builds. */
  ghost function FromKey(s: Bytes): (o: Obj) {
    if |s| <= 20 && IsText(s) then Int(TextValue(s).value) else FromString(s)
  }

  method SetStringKey(s: Bytes) returns (o: Obj)
    ensures o == FromKey(s)
  {
    if |s| <= 20 {
      var r := String2ll(s);
      if r.Some? {
        ToTextInjective(r.value, TextValue(s).value);
        return Int(r.value);
      }
    }
    return FromString(s);
  }

  /** `MaybeConvertToInt` on an object just filled with bytes. */
  method MaybeConvertToInt(o: Obj) returns (o': Obj)
    requires IsString(o)
    ensures o' == if |o.data| <= 20 && IsText(o.data) then Int(TextValue(o.data).value) else o
  {
    if |o.data| == 0 || |o.data| > 20 {
      return o;
    }
    var r := String2ll(o.data);
    if r.None? {
      return o;
    }
    ToTextInjective(r.value, TextValue(o.data).value);
    return Int(r.value);
  }

  function ToString(o: Obj): Bytes {
    match o
    case Null => []
    case Int(i) => ToText(i)
    case Inline(d) => d
    case Small(d) => d
  }

  /** `GetStringView`: empty for the integer form. */
  function StringView(o: Obj): Bytes {
    if IsString(o) then o.data else []
  }

  /** `operator==`: integers with integers, strings with strings by content, nothing else. */
  predicate Same(a: Obj, b: Obj) {
    if a.Int? && b.Int? then a.ival == b.ival
    else IsString(a) && IsString(b) && StringView(a) == StringView(b)
  }

  /** `hash<NanoObj>` over arbitrary hashes of byte strings and of integers. */
  function Hash(o: Obj, ofBytes: Bytes -> nat, ofInt: int -> nat): nat {
    match o
    case Null => 0
    case Int(i) => ofInt(i)
    case Inline(d) => ofBytes(d)
    case Small(d) => ofBytes(d)
  }

  /** A key keeps its text exactly when its length fits 16 bits. */
  lemma KeyRoundTrip(s: Bytes)
    ensures ToString(FromKey(s)) == s <==> |s| <= MAX_STRING
  {
    if |s| <= MAX_STRING && |s| > INLINE_LEN {
      assert s[..|s|] == s;
    }
  }

  /** Keys are equal as objects exactly when their texts are: the integer form never splits or merges keys. */
  lemma KeyEquality(s: Bytes, t: Bytes)
    requires |s| <= MAX_STRING && |t| <= MAX_STRING
    ensures Same(FromKey(s), FromKey(t)) <==> s == t
    ensures FromKey(s) == FromKey(t) <==> s == t
  {
    KeyRoundTrip(s);
    KeyRoundTrip(t);
  }

  /** Objects that compare equal hash equally, whatever their storage form. */
  lemma EqualObjectsHashEqually(a: Obj, b: Obj, ofBytes: Bytes -> nat, ofInt: int -> nat)
    requires Same(a, b)
    ensures Hash(a, ofBytes, ofInt) == Hash(b, ofBytes, ofInt)
  {
  }

  /** An object some key text produces. */
  ghost predicate IsKey(o: Obj) {
    exists s: Bytes :: |s| <= MAX_STRING && o == FromKey(s)
  }

  /** A key object can be rebuilt from its text, as cross-shard requests do. */
  lemma KeyFromText(o: Obj)
    requires IsKey(o)
    ensures |ToString(o)| <= MAX_STRING && FromKey(ToString(o)) == o
  {
    var s: Bytes :| |s| <= MAX_STRING && o == FromKey(s);
    KeyRoundTrip(s);
  }

  // ----- objects as arguments -----

  /** A heap string has a 16-bit length. */
  ghost predicate ObjOk(o: Obj) {
    IsString(o) ==> |o.data| <= MAX_STRING
  }

  /** One object for each class of `operator==`: strings count by content. */
  function Norm(o: Obj): Obj {
    if IsString(o) then FromString(o.data) else o
  }

  /** Lookup with `operator==` is lookup of the class; the null object is equal to nothing, not even to itself. */
  lemma SameIsNorm(a: Obj, b: Obj)
    requires ObjOk(a) && ObjOk(b)
    ensures Same(a, b) <==> !a.Null? && !b.Null? && Norm(a) == Norm(b)
  {
    if IsString(a) && |a.data| > INLINE_LEN { assert a.data[..|a.data|] == a.data; }
    if IsString(b) && |b.data| > INLINE_LEN { assert b.data[..|b.data|] == b.data; }
  }

  /** What an element of a command can be: a null, or an object that has the integer form if its text allows it. */
  ghost predicate IsArg(o: Obj) {
    ObjOk(o) && (IsString(o) ==> !IsText(o.data))
  }

  lemma KeyIsArg(s: Bytes)
    requires |s| <= MAX_STRING
    ensures IsArg(FromKey(s))
  {
    if IsText(s) {
      var v :| IsInt64(v) && s == ToText(v);
      TextLength(v);
    }
    if |s| > INLINE_LEN { assert s[..|s|] == s; }
  }

  /** What another shard makes of an object that is sent to it as text. */
  ghost function Rebuilt(o: Obj): Obj {
    FromKey(ToString(o))
  }

  lemma RebuiltIsKey(o: Obj)
    requires ObjOk(o)
    ensures IsKey(Rebuilt(o)) && ToString(Rebuilt(o)) == ToString(o)
  {
    if o.Int? { TextLength(o.ival); }
    KeyRoundTrip(ToString(o));
  }

  /** An argument is rebuilt to an object equal to it, except for the null, which becomes the empty string. */
  lemma RebuiltArg(o: Obj)
    requires IsArg(o)
    ensures Rebuilt(o) == if o.Null? then Inline([]) else Norm(o)
  {
    match o
    case Null => TextForm(0); NothingIsText();
    case Int(i) => TextLength(i); TextValueOfText(i);
    case Inline(d) =>
    case Small(d) =>
  }

  lemma NothingIsText()
    ensures !IsText([])
  {
  }
}
