/**
 * `lua::Value`, the value type scripts and the host exchange: a closed sum
 * of seven tags with a payload per tag. Accessors check the tag and fail
 * with the message passed to `LY_THROW`; failures are `Err` results here.
 */
module Values {
  import opened Wrappers

  /** A signed 64-bit integer (`int64_t`). */
  type Int64 = x: int | -0x8000_0000_0000_0000 <= x < 0x8000_0000_0000_0000

  /** A signed 32-bit integer (`int`). */
  type Int32 = x: int | -0x8000_0000 <= x < 0x8000_0000

  /** The tag set `Value::Ty`. */
  datatype Ty = NoneTy | BooleanTy | IntegerTy | FloatTy | StringTy | MapTy | ArrayTy

  /**
   * A value. Float payloads are carried as reals; maps are keyed by string
   * and arrays are ordered.
   */
  datatype Value =
    | None
    | Boolean(flag: bool)
    | Integer(num: Int64)
    | Float(float: real)
    | String(str: string)
    | Map(entries: map<string, Value>)
    | Array(items: seq<Value>)

  // ---------------------------------------------------------------------
  // Tags.

  /** `type()`: the tag the value was built with. */
  function TypeOf(v: Value): (t: Ty)
    ensures t == NoneTy <==> v.None?
    ensures t == BooleanTy <==> v.Boolean?
    ensures t == IntegerTy <==> v.Integer?
    ensures t == FloatTy <==> v.Float?
    ensures t == StringTy <==> v.String?
    ensures t == MapTy <==> v.Map?
    ensures t == ArrayTy <==> v.Array?
  {
    match v
    case None => NoneTy
    case Boolean(_) => BooleanTy
    case Integer(_) => IntegerTy
    case Float(_) => FloatTy
    case String(_) => StringTy
    case Map(_) => MapTy
    case Array(_) => ArrayTy
  }

  /** The `is_*` tests: each holds exactly for values built with its tag. */
  predicate IsNone(v: Value)
    ensures IsNone(v) <==> v.None?
  {
    TypeOf(v) == NoneTy
  }

  predicate IsBoolean(v: Value)
    ensures IsBoolean(v) <==> v.Boolean?
  {
    TypeOf(v) == BooleanTy
  }

  predicate IsInteger(v: Value)
    ensures IsInteger(v) <==> v.Integer?
  {
    TypeOf(v) == IntegerTy
  }

  predicate IsFloat(v: Value)
    ensures IsFloat(v) <==> v.Float?
  {
    TypeOf(v) == FloatTy
  }

  predicate IsString(v: Value)
    ensures IsString(v) <==> v.String?
  {
    TypeOf(v) == StringTy
  }

  predicate IsMap(v: Value)
    ensures IsMap(v) <==> v.Map?
  {
    TypeOf(v) == MapTy
  }

  predicate IsArray(v: Value)
    ensures IsArray(v) <==> v.Array?
  {
    TypeOf(v) == ArrayTy
  }


  /** Exactly one of the seven `is_*` tests holds for any value. */
  lemma ExactlyOneTag(v: Value)
    ensures IsNone(v) || IsBoolean(v) || IsInteger(v) || IsFloat(v) || IsString(v) || IsMap(v) || IsArray(v)
    ensures IsNone(v) ==> !IsBoolean(v) && !IsInteger(v) && !IsFloat(v) && !IsString(v) && !IsMap(v) && !IsArray(v)
    ensures IsBoolean(v) ==> !IsInteger(v) && !IsFloat(v) && !IsString(v) && !IsMap(v) && !IsArray(v)
    ensures IsInteger(v) ==> !IsFloat(v) && !IsString(v) && !IsMap(v) && !IsArray(v)
    ensures IsFloat(v) ==> !IsString(v) && !IsMap(v) && !IsArray(v)
    ensures IsString(v) ==> !IsMap(v) && !IsArray(v)
    ensures IsMap(v) ==> !IsArray(v)
  {
  }

  // The messages the accessors pass to `LY_THROW`.
  const NotInteger: string := "lua::Value is not an integer"
  const NotBoolean: string := "lua::Value is not an boolean"
  const NotFloat: string := "lua::Value is not a float"
  const NotString: string := "lua::Value is not a string"
  const NotMap: string := "lua::Value is not a map"
  const NotArray: string := "lua::Value is not an array"
  const NoSize: string := "lua::Value type does not support size()"

  // ---------------------------------------------------------------------
  // Accessors. Each fails unless the tag matches.

  function AsInteger(v: Value): (r: Result<Int64, string>)
    ensures r.Ok? <==> IsInteger(v)
    ensures r.Ok? ==> v == Integer(r.value)
    ensures r.Err? ==> r.error == NotInteger
  {
    if v.Integer? then Ok(v.num) else Err(NotInteger)
  }

  /** `as_boolean`: the payload for Boolean, false for None, a failure otherwise. */
  function AsBoolean(v: Value): (r: Result<bool, string>)
    ensures r.Ok? <==> IsBoolean(v) || IsNone(v)
    ensures IsBoolean(v) ==> r == Ok(v.flag)
    ensures IsNone(v) ==> r == Ok(false)
    ensures r.Err? ==> r.error == NotBoolean
  {
    if v.Boolean? then Ok(v.flag)
    else if v.None? then Ok(false)
    else Err(NotBoolean)
  }

  function AsFloat(v: Value): (r: Result<real, string>)
    ensures r.Ok? <==> IsFloat(v)
    ensures r.Ok? ==> v == Float(r.value)
    ensures r.Err? ==> r.error == NotFloat
  {
    if v.Float? then Ok(v.float) else Err(NotFloat)
  }

  function AsString(v: Value): (r: Result<string, string>)
    ensures r.Ok? <==> IsString(v)
    ensures r.Ok? ==> v == String(r.value)
    ensures r.Err? ==> r.error == NotString
  {
    if v.String? then Ok(v.str) else Err(NotString)
  }

  function AsMap(v: Value): (r: Result<map<string, Value>, string>)
    ensures r.Ok? <==> IsMap(v)
    ensures r.Ok? ==> v == Map(r.value)
    ensures r.Err? ==> r.error == NotMap
  {
    if v.Map? then Ok(v.entries) else Err(NotMap)
  }

  function AsArray(v: Value): (r: Result<seq<Value>, string>)
    ensures r.Ok? <==> IsArray(v)
    ensures r.Ok? ==> v == Array(r.value)
    ensures r.Err? ==> r.error == NotArray
  {
    if v.Array? then Ok(v.items) else Err(NotArray)
  }

  // ---------------------------------------------------------------------
  // Factories. Each yields its tag and hands its payload back through the
  // matching accessor; the narrower overloads widen exactly.

  function MakeNone(): (v: Value)
    ensures IsNone(v) && AsBoolean(v) == Ok(false)
  {
    Value.None
  }

  function MakeBoolean(b: bool): (v: Value)
    ensures IsBoolean(v) && AsBoolean(v) == Ok(b)
  {
    Boolean(b)
  }

  function MakeInteger(n: Int64): (v: Value)
    ensures IsInteger(v) && AsInteger(v) == Ok(n)
  {
    Integer(n)
  }

  /** `integer(int)`: the 32-bit argument is widened to 64 bits. */
  function MakeIntegerFromInt(n: Int32): (v: Value)
    ensures IsInteger(v) && AsInteger(v) == Ok(n as Int64)
  {
    Integer(n as Int64)
  }

  /** `float_val`, for either precision: the argument is widened to a double. */
  function MakeFloat(f: real): (v: Value)
    ensures IsFloat(v) && AsFloat(v) == Ok(f)
  {
    Float(f)
  }

  function MakeString(s: string): (v: Value)
    ensures IsString(v) && AsString(v) == Ok(s)
    ensures Size(v) == Ok(|s|)
  {
    String(s)
  }

  /** `map()`, and `map(m)` with a given map. */
  function MakeMap(m: map<string, Value>): (v: Value)
    ensures IsMap(v) && AsMap(v) == Ok(m)
    ensures Size(v) == Ok(|m|)
  {
    Map(m)
  }

  /** `array()`, and `array(a)` with a given vector. */
  function MakeArray(a: seq<Value>): (v: Value)
    ensures IsArray(v) && AsArray(v) == Ok(a)
    ensures Size(v) == Ok(|a|)
  {
    Array(a)
  }

  /** The variadic `array(args...)`: the arguments in order, one element each. */
  function ArrayOf(args: seq<Value>): (v: Value)
    ensures IsArray(v) && Size(v) == Ok(|args|)
    ensures forall i :: 0 <= i < |args| ==> ElementAt(v, i) == Ok(args[i])
  {
    MakeArray(args)
  }

  /** The raw constructors are private: every value is some factory's result. */
  lemma EveryValueFromFactory(v: Value)
    ensures v == MakeNone()
         || (v.Boolean? && v == MakeBoolean(v.flag))
         || (v.Integer? && v == MakeInteger(v.num))
         || (v.Float? && v == MakeFloat(v.float))
         || (v.String? && v == MakeString(v.str))
         || (v.Map? && v == MakeMap(v.entries))
         || (v.Array? && v == MakeArray(v.items))
  {
  }

  // ---------------------------------------------------------------------
  // Indexing.

  /**
   * The mutable `v[key]`: on a miss a None entry is inserted first; the
   * result is the value after the call and the entry the returned
   * reference designates.
   */
  function IndexMut(v: Value, key: string): (r: Result<(Value, Value), string>)
    ensures r.Ok? <==> IsMap(v)
    ensures r.Err? ==> r.error == NotMap
    ensures r.Ok? && key in v.entries ==> r.value == (v, v.entries[key])
    ensures r.Ok? && key !in v.entries ==> r.value.1 == Value.None
    ensures r.Ok? ==> IsMap(r.value.0) && key in r.value.0.entries
    ensures r.Ok? ==> r.value.0.entries.Keys == v.entries.Keys + {key}
    ensures r.Ok? ==> forall k :: k in v.entries ==> r.value.0.entries[k] == v.entries[k]
  {
    if !v.Map? then Err(NotMap)
    else if key in v.entries then Ok((v, v.entries[key]))
    else Ok((Map(v.entries[key := Value.None]), Value.None))
  }

  /** The const `v[key]`: a None sentinel on a miss, the map untouched. */
  function Index(v: Value, key: string): (r: Result<Value, string>)
    ensures r.Ok? <==> IsMap(v)
    ensures r.Err? ==> r.error == NotMap
    ensures r.Ok? ==> r.value == (if key in v.entries then v.entries[key] else Value.None)
  {
    if !v.Map? then Err(NotMap)
    else if key in v.entries then Ok(v.entries[key])
    else Ok(Value.None)
  }

  /**
   * Both forms of `v[index]` on an array: element `index`. Indexing past the
   * end has no defined result, so it is excluded.
   */
  function ElementAt(v: Value, index: nat): (r: Result<Value, string>)
    requires IsArray(v) ==> index < |v.items|
    ensures r.Ok? <==> IsArray(v)
    ensures r.Err? ==> r.error == NotArray
    ensures r.Ok? ==> r.value in v.items && r.value == v.items[index]
  {
    if !v.Array? then Err(NotArray) else Ok(v.items[index])
  }

  /** A miss through the mutable index grows the map by exactly one entry. */
  lemma IndexMutGrows(v: Value, key: string)
    requires IsMap(v)
    ensures Size(IndexMut(v, key).value.0) == Ok(if key in v.entries then |v.entries| else |v.entries| + 1)
  {
    var nv := IndexMut(v, key).value.0;
    if key !in v.entries {
      assert nv.entries.Keys == v.entries.Keys + {key};
    }
  }

  /** After the mutable index, the const index sees the same entry, and a second mutable index changes nothing. */
  lemma IndexMutThenIndex(v: Value, key: string)
    requires IsMap(v)
    ensures Index(IndexMut(v, key).value.0, key) == Ok(IndexMut(v, key).value.1)
    ensures IndexMut(IndexMut(v, key).value.0, key) == Ok((IndexMut(v, key).value.0, IndexMut(v, key).value.1))
  {
  }

  /** The mutable and const index agree on the entry; they differ only in whether a miss is recorded. */
  lemma IndexForms(v: Value, key: string)
    requires IsMap(v)
    ensures Index(v, key) == Ok(IndexMut(v, key).value.1)
    ensures IndexMut(v, key).value.0 == v <==> key in v.entries
  {
    if key !in v.entries {
      assert key in IndexMut(v, key).value.0.entries;
    }
  }

  // ---------------------------------------------------------------------
  // Size, emptiness, equality.

  /** `size()`: entries, elements or characters; a failure for any other tag. */
  function Size(v: Value): (r: Result<nat, string>)
    ensures v.Map? ==> r == Ok(|v.entries|)
    ensures v.Array? ==> r == Ok(|v.items|)
    ensures v.String? ==> r == Ok(|v.str|)
    ensures !(v.Map? || v.Array? || v.String?) ==> r == Err(NoSize)
  {
    if v.Map? then Ok(|v.entries|)
    else if v.Array? then Ok(|v.items|)
    else if v.String? then Ok(|v.str|)
    else Err(NoSize)
  }

  /** `empty()`: true for None, false for the scalars, no elements for the rest. */
  function Empty(v: Value): (e: bool)
    ensures e <==> IsNone(v) || Size(v) == Ok(0)
  {
    match v
    case None => true
    case Map(m) => |m| == 0
    case Array(a) => |a| == 0
    case String(s) => |s| == 0
    case _ => false
  }

  /** The empty values are exactly None and the empty map, array and string. */
  lemma EmptyValues(v: Value)
    ensures Empty(v) <==> v == Value.None || v == Map(map[]) || v == Array([]) || v == String([])
  {
    if v.Map? && |v.entries| == 0 {
      assert v.entries == map[];
    }
  }

  /**
   * `operator==`: false when the tags differ, otherwise the payloads are
   * compared, maps entry by entry and arrays element by element.
   */
  function Equals(a: Value, b: Value): (eq: bool)
    ensures eq <==> a == b
    decreases a
  {
    if TypeOf(a) != TypeOf(b) then false
    else match a
      case None => true
      case Boolean(x) => x == b.flag
      case Integer(x) => x == b.num
      case Float(x) => x == b.float
      case String(x) => x == b.str
      case Map(m) =>
        var n := b.entries;
        m.Keys == n.Keys && (forall k :: k in m ==> Equals(m[k], n[k]))
      case Array(xs) =>
        var ys := b.items;
        |xs| == |ys| && (forall i :: 0 <= i < |xs| ==> Equals(xs[i], ys[i]))
  }

  /** `operator!=`: the negation of `operator==`. */
  function NotEquals(a: Value, b: Value): (ne: bool)
    ensures ne <==> a != b
    ensures ne <==> !Equals(a, b)
  {
    !Equals(a, b)
  }
}
