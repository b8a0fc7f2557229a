/**
 * The JSON type bridge of Tweetinvi/JsonSerializer.cs as pure functions of
 * the registry's state: the lookup of a converter for a type, and what
 * ToJson and ConvertJsonTo return. The class in json_serializer.dfy runs the
 * same steps imperatively and is proved to agree with these definitions.
 */
module Bridge {
  import opened Types

  /**
   * The state of the static dictionary `_getSerializableObject`: the converter
   * registered for each model type, and the order in which the keys were
   * first added (the order in which the dictionary enumerates them).
   */
  datatype Registry = Registry(converters: map<Ty, Converter>, order: seq<Ty>) {
    ghost predicate Valid() {
      && (forall i, j :: 0 <= i < j < |order| ==> order[i] != order[j])
      && (forall k :: k in converters <==> k in order)
      && (forall k :: k in converters ==> converters[k].source == k)
    }

    /** Map<T1, T2> on this state: the entry for `key` is set, a new key goes last. */
    function Register(key: Ty, extract: Value -> Result<Value>, restore: Json -> Result<Value>): (r: Registry)
      ensures key in r.converters && r.converters[key] == Converter(key, extract, restore)
      ensures forall k :: k != key ==> (k in r.converters <==> k in converters)
      ensures forall k :: k != key && k in converters ==> r.converters[k] == converters[k]
      ensures key in converters ==> r.order == order
      ensures key !in converters ==> r.order == order + [key]
    {
      var c := Converter(key, extract, restore);
      if key in converters then Registry(converters[key := c], order)
      else Registry(converters[key := c], order + [key])
    }
  }

  function EmptyRegistry(): (r: Registry)
    ensures r.Valid() && |r.converters| == 0
  {
    Registry(map[], [])
  }

  /** The eight model types mapped at start-up, in registration order. */
  const ITweet: Ty := Named("Tweetinvi.Models.ITweet")
  const IUser: Ty := Named("Tweetinvi.Models.IUser")
  const IMessage: Ty := Named("Tweetinvi.Models.IMessage")
  const ITwitterList: Ty := Named("Tweetinvi.Models.ITwitterList")
  const ISavedSearch: Ty := Named("Tweetinvi.Models.ISavedSearch")
  const IOEmbedTweet: Ty := Named("Tweetinvi.Models.IOEmbedTweet")
  const IRelationshipDetails: Ty := Named("Tweetinvi.Models.IRelationshipDetails")
  const IRelationshipState: Ty := Named("Tweetinvi.Models.IRelationshipState")

  const StartupKeys: seq<Ty> :=
    [ITweet, IUser, IMessage, ITwitterList, ISavedSearch, IOEmbedTweet, IRelationshipDetails, IRelationshipState]

  /** Registers `keys` one after the other, as the static constructor does. */
  function RegisterAll(reg: Registry, keys: seq<Ty>, dtoOf: Ty -> (Value -> Result<Value>),
                       create: Ty -> (Json -> Result<Value>)): (r: Registry)
    ensures forall k {:trigger k in keys} :: k in keys ==> k in r.converters && r.converters[k] == Converter(k, dtoOf(k), create(k))
    ensures forall k {:trigger k in r.converters} :: k !in keys ==> (k in r.converters <==> k in reg.converters)
    ensures forall k {:trigger r.converters[k]} :: k !in keys && k in reg.converters ==> r.converters[k] == reg.converters[k]
    decreases |keys|
  {
    if keys == [] then reg
    else
      assert forall k :: k in keys <==> k == keys[0] || k in keys[1..];
      RegisterAll(reg.Register(keys[0], dtoOf(keys[0]), create(keys[0])), keys[1..], dtoOf, create)
  }

  /**
   * The registry after the static constructor. `dtoOf(k)` stands for the
   * property read that yields a model's DTO and `create(k)` for the factory
   * that builds a model from JSON; both are foreign.
   */
  function Startup(dtoOf: Ty -> (Value -> Result<Value>), create: Ty -> (Json -> Result<Value>)): (r: Registry)
    ensures forall k :: k in r.converters <==> k in StartupKeys
    ensures forall k :: k in StartupKeys ==> r.converters[k] == Converter(k, dtoOf(k), create(k))
  {
    RegisterAll(EmptyRegistry(), StartupKeys, dtoOf, create)
  }

  // ---------------------------------------------------------------------
  // Lookup
  // ---------------------------------------------------------------------

  /** `k` is the first key, in enumeration order, that `t` can be assigned to. */
  ghost predicate FirstMatch(reg: Registry, rt: Runtime, t: Ty, k: Ty) {
    && k in reg.converters
    && rt.assignableTo(t, k)
    && forall i, j :: 0 <= j < i < |reg.order| && reg.order[i] == k ==> !rt.assignableTo(t, reg.order[j])
  }

  /** The first index at or after `from` whose key `t` can be assigned to. */
  function FirstAssignable(rt: Runtime, t: Ty, keys: seq<Ty>, from: nat): (r: Option<nat>)
    requires from <= |keys|
    ensures r.Some? ==> from <= r.value < |keys| && rt.assignableTo(t, keys[r.value])
    ensures r.Some? ==> forall j :: from <= j < r.value ==> !rt.assignableTo(t, keys[j])
    ensures r.None? ==> forall j :: from <= j < |keys| ==> !rt.assignableTo(t, keys[j])
    decreases |keys| - from
  {
    if from == |keys| then None
    else if rt.assignableTo(t, keys[from]) then Some(from)
    else FirstAssignable(rt, t, keys, from + 1)
  }

  /** The key whose converter serves `t`: `t` itself, else the first registered supertype. */
  function FindKey(reg: Registry, rt: Runtime, t: Ty): (r: Option<Ty>)
    requires reg.Valid()
    ensures t in reg.converters ==> r == Some(t)
    ensures t !in reg.converters && r.Some? ==> FirstMatch(reg, rt, t, r.value)
    ensures t !in reg.converters && r.None? ==> forall k :: k in reg.converters ==> !rt.assignableTo(t, k)
  {
    if t in reg.converters then Some(t)
    else
      match FirstAssignable(rt, t, reg.order, 0)
      case Some(i) => Some(reg.order[i])
      case None => None
  }

  /** GetSerializerFromNonCollectionType for a non-null type. */
  function Lookup(reg: Registry, rt: Runtime, t: Ty): (r: Option<Converter>)
    requires reg.Valid()
    ensures t in reg.converters ==> r == Some(reg.converters[t])
    ensures t !in reg.converters ==> (r.Some? <==> exists k :: k in reg.converters && rt.assignableTo(t, k))
    ensures r.Some? ==> r.value.source in reg.converters && reg.converters[r.value.source] == r.value
    ensures t !in reg.converters && r.Some? ==> FirstMatch(reg, rt, t, r.value.source)
  {
    match FindKey(reg, rt, t)
    case Some(k) => Some(reg.converters[k])
    case None => None
  }

  /**
   * GetSerializerFromNonCollectionType (JsonSerializer.cs:219-234): a null type
   * makes ContainsKey throw; otherwise the lookup never fails.
   */
  function GetSerializerFromNonCollectionType(reg: Registry, rt: Runtime, t: Option<Ty>): (r: Result<Option<Converter>>)
    requires reg.Valid()
    ensures r.Failure? <==> t.None?
    ensures r.Failure? ==> r.error == NullKey
    ensures t.Some? ==> r == Success(Lookup(reg, rt, t.value))
  {
    if t.None? then Failure(NullKey) else Success(Lookup(reg, rt, t.value))
  }

  // ---------------------------------------------------------------------
  // ToJson
  // ---------------------------------------------------------------------

  /**
   * The list built by the foreach of JsonSerializer.cs:111-114: every element
   * converted in order; the first failing element's error ends it.
   */
  function ExtractAll(rt: Runtime, c: Converter, xs: seq<Value>): (r: Result<seq<Value>>)
    ensures r.Success? <==> forall i :: 0 <= i < |xs| ==> c.GetSerializableObject(rt, xs[i]).Success?
    ensures r.Success? ==> |r.value| == |xs|
    ensures r.Success? ==> forall i :: 0 <= i < |xs| ==> r.value[i] == c.GetSerializableObject(rt, xs[i]).value
    ensures r.Failure? ==> exists i :: 0 <= i < |xs| && c.GetSerializableObject(rt, xs[i]) == Failure(r.error)
    decreases |xs|
  {
    if xs == [] then Success([])
    else
      var done :- ExtractAll(rt, c, xs[..|xs| - 1]);
      var x :- c.GetSerializableObject(rt, xs[|xs| - 1]);
      Success(done + [x])
  }

  /** The converter used element-wise, if any: the caller's, else the element type's. */
  function ElementSerializer(reg: Registry, rt: Runtime, t: Ty, obj: Value, supplied: Option<Converter>): (r: Option<Converter>)
    requires reg.Valid()
    ensures r.Some? <==> obj.Items? && t.Generic? && (supplied.Some? || Lookup(reg, rt, t.first).Some?)
    ensures r.Some? && supplied.Some? ==> r == supplied
    ensures r.Some? && supplied.None? ==> r.value.source in reg.converters && reg.converters[r.value.source] == r.value
  {
    if obj.Items? && t.Generic? then
      (if supplied.Some? then supplied else Lookup(reg, rt, t.first))
    else None
  }

  /**
   * The object handed to the codec (JsonSerializer.cs:93-128), or the error of
   * an extract call, which happens outside the try block.
   */
  function ToSerialize(reg: Registry, rt: Runtime, t: Ty, obj: Value, supplied: Option<Converter>): (r: Result<Value>)
    requires reg.Valid()
    ensures r.Failure? ==> exists c: Converter, x: Value ::
      && (supplied == Some(c) || (c.source in reg.converters && reg.converters[c.source] == c))
      && (x == obj || (obj.Items? && x in obj.elems))
      && c.GetSerializableObject(rt, x) == Failure(r.error)
    ensures !(obj.Items? && t.Generic?) && supplied.Some? ==> r == Success(obj)
    ensures ElementSerializer(reg, rt, t, obj, supplied).Some? && r.Success? ==>
      r.value.Items? && r.value.ty == ListOf(ObjectType) && |r.value.elems| == |obj.elems|
  {
    var elementwise := ElementSerializer(reg, rt, t, obj, supplied);
    if elementwise.Some? then
      var list :- ExtractAll(rt, elementwise.value, obj.elems);
      Success(Items(ListOf(ObjectType), list))
    else if supplied.None? then
      match Lookup(reg, rt, t)
      case Some(c) => c.GetSerializableObject(rt, obj)
      case None => Success(obj)
    else
      Success(obj)
  }

  /** The exception of a failing protected call, wrapped with `message`. */
  function Rethrow<T>(r: Result<T>, message: string): (w: Result<T>)
    ensures w.Success? <==> r.Success?
    ensures r.Success? ==> w == r
    ensures r.Failure? ==> w.error == Wrapped(message, r.error)
  {
    match r
    case Success(v) => Success(v)
    case Failure(e) => Failure(Wrapped(message, e))
  }

  /** What the private ToJson<T>(obj, serializer) returns, `t` being typeof(T). */
  function Serialize(reg: Registry, rt: Runtime, t: Ty, obj: Value, supplied: Option<Converter>): (r: Result<Json>)
    requires reg.Valid()
    ensures r.Success? ==> exists v :: rt.serializeObject(v) == Success(r.value)
  {
    var toSerialize :- ToSerialize(reg, rt, t, obj, supplied);
    Rethrow(rt.serializeObject(toSerialize), SerializeMessage)
  }

  // ---------------------------------------------------------------------
  // ConvertJsonTo
  // ---------------------------------------------------------------------

  /**
   * One iteration of JsonSerializer.cs:183-187: restore the element and add
   * it to a List<g> through IList.Add, which refuses an object that is not a g.
   */
  function RestoreInto(rt: Runtime, c: Converter, g: Ty, json: Json): (r: Result<Value>)
    ensures r.Success? <==> c.restore(json).Success? && (c.restore(json).value.Null? || IsA(rt, c.restore(json).value, g))
    ensures r.Success? ==> r.value == c.restore(json).value
    ensures r.Failure? ==> r.error == ListTypeMismatch || (c.restore(json).Failure? && r.error == c.restore(json).error)
  {
    var v :- c.restore(json);
    if v.Null? || rt.assignableTo(v.ty, g) then Success(v) else Failure(ListTypeMismatch)
  }

  /** The List<g> filled by the foreach of JsonSerializer.cs:183-187. */
  function RestoreAll(rt: Runtime, c: Converter, g: Ty, jsons: seq<Json>): (r: Result<seq<Value>>)
    ensures r.Success? <==> forall i :: 0 <= i < |jsons| ==> RestoreInto(rt, c, g, jsons[i]).Success?
    ensures r.Success? ==> |r.value| == |jsons|
    ensures r.Success? ==> forall i :: 0 <= i < |jsons| ==> r.value[i] == RestoreInto(rt, c, g, jsons[i]).value
    ensures r.Failure? ==> exists i :: 0 <= i < |jsons| && RestoreInto(rt, c, g, jsons[i]) == Failure(r.error)
    decreases |jsons|
  {
    if jsons == [] then Success([])
    else
      var done :- RestoreAll(rt, c, g, jsons[..|jsons| - 1]);
      var x :- RestoreInto(rt, c, g, jsons[|jsons| - 1]);
      Success(done + [x])
  }

  /** The element type of a collection target (JsonSerializer.cs:165-174), null if there is none. */
  function TargetElementType(rt: Runtime, t: Ty): (r: Option<Ty>)
    ensures t.Generic? ==> r == Some(t.first)
    ensures !t.Generic? ==> (r.Some? <==> rt.assignableTo(t, ArrayType) && t.ArrayOf?)
    ensures r.Some? && !t.Generic? ==> r.value == t.element
  {
    if t.Generic? then Some(t.first)
    else if rt.assignableTo(t, ArrayType) then t.ElementType()
    else None
  }

  /**
   * JsonSerializer.cs:200-207: restore with a converter and cast, or call the
   * codec. The lookup of a non-null type cannot fail, so it is `Lookup` itself.
   */
  function ConvertSingle(reg: Registry, rt: Runtime, t: Ty, json: Json, serializer: Option<Converter>): (r: Result<Value>)
    requires reg.Valid()
    ensures serializer.None? && Lookup(reg, rt, t).None? ==> r == rt.deserializeObject(json, t)
    ensures (serializer.Some? || Lookup(reg, rt, t).Some?) && r.Success? ==> r.value.Null? || IsA(rt, r.value, t)
  {
    var s := if serializer.Some? then serializer else Lookup(reg, rt, t);
    if s.Some? then
      var v :- s.value.restore(json);
      Success(As(rt, v, t))
    else
      rt.deserializeObject(json, t)
  }

  /** The body of the try block of ConvertJsonTo<T>(json, serializer) (JsonSerializer.cs:161-207). */
  function Convert(reg: Registry, rt: Runtime, t: Ty, json: Json, supplied: Option<Converter>): (r: Result<Value>)
    requires reg.Valid()
    ensures r.Success? ==> r.value.Null? || IsA(rt, r.value, t) || r == rt.deserializeObject(json, t)
  {
    if rt.assignableTo(t, EnumerableType) then
      var g := TargetElementType(rt, t);
      var s :- if supplied.Some? then Success(supplied) else GetSerializerFromNonCollectionType(reg, rt, g);
      if g.Some? && s.Some? then
        var jsons :- rt.parseArray(json);
        var list :- RestoreAll(rt, s.value, g.value, jsons);
        if rt.assignableTo(t, ArrayType) then Success(As(rt, Items(ArrayOf(g.value), list), t))
        else Success(As(rt, Items(ListOf(g.value), list), t))
      else
        ConvertSingle(reg, rt, t, json, s)
    else
      ConvertSingle(reg, rt, t, json, supplied)
  }

  /** What the private ConvertJsonTo<T>(json, serializer) returns: every failure is wrapped. */
  function Deserialize(reg: Registry, rt: Runtime, t: Ty, json: Json, supplied: Option<Converter>): (r: Result<Value>)
    requires reg.Valid()
    ensures r.Failure? ==> r.error.Wrapped? && r.error.message == DeserializeMessage
    ensures r.Success? ==> r.value.Null? || IsA(rt, r.value, t) || r == rt.deserializeObject(json, t)
  {
    Rethrow(Convert(reg, rt, t, json, supplied), DeserializeMessage)
  }
}
