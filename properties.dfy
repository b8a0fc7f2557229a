/**
 * What the JSON type bridge promises, stated over the Bridge definitions:
 * registration, lookup, the element-wise paths in both directions, the
 * pass-through to the codec, and which failures come back wrapped.
 */
module BridgeProperties {
  import opened Types
  import opened Bridge

  // ---------------------------------------------------------------------
  // Registration
  // ---------------------------------------------------------------------

  /** Map<T1, T2> sets the entry for T1, touches no other key, and adds a key only when T1 was absent. */
  lemma RegisterEffect(reg: Registry, key: Ty, extract: Value -> Result<Value>, restore: Json -> Result<Value>)
    requires reg.Valid()
    ensures reg.Register(key, extract, restore).Valid()
    ensures key in reg.Register(key, extract, restore).converters
    ensures reg.Register(key, extract, restore).converters[key] == Converter(key, extract, restore)
    ensures forall k :: k != key ==>
      && (k in reg.Register(key, extract, restore).converters <==> k in reg.converters)
      && (k in reg.converters ==> reg.Register(key, extract, restore).converters[k] == reg.converters[k])
    ensures |reg.Register(key, extract, restore).converters|
      == if key in reg.converters then |reg.converters| else |reg.converters| + 1
    ensures reg.Register(key, extract, restore).order
      == if key in reg.converters then reg.order else reg.order + [key]
  {
    var r := reg.Register(key, extract, restore);
    if key !in reg.converters {
      assert key !in reg.order;
      forall i, j | 0 <= i < j < |r.order| ensures r.order[i] != r.order[j] {
        if j == |reg.order| {
          assert r.order[i] == reg.order[i];
        }
      }
    }
  }

  /** `reg` holds exactly the mappings of `keys`, in that order, built from `dtoOf` and `create`. */
  ghost predicate HoldsExactly(reg: Registry, keys: seq<Ty>, dtoOf: Ty -> (Value -> Result<Value>),
                               create: Ty -> (Json -> Result<Value>))
  {
    && reg.Valid()
    && reg.order == keys
    && |reg.converters| == |keys|
    && forall i :: 0 <= i < |keys| ==> reg.converters[keys[i]] == Converter(keys[i], dtoOf(keys[i]), create(keys[i]))
  }

  /** Registering a key not yet present extends the mappings by that key, last. */
  lemma RegisterNewKey(reg: Registry, keys: seq<Ty>, k: Ty, dtoOf: Ty -> (Value -> Result<Value>),
                       create: Ty -> (Json -> Result<Value>))
    requires HoldsExactly(reg, keys, dtoOf, create)
    requires k !in keys
    ensures HoldsExactly(reg.Register(k, dtoOf(k), create(k)), keys + [k], dtoOf, create)
  {
    RegisterEffect(reg, k, dtoOf(k), create(k));
    var r := reg.Register(k, dtoOf(k), create(k));
    forall i | 0 <= i < |keys| + 1
      ensures r.converters[(keys + [k])[i]] == Converter((keys + [k])[i], dtoOf((keys + [k])[i]), create((keys + [k])[i]))
    {
      if i < |keys| {
        assert (keys + [k])[i] == keys[i] && keys[i] != k;
      }
    }
  }

  ghost predicate Distinct(keys: seq<Ty>) {
    forall i, j :: 0 <= i < j < |keys| ==> keys[i] != keys[j]
  }

  /** Moving the first key of a distinct suffix to the end of the prefix keeps the list distinct. */
  lemma DistinctShift(pre: seq<Ty>, keys: seq<Ty>)
    requires keys != [] && Distinct(pre + keys)
    ensures keys[0] !in pre
    ensures (pre + [keys[0]]) + keys[1..] == pre + keys
  {
    assert (pre + [keys[0]]) + keys[1..] == pre + keys;
    assert (pre + keys)[|pre|] == keys[0];
    forall i | 0 <= i < |pre| ensures pre[i] != keys[0] {
      assert (pre + keys)[i] == pre[i];
    }
  }

  /** Registering distinct fresh keys in turn appends their mappings in that order. */
  lemma {:induction false} RegisterAllFresh(reg: Registry, pre: seq<Ty>, keys: seq<Ty>,
                                            dtoOf: Ty -> (Value -> Result<Value>), create: Ty -> (Json -> Result<Value>))
    requires HoldsExactly(reg, pre, dtoOf, create)
    requires Distinct(pre + keys)
    ensures HoldsExactly(RegisterAll(reg, keys, dtoOf, create), pre + keys, dtoOf, create)
    decreases |keys|
  {
    if keys == [] {
      assert pre + keys == pre;
    } else {
      DistinctShift(pre, keys);
      RegisterNewKey(reg, pre, keys[0], dtoOf, create);
      RegisterAllFresh(reg.Register(keys[0], dtoOf(keys[0]), create(keys[0])), pre + [keys[0]], keys[1..], dtoOf, create);
    }
  }

  /** The eight start-up model types are distinct. */
  lemma StartupKeysDistinct()
    ensures Distinct(StartupKeys)
  {
  }

  /** Unfolds RegisterAll over the suffix of `keys` from `i` once. */
  lemma RegisterAllStep(reg: Registry, keys: seq<Ty>, i: nat,
                        dtoOf: Ty -> (Value -> Result<Value>), create: Ty -> (Json -> Result<Value>))
    requires i < |keys|
    ensures RegisterAll(reg, keys[i..], dtoOf, create)
      == RegisterAll(reg.Register(keys[i], dtoOf(keys[i]), create(keys[i])), keys[i + 1..], dtoOf, create)
  {
    assert keys[i..][0] == keys[i];
    assert keys[i..][1..] == keys[i + 1..];
  }

  /**
   * The eight registrations of the static constructor, one after the other,
   * are the start-up keys registered in order.
   */
  lemma StartupIsRegisterAll(dtoOf: Ty -> (Value -> Result<Value>), create: Ty -> (Json -> Result<Value>))
    ensures EmptyRegistry()
      .Register(ITweet, dtoOf(ITweet), create(ITweet))
      .Register(IUser, dtoOf(IUser), create(IUser))
      .Register(IMessage, dtoOf(IMessage), create(IMessage))
      .Register(ITwitterList, dtoOf(ITwitterList), create(ITwitterList))
      .Register(ISavedSearch, dtoOf(ISavedSearch), create(ISavedSearch))
      .Register(IOEmbedTweet, dtoOf(IOEmbedTweet), create(IOEmbedTweet))
      .Register(IRelationshipDetails, dtoOf(IRelationshipDetails), create(IRelationshipDetails))
      .Register(IRelationshipState, dtoOf(IRelationshipState), create(IRelationshipState))
      == Startup(dtoOf, create)
  {
    var r0 := EmptyRegistry();
    assert StartupKeys[0..] == StartupKeys;
    RegisterAllStep(r0, StartupKeys, 0, dtoOf, create);
    var r1 := r0.Register(ITweet, dtoOf(ITweet), create(ITweet));
    RegisterAllStep(r1, StartupKeys, 1, dtoOf, create);
    var r2 := r1.Register(IUser, dtoOf(IUser), create(IUser));
    RegisterAllStep(r2, StartupKeys, 2, dtoOf, create);
    var r3 := r2.Register(IMessage, dtoOf(IMessage), create(IMessage));
    RegisterAllStep(r3, StartupKeys, 3, dtoOf, create);
    var r4 := r3.Register(ITwitterList, dtoOf(ITwitterList), create(ITwitterList));
    RegisterAllStep(r4, StartupKeys, 4, dtoOf, create);
    var r5 := r4.Register(ISavedSearch, dtoOf(ISavedSearch), create(ISavedSearch));
    RegisterAllStep(r5, StartupKeys, 5, dtoOf, create);
    var r6 := r5.Register(IOEmbedTweet, dtoOf(IOEmbedTweet), create(IOEmbedTweet));
    RegisterAllStep(r6, StartupKeys, 6, dtoOf, create);
    var r7 := r6.Register(IRelationshipDetails, dtoOf(IRelationshipDetails), create(IRelationshipDetails));
    RegisterAllStep(r7, StartupKeys, 7, dtoOf, create);
    var r8 := r7.Register(IRelationshipState, dtoOf(IRelationshipState), create(IRelationshipState));
    assert StartupKeys[8..] == [];
  }

  /** The static constructor leaves exactly the eight start-up mappings, in order. */
  lemma StartupRegistry(dtoOf: Ty -> (Value -> Result<Value>), create: Ty -> (Json -> Result<Value>))
    ensures HoldsExactly(Startup(dtoOf, create), StartupKeys, dtoOf, create)
  {
    StartupKeysDistinct();
    assert [] + StartupKeys == StartupKeys;
    assert HoldsExactly(EmptyRegistry(), [], dtoOf, create);
    RegisterAllFresh(EmptyRegistry(), [], StartupKeys, dtoOf, create);
  }

  /**
   * Registering a model type again replaces its converter: from then on a
   * single value whose static type is that model type is converted with the
   * new extract, and JSON is restored with the new restore.
   */
  lemma ReRegistrationReplaces(reg: Registry, rt: Runtime, key: Ty, extract: Value -> Result<Value>,
                               restore: Json -> Result<Value>, obj: Value, json: Json)
    requires reg.Valid()
    requires !(obj.Items? && key.Generic?)
    ensures reg.Register(key, extract, restore).Valid()
    ensures Lookup(reg.Register(key, extract, restore), rt, key) == Some(Converter(key, extract, restore))
    ensures Serialize(reg.Register(key, extract, restore), rt, key, obj, None)
      == (match extract(As(rt, obj, key))
          case Failure(e) => Failure(e)
          case Success(dto) => Rethrow(rt.serializeObject(dto), SerializeMessage))
    ensures !rt.assignableTo(key, EnumerableType) ==>
      Deserialize(reg.Register(key, extract, restore), rt, key, json, None)
      == (match restore(json)
          case Failure(e) => Failure(Wrapped(DeserializeMessage, e))
          case Success(v) => Success(As(rt, v, key)))
  {
    RegisterEffect(reg, key, extract, restore);
  }

  // ---------------------------------------------------------------------
  // No converter: straight to the codec
  // ---------------------------------------------------------------------

  /** ToJson of a value with no converter, directly or for its element type, is the codec's output. */
  lemma SerializePassthrough(reg: Registry, rt: Runtime, t: Ty, obj: Value)
    requires reg.Valid()
    requires Lookup(reg, rt, t).None?
    requires obj.Items? && t.Generic? ==> Lookup(reg, rt, t.first).None?
    ensures Serialize(reg, rt, t, obj, None) == Rethrow(rt.serializeObject(obj), SerializeMessage)
  {
  }

  /**
   * ConvertJsonTo of a type with no converter, directly or for its element
   * type, is the codec's output (wrapped if it throws).
   */
  lemma DeserializePassthrough(reg: Registry, rt: Runtime, t: Ty, json: Json)
    requires reg.Valid()
    requires Lookup(reg, rt, t).None?
    requires rt.assignableTo(t, EnumerableType) ==>
      TargetElementType(rt, t).Some? && Lookup(reg, rt, TargetElementType(rt, t).value).None?
    ensures Deserialize(reg, rt, t, json, None) == Rethrow(rt.deserializeObject(json, t), DeserializeMessage)
  {
  }

  /**
   * An enumerable target that is neither generic nor an array type, with no
   * caller-supplied converter, always fails: its element type stays null and
   * the dictionary refuses a null key.
   */
  lemma NonGenericEnumerableTargetFails(reg: Registry, rt: Runtime, t: Ty, json: Json)
    requires reg.Valid()
    requires rt.assignableTo(t, EnumerableType)
    requires !t.Generic?
    requires !rt.assignableTo(t, ArrayType) || !t.ArrayOf?
    ensures Deserialize(reg, rt, t, json, None) == Failure(Wrapped(DeserializeMessage, NullKey))
  {
  }

  // ---------------------------------------------------------------------
  // ToJson: collections, arrays, caller-supplied converters, errors
  // ---------------------------------------------------------------------

  /** When element `k` is the first whose extract fails, the whole list fails with its error. */
  lemma {:induction false} ExtractAllFirstFailure(rt: Runtime, c: Converter, xs: seq<Value>, k: nat, e: Error)
    requires k < |xs|
    requires forall j :: 0 <= j < k ==> c.GetSerializableObject(rt, xs[j]).Success?
    requires c.GetSerializableObject(rt, xs[k]) == Failure(e)
    ensures ExtractAll(rt, c, xs) == Failure(e)
  {
    var init := xs[..|xs| - 1];
    if k == |xs| - 1 {
      assert forall j :: 0 <= j < |init| ==> init[j] == xs[j];
      assert ExtractAll(rt, c, init).Success?;
    } else {
      assert forall j :: 0 <= j <= k ==> init[j] == xs[j];
      ExtractAllFirstFailure(rt, c, init, k, e);
    }
  }

  /** ExtractAll succeeds with exactly the per-element results, in order. */
  lemma ExtractAllSuccess(rt: Runtime, c: Converter, xs: seq<Value>, ys: seq<Value>)
    requires |ys| == |xs|
    requires forall i :: 0 <= i < |xs| ==> c.GetSerializableObject(rt, xs[i]) == Success(ys[i])
    ensures ExtractAll(rt, c, xs) == Success(ys)
  {
    var r := ExtractAll(rt, c, xs);
    assert r.Success?;
    assert r.value == ys;
  }

  /**
   * A value whose static type is generic and which is enumerable is converted
   * element by element, with the caller's converter or else the one for the
   * first type argument: the codec receives a List<object> of the extract
   * results, of the same length and in the same order.
   */
  lemma SerializeCollection(reg: Registry, rt: Runtime, t: Ty, ty: Ty, xs: seq<Value>, supplied: Option<Converter>,
                            c: Converter, ys: seq<Value>)
    requires reg.Valid()
    requires t.Generic?
    requires supplied == Some(c) || (supplied.None? && Lookup(reg, rt, t.first) == Some(c))
    requires |ys| == |xs|
    requires forall i :: 0 <= i < |xs| ==> c.GetSerializableObject(rt, xs[i]) == Success(ys[i])
    ensures ToSerialize(reg, rt, t, Items(ty, xs), supplied) == Success(Items(ListOf(ObjectType), ys))
    ensures Serialize(reg, rt, t, Items(ty, xs), supplied)
      == Rethrow(rt.serializeObject(Items(ListOf(ObjectType), ys)), SerializeMessage)
  {
    ExtractAllSuccess(rt, c, xs, ys);
  }

  /**
   * An extract failure is not caught: it escapes ToJson as it is, not wrapped,
   * and no later element is converted.
   */
  lemma SerializeExtractFailureEscapes(reg: Registry, rt: Runtime, t: Ty, ty: Ty, xs: seq<Value>,
                                       supplied: Option<Converter>, c: Converter, k: nat, e: Error)
    requires reg.Valid()
    requires t.Generic?
    requires supplied == Some(c) || (supplied.None? && Lookup(reg, rt, t.first) == Some(c))
    requires k < |xs|
    requires forall j :: 0 <= j < k ==> c.GetSerializableObject(rt, xs[j]).Success?
    requires c.GetSerializableObject(rt, xs[k]) == Failure(e)
    ensures Serialize(reg, rt, t, Items(ty, xs), supplied) == Failure(e)
  {
    ExtractAllFirstFailure(rt, c, xs, k, e);
  }

  /**
   * An array type is not generic, so ToJson never converts an array element by
   * element: the array type itself is looked up, and without a converter for
   * it the array reaches the codec unchanged, even when its element type is
   * mapped.
   */
  lemma SerializeArrayIsWhole(reg: Registry, rt: Runtime, e: Ty, obj: Value)
    requires reg.Valid()
    ensures ToSerialize(reg, rt, ArrayOf(e), obj, None)
      == (match Lookup(reg, rt, ArrayOf(e))
          case Some(c) => c.GetSerializableObject(rt, obj)
          case None => Success(obj))
    ensures Lookup(reg, rt, ArrayOf(e)).None? ==>
      Serialize(reg, rt, ArrayOf(e), obj, None) == Rethrow(rt.serializeObject(obj), SerializeMessage)
  {
  }

  /**
   * Without a caller-supplied converter, a value that is not converted element
   * by element and whose static type has a converter, directly or through a
   * registered supertype, is extracted once: an extract failure escapes as it
   * is, and the DTO is handed to the codec.
   */
  lemma SerializeSingle(reg: Registry, rt: Runtime, t: Ty, obj: Value, c: Converter)
    requires reg.Valid()
    requires ElementSerializer(reg, rt, t, obj, None).None?
    requires Lookup(reg, rt, t) == Some(c)
    ensures Serialize(reg, rt, t, obj, None)
      == (match c.GetSerializableObject(rt, obj)
          case Failure(e) => Failure(e)
          case Success(dto) => Rethrow(rt.serializeObject(dto), SerializeMessage))
  {
  }

  /**
   * A caller-supplied converter is used only for an enumerable value of a
   * generic static type; any other value is encoded unchanged, without a
   * registry lookup.
   */
  lemma SerializeSuppliedSingle(reg: Registry, rt: Runtime, t: Ty, obj: Value, c: Converter)
    requires reg.Valid()
    requires !(obj.Items? && t.Generic?)
    ensures Serialize(reg, rt, t, obj, Some(c)) == Rethrow(rt.serializeObject(obj), SerializeMessage)
  {
  }

  /**
   * A ToJson failure is either the error of an extract call on the value or
   * one of its elements, by the caller's converter or a registered one, or a
   * codec error wrapped with the serialisation message.
   */
  lemma SerializeErrors(reg: Registry, rt: Runtime, t: Ty, obj: Value, supplied: Option<Converter>)
    requires reg.Valid()
    ensures Serialize(reg, rt, t, obj, supplied).Failure? ==>
      || (exists c: Converter, x: Value ::
            && (supplied == Some(c) || (c.source in reg.converters && reg.converters[c.source] == c))
            && (x == obj || (obj.Items? && x in obj.elems))
            && c.GetSerializableObject(rt, x) == Failure(Serialize(reg, rt, t, obj, supplied).error))
      || (exists v :: rt.serializeObject(v).Failure?
            && Serialize(reg, rt, t, obj, supplied).error == Wrapped(SerializeMessage, rt.serializeObject(v).error))
  {
  }

  // ---------------------------------------------------------------------
  // ConvertJsonTo: collections, single values, errors
  // ---------------------------------------------------------------------

  /** When element `k` is the first that fails, restoring the list fails with its error. */
  lemma {:induction false} RestoreAllFirstFailure(rt: Runtime, c: Converter, g: Ty, jsons: seq<Json>, k: nat, e: Error)
    requires k < |jsons|
    requires forall j :: 0 <= j < k ==> RestoreInto(rt, c, g, jsons[j]).Success?
    requires RestoreInto(rt, c, g, jsons[k]) == Failure(e)
    ensures RestoreAll(rt, c, g, jsons) == Failure(e)
  {
    var init := jsons[..|jsons| - 1];
    if k == |jsons| - 1 {
      assert forall j :: 0 <= j < |init| ==> init[j] == jsons[j];
      assert RestoreAll(rt, c, g, init).Success?;
    } else {
      assert forall j :: 0 <= j <= k ==> init[j] == jsons[j];
      RestoreAllFirstFailure(rt, c, g, init, k, e);
    }
  }

  /** RestoreAll succeeds with exactly the restored elements, in order. */
  lemma RestoreAllSuccess(rt: Runtime, c: Converter, g: Ty, jsons: seq<Json>, vs: seq<Value>)
    requires |vs| == |jsons|
    requires forall i :: 0 <= i < |jsons| ==> c.restore(jsons[i]) == Success(vs[i])
    requires forall i :: 0 <= i < |vs| ==> vs[i].Null? || IsA(rt, vs[i], g)
    ensures RestoreAll(rt, c, g, jsons) == Success(vs)
  {
    var r := RestoreAll(rt, c, g, jsons);
    assert forall i :: 0 <= i < |jsons| ==> RestoreInto(rt, c, g, jsons[i]) == Success(vs[i]);
    assert r.Success?;
    assert r.value == vs;
  }

  /**
   * ConvertJsonTo into an array type whose element type has a converter (or
   * with a caller-supplied one) restores every element of the JSON array in
   * order and returns an array of exactly that many elements.
   */
  lemma DeserializeArray(reg: Registry, rt: Runtime, g: Ty, json: Json, supplied: Option<Converter>,
                         c: Converter, jsons: seq<Json>, vs: seq<Value>)
    requires reg.Valid()
    requires rt.assignableTo(ArrayOf(g), EnumerableType) && rt.assignableTo(ArrayOf(g), ArrayType)
    requires rt.assignableTo(ArrayOf(g), ArrayOf(g))
    requires supplied == Some(c) || (supplied.None? && Lookup(reg, rt, g) == Some(c))
    requires rt.parseArray(json) == Success(jsons)
    requires |vs| == |jsons|
    requires forall i :: 0 <= i < |jsons| ==> c.restore(jsons[i]) == Success(vs[i])
    requires forall i :: 0 <= i < |vs| ==> vs[i].Null? || IsA(rt, vs[i], g)
    ensures Deserialize(reg, rt, ArrayOf(g), json, supplied) == Success(Items(ArrayOf(g), vs))
  {
    RestoreAllSuccess(rt, c, g, jsons, vs);
  }

  /**
   * ConvertJsonTo into a generic collection type whose first type argument has
   * a converter (or with a caller-supplied one) returns the List of restored
   * elements, in order, or null when a List is not a value of the target type.
   */
  lemma DeserializeList(reg: Registry, rt: Runtime, t: Ty, json: Json, supplied: Option<Converter>,
                        c: Converter, jsons: seq<Json>, vs: seq<Value>)
    requires reg.Valid()
    requires t.Generic? && rt.assignableTo(t, EnumerableType) && !rt.assignableTo(t, ArrayType)
    requires supplied == Some(c) || (supplied.None? && Lookup(reg, rt, t.first) == Some(c))
    requires rt.parseArray(json) == Success(jsons)
    requires |vs| == |jsons|
    requires forall i :: 0 <= i < |jsons| ==> c.restore(jsons[i]) == Success(vs[i])
    requires forall i :: 0 <= i < |vs| ==> vs[i].Null? || IsA(rt, vs[i], t.first)
    ensures rt.assignableTo(ListOf(t.first), t) ==>
      Deserialize(reg, rt, t, json, supplied) == Success(Items(ListOf(t.first), vs))
    ensures !rt.assignableTo(ListOf(t.first), t) ==>
      Deserialize(reg, rt, t, json, supplied) == Success(Null)
  {
    RestoreAllSuccess(rt, c, t.first, jsons, vs);
  }

  /**
   * In a collection target, the first element whose restore fails, or whose
   * restored object the List refuses, aborts the whole conversion with that
   * error, wrapped.
   */
  lemma DeserializeCollectionFailure(reg: Registry, rt: Runtime, t: Ty, json: Json, supplied: Option<Converter>,
                                     c: Converter, jsons: seq<Json>, k: nat, e: Error)
    requires reg.Valid()
    requires rt.assignableTo(t, EnumerableType) && TargetElementType(rt, t).Some?
    requires supplied == Some(c) || (supplied.None? && Lookup(reg, rt, TargetElementType(rt, t).value) == Some(c))
    requires rt.parseArray(json) == Success(jsons)
    requires k < |jsons|
    requires forall j :: 0 <= j < k ==> RestoreInto(rt, c, TargetElementType(rt, t).value, jsons[j]).Success?
    requires RestoreInto(rt, c, TargetElementType(rt, t).value, jsons[k]) == Failure(e)
    ensures Deserialize(reg, rt, t, json, supplied) == Failure(Wrapped(DeserializeMessage, e))
  {
    RestoreAllFirstFailure(rt, c, TargetElementType(rt, t).value, jsons, k, e);
  }

  /**
   * ConvertJsonTo restores once and casts whenever it reaches the single-value
   * path with a converter: for a non-enumerable target, for an enumerable
   * target with no element type but a supplied converter, and for a
   * collection target whose element type has no converter but whose own type
   * does. An object that is not a value of the target type becomes null.
   */
  lemma DeserializeSingle(reg: Registry, rt: Runtime, t: Ty, json: Json, supplied: Option<Converter>, c: Converter)
    requires reg.Valid()
    requires rt.assignableTo(t, EnumerableType) ==>
      || (supplied.Some? && TargetElementType(rt, t).None?)
      || (supplied.None? && TargetElementType(rt, t).Some? && Lookup(reg, rt, TargetElementType(rt, t).value).None?)
    requires supplied == Some(c) || (supplied.None? && Lookup(reg, rt, t) == Some(c))
    ensures Deserialize(reg, rt, t, json, supplied)
      == (match c.restore(json)
          case Failure(e) => Failure(Wrapped(DeserializeMessage, e))
          case Success(v) => Success(As(rt, v, t)))
  {
  }

  /**
   * In a collection target with a converter for the elements, JSON that
   * JArray.Parse refuses fails the whole conversion with that error, wrapped.
   */
  lemma DeserializeParseFailure(reg: Registry, rt: Runtime, t: Ty, json: Json, supplied: Option<Converter>,
                                c: Converter, e: Error)
    requires reg.Valid()
    requires rt.assignableTo(t, EnumerableType) && TargetElementType(rt, t).Some?
    requires supplied == Some(c) || (supplied.None? && Lookup(reg, rt, TargetElementType(rt, t).value) == Some(c))
    requires rt.parseArray(json) == Failure(e)
    ensures Deserialize(reg, rt, t, json, supplied) == Failure(Wrapped(DeserializeMessage, e))
  {
  }

  /**
   * A ConvertJsonTo failure wraps one of five causes: the null-key lookup, a
   * List refusing an element, JArray.Parse refusing the text, the codec
   * refusing it, or a restore call of the caller's converter or a registered
   * one.
   */
  lemma DeserializeErrors(reg: Registry, rt: Runtime, t: Ty, json: Json, supplied: Option<Converter>)
    requires reg.Valid()
    ensures Deserialize(reg, rt, t, json, supplied).Failure? ==>
      var inner := Deserialize(reg, rt, t, json, supplied).error.inner;
      || inner == NullKey
      || inner == ListTypeMismatch
      || (rt.parseArray(json).Failure? && inner == rt.parseArray(json).error)
      || (rt.deserializeObject(json, t).Failure? && inner == rt.deserializeObject(json, t).error)
      || (exists c: Converter, j: Json ::
            && (supplied == Some(c) || (c.source in reg.converters && reg.converters[c.source] == c))
            && c.restore(j).Failure? && inner == c.restore(j).error)
  {
  }

  // ---------------------------------------------------------------------
  // Round trip of a collection
  // ---------------------------------------------------------------------

  /**
   * A list of model objects serialised through a mapped element type and
   * read back into an array of that element type comes back with the same
   * elements in the same order, provided the callbacks and the codec agree:
   * the codec's array text splits into one JSON element per DTO, and each
   * restores to the original object.
   */
  lemma CollectionRoundTrip(reg: Registry, rt: Runtime, t: Ty, ty: Ty, c: Converter,
                            xs: seq<Value>, dtos: seq<Value>, json: Json, jsons: seq<Json>)
    requires reg.Valid()
    requires t.Generic? && Lookup(reg, rt, t.first) == Some(c)
    requires rt.assignableTo(ArrayOf(t.first), EnumerableType) && rt.assignableTo(ArrayOf(t.first), ArrayType)
    requires rt.assignableTo(ArrayOf(t.first), ArrayOf(t.first))
    requires |dtos| == |xs| && |jsons| == |xs|
    requires forall i :: 0 <= i < |xs| ==> c.GetSerializableObject(rt, xs[i]) == Success(dtos[i])
    requires rt.serializeObject(Items(ListOf(ObjectType), dtos)) == Success(json)
    requires rt.parseArray(json) == Success(jsons)
    requires forall i :: 0 <= i < |xs| ==> c.restore(jsons[i]) == Success(xs[i])
    requires forall i :: 0 <= i < |xs| ==> xs[i].Null? || IsA(rt, xs[i], t.first)
    ensures Serialize(reg, rt, t, Items(ty, xs), None) == Success(json)
    ensures Deserialize(reg, rt, ArrayOf(t.first), json, None) == Success(Items(ArrayOf(t.first), xs))
  {
    SerializeCollection(reg, rt, t, ty, xs, None, c, dtos);
    DeserializeArray(reg, rt, t.first, json, None, c, jsons, xs);
  }

  /**
   * A single model object of a mapped, non-enumerable static type comes back
   * from its own JSON as the same object, provided the callbacks and the codec
   * agree: the DTO encodes to that text and the text restores to the object.
   */
  lemma SingleRoundTrip(reg: Registry, rt: Runtime, t: Ty, c: Converter, obj: Value, dto: Value, json: Json)
    requires reg.Valid()
    requires Lookup(reg, rt, t) == Some(c)
    requires !rt.assignableTo(t, EnumerableType) && !(obj.Items? && t.Generic?)
    requires IsA(rt, obj, c.source) && IsA(rt, obj, t)
    requires c.extract(obj) == Success(dto)
    requires rt.serializeObject(dto) == Success(json)
    requires c.restore(json) == Success(obj)
    ensures Serialize(reg, rt, t, obj, None) == Success(json)
    ensures Deserialize(reg, rt, t, json, None) == Success(obj)
  {
    DeserializeSingle(reg, rt, t, json, None, c);
  }
}
