/**
 * The static class Tweetinvi.JsonSerializer (Tweetinvi/JsonSerializer.cs):
 * one object stands for the process-wide dictionary `_getSerializableObject`
 * and its methods do what the C# class's static methods do, step by step. Each
 * is proved to agree with the pure definitions in module Bridge, about which
 * module BridgeProperties proves what the bridge promises.
 */
module JsonSerialization {
  import opened Types
  import opened Bridge
  import opened BridgeProperties

  class JsonSerializer {
    /** The converter registered for each model type. */
    var converters: map<Ty, Converter>
    /** The keys in the order the dictionary enumerates them (order of first insertion). */
    var order: seq<Ty>

    function State(): Registry
      reads this
    {
      Registry(converters, order)
    }

    ghost predicate Valid()
      reads this
    {
      State().Valid()
    }

    /**
     * The static constructor (JsonSerializer.cs:51-73): the eight start-up
     * mappings, registered in this order.
     */
    constructor (dtoOf: Ty -> (Value -> Result<Value>), create: Ty -> (Json -> Result<Value>))
      ensures Valid()
      ensures State() == Startup(dtoOf, create)
      ensures HoldsExactly(State(), StartupKeys, dtoOf, create)
    {
      converters := map[];
      order := [];
      new;
      Map(ITweet, dtoOf(ITweet), create(ITweet));
      Map(IUser, dtoOf(IUser), create(IUser));
      Map(IMessage, dtoOf(IMessage), create(IMessage));
      Map(ITwitterList, dtoOf(ITwitterList), create(ITwitterList));
      Map(ISavedSearch, dtoOf(ISavedSearch), create(ISavedSearch));
      Map(IOEmbedTweet, dtoOf(IOEmbedTweet), create(IOEmbedTweet));
      Map(IRelationshipDetails, dtoOf(IRelationshipDetails), create(IRelationshipDetails));
      Map(IRelationshipState, dtoOf(IRelationshipState), create(IRelationshipState));
      StartupIsRegisterAll(dtoOf, create);
      StartupRegistry(dtoOf, create);
    }

    /**
     * Map<T1, T2> (JsonSerializer.cs:236-246): overwrite the entry for T1 if
     * there is one, add it otherwise.
     */
    method Map(t1: Ty, extract: Value -> Result<Value>, restore: Json -> Result<Value>)
      requires Valid()
      modifies this
      ensures Valid()
      ensures State() == old(State()).Register(t1, extract, restore)
      ensures t1 in converters && converters[t1] == Converter(t1, extract, restore)
      ensures forall k :: k != t1 ==>
        && (k in converters <==> k in old(converters))
        && (k in old(converters) ==> converters[k] == old(converters)[k])
      ensures |converters| == if t1 in old(converters) then old(|converters|) else old(|converters|) + 1
      ensures order == if t1 in old(converters) then old(order) else old(order) + [t1]
    {
      RegisterEffect(State(), t1, extract, restore);
      if t1 in converters {
        converters := converters[t1 := Converter(t1, extract, restore)];
      } else {
        converters := converters[t1 := Converter(t1, extract, restore)];
        order := order + [t1];
      }
    }

    /** GetSerializerFromNonCollectionType (JsonSerializer.cs:219-234). */
    method GetSerializer(rt: Runtime, t: Option<Ty>) returns (r: Result<Option<Converter>>)
      requires Valid()
      ensures r == GetSerializerFromNonCollectionType(State(), rt, t)
      ensures r.Failure? <==> t.None?
      ensures r.Failure? ==> r.error == NullKey
      ensures t.Some? && t.value in converters ==> r == Success(Some(converters[t.value]))
      ensures t.Some? && t.value !in converters ==>
        (r.value.Some? <==> exists k :: k in converters && rt.assignableTo(t.value, k))
      ensures r.Success? && r.value.Some? && t.value !in converters ==> FirstMatch(State(), rt, t.value, r.value.value.source)
    {
      r := GetSerializerFromNonCollectionType(State(), rt, t);
    }

    /**
     * The private ToJson<T>(obj, serializer) (JsonSerializer.cs:93-142), `t`
     * being typeof(T): element-wise for an enumerable of a generic static type,
     * else through the registry when no converter was supplied; only the codec
     * call is inside the try block.
     */
    method ToJsonCore(rt: Runtime, t: Ty, obj: Value, supplied: Option<Converter>) returns (r: Result<Json>)
      requires Valid()
      ensures r == Serialize(State(), rt, t, obj, supplied)
    {
      var serializer := supplied;
      var toSerialize := obj;
      if obj.Items? && t.Generic? {
        var genericType := t.first;
        if serializer.None? {
          var found := GetSerializer(rt, Some(genericType));
          serializer := found.value;
        }
        if serializer.Some? {
          var list := ExtractElements(rt, serializer.value, obj.elems);
          if list.Failure? {
            return Failure(list.error);
          }
          toSerialize := Items(ListOf(ObjectType), list.value);
        }
      }
      if serializer.None? {
        var found := GetSerializer(rt, Some(t));
        serializer := found.value;
        if serializer.Some? {
          var dto := serializer.value.GetSerializableObject(rt, obj);
          if dto.Failure? {
            return Failure(dto.error);
          }
          toSerialize := dto.value;
        }
      }
      r := Rethrow(rt.serializeObject(toSerialize), SerializeMessage);
    }

    /**
     * The foreach of JsonSerializer.cs:111-114: the converter is applied to
     * every element in turn and the first failure ends the loop.
     */
    method ExtractElements(rt: Runtime, c: Converter, xs: seq<Value>) returns (r: Result<seq<Value>>)
      ensures r == ExtractAll(rt, c, xs)
    {
      var list: seq<Value> := [];
      var i := 0;
      while i < |xs|
        invariant 0 <= i <= |xs|
        invariant |list| == i
        invariant forall j :: 0 <= j < i ==> c.GetSerializableObject(rt, xs[j]) == Success(list[j])
      {
        var o := c.GetSerializableObject(rt, xs[i]);
        if o.Failure? {
          ExtractAllFirstFailure(rt, c, xs, i, o.error);
          return Failure(o.error);
        }
        list := list + [o.value];
        i := i + 1;
      }
      ExtractAllSuccess(rt, c, xs, list);
      r := Success(list);
    }

    /** ToJson<T>(obj) (JsonSerializer.cs:76-79): no caller-supplied converter. */
    method ToJson(rt: Runtime, t: Ty, obj: Value) returns (r: Result<Json>)
      requires Valid()
      ensures r == Serialize(State(), rt, t, obj, None)
    {
      r := ToJsonCore(rt, t, obj, None);
    }

    /**
     * ToJson<T1, T2>(obj, getSerializableObject) (JsonSerializer.cs:81-85): the
     * static type is T1 and the caller's function, applied to T1 values, is
     * the converter; its restore is a null delegate.
     */
    method ToJsonWith(rt: Runtime, t1: Ty, obj: Value, getSerializableObject: Value -> Result<Value>)
      returns (r: Result<Json>)
      requires Valid()
      ensures r == Serialize(State(), rt, t1, obj, Some(Converter(t1, getSerializableObject, MissingRestore())))
    {
      r := ToJsonCore(rt, t1, obj, Some(Converter(t1, getSerializableObject, MissingRestore())));
    }

    /**
     * ToJson<T, T1, T2>(obj, getSerializableObject) (JsonSerializer.cs:87-91):
     * the static type is T, the caller's function is applied to T1 values.
     */
    method ToJsonAs(rt: Runtime, t: Ty, t1: Ty, obj: Value, getSerializableObject: Value -> Result<Value>)
      returns (r: Result<Json>)
      requires Valid()
      ensures r == Serialize(State(), rt, t, obj, Some(Converter(t1, getSerializableObject, MissingRestore())))
    {
      r := ToJsonCore(rt, t, obj, Some(Converter(t1, getSerializableObject, MissingRestore())));
    }

    /**
     * The private ConvertJsonTo<T>(json, serializer) (JsonSerializer.cs:157-217),
     * `t` being typeof(T): element-wise into a List or an array for a collection
     * target, a single restore otherwise, the codec when no converter applies;
     * every failure is rethrown wrapped.
     */
    method ConvertJsonToCore(rt: Runtime, t: Ty, json: Json, supplied: Option<Converter>) returns (r: Result<Value>)
      requires Valid()
      ensures r == Deserialize(State(), rt, t, json, supplied)
    {
      var serializer := supplied;
      if rt.assignableTo(t, EnumerableType) {
        var genericType: Option<Ty> := None;
        if t.Generic? {
          genericType := Some(t.first);
        } else if rt.assignableTo(t, ArrayType) {
          genericType := t.ElementType();
        }
        if serializer.None? {
          var found := GetSerializer(rt, genericType);
          if found.Failure? {
            return Failure(Wrapped(DeserializeMessage, found.error));
          }
          serializer := found.value;
        }
        if genericType.Some? && serializer.Some? {
          var g, c := genericType.value, serializer.value;
          var parsed := rt.parseArray(json);
          if parsed.Failure? {
            return Failure(Wrapped(DeserializeMessage, parsed.error));
          }
          var restored := RestoreElements(rt, c, g, parsed.value);
          if restored.Failure? {
            return Failure(Wrapped(DeserializeMessage, restored.error));
          }
          var list := restored.value;
          if rt.assignableTo(t, ArrayType) {
            var copy := CopyToArray(list);
            return Success(As(rt, Items(ArrayOf(g), copy[..]), t));
          }
          return Success(As(rt, Items(ListOf(g), list), t));
        }
      }
      if serializer.None? {
        var found := GetSerializer(rt, Some(t));
        serializer := found.value;
      }
      if serializer.Some? {
        var restored := serializer.value.restore(json);
        if restored.Failure? {
          return Failure(Wrapped(DeserializeMessage, restored.error));
        }
        return Success(As(rt, restored.value, t));
      }
      var decoded := rt.deserializeObject(json, t);
      if decoded.Failure? {
        return Failure(Wrapped(DeserializeMessage, decoded.error));
      }
      return decoded;
    }

    /** Array.CreateInstance and CopyTo (JsonSerializer.cs:191-192): a fresh array holding the list's elements in order. */
    method CopyToArray(list: seq<Value>) returns (copy: array<Value>)
      ensures fresh(copy)
      ensures copy[..] == list
    {
      copy := new Value[|list|];
      forall k | 0 <= k < |list| {
        copy[k] := list[k];
      }
    }

    /**
     * The foreach of JsonSerializer.cs:183-187: every JSON element is restored
     * and added to a List<g>, which refuses an object that is not a g; the
     * first failure ends the loop.
     */
    method RestoreElements(rt: Runtime, c: Converter, g: Ty, jsonArray: seq<Json>) returns (r: Result<seq<Value>>)
      ensures r == RestoreAll(rt, c, g, jsonArray)
    {
      var list: seq<Value> := [];
      var i := 0;
      while i < |jsonArray|
        invariant 0 <= i <= |jsonArray|
        invariant |list| == i
        invariant forall j :: 0 <= j < i ==> RestoreInto(rt, c, g, jsonArray[j]) == Success(list[j])
      {
        var restored := c.restore(jsonArray[i]);
        if restored.Failure? {
          RestoreAllFirstFailure(rt, c, g, jsonArray, i, restored.error);
          return Failure(restored.error);
        }
        // IList.Add on a List<g>
        if !(restored.value.Null? || rt.assignableTo(restored.value.ty, g)) {
          RestoreAllFirstFailure(rt, c, g, jsonArray, i, ListTypeMismatch);
          return Failure(ListTypeMismatch);
        }
        list := list + [restored.value];
        i := i + 1;
      }
      assert RestoreAll(rt, c, g, jsonArray) == Success(list) by {
        var all := RestoreAll(rt, c, g, jsonArray);
        assert all.Success?;
        assert all.value == list;
      }
      r := Success(list);
    }

    /** ConvertJsonTo<T>(json) (JsonSerializer.cs:146-149): no caller-supplied converter. */
    method ConvertJsonTo(rt: Runtime, t: Ty, json: Json) returns (r: Result<Value>)
      requires Valid()
      ensures r == Deserialize(State(), rt, t, json, None)
    {
      r := ConvertJsonToCore(rt, t, json, None);
    }

    /**
     * ConvertJsonTo<T1, T2>(json, deserialize) (JsonSerializer.cs:151-155):
     * the target is T1 and the caller's function restores; its extract is a
     * null delegate.
     */
    method ConvertJsonToWith(rt: Runtime, t1: Ty, t2: Ty, json: Json, deserialize: Json -> Result<Value>)
      returns (r: Result<Value>)
      requires Valid()
      ensures r == Deserialize(State(), rt, t1, json, Some(Converter(t2, MissingExtract(), deserialize)))
    {
      r := ConvertJsonToCore(rt, t1, json, Some(Converter(t2, MissingExtract(), deserialize)));
    }
  }
}
