# Tweetinvi JSON type bridge, in Dafny

This project models Tweetinvi's static `JsonSerializer` class
(`Tweetinvi/JsonSerializer.cs`). The class bridges the library's public model
interfaces (`ITweet`, `IUser`, …) and the DTOs that the Newtonsoft codec can
encode.

It keeps a process-wide dictionary from a model type to a converter, called
`InternalJsonSerializer<T1, T2>`. A converter holds two functions:

- an *extract* function, from a model to its DTO;
- a *restore* function, from JSON text to a model.

The parts of the class are:

- **Start-up.** The static constructor registers eight converters.
- **`Map`.** Adds a converter for a type, or replaces the existing one.
- **`GetSerializerFromNonCollectionType`.** Finds the converter for a type: the
  exact key first, then the first registered supertype.
- **`ToJson`.** Converts a generic collection element by element, or converts a
  single mapped value, or passes the value through. Only the final codec call
  is inside a try block.
- **`ConvertJsonTo`.** For a generic collection or an array target, it splits
  a JSON array, restores each element, and builds a `List<T>` or a `T[]`.
  Otherwise it restores once, or defers to the codec. Every failure is
  rethrown, wrapped in a new exception.

Layout:

- `types.dfy` (module `Types`) holds the vocabulary:
  - .NET types as tags (`Ty`), where a generic type carries its first type argument and an array type its element type;
  - runtime values (`Value`, where `Items` is an enumerable object);
  - the exceptions (`Error`) and `Result`;
  - the converter (`Converter`);
  - the foreign collaborators, gathered in `Runtime`: the assignability test `assignableTo` (that is, `IsAssignableFrom` reversed), `JsonConvert.SerializeObject`, `JsonConvert.DeserializeObject<T>`, and `JArray.Parse` followed by `ToString()` of each element.
- `bridge.dfy` (module `Bridge`) defines, as pure functions of the dictionary's state (`Registry`):
  - registration;
  - lookup;
  - what each private core returns (`Serialize`, `Deserialize`).
- `properties.dfy` (module `BridgeProperties`) proves lemmas about those definitions.
- Vocabulary used by the rows below, each modelling one small piece of C# and stated by the members that use it:
  - `Types.As` is the `as T` cast;
  - `Types.Ty.ElementType` is `Type.GetElementType()`;
  - `Types.MissingExtract` and `Types.MissingRestore` are the null delegates the overloads build;
  - `Types.Converter.GetSerializableObject` is the converter's delegate call after its `as T1` cast;
  - `Bridge.Rethrow` is a catch clause that wraps the exception with a message;
  - `Bridge.RestoreInto` is one `IList.Add` of a restored element;
  - `BridgeProperties.RegisterAllStep` is one unfolding step of `RegisterAll`, used in a proof.
- `json_serializer.dfy` (module `JsonSerialization`) contains the class `JsonSerializer`:
  - it holds the dictionary as fields;
  - its methods follow the C# class's static methods step by step, loops included;
  - each method is proved to return exactly what the `Bridge` definition says.

Two behaviours of the code matter here:

- An exception thrown by an *extract* callback in `ToJson` is not wrapped. The call happens before the `try` (JsonSerializer.cs:100-128).
- The wrapping exceptions carry only a fixed message and the inner exception, not the requested type (JsonSerializer.cs:136-140, 211-215).

Some .NET behaviour that the code relies on is written out:

- `as T` yields `null` for an object that is not a `T`.
- `List<T>` refuses, through `IList.Add`, an element that is not a `T`.
- `Dictionary.ContainsKey(null)` throws.
- A null delegate throws when it is invoked.

## Model

| member | source | states |
|---|---|---|
| `Bridge.EmptyRegistry` | Tweetinvi/JsonSerializer.cs:55 | A fresh dictionary is well formed and has no entries. |
| `Bridge.Registry.Register` | Tweetinvi/JsonSerializer.cs:236-246 | The defining function of `Map` on the dictionary's state. Afterwards `T1` maps to the new converter, every other key keeps its entry, and a new key goes last in enumeration order. `BridgeProperties.RegisterEffect` adds that the state stays well formed and that the count grows by one exactly when `T1` was absent. |
| `Bridge.RegisterAll` | Tweetinvi/JsonSerializer.cs:58-71 | Registers keys one after the other. Every listed key ends up mapped to its own extract and restore, whatever came before, and every other key keeps its entry. `BridgeProperties.RegisterAllFresh` gives the exact contents and order for distinct new keys. |
| `Bridge.Startup` | Tweetinvi/JsonSerializer.cs:51-73 | The defining function of the dictionary after start-up. The keys are exactly the eight model types, each mapped to its own extract and restore. `BridgeProperties.StartupRegistry` adds the count and the order. |
| `Bridge.FirstAssignable` | Tweetinvi/JsonSerializer.cs:228-230 | Returns the first position, in enumeration order, whose key the type is assignable to. When it finds none, no key at or after the start position is a supertype. |
| `Bridge.FindKey` | Tweetinvi/JsonSerializer.cs:219-234 | Returns the exact key when it is present. Otherwise it returns the first registered key that the type is assignable to, and returns none only when no key is a supertype. |
| `Bridge.Lookup` | Tweetinvi/JsonSerializer.cs:219-234 | Returns the exact-key entry if there is one. Otherwise it finds a converter exactly when some key is a supertype, and that converter is the registered entry of the first such key. |
| `Bridge.GetSerializerFromNonCollectionType` | Tweetinvi/JsonSerializer.cs:219-234 | A null type fails with the `ContainsKey(null)` error, and that is its only failure. Any other type gives the lookup's result. |
| `Bridge.ExtractAll` | Tweetinvi/JsonSerializer.cs:109-116 | The list succeeds exactly when every element's extract succeeds. It then has the input's length and holds each element's extract result in the same position. A failure is the error of some element's extract. |
| `Bridge.ElementSerializer` | Tweetinvi/JsonSerializer.cs:98-107 | There is an element-wise converter exactly when the value is enumerable, its static type is generic, and either the caller supplied a converter or the first type argument has one. It is the caller's converter when supplied, otherwise a registered entry. |
| `Bridge.ToSerialize` | Tweetinvi/JsonSerializer.cs:93-128 | The defining function of what reaches the codec. Its failures are always the error of an extract call, by the caller's converter or a registered one, on the value or one of its elements. A supplied converter leaves a non-collection value unchanged, and the element-wise branch hands over a `List<object>` as long as the input. The properties of each branch are in `BridgeProperties.SerializeCollection`, `SerializeArrayIsWhole`, `SerializeSuppliedSingle` and `SerializePassthrough`. |
| `Bridge.Serialize` | Tweetinvi/JsonSerializer.cs:93-142 | The defining function of the private `ToJson` core. Every text it returns is the codec's output for some object. Its failures are classified by `BridgeProperties.SerializeErrors` and its results by the `BridgeProperties.Serialize*` lemmas. |
| `Bridge.RestoreAll` | Tweetinvi/JsonSerializer.cs:179-187 | The list succeeds exactly when every element restores and is accepted. It then has one entry per JSON array element, in order. A failure is the error of some element. |
| `Bridge.TargetElementType` | Tweetinvi/JsonSerializer.cs:165-174 | The element type of a collection target, as the branches of `ConvertJsonTo` use it. Its effect is stated by `BridgeProperties.NonGenericEnumerableTargetFails` (no element type), `DeserializeArray` and `DeserializeList` (array and generic targets), `DeserializeCollectionFailure` and `DeserializeSingle` (fall-through when the element type has no converter). |
| `Bridge.ConvertSingle` | Tweetinvi/JsonSerializer.cs:200-207 | With no converter, supplied or registered, the result is the codec's. With one, a successful result is null or a `T`. `BridgeProperties.DeserializeSingle` gives the exact result on every path that reaches it with a converter, including the fall-through from the collection branch. |
| `Bridge.Convert` | Tweetinvi/JsonSerializer.cs:161-207 | The defining function of the try body of `ConvertJsonTo`. Anything it returns is null, a `T`, or exactly what the codec returned. Its exact results on every branch are stated by `BridgeProperties.DeserializeArray`, `DeserializeList`, `DeserializeSingle`, `DeserializePassthrough`, `DeserializeCollectionFailure`, `DeserializeParseFailure` and `NonGenericEnumerableTargetFails`, and its failures are classified by `DeserializeErrors`. |
| `Bridge.Deserialize` | Tweetinvi/JsonSerializer.cs:157-217 | Every failure of `ConvertJsonTo` comes back as an exception carrying the deserialisation message, and every success is null, a `T`, or exactly the codec's result. The exact results, successes and failures alike, are stated by the `BridgeProperties.Deserialize*` lemmas, and `BridgeProperties.DeserializeErrors` lists every error that can be wrapped. |
| `BridgeProperties.RegisterEffect` | Tweetinvi/JsonSerializer.cs:236-246 | After `Map`, the registry is well formed and holds the new entry for `T1`. Every other key is unchanged. The key count grows by one, and the key goes last in enumeration order, exactly when `T1` was absent. |
| `BridgeProperties.RegisterNewKey` | Tweetinvi/JsonSerializer.cs:244 | Adding an absent key extends the registry's exact contents by that key's mapping, placed last. |
| `BridgeProperties.RegisterAllFresh` | Tweetinvi/JsonSerializer.cs:58-71 | Registering distinct new keys one after the other leaves exactly their mappings, in registration order. |
| `BridgeProperties.StartupKeysDistinct` | Tweetinvi/JsonSerializer.cs:58-71 | The eight model types registered at start-up are pairwise distinct. |
| `BridgeProperties.StartupIsRegisterAll` | Tweetinvi/JsonSerializer.cs:51-73 | The eight `Map` calls of the static constructor, in their order, give exactly the start-up state `Bridge.Startup`. |
| `BridgeProperties.StartupRegistry` | Tweetinvi/JsonSerializer.cs:51-73 | After start-up the registry holds exactly eight entries: `ITweet`, `IUser`, `IMessage`, `ITwitterList`, `ISavedSearch`, `IOEmbedTweet`, `IRelationshipDetails` and `IRelationshipState`, in that order, each with its own extract and restore. |
| `BridgeProperties.ReRegistrationReplaces` | Tweetinvi/JsonSerializer.cs:238-241 | After a type is mapped again, its lookup yields the new converter. A single value of that type is then serialised through the new extract. When the type is not enumerable, JSON is restored through the new restore. |
| `BridgeProperties.SerializePassthrough` | Tweetinvi/JsonSerializer.cs:120-132 | A value with no converter, for its type or its element type, reaches the codec unchanged. |
| `BridgeProperties.DeserializePassthrough` | Tweetinvi/JsonSerializer.cs:200-207 | A target with no converter, for its type or its element type, is decoded by the codec, and a codec failure is wrapped. |
| `BridgeProperties.NonGenericEnumerableTargetFails` | Tweetinvi/JsonSerializer.cs:163-176 | A target that is enumerable but neither generic nor an array, with no supplied converter, always fails with the wrapped `ContainsKey(null)` error. |
| `BridgeProperties.ExtractAllFirstFailure` | Tweetinvi/JsonSerializer.cs:111-114 | The first element whose extract fails ends the loop with that element's error. |
| `BridgeProperties.ExtractAllSuccess` | Tweetinvi/JsonSerializer.cs:111-114 | When every extract succeeds, the list is exactly the extract results in input order. |
| `BridgeProperties.SerializeCollection` | Tweetinvi/JsonSerializer.cs:98-118 | An enumerable of generic static type, with a supplied converter or one for its first type argument, reaches the codec as a `List<object>` of the extract results, of the same length and in the same order. |
| `BridgeProperties.SerializeExtractFailureEscapes` | Tweetinvi/JsonSerializer.cs:100-118 | A failing extract in the element-wise branch escapes `ToJson` unwrapped, with its own error. |
| `BridgeProperties.SerializeArrayIsWhole` | Tweetinvi/JsonSerializer.cs:98-100 | An array is never converted element by element. The array type itself is looked up, and with no converter for it the array reaches the codec unchanged. |
| `BridgeProperties.SerializeSingle` | Tweetinvi/JsonSerializer.cs:120-132 | With no supplied converter, a value outside the element-wise branch whose type has a converter, exact or through a registered supertype, is extracted once. An extract failure escapes unwrapped, and otherwise the DTO goes to the codec, whose failure is wrapped. |
| `BridgeProperties.SerializeSuppliedSingle` | Tweetinvi/JsonSerializer.cs:81-91 | With a caller-supplied converter, any value other than an enumerable of generic static type is encoded unchanged, and the registry is not consulted. |
| `BridgeProperties.SerializeErrors` | Tweetinvi/JsonSerializer.cs:93-142 | A `ToJson` failure is one of two kinds. It is either the unwrapped error of an extract call on the value or one of its elements, by the caller's converter or a registered one, or a codec error wrapped with the serialisation message. |
| `BridgeProperties.RestoreAllFirstFailure` | Tweetinvi/JsonSerializer.cs:183-187 | The first JSON element that fails to restore, or is refused by the list, ends the loop with that element's error. |
| `BridgeProperties.RestoreAllSuccess` | Tweetinvi/JsonSerializer.cs:183-187 | When every element restores to null or a `T`, the list is exactly the restored objects in order. |
| `BridgeProperties.DeserializeArray` | Tweetinvi/JsonSerializer.cs:171-194 | An array target whose element type has a converter, or with a supplied one, gets an array of exactly the restored elements, as many as the JSON array has, in order. |
| `BridgeProperties.DeserializeList` | Tweetinvi/JsonSerializer.cs:167-197 | A generic collection target gets the `List` of restored elements in order, or null when a `List` of that element type is not a `T`. |
| `BridgeProperties.DeserializeCollectionFailure` | Tweetinvi/JsonSerializer.cs:177-216 | In a collection target, the first element that fails aborts the whole conversion with that error, wrapped. |
| `BridgeProperties.DeserializeParseFailure` | Tweetinvi/JsonSerializer.cs:177-216 | A collection target with a converter for its elements, whose JSON is not an array according to the parser, fails with the parser's error, wrapped. |
| `BridgeProperties.DeserializeErrors` | Tweetinvi/JsonSerializer.cs:157-217 | Every `ConvertJsonTo` failure wraps one of five kinds of error: the `ContainsKey(null)` error, a `List` refusing an element, the parser's error on the JSON, the codec's error on the JSON, or the error of a restore call by the caller's converter or a registered one. |
| `BridgeProperties.DeserializeSingle` | Tweetinvi/JsonSerializer.cs:163-205 | A converter reached on the single-value path restores once. This covers a non-enumerable target, an enumerable target with no element type but a supplied converter, and a collection target whose element type has no converter but whose own type has one. A restore failure is wrapped, and otherwise the result is the restored object cast to `T` (null when it is not a `T`). |
| `BridgeProperties.CollectionRoundTrip` | Tweetinvi/JsonSerializer.cs:98-196 | A list of models serialised through a mapped element type and read back as an array of that type returns the same elements in the same order. This holds when the extract, restore and codec agree element by element. |
| `BridgeProperties.SingleRoundTrip` | Tweetinvi/JsonSerializer.cs:120-132 | A single mapped model serialised and read back as its own type returns the same object. This holds when extract, codec and restore agree. |
| `JsonSerialization.JsonSerializer.constructor` | Tweetinvi/JsonSerializer.cs:51-73 | The static constructor leaves a well-formed dictionary holding exactly the eight start-up mappings, in order. |
| `JsonSerialization.JsonSerializer.Map` | Tweetinvi/JsonSerializer.cs:236-246 | Overwrites the entry for `T1` in place when it exists, and adds it last otherwise. It states the new entry, that other keys are untouched, and the new key count and order. |
| `JsonSerialization.JsonSerializer.GetSerializer` | Tweetinvi/JsonSerializer.cs:219-234 | On the object's own fields it returns exactly `Bridge.GetSerializerFromNonCollectionType`: a null type fails, an exact key wins, and otherwise the result is the first supertype registered, if any. Both cores look converters up through it. |
| `JsonSerialization.JsonSerializer.ExtractElements` | Tweetinvi/JsonSerializer.cs:111-114 | The loop that applies the converter to each element returns exactly `Bridge.ExtractAll`: all extract results in order, or the first element's error. |
| `JsonSerialization.JsonSerializer.ToJsonCore` | Tweetinvi/JsonSerializer.cs:93-142 | The step-by-step `ToJson` core returns exactly what `Serialize` defines, on the object's current dictionary. |
| `JsonSerialization.JsonSerializer.ToJson` | Tweetinvi/JsonSerializer.cs:76-79 | `ToJson<T>(obj)` is the core with no supplied converter. |
| `JsonSerialization.JsonSerializer.ToJsonWith` | Tweetinvi/JsonSerializer.cs:81-85 | `ToJson<T1, T2>` is the core for static type `T1`, using the caller's function as a converter whose restore is null. |
| `JsonSerialization.JsonSerializer.ToJsonAs` | Tweetinvi/JsonSerializer.cs:87-91 | `ToJson<T, T1, T2>` is the core for static type `T`, using the caller's function on `T1` values. |
| `JsonSerialization.JsonSerializer.RestoreElements` | Tweetinvi/JsonSerializer.cs:183-187 | The loop that restores each JSON element and adds it to the list returns exactly `Bridge.RestoreAll`: the accepted objects in order, or the first element's error. |
| `JsonSerialization.JsonSerializer.CopyToArray` | Tweetinvi/JsonSerializer.cs:191-192 | The new array holds the list's elements in the same order. |
| `JsonSerialization.JsonSerializer.ConvertJsonToCore` | Tweetinvi/JsonSerializer.cs:157-217 | The step-by-step `ConvertJsonTo` core, including the copy into a new array, returns exactly what `Deserialize` defines. |
| `JsonSerialization.JsonSerializer.ConvertJsonTo` | Tweetinvi/JsonSerializer.cs:146-149 | `ConvertJsonTo<T>(json)` is the core with no supplied converter. |
| `JsonSerialization.JsonSerializer.ConvertJsonToWith` | Tweetinvi/JsonSerializer.cs:151-155 | `ConvertJsonTo<T1, T2>` is the core for target `T1`, using the caller's function as a restore for `T2` and a null extract. |

## Left out

- Newtonsoft (`JsonConvert.SerializeObject`, `JsonConvert.DeserializeObject` with `JsonPropertiesConverterRepository.Converters`, `JArray.Parse`, `JToken.ToString`) is a foreign library. It appears as the uninterpreted, possibly failing functions of `Runtime`, so nothing is claimed about the JSON text itself.
- .NET reflection is replaced by type tags and an uninterpreted assignability relation:
  - `IsGenericType` is the `Generic` tag;
  - `GetGenericArguments()[0]` is the `first` argument;
  - `GetElementType()` is `Ty.ElementType`;
  - `Activator.CreateInstance` and `Array.CreateInstance` are the `Items` values they build.
- `obj is IEnumerable` is read off the runtime value (`Items`). Enumeration of such a value is its element sequence; lazily computed or failing enumerators are not modelled.
- Dictionary enumeration order, behind `Keys.Any` and `FirstOrDefault`, is taken to be insertion order. This is what .NET's `Dictionary` does when nothing is removed, and nothing is ever removed here, but .NET does not guarantee it.
- The factories and `TweetinviContainer.Resolve` in the static constructor are foreign dependency-injection calls. The eight extract and restore functions are parameters (`dtoOf`, `create`) of the constructor and of `Startup`.
- The message DTO built inside the `IMessage` extract function is part of that opaque function.
- The static class is one object. Static initialisation happening once per process, and concurrent calls to `Map`, are not modelled.
- A null `json` string is not modelled, and neither are null delegates passed by callers, other than the two the overloads build.
- Value types are not modelled, including value-type element types of a collection target.
- Bridge.RestoreInto: accepts a null element into any list, although a `List<int>` refuses it in `IList.Add`, an exception that `ConvertJsonTo` would wrap.
- An exception carries only its message and inner error; the stack trace is not modelled.
- Bridge.Deserialize: its own contract states only that failures are wrapped and that a success is null, a `T` or the codec's result. The exact result of each branch, and the kinds of error a failure can carry, are stated by the lemmas in `BridgeProperties`.
- Array types are one-dimensional only. `Ty` has no rank, so a target such as `ITweet[,]` cannot be written. For such a target the code builds a one-dimensional array of the elements, and `array as T` then yields null.
- JsonSerialization.JsonSerializer.Map: its contract uses `old`, so it is written in terms of how the state changes. The same effect is stated on values by `BridgeProperties.RegisterEffect`.
