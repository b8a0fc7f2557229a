/**
 * The vocabulary shared by the JSON type bridge: .NET types as tags, runtime
 * values, the exceptions that can arise, and the foreign collaborators
 * (the Newtonsoft codec and .NET's assignability test) as uninterpreted,
 * possibly-failing functions.
 */
module Types {

  /** JSON text as handed to and returned by the codec. */
  type Json = string

  datatype Option<+T> = None | Some(value: T)

  /** The exceptions the bridge can raise or let through. */
  datatype Error =
    | Foreign(code: nat)                     // thrown by the codec or by a caller's callback
    | NullReference                          // a null delegate was invoked
    | NullKey                                // Dictionary.ContainsKey(null): ArgumentNullException
    | ListTypeMismatch                       // IList.Add on a List<T> of an item that is not a T
    | Wrapped(message: string, inner: Error) // new Exception(message, inner)

  /** The value of an expression that returns normally or throws. */
  datatype Result<+T> = Success(value: T) | Failure(error: Error) {
    predicate IsFailure() { Failure? }

    function PropagateFailure<U>(): Result<U>
      requires Failure?
    {
      Failure(error)
    }

    function Extract(): T
      requires Success?
    {
      value
    }
  }

  /**
   * A .NET type, as far as reflection over its shape matters here: a
   * non-generic class or interface, a constructed generic type (whose first
   * type argument is what GetGenericArguments()[0] returns), or an array type
   * (whose element type is what GetElementType() returns).
   */
  datatype Ty =
    | Named(name: string)
    | Generic(name: string, first: Ty, rest: seq<Ty>)
    | ArrayOf(element: Ty)
  {
    /** Type.GetElementType(): the element type of an array type, null otherwise. */
    function ElementType(): (r: Option<Ty>)
      ensures r.Some? <==> ArrayOf?
      ensures r.Some? ==> r.value == element
    {
      if ArrayOf? then Some(element) else None
    }
  }

  const ObjectType: Ty := Named("System.Object")
  const EnumerableType: Ty := Named("System.Collections.IEnumerable")
  const ArrayType: Ty := Named("System.Array")

  /** List<t>. */
  function ListOf(t: Ty): Ty {
    Generic("System.Collections.Generic.List`1", t, [])
  }

  /**
   * A runtime value: null, an object of some runtime type with an opaque
   * state, or an enumerable object (a List, an array, ...) whose `foreach`
   * yields `elems`.
   */
  datatype Value =
    | Null
    | Object(ty: Ty, state: nat)
    | Items(ty: Ty, elems: seq<Value>)

  /**
   * The foreign capabilities the bridge relies on.
   * - assignableTo(t, u): u.IsAssignableFrom(t), i.e. a t can be used as a u.
   * - serializeObject: JsonConvert.SerializeObject.
   * - deserializeObject(json, t): JsonConvert.DeserializeObject<t> with the
   *   library's field converters.
   * - parseArray: JArray.Parse followed by ToString() of every element.
   */
  datatype Runtime = Runtime(
    assignableTo: (Ty, Ty) -> bool,
    serializeObject: Value -> Result<Json>,
    deserializeObject: (Json, Ty) -> Result<Value>,
    parseArray: Json -> Result<seq<Json>>)

  /** True when `v` is a non-null reference whose runtime type can be used as a `t`. */
  predicate IsA(rt: Runtime, v: Value, t: Ty) {
    !v.Null? && rt.assignableTo(v.ty, t)
  }

  /** The C# cast `v as t`: the value itself when it is a `t`, null otherwise. */
  function As(rt: Runtime, v: Value, t: Ty): (r: Value)
    ensures IsA(rt, v, t) ==> r == v
    ensures !IsA(rt, v, t) ==> r == Null
  {
    if IsA(rt, v, t) then v else Null
  }

  /**
   * InternalJsonSerializer<T1, T2> (JsonSerializer.cs:25-47): `source` is T1,
   * `extract` the model-to-DTO function and `restore` the JSON-to-model
   * function; either may be a null delegate.
   */
  datatype Converter = Converter(
    source: Ty,
    extract: Value -> Result<Value>,
    restore: Json -> Result<Value>)
  {
    /** GetSerializableObject: the argument is cast to T1 before `extract` sees it. */
    function GetSerializableObject(rt: Runtime, o: Value): (r: Result<Value>)
      ensures IsA(rt, o, source) ==> r == extract(o)
      ensures !IsA(rt, o, source) ==> r == extract(Null)
    {
      extract(As(rt, o, source))
    }
  }

  /** A null Func<T1, T2> passed where an extract function is expected. */
  function MissingExtract(): (f: Value -> Result<Value>)
    ensures forall v :: f(v) == Failure(NullReference)
  {
    _ => Failure(NullReference)
  }

  /** A null Func<string, T> passed where a restore function is expected. */
  function MissingRestore(): (f: Json -> Result<Value>)
    ensures forall j :: f(j) == Failure(NullReference)
  {
    _ => Failure(NullReference)
  }

  /** The message of the exception ToJson raises when the codec fails. */
  const SerializeMessage: string :=
    "The type provided is probably not compatible with Tweetinvi Json serializer."
    + "If you think this class should be serializable by default please report on github.com/linvi/tweetinvi."

  /** The message of the exception ConvertJsonTo raises on any failure. */
  const DeserializeMessage: string :=
    "The type provided is probably not compatible with Tweetinvi Json serializer."
    + "If you think this class should be deserializable by default please report on github.com/linvi/tweetinvi."
}
