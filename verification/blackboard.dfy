/** The string-keyed blackboard shared by the tree's nodes. Values are
    boxed, and a typed read succeeds only when the stored value is an
    instance of the requested type (C#'s `value is T`); any other read
    yields the type's default without raising an error. */
module Blackboard {
  import opened Geometry

  /** A boxed value. Game objects and transforms are identified by handle. */
  datatype Value =
    | IntV(i: int)
    | FloatV(f: real)
    | BoolV(b: bool)
    | StringV(s: string)
    | GameObjectV(obj: nat)
    | TransformV(transform: nat)
    | Vector3V(v: Vec3)
    | NullV

  /** The type arguments the game uses; TObject is `object`. */
  datatype Ty = TInt | TFloat | TBool | TString | TGameObject | TTransform | TVector3 | TObject

  /** `value is T`: a null reference is an instance of no type, and every
      non-null value is an object. */
  predicate Is(v: Value, t: Ty) {
    match t
    case TInt => v.IntV?
    case TFloat => v.FloatV?
    case TBool => v.BoolV?
    case TString => v.StringV?
    case TGameObject => v.GameObjectV?
    case TTransform => v.TransformV?
    case TVector3 => v.Vector3V?
    case TObject => !v.NullV?
  }

  predicate IsReference(t: Ty) {
    t == TString || t == TGameObject || t == TTransform || t == TObject
  }

  /** `default(T)`: zero for numbers, false, the zero vector, null for
      reference types. */
  function Default(t: Ty): (r: Value)
    ensures IsReference(t) <==> r == NullV
    ensures !IsReference(t) ==> Is(r, t)
  {
    match t
    case TInt => IntV(0)
    case TFloat => FloatV(0.0)
    case TBool => BoolV(false)
    case TVector3 => Vector3V(Vec3(0.0, 0.0, 0.0))
    case _ => NullV
  }

  /** A value a C# caller can pass as a T: an instance, or null for a
      reference type. */
  predicate Fits(v: Value, t: Ty) {
    Is(v, t) || (v == NullV && IsReference(t))
  }

  type Board = map<string, Value>

  const Empty: Board := map[]

  /** GetValue<T>(string). */
  function GetValue(b: Board, key: string, t: Ty): (r: Value)
    ensures Fits(r, t)
    ensures (key in b && r == b[key]) || r == Default(t)
  {
    if key in b && Is(b[key], t) then b[key] else Default(t)
  }

  /** SetValue<T>(string, T): stores under the key, replacing any value of
      any type. */
  function SetValue(b: Board, key: string, v: Value): (r: Board)
    ensures key in r && r[key] == v
    ensures forall k :: k in b && k != key ==> k in r && r[k] == b[k]
    ensures r.Keys == b.Keys + {key}
  {
    b[key := v]
  }

  /** BlackboardKey<T>: a key name with its type argument. */
  datatype Key = Key(name: string, ty: Ty)

  /** The typed-key overloads forward to the string overloads on the
      key's name. */
  function GetByKey(b: Board, k: Key): Value { GetValue(b, k.name, k.ty) }

  function SetByKey(b: Board, k: Key, v: Value): Board
    requires Fits(v, k.ty)
  {
    SetValue(b, k.name, v)
  }

  /** The convenience accessors are reads and writes at a fixed type. */
  function GetGameObject(b: Board, key: string): Value { GetValue(b, key, TGameObject) }
  function GetTransform(b: Board, key: string): Value { GetValue(b, key, TTransform) }
  function GetVector3(b: Board, key: string): Value { GetValue(b, key, TVector3) }
  function SetGameObject(b: Board, key: string, v: Value): Board
    requires Fits(v, TGameObject)
  { SetValue(b, key, v) }
  function SetTransform(b: Board, key: string, v: Value): Board
    requires Fits(v, TTransform)
  { SetValue(b, key, v) }
  function SetVector3(b: Board, key: string, v: Value): Board
    requires Fits(v, TVector3)
  { SetValue(b, key, v) }

  // ---------------------------------------------------------------------

  /** Reading back what was written at the same type returns it. */
  lemma GetAfterSet(b: Board, key: string, v: Value, t: Ty)
    requires Is(v, t)
    ensures GetValue(SetValue(b, key, v), key, t) == v
  {
  }

  /** A read of a missing key, or of a value of another type, yields the
      default and nothing else. */
  lemma GetDefaults(b: Board, key: string, t: Ty)
    ensures key !in b ==> GetValue(b, key, t) == Default(t)
    ensures key in b && !Is(b[key], t) ==> GetValue(b, key, t) == Default(t)
    ensures key in b && Is(b[key], t) ==> GetValue(b, key, t) == b[key]
  {
  }

  /** Writing a value of one type and reading the key at another type that
      the value is not an instance of yields the default: the write
      replaced whatever was there before. */
  lemma SetOverwrites(b: Board, key: string, prev: Value, v: Value, t: Ty)
    requires key in b && b[key] == prev && Is(prev, t) && !Is(v, t)
    ensures GetValue(SetValue(b, key, v), key, t) == Default(t)
  {
  }

  /** A write leaves every other key's reads unchanged. */
  lemma SetFrame(b: Board, key: string, v: Value, other: string, t: Ty)
    requires other != key
    ensures GetValue(SetValue(b, key, v), other, t) == GetValue(b, other, t)
  {
  }

  /** Writing twice to one key keeps only the second value. */
  lemma SetSetSame(b: Board, key: string, v: Value, w: Value)
    ensures SetValue(SetValue(b, key, v), key, w) == SetValue(b, key, w)
  {
  }

  /** The typed-key overloads are the string overloads on the key's name. */
  lemma KeyedAgree(b: Board, k: Key, v: Value)
    requires Fits(v, k.ty)
    ensures GetByKey(b, k) == GetValue(b, k.name, k.ty)
    ensures SetByKey(b, k, v) == SetValue(b, k.name, v)
    ensures Is(v, k.ty) ==> GetByKey(SetByKey(b, k, v), k) == v
  {
  }

  /** A stored game object reads back through the GameObject accessor, but
      reads as the zero vector through the Vector3 accessor. */
  lemma ConvenienceTyped(b: Board, key: string, obj: nat)
    ensures GetGameObject(SetGameObject(b, key, GameObjectV(obj)), key) == GameObjectV(obj)
    ensures GetVector3(SetGameObject(b, key, GameObjectV(obj)), key) == Vector3V(Vec3(0.0, 0.0, 0.0))
    ensures GetTransform(SetGameObject(b, key, GameObjectV(obj)), key) == NullV
  {
  }
}
