/** The values a template variable can hold, the build errors the engine
    raises, and the conversions applied to values on assignment. */
module Values {
  import opened Strings

  /** A PHP value as the engine sees it. Arrays keep insertion order; their
      keys are strings, an integer key being written as its decimal text
      (PHP itself turns a canonical decimal string key into that integer, so
      the two spellings name the same entry). `Obj` is a host object with its
      properties in declaration order. */
  datatype Value =
    | Null
    | Str(s: string)
    | Num(n: int)
    | Arr(entries: seq<(string, Value)>)
    | Obj(props: seq<(string, Value)>)

  /** The build errors (VIT\Exception\Build) the modelled operations raise. */
  datatype BuildError =
    | InvalidData                                 // "Invalid data assigned"
    | UndefinedIndex(index: string, array: string) // "undefined array index ... for array ..."
    | UndefinedFunction(name: string)             // "undefined function ..."
    | UndefinedVariable(name: string)             // "undefined variable name ..."

  datatype Result<+T> = Ok(value: T) | Err(error: BuildError)

  datatype Option<+T> = None | Some(value: T)

  /** The variable environment: name to value. */
  type Env = map<string, Value>

  /** `$vars[$name] ?? null`. */
  function Get(env: Env, name: string): Value {
    if name in env then env[name] else Null
  }

  /** Last write wins and every other name keeps its value. */
  lemma GetAfterSet(env: Env, name: string, value: Value, other: string)
    ensures Get(env[name := value], other) == if other == name then value else Get(env, other)
  {
  }

  function Keys(es: seq<(string, Value)>): (ks: seq<string>)
    ensures |ks| == |es|
    ensures forall i :: 0 <= i < |es| ==> ks[i] == es[i].0
  {
    seq(|es|, i requires 0 <= i < |es| => es[i].0)
  }

  ghost predicate DistinctKeys(es: seq<(string, Value)>) {
    forall i, j :: 0 <= i < j < |es| ==> es[i].0 != es[j].0
  }

  /** array_key_exists and indexing: the value stored under `key`, if any. */
  function Lookup(es: seq<(string, Value)>, key: string): (r: Option<Value>)
    ensures r.Some? <==> key in Keys(es)
    ensures r.Some? ==> exists i :: 0 <= i < |es| && es[i] == (key, r.value)
  {
    if es == [] then None
    else if es[0].0 == key then Some(es[0].1)
    else
      var r := Lookup(es[1..], key);
      assert Keys(es) == [es[0].0] + Keys(es[1..]);
      if r.Some? then
        var i :| 0 <= i < |es[1..]| && es[1..][i] == (key, r.value);
        assert es[i + 1] == (key, r.value);
        r
      else r
  }

  /** objectToArray: an object becomes the array of its properties (a
      shallow cast: the property values are not converted); an array is
      rebuilt entry by entry with every value converted; anything else is
      kept. */
  function ObjectToArray(v: Value): (r: Value)
    ensures !r.Obj?
    ensures v.Arr? ==> r.Arr? && Keys(r.entries) == Keys(v.entries)
    ensures v.Arr? ==> |r.entries| == |v.entries|
    ensures v.Arr? ==> forall i :: 0 <= i < |v.entries| ==> r.entries[i].1 == ObjectToArray(v.entries[i].1)
    ensures v.Obj? ==> r == Arr(v.props)
  {
    match v
    case Obj(props) => Arr(props)
    case Arr(es) => Arr(seq(|es|, i requires 0 <= i < |es| => (es[i].0, ObjectToArray(es[i].1))))
    case _ => v
  }

  /** A value with no host object anywhere inside it. */
  predicate NoObjects(v: Value) {
    match v
    case Obj(_) => false
    case Arr(es) => forall i :: 0 <= i < |es| ==> NoObjects(es[i].1)
    case _ => true
  }

  /** Every object inside `v` has only plain (object-free) properties. */
  predicate FlatObjects(v: Value) {
    match v
    case Obj(props) => forall i :: 0 <= i < |props| ==> NoObjects(props[i].1)
    case Arr(es) => forall i :: 0 <= i < |es| ==> FlatObjects(es[i].1)
    case _ => true
  }

  /** Plain values pass through the conversion unchanged. */
  lemma {:induction false} ObjectToArrayOfPlain(v: Value)
    requires NoObjects(v)
    ensures ObjectToArray(v) == v
  {
    match v
    case Arr(es) =>
      forall i | 0 <= i < |es| ensures ObjectToArray(es[i].1) == es[i].1 {
        ObjectToArrayOfPlain(es[i].1);
      }
      assert ObjectToArray(v).entries == es;
    case _ =>
  }

  /** When no object nests another object, the conversion leaves no object
      anywhere: arrays are converted all the way down, objects one level. */
  lemma {:induction false} ObjectToArrayRemovesFlatObjects(v: Value)
    requires FlatObjects(v)
    ensures NoObjects(ObjectToArray(v))
  {
    match v
    case Obj(props) =>
    case Arr(es) =>
      forall i | 0 <= i < |es| ensures NoObjects(ObjectToArray(es[i].1)) {
        ObjectToArrayRemovesFlatObjects(es[i].1);
      }
    case _ =>
  }

  /** The conversion is a single cast for objects: an object held by an
      object's property is still an object afterwards. */
  lemma NestedObjectSurvives()
    ensures ObjectToArray(Obj([("inner", Obj([]))])) == Arr([("inner", Obj([]))])
    ensures !NoObjects(ObjectToArray(Obj([("inner", Obj([]))])))
  {
    var r := ObjectToArray(Obj([("inner", Obj([]))]));
    assert r.entries[0].1 == Obj([]);
  }

  /** The keys range(0, n - 1) would have, written as text. */
  function IndexKeys(n: nat): (ks: seq<string>)
    ensures |ks| == n
    ensures forall i :: 0 <= i < n ==> ks[i] == NatToString(i)
  {
    seq(n, i requires 0 <= i < n => NatToString(i))
  }

  /** isAssocArray: a non-empty array whose keys are not exactly 0, 1, ...,
      n - 1 in that order. */
  predicate IsAssocArray(es: seq<(string, Value)>)
    ensures IsAssocArray(es) <==>
      es != [] && exists i :: 0 <= i < |es| && es[i].0 != NatToString(i)
  {
    if es == [] then false
    else
      assert Keys(es) != IndexKeys(|es|) <==>
        exists i :: 0 <= i < |es| && Keys(es)[i] != IndexKeys(|es|)[i];
      Keys(es) != IndexKeys(|es|)
  }
}
