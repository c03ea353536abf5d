/** The engine object: its variable environment and the operations on it
    that assign variables, resolve array paths and expand each-loops. */
module TemplateEngine {
  import opened Strings
  import opened Values
  import opened Helpers
  import opened Paths
  import opened EachLoop

  /** What assign receives as its first argument: one variable name, or an
      array of name => value entries. */
  datatype AssignTarget = Named(name: string) | Entries(entries: seq<(string, Value)>)

  /** Every entry set in turn, its value converted by objectToArray. */
  function BindAll(env: Env, es: seq<(string, Value)>): Env
    decreases |es|
  {
    if es == [] then env else BindAll(env[es[0].0 := ObjectToArray(es[0].1)], es[1..])
  }

  /** The environment after assign, or its error. An associative array sets
      every entry; an empty array, like any falsy name, is invalid data; a
      non-empty list is a truthy name that cannot be used as a key, which
      only raises a warning and sets nothing; a truthy name is set to the
      converted value. */
  function Assigned(env: Env, target: AssignTarget, value: Value): Result<Env> {
    match target
    case Entries(es) =>
      if IsAssocArray(es) then Ok(BindAll(env, es))
      else if es == [] then Err(InvalidData)
      else Ok(env)
    case Named(n) =>
      if Truthy(n) then Ok(env[n := ObjectToArray(value)]) else Err(InvalidData)
  }

  /** assign fails, with "Invalid data assigned", exactly on an empty array
      or a falsy name. */
  lemma AssignedFails(env: Env, target: AssignTarget, value: Value)
    ensures Assigned(env, target, value).Err? <==>
      target == Entries([]) || (target.Named? && !Truthy(target.name))
    ensures Assigned(env, target, value).Err? ==> Assigned(env, target, value).error == InvalidData
  {
  }

  /** Names that are not keys of the entries keep their values. */
  lemma {:induction false} BindAllOthers(env: Env, es: seq<(string, Value)>, x: string)
    requires x !in Keys(es)
    ensures Get(BindAll(env, es), x) == Get(env, x)
    decreases |es|
  {
    if es != [] {
      assert Keys(es) == [es[0].0] + Keys(es[1..]);
      BindAllOthers(env[es[0].0 := ObjectToArray(es[0].1)], es[1..], x);
    }
  }

  /** With distinct keys (as a PHP array has), every key ends up holding
      its entry's converted value. */
  lemma {:induction false} BindAllSets(env: Env, es: seq<(string, Value)>, i: nat)
    requires DistinctKeys(es) && i < |es|
    ensures Get(BindAll(env, es), es[i].0) == ObjectToArray(es[i].1)
    decreases |es|
  {
    var next := env[es[0].0 := ObjectToArray(es[0].1)];
    assert DistinctKeys(es[1..]) by {
      forall a, b | 0 <= a < b < |es[1..]| ensures es[1..][a].0 != es[1..][b].0 {
        assert es[1..][a] == es[a + 1] && es[1..][b] == es[b + 1];
      }
    }
    if i == 0 {
      forall j | 0 <= j < |es[1..]| ensures Keys(es[1..])[j] != es[0].0 {
        assert es[1..][j] == es[j + 1];
      }
      BindAllOthers(next, es[1..], es[0].0);
    } else {
      assert es[1..][i - 1] == es[i];
      BindAllSets(next, es[1..], i - 1);
    }
  }

  /** The engine (class Vit): its template directory, its binder and the
      variables assigned so far. */
  class Vit {
    var vars: map<string, Value>
    const dir: string
    const binder: Binder

    constructor(dir: string, binder: Binder)
      ensures vars == map[] && this.dir == dir && this.binder == binder
    {
      vars := map[];
      this.dir := dir;
      this.binder := binder;
    }

    /** getVar: the value under `name`, null when it was never set. */
    function GetVar(name: string): (v: Value)
      reads this
      ensures name in vars ==> v == vars[name]
      ensures name !in vars ==> v == Null
    {
      Get(vars, name)
    }

    /** setVar: `name` now holds `value`; every other variable is as it was. */
    method SetVar(name: string, value: Value)
      modifies this
      ensures vars == old(vars)[name := value]
    {
      vars := vars[name := value];
    }

    /** assign: sets one variable or every entry of an associative array,
      or reports "Invalid data assigned" and changes nothing. */
    method Assign(target: AssignTarget, value: Value) returns (err: Option<BuildError>)
      modifies this
      ensures match Assigned(old(vars), target, value)
        case Ok(env) => err == None && vars == env
        case Err(e) => err == Some(e) && vars == old(vars)
    {
      match target
      case Entries(es) =>
        if IsAssocArray(es) {
          var i := 0;
          while i < |es|
            invariant 0 <= i <= |es|
            invariant BindAll(old(vars), es) == BindAll(vars, es[i..])
          {
            assert es[i..][1..] == es[i + 1..];
            SetVar(es[i].0, ObjectToArray(es[i].1));
            i := i + 1;
          }
          return None;
        } else if es == [] {
          return Some(InvalidData);
        } else {
          return None;
        }
      case Named(n) =>
        if Truthy(n) {
          SetVar(n, ObjectToArray(value));
          return None;
        } else {
          return Some(InvalidData);
        }
    }

    /** compileArray: walks the indexes of the path from its root variable;
      a missing index yields 0 in silent mode and the "undefined array
      index" error otherwise. It changes no variable. */
    method CompileArray(data: string, silent: bool) returns (r: Result<Value>)
      ensures r == ResolvePath(vars, data, silent)
    {
      var (name, idx) := ParsePath(data);
      var current := GetVar(name);
      var i := 0;
      while i < |idx|
        invariant 0 <= i <= |idx|
        invariant ResolvePath(vars, data, silent) == Walk(name, current, idx[i..], silent)
      {
        assert idx[i..][0] == idx[i] && idx[i..][1..] == idx[i + 1..];
        if current.Arr? && Lookup(current.entries, idx[i]).Some? {
          current := Lookup(current.entries, idx[i]).value;
        } else if silent {
          return Ok(Num(0));
        } else {
          return Err(UndefinedIndex(idx[i], name));
        }
        i := i + 1;
      }
      return Ok(current);
    }

    /** The loop of parseEach for one each-block: the header is read, the
      target resolved (the path silently, or the variable itself when that
      yields null), an array iterated; a target that is not an array
      renders the eachelse body or nothing. */
    method ExpandEach(statement: string, hasElse: bool, body: Body, elseBody: Body) returns (out: Result<string>)
      modifies this
      ensures var h := ParseEachHeader(statement);
        Rendering(out, vars) == Expand(old(vars), h, Target(old(vars), h.main), hasElse, body, elseBody)
    {
      var h := ParseEachHeader(statement);
      var resolved := CompileArray(h.main, true);
      var target := if resolved.Ok? && !resolved.value.Null? then resolved.value else GetVar(h.main);
      if target.Arr? {
        out := IterateEntries(h, target.entries, body);
      } else if hasElse {
        var rendered := elseBody(vars);
        vars := rendered.env;
        out := rendered.text;
      } else {
        out := Ok("");
      }
    }

    /** The foreach of parseEach: for every entry in order, bind the loop's
      names, render the body, append its text and reset the first name to
      ''; a body's error ends the loop. */
    method IterateEntries(h: EachHeader, es: seq<(string, Value)>, body: Body) returns (out: Result<string>)
      modifies this
      ensures Rendering(out, vars) == Iterate(old(vars), es, h, body)
    {
      var acc := "";
      var i := 0;
      assert es[0..] == es;
      PrependEmpty(Iterate(vars, es, h, body));
      while i < |es|
        invariant 0 <= i <= |es|
        invariant Iterate(old(vars), es, h, body) == Prepend(acc, Iterate(vars, es[i..], h, body))
      {
        IterateStep(vars, es, i, h, body);
        var (key, value) := es[i];
        if h.needle.Some? && Truthy(h.needle.value) {
          SetVar(h.asName, Str(key));
          SetVar(h.needle.value, value);
        } else {
          SetVar(h.asName, value);
        }
        var rendered := body(vars);
        vars := rendered.env;
        if rendered.text.Err? {
          return Err(rendered.text.error);
        }
        PrependTwice(acc, rendered.text.value, Iterate(vars[h.asName := Str("")], es[i + 1..], h, body));
        acc := acc + rendered.text.value;
        SetVar(h.asName, Str(""));
        i := i + 1;
      }
      assert es[i..] == [] && acc + "" == acc;
      return Ok(acc);
    }
  }

  /** One pass of the loop, from entry i on. */
  lemma IterateStep(env: Env, es: seq<(string, Value)>, i: nat, h: EachHeader, body: Body)
    requires i < |es|
    ensures Iterate(env, es[i..], h, body) ==
      var out := body(Bind(env, h, es[i].0, es[i].1));
      match out.text
      case Err(e) => Rendering(Err(e), out.env)
      case Ok(t) => Prepend(t, Iterate(out.env[h.asName := Str("")], es[i + 1..], h, body))
  {
    assert es[i..][0] == es[i] && es[i..][1..] == es[i + 1..];
  }

  lemma PrependEmpty(r: Rendering)
    ensures Prepend("", r) == r
  {
    if r.text.Ok? {
      assert "" + r.text.value == r.text.value;
    }
  }

  lemma PrependTwice(a: string, b: string, r: Rendering)
    ensures Prepend(a, Prepend(b, r)) == Prepend(a + b, r)
  {
    if r.text.Ok? {
      assert a + (b + r.text.value) == a + b + r.text.value;
    }
  }
}
