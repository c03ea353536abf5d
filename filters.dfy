/** The filter chain of compileFilters: a value piped through a list of
    filter specs such as `upper` or `pad(10,x)`, left to right. The host's
    global functions are an abstract registry. */
module Filters {
  import opened Strings
  import opened Values

  /** A host function as a filter sees it: the piped value and the extra
      raw arguments written in the spec. */
  type Filter = (Value, seq<string>) -> Value

  /** The callable global functions, by name. */
  type Registry = map<string, Filter>

  /** The spec mentions a parenthesis (the pattern `[\(\)]`). */
  predicate HasArgs(spec: string) {
    '(' in spec || ')' in spec
  }

  /** The function a spec names and the extra arguments it passes. */
  datatype Call = Call(name: string, args: seq<string>)

  /** How one spec is read. With a parenthesis: whitespace removed, the name
      is the text before the first '(', the arguments the text after it with
      every ')' deleted, split at commas (a spec with ')' but no '(' reads
      that text as empty). Without: the spec itself, called on the value
      alone. */
  function ParseSpec(spec: string): (c: Call)
    ensures HasArgs(spec) ==> |c.args| >= 1
    ensures !HasArgs(spec) ==> c.args == [] && c.name == spec
  {
    if HasArgs(spec) then
      var pieces := Explode(RemoveSpaces(spec), "(");
      var raw := if |pieces| > 1 then RemoveAll(pieces[1], ")") else "";
      Call(pieces[0], Explode(raw, ","))
    else Call(spec, [])
  }

  /** One step of the chain: an unknown name is the "undefined function"
      error; otherwise the function is applied. */
  function ApplyFilter(value: Value, spec: string, reg: Registry): Result<Value> {
    var c := ParseSpec(spec);
    if c.name in reg then Ok(reg[c.name](value, c.args)) else Err(UndefinedFunction(c.name))
  }

  /** The spec's function is registered. */
  predicate Registered(spec: string, reg: Registry) {
    ParseSpec(spec).name in reg
  }

  /** The whole chain, left to right, stopping at the first error. It fails
      exactly when some spec names an unregistered function. */
  function ApplyFilters(value: Value, specs: seq<string>, reg: Registry): (r: Result<Value>)
    ensures r.Err? <==> exists i :: 0 <= i < |specs| && !Registered(specs[i], reg)
    ensures r.Err? ==> r.error.UndefinedFunction?
    ensures specs == [] ==> r == Ok(value)
    decreases |specs|
  {
    if specs == [] then Ok(value)
    else
      match ApplyFilter(value, specs[0], reg)
      case Err(e) => Err(e)
      case Ok(v) =>
        var r := ApplyFilters(v, specs[1..], reg);
        assert forall i :: 1 <= i < |specs| ==> specs[i] == specs[1..][i - 1];
        r
  }

  /** compileFilters: the loop over the specs, throwing at the first
      unknown name. */
  method CompileFilters(value: Value, specs: seq<string>, reg: Registry) returns (r: Result<Value>)
    ensures r == ApplyFilters(value, specs, reg)
  {
    var current := value;
    var i := 0;
    while i < |specs|
      invariant 0 <= i <= |specs|
      invariant ApplyFilters(value, specs, reg) == ApplyFilters(current, specs[i..], reg)
    {
      var c := ParseSpec(specs[i]);
      if c.name !in reg {
        return Err(UndefinedFunction(c.name));
      }
      current := reg[c.name](current, c.args);
      assert specs[i..][1..] == specs[i + 1..];
      i := i + 1;
    }
    return Ok(current);
  }

  /** Filtering with `a + b` is filtering with `a`, then with `b`. */
  lemma {:induction false} ApplyFiltersConcat(value: Value, a: seq<string>, b: seq<string>, reg: Registry)
    ensures ApplyFilters(value, a + b, reg) ==
      match ApplyFilters(value, a, reg)
      case Err(e) => Err(e)
      case Ok(v) => ApplyFilters(v, b, reg)
    decreases |a|
  {
    if a == [] {
      assert a + b == b;
    } else {
      assert (a + b)[0] == a[0] && (a + b)[1..] == a[1..] + b;
      match ApplyFilter(value, a[0], reg)
      case Err(e) =>
      case Ok(v) => ApplyFiltersConcat(v, a[1..], b, reg);
    }
  }

  /** The error names the first unregistered function of the chain. */
  lemma {:induction false} FirstUndefined(value: Value, specs: seq<string>, reg: Registry, k: nat)
    requires k < |specs| && !Registered(specs[k], reg)
    requires forall i :: 0 <= i < k ==> Registered(specs[i], reg)
    ensures ApplyFilters(value, specs, reg) == Err(UndefinedFunction(ParseSpec(specs[k]).name))
    decreases k
  {
    if k > 0 {
      var v := reg[ParseSpec(specs[0]).name](value, ParseSpec(specs[0]).args);
      assert forall i :: 0 <= i < k - 1 ==> specs[1..][i] == specs[i + 1];
      FirstUndefined(v, specs[1..], reg, k - 1);
    }
  }

  /** No character of `c` ends up in a join that avoids it in every piece
      and in the separator. */
  lemma {:induction false} JoinAvoids(parts: seq<string>, sep: string, c: char)
    requires c !in sep
    requires forall i :: 0 <= i < |parts| ==> c !in parts[i]
    ensures c !in Join(parts, sep)
    decreases |parts|
  {
    if |parts| > 1 {
      JoinAvoids(parts[1..], sep, c);
    }
  }

  lemma {:induction false} JoinNoSpace(parts: seq<string>, sep: string)
    requires NoSpace(sep)
    requires forall i :: 0 <= i < |parts| ==> NoSpace(parts[i])
    ensures NoSpace(Join(parts, sep))
    decreases |parts|
  {
    if |parts| > 1 {
      JoinNoSpace(parts[1..], sep);
      var rest := Join(parts[1..], sep);
      assert Join(parts, sep) == parts[0] + sep + rest;
      forall i | 0 <= i < |parts[0] + sep + rest| ensures !IsSpace((parts[0] + sep + rest)[i]) {
        if i < |parts[0]| {
          assert (parts[0] + sep + rest)[i] == parts[0][i];
        } else if i < |parts[0]| + |sep| {
          assert (parts[0] + sep + rest)[i] == sep[i - |parts[0]|];
        } else {
          assert (parts[0] + sep + rest)[i] == rest[i - |parts[0]| - |sep|];
        }
      }
    }
  }

  lemma CallNoSpace(name: string, j: string)
    requires NoSpace(name) && NoSpace(j)
    ensures NoSpace(name + "(" + j + ")")
  {
    var spec := name + "(" + j + ")";
    forall i | 0 <= i < |spec| ensures !IsSpace(spec[i]) {
      if i < |name| {
        assert spec[i] == name[i];
      } else if |name| < i < |name| + 1 + |j| {
        assert spec[i] == j[i - |name| - 1];
      }
    }
  }

  lemma RemoveClosing(j: string)
    requires ')' !in j
    ensures RemoveAll(j + ")", ")") == j
  {
    forall i | 0 <= i < |j| ensures !OccursAt(j + ")", ")", i) {
      assert (j + ")")[i] == j[i];
    }
    RemoveAllSkip(j, ")", ")");
    assert RemoveAll(")", ")") == RemoveAll("", ")");
    assert j + "" == j;
  }

  lemma ParseSpecOfPieces(spec: string, name: string, rest: string)
    requires HasArgs(spec) && RemoveSpaces(spec) == spec
    requires Explode(spec, "(") == [name, rest]
    ensures ParseSpec(spec) == Call(name, Explode(RemoveAll(rest, ")"), ","))
  {
  }

  lemma ExplodeCall(name: string, j: string)
    requires '(' !in name && '(' !in j
    ensures Explode(name + "(" + j + ")", "(") == [name, j + ")"]
  {
    assert name + "(" + j + ")" == name + ['('] + (j + ")");
    ExplodeFirst(name, '(', j + ")");
    assert '(' !in j + ")";
    ExplodeNone(j + ")", '(');
  }

  /** The facts about the joined argument text that reading it needs. */
  lemma ArgsText(args: seq<string>)
    requires forall i :: 0 <= i < |args| ==>
      NoSpace(args[i]) && '(' !in args[i] && ')' !in args[i] && ',' !in args[i]
    ensures var j := Join(args, ",");
      '(' !in j && ')' !in j && NoSpace(j)
  {
    JoinAvoids(args, ",", '(');
    JoinAvoids(args, ",", ')');
    JoinNoSpace(args, ",");
  }

  /** A spec written `f(a1,...,an)` calls `f` with the value followed by
      `a1`, ..., `an`; `f()` passes one empty argument. */
  lemma ParseSpecOfCall(name: string, args: seq<string>)
    requires |args| >= 1
    requires NoSpace(name) && '(' !in name && ')' !in name
    requires forall i :: 0 <= i < |args| ==>
      NoSpace(args[i]) && '(' !in args[i] && ')' !in args[i] && ',' !in args[i]
    ensures ParseSpec(name + "(" + Join(args, ",") + ")") == Call(name, args)
  {
    var j := Join(args, ",");
    ArgsText(args);
    var spec := name + "(" + j + ")";
    assert spec[|name|] == '(';
    CallNoSpace(name, j);
    RemoveSpacesOfNoSpace(spec);
    ExplodeCall(name, j);
    ParseSpecOfPieces(spec, name, j + ")");
    RemoveClosing(j);
    ExplodeJoin(args, ',');
  }

  /** So the registered function receives the piped value and the written
      arguments. */
  lemma ApplyCall(value: Value, name: string, args: seq<string>, reg: Registry)
    requires |args| >= 1 && name in reg
    requires NoSpace(name) && '(' !in name && ')' !in name
    requires forall i :: 0 <= i < |args| ==>
      NoSpace(args[i]) && '(' !in args[i] && ')' !in args[i] && ',' !in args[i]
    ensures ApplyFilter(value, name + "(" + Join(args, ",") + ")", reg) == Ok(reg[name](value, args))
  {
    ParseSpecOfCall(name, args);
  }

  /** A spec without parentheses calls the function of that very name on the
      value alone, or fails when no such function is registered. */
  lemma ApplyPlain(value: Value, f: string, reg: Registry)
    requires !HasArgs(f)
    ensures f in reg ==> ApplyFilter(value, f, reg) == Ok(reg[f](value, []))
    ensures f !in reg ==> ApplyFilter(value, f, reg) == Err(UndefinedFunction(f))
  {
  }
}
