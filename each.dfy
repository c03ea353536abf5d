/** The each-loop `{{#each $list as v}} ... {{/endeach}}` (or `as k, v`):
    how its header is read, which value it iterates over, and what one pass
    over the entries binds and renders. */
module EachLoop {
  import opened Strings
  import opened Values
  import opened Paths

  /** A loop header: the iterated variable (a name or an array path), the
      first "as" name and, with two names, the second one. */
  datatype EachHeader = EachHeader(main: string, asName: string, needle: Option<string>)

  /** The header from the text before and after the "as" keyword: the main
      name loses its whitespace and its leading '$'; the names after "as"
      lose their whitespace and are split at commas, a second name being
      kept only when there are exactly two. */
  function HeaderOf(before: string, after: string): EachHeader {
    var names := Explode(RemoveSpaces(after), ",");
    EachHeader(DropFirst(RemoveSpaces(before)), names[0], if |names| == 2 then Some(names[1]) else None)
  }

  /** The header as parseEach reads it: the trimmed statement is cut at
      every occurrence of the letters "as", wherever they stand, and only
      the first two pieces are used. */
  function EachHeaderAsWritten(statement: string): EachHeader {
    var parts := Explode(Trim(statement), "as");
    HeaderOf(parts[0], if |parts| > 1 then parts[1] else "")
  }

  /** "as" stands at position i as a word: whitespace on both sides. */
  predicate AsKeywordAt(t: string, i: nat) {
    0 < i && i + 2 < |t| && t[i] == 'a' && t[i + 1] == 's' && IsSpace(t[i - 1]) && IsSpace(t[i + 2])
  }

  /** The first position from i on where the "as" keyword stands. */
  function FindAsFrom(t: string, i: nat): (r: Option<nat>)
    ensures r.Some? ==> i <= r.value && AsKeywordAt(t, r.value)
    decreases |t| - i
  {
    if i + 2 >= |t| then None
    else if AsKeywordAt(t, i) then Some(i)
    else FindAsFrom(t, i + 1)
  }

  /** The header read by splitting the trimmed statement at the first "as"
      that stands as a word. */
  function ParseEachHeader(statement: string): EachHeader {
    var t := Trim(statement);
    match FindAsFrom(t, 0)
    case None => HeaderOf(t, "")
    case Some(i) => HeaderOf(t[..i], t[i + 2..])
  }

  /** A name as a template writes it: no whitespace, nothing trim() drops. */
  ghost predicate Plain(s: string) {
    forall i :: 0 <= i < |s| ==> !IsSpace(s[i]) && !IsTrimChar(s[i])
  }

  lemma TrimOfPlainEnds(s: string)
    requires |s| > 0 && !IsTrimChar(s[0]) && !IsTrimChar(s[|s| - 1])
    ensures Trim(s) == s
  {
    assert TrimLeft(s) == s;
  }

  lemma {:induction false} FindAsFromSkips(t: string, i: nat, j: nat)
    requires i <= j && AsKeywordAt(t, j)
    requires forall k :: i <= k < j ==> !AsKeywordAt(t, k)
    ensures FindAsFrom(t, i) == Some(j)
    decreases j - i
  {
    if i < j {
      FindAsFromSkips(t, i + 1, j);
    }
  }

  /** A header `$name as rest` is its own trim. */
  lemma HeaderTrimmed(name: string, rest: string, t: string)
    requires |rest| > 0 && !IsTrimChar(rest[|rest| - 1])
    requires t == "$" + name + " as " + rest
    ensures Trim(t) == t
  {
    assert t[0] == '$' && t[|t| - 1] == rest[|rest| - 1];
    TrimOfPlainEnds(t);
  }

  /** Where "as" stands in `$name as rest`, and the two sides. */
  lemma {:induction false} SplitHeader(name: string, rest: string, t: string)
    requires Plain(name) && |rest| > 0 && !IsTrimChar(rest[|rest| - 1])
    requires t == "$" + name + " as " + rest
    ensures |t| == |name| + 5 + |rest|
    ensures FindAsFrom(t, 0) == Some(|name| + 2)
    ensures t[..|name| + 2] == "$" + name + " "
    ensures t[|name| + 4..] == " " + rest
  {
    forall k | 0 <= k < |name| + 2 ensures !AsKeywordAt(t, k) {
      if 0 < k {
        assert t[k - 1] == ("$" + name)[k - 1];
      }
    }
    assert AsKeywordAt(t, |name| + 2);
    FindAsFromSkips(t, 0, |name| + 2);
  }

  /** The main name of `$name ...` once whitespace and '$' are dropped. */
  lemma MainName(name: string)
    requires Plain(name)
    ensures DropFirst(RemoveSpaces("$" + name + " ")) == name
  {
    RemoveSpacesConcat("$" + name, " ");
    RemoveSpacesConcat("$", name);
    RemoveSpacesOfNoSpace(name);
    assert RemoveSpaces(" ") == "";
    assert RemoveSpaces("$") == "$";
  }

  lemma LeadingSpace(s: string)
    requires Plain(s)
    ensures RemoveSpaces(" " + s) == s
  {
    assert (" " + s)[1..] == s;
    RemoveSpacesOfNoSpace(s);
  }

  /** `$name as v` binds the value to v. */
  lemma ParseEachHeaderValue(name: string, v: string)
    requires Plain(name) && Plain(v) && |v| > 0 && ',' !in v
    ensures ParseEachHeader("$" + name + " as " + v) == EachHeader(name, v, None)
  {
    HeaderTrimmed(name, v, "$" + name + " as " + v);
    SplitHeader(name, v, "$" + name + " as " + v);
    MainName(name);
    LeadingSpace(v);
    ExplodeNone(v, ',');
  }

  /** The names after "as" in `as k, v`. */
  lemma KeyValueNames(k: string, v: string)
    requires Plain(k) && Plain(v) && ',' !in k && ',' !in v
    ensures Explode(RemoveSpaces(" " + (k + ", " + v)), ",") == [k, v]
  {
    assert " " + (k + ", " + v) == (" " + k + ",") + (" " + v);
    RemoveSpacesConcat(" " + k + ",", " " + v);
    RemoveSpacesConcat(" " + k, ",");
    LeadingSpace(k);
    LeadingSpace(v);
    assert RemoveSpaces(",") == ",";
    assert RemoveSpaces(" " + (k + ", " + v)) == k + [','] + v;
    ExplodeFirst(k, ',', v);
    ExplodeNone(v, ',');
  }

  /** `$name as k, v` binds the key to k and the value to v. */
  lemma ParseEachHeaderKeyValue(name: string, k: string, v: string)
    requires Plain(name) && Plain(k) && Plain(v) && |v| > 0 && ',' !in k && ',' !in v
    ensures ParseEachHeader("$" + name + " as " + k + ", " + v) == EachHeader(name, k, Some(v))
  {
    var rest := k + ", " + v;
    var t := "$" + name + " as " + rest;
    assert "$" + name + " as " + k + ", " + v == t;
    assert rest[|rest| - 1] == v[|v| - 1];
    HeaderTrimmed(name, rest, t);
    SplitHeader(name, rest, t);
    MainName(name);
    KeyValueNames(k, v);
  }

  /** explode cuts a text with two separators and none straddling into
      three pieces. */
  lemma ExplodeThree(a: string, b: string, c: string, sep: string)
    requires |sep| > 0
    requires forall i :: 0 <= i < |a| ==> !OccursAt(a + sep + (b + sep + c), sep, i)
    requires forall i :: 0 <= i < |b| ==> !OccursAt(b + sep + c, sep, i)
    requires forall i :: 0 <= i < |c| ==> !OccursAt(c, sep, i)
    ensures Explode(a + sep + (b + sep + c), sep) == [a, b, c]
  {
    ExplodeAtFirst(a, sep, b + sep + c);
    ExplodeAtFirst(b, sep, c);
    ExplodeAbsent(c, sep);
  }

  /** How explode("as") cuts `$classes as c`. */
  lemma ExplodeClasses()
    ensures Explode("$classes as c", "as") == ["$cl", "ses ", " c"]
  {
    var t := "$cl" + "as" + ("ses " + "as" + " c");
    assert t == "$classes as c";
    var u := "ses " + "as" + " c";
    assert t[0] == '$' && t[1] == 'c' && t[2] == 'l' && t[3] == 'a';
    assert !OccursAt(t, "as", 0) && !OccursAt(t, "as", 1) && !OccursAt(t, "as", 2);
    assert u[0] == 's' && u[1] == 'e' && u[2] == 's' && u[3] == ' ' && u[4] == 'a';
    assert !OccursAt(u, "as", 0) && !OccursAt(u, "as", 1) && !OccursAt(u, "as", 2) && !OccursAt(u, "as", 3);
    assert !OccursAt(" c", "as", 0) && !OccursAt(" c", "as", 1);
    ExplodeThree("$cl", "ses ", " c", "as");
  }

  lemma HeaderOfClassesPieces()
    ensures HeaderOf("$cl", "ses ") == EachHeader("cl", "ses", None)
  {
    var a, b := "$cl", "ses ";
    assert RemoveSpaces(a) == a by {
      RemoveSpacesOfNoSpace(a);
    }
    assert RemoveSpaces(b) == "ses" by {
      RemoveSpacesConcat("ses", " ");
      RemoveSpacesOfNoSpace("ses");
      assert b == "ses" + " ";
    }
    ExplodeNone("ses", ',');
    assert DropFirst(a) == "cl";
  }

  /** A main name holding the letters "as" is cut apart by the header as
      written: `$classes as c` iterates over "cl" and binds "ses". */
  lemma AsWrittenSplitsNames(t: string)
    requires t == "$classes as c"
    ensures EachHeaderAsWritten(t) == EachHeader("cl", "ses", None)
  {
    assert t[0] == '$' && t[|t| - 1] == 'c';
    TrimOfPlainEnds(t);
    ExplodeClasses();
    HeaderOfClassesPieces();
  }

  /** The corrected header reads the same statement as intended. */
  lemma CorrectedKeepsNames(t: string)
    requires t == "$classes as c"
    ensures ParseEachHeader(t) == EachHeader("classes", "c", None)
  {
    var name, v := "classes", "c";
    assert t == "$" + name + " as " + v;
    ParseEachHeaderValue(name, v);
  }

  /** The letters "as" occur nowhere in the text. */
  ghost predicate NoAs(s: string) {
    forall i :: 0 <= i < |s| ==> !OccursAt(s, "as", i)
  }

  lemma OccursAs(s: string, i: nat)
    ensures OccursAt(s, "as", i) <==> i + 1 < |s| && s[i] == 'a' && s[i + 1] == 's'
  {
    if i + 2 <= |s| {
      assert s[i..i + 2] == [s[i], s[i + 1]];
    }
  }

  /** Before the keyword of `$name as rest`, explode finds no "as" when the
      name holds none. */
  lemma NoAsBeforeKeyword(name: string, rest: string)
    requires NoAs(name)
    ensures var a := "$" + name + " ";
      forall i :: 0 <= i < |a| ==> !OccursAt(a + "as" + (" " + rest), "as", i)
  {
    var a := "$" + name + " ";
    var t := a + "as" + (" " + rest);
    forall i | 0 <= i < |a| ensures !OccursAt(t, "as", i) {
      OccursAs(t, i);
      if 1 <= i && i + 1 <= |name| {
        OccursAs(name, i - 1);
        assert t[i] == name[i - 1] && t[i + 1] == name[i];
      } else if 1 <= i {
        assert t[i + 1] == ' ' || t[i] == ' ';
      }
    }
  }

  /** After the keyword, explode finds no "as" when the rest holds none. */
  lemma NoAsAfterKeyword(rest: string)
    requires NoAs(rest)
    ensures NoAs(" " + rest)
  {
    var b := " " + rest;
    forall i | 0 <= i < |b| ensures !OccursAt(b, "as", i) {
      OccursAs(b, i);
      if 1 <= i && i + 1 < |b| {
        OccursAs(rest, i - 1);
        assert b[i] == rest[i - 1] && b[i + 1] == rest[i];
      }
    }
  }

  /** explode("as") cuts `$name as rest` at the keyword alone when neither
      side holds the letters "as". */
  lemma ExplodeHeader(name: string, rest: string, t: string)
    requires NoAs(name) && NoAs(rest)
    requires t == "$" + name + " as " + rest
    ensures Explode(t, "as") == ["$" + name + " ", " " + rest]
  {
    assert t == "$" + name + " " + "as" + (" " + rest);
    NoAsBeforeKeyword(name, rest);
    ExplodeAtFirst("$" + name + " ", "as", " " + rest);
    NoAsAfterKeyword(rest);
    ExplodeAbsent(" " + rest, "as");
  }

  lemma AsWrittenOfPieces(t: string, a: string, b: string)
    requires Trim(t) == t && Explode(t, "as") == [a, b]
    ensures EachHeaderAsWritten(t) == HeaderOf(a, b)
  {
  }

  lemma AsWrittenHeaderPieces(name: string, rest: string, t: string)
    requires |rest| > 0 && !IsTrimChar(rest[|rest| - 1])
    requires NoAs(name) && NoAs(rest)
    requires t == "$" + name + " as " + rest
    ensures EachHeaderAsWritten(t) == HeaderOf("$" + name + " ", " " + rest)
  {
    HeaderTrimmed(name, rest, t);
    ExplodeHeader(name, rest, t);
    AsWrittenOfPieces(t, "$" + name + " ", " " + rest);
  }

  lemma CorrectedHeaderPieces(name: string, rest: string, t: string)
    requires Plain(name) && |rest| > 0 && !IsTrimChar(rest[|rest| - 1])
    requires t == "$" + name + " as " + rest
    ensures ParseEachHeader(t) == HeaderOf("$" + name + " ", " " + rest)
  {
    HeaderTrimmed(name, rest, t);
    SplitHeader(name, rest, t);
  }

  /** When no name holds the letters "as", the header as written and the
      corrected header read `$name as rest` alike. */
  lemma HeadersAgree(name: string, rest: string, t: string)
    requires Plain(name) && |rest| > 0 && !IsTrimChar(rest[|rest| - 1])
    requires NoAs(name) && NoAs(rest)
    requires t == "$" + name + " as " + rest
    ensures EachHeaderAsWritten(t) == ParseEachHeader(t)
  {
    AsWrittenHeaderPieces(name, rest, t);
    CorrectedHeaderPieces(name, rest, t);
  }

  /** `k, v` holds no "as" when neither name does. */
  lemma NoAsKeyValue(k: string, v: string)
    requires NoAs(k) && NoAs(v)
    ensures NoAs(k + ", " + v)
  {
    var r := k + ", " + v;
    forall i | 0 <= i < |r| ensures !OccursAt(r, "as", i) {
      OccursAs(r, i);
      if i + 1 < |k| {
        OccursAs(k, i);
        assert r[i] == k[i] && r[i + 1] == k[i + 1];
      } else if i >= |k| + 2 {
        OccursAs(v, i - |k| - 2);
        if i + 1 < |r| {
          assert r[i] == v[i - |k| - 2] && r[i + 1] == v[i - |k| - 1];
        }
      } else if i == |k| + 1 {
        assert r[i] == ' ';
      } else {
        assert r[i + 1] == ',' || r[i + 1] == ' ';
      }
    }
  }

  /** So `$name as v`, with no name holding "as", is read as intended by
      the header as written too. */
  lemma AsWrittenReadsValue(name: string, v: string)
    requires Plain(name) && Plain(v) && |v| > 0 && ',' !in v
    requires NoAs(name) && NoAs(v)
    ensures EachHeaderAsWritten("$" + name + " as " + v) == EachHeader(name, v, None)
  {
    HeadersAgree(name, v, "$" + name + " as " + v);
    ParseEachHeaderValue(name, v);
  }

  /** And so is `$name as k, v`. */
  lemma AsWrittenReadsKeyValue(name: string, k: string, v: string)
    requires Plain(name) && Plain(k) && Plain(v) && |v| > 0 && ',' !in k && ',' !in v
    requires NoAs(name) && NoAs(k) && NoAs(v)
    ensures EachHeaderAsWritten("$" + name + " as " + k + ", " + v) == EachHeader(name, k, Some(v))
  {
    var rest := k + ", " + v;
    var t := "$" + name + " as " + rest;
    assert "$" + name + " as " + k + ", " + v == t;
    assert rest[|rest| - 1] == v[|v| - 1];
    NoAsKeyValue(k, v);
    HeadersAgree(name, rest, t);
    ParseEachHeaderKeyValue(name, k, v);
  }

  /** The loop's target: the path resolved silently, or the variable
      itself when that yields null. */
  function Target(env: Env, main: string): Value {
    var r := ResolvePath(env, main, true);
    if r.Ok? && !r.value.Null? then r.value else Get(env, main)
  }

  /** A rendered piece of template: its text (or the build error that
      stopped it) and the environment it leaves behind. */
  datatype Rendering = Rendering(text: Result<string>, env: Env)

  /** The rendering of a loop body (or of the eachelse body) in a given
      environment: the nested loops, conditions, filters and variables of
      the body, which lie outside this model. */
  type Body = Env -> Rendering

  /** The binding made for the entry (key, value): with a truthy second
      name the first gets the key and the second the value; otherwise the
      first name gets the value. */
  function Bind(env: Env, h: EachHeader, key: string, value: Value): Env {
    if h.needle.Some? && Truthy(h.needle.value) then env[h.asName := Str(key)][h.needle.value := value]
    else env[h.asName := value]
  }

  /** Exactly the loop's names change, to the key and the value. */
  lemma BindEffect(env: Env, h: EachHeader, key: string, value: Value, x: string)
    ensures h.needle.Some? && Truthy(h.needle.value) ==>
      Get(Bind(env, h, key, value), h.needle.value) == value &&
      (h.asName != h.needle.value ==> Get(Bind(env, h, key, value), h.asName) == Str(key))
    ensures !(h.needle.Some? && Truthy(h.needle.value)) ==> Get(Bind(env, h, key, value), h.asName) == value
    ensures x != h.asName && (h.needle.None? || x != h.needle.value) ==>
      Get(Bind(env, h, key, value), x) == Get(env, x)
  {
  }

  /** The text so far put in front of the rest of a rendering. */
  function Prepend(acc: string, r: Rendering): Rendering {
    Rendering(match r.text { case Err(e) => Err(e) case Ok(u) => Ok(acc + u) }, r.env)
  }

  /** One pass over the entries: bind, render the body, append, reset the
      first name to ''. A body's error stops the loop. */
  function Iterate(env: Env, es: seq<(string, Value)>, h: EachHeader, body: Body): Rendering
    decreases |es|
  {
    if es == [] then Rendering(Ok(""), env)
    else
      var out := body(Bind(env, h, es[0].0, es[0].1));
      match out.text
      case Err(e) => Rendering(Err(e), out.env)
      case Ok(t) => Prepend(t, Iterate(out.env[h.asName := Str("")], es[1..], h, body))
  }

  /** The expansion of a loop whose target is `target`: an array is
      iterated (even an empty one, which renders nothing); anything else
      renders the eachelse body if there is one, and nothing otherwise. */
  function Expand(env: Env, h: EachHeader, target: Value, hasElse: bool, body: Body, elseBody: Body): Rendering {
    if target.Arr? then Iterate(env, target.entries, h, body)
    else if hasElse then elseBody(env)
    else Rendering(Ok(""), env)
  }

  /** After a loop over a non-empty array that completes, the first name
      holds ''. */
  lemma {:induction false} IterateResetsName(env: Env, es: seq<(string, Value)>, h: EachHeader, body: Body)
    requires es != [] && Iterate(env, es, h, body).text.Ok?
    ensures Get(Iterate(env, es, h, body).env, h.asName) == Str("")
    decreases |es|
  {
    var out := body(Bind(env, h, es[0].0, es[0].1));
    if |es| > 1 {
      IterateResetsName(out.env[h.asName := Str("")], es[1..], h, body);
    }
  }

  /** A body that only reads the environment, rendering `text` of it. */
  function Reader(text: Env -> string): Body {
    e => Rendering(Ok(text(e)), e)
  }

  /** The bodies rendered in insertion order, each with the entry's
      binding made on the starting environment. */
  function Rendered(env: Env, es: seq<(string, Value)>, h: EachHeader, text: Env -> string): string
    decreases |es|
  {
    if es == [] then "" else text(Bind(env, h, es[0].0, es[0].1)) + Rendered(env, es[1..], h, text)
  }

  /** A binding overwrites whatever the previous pass left in the names. */
  lemma BindAfterReset(env: Env, h: EachHeader, k0: string, v0: Value, k: string, v: Value)
    ensures Bind(Bind(env, h, k0, v0)[h.asName := Str("")], h, k, v) == Bind(env, h, k, v)
  {
    var b := Bind(Bind(env, h, k0, v0)[h.asName := Str("")], h, k, v);
    var c := Bind(env, h, k, v);
    assert b.Keys == c.Keys;
    forall x | x in b ensures b[x] == c[x] {
    }
  }

  /** With a body that only reads, the loop renders the body once per
      entry, in insertion order, with that entry's key and value bound. */
  lemma {:induction false} IterateInOrder(env: Env, es: seq<(string, Value)>, h: EachHeader, text: Env -> string)
    ensures Iterate(env, es, h, Reader(text)).text == Ok(Rendered(env, es, h, text))
    decreases |es|
  {
    if es != [] {
      var next := Bind(env, h, es[0].0, es[0].1)[h.asName := Str("")];
      IterateInOrder(next, es[1..], h, text);
      RenderedFrom(env, next, es[1..], h, text, es[0].0, es[0].1);
    }
  }

  lemma {:induction false} RenderedFrom(env: Env, next: Env, es: seq<(string, Value)>, h: EachHeader, text: Env -> string, k0: string, v0: Value)
    requires next == Bind(env, h, k0, v0)[h.asName := Str("")]
    ensures Rendered(next, es, h, text) == Rendered(env, es, h, text)
    decreases |es|
  {
    if es != [] {
      BindAfterReset(env, h, k0, v0, es[0].0, es[0].1);
      RenderedFrom(env, next, es[1..], h, text, k0, v0);
    }
  }
}
