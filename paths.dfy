/** Array paths: `name[a][b]` is split into a root variable name and index
    tokens (getArrayIndexes), and the tokens are followed through nested
    arrays (compileArray), failing or yielding zero on a missing index. */
module Paths {
  import opened Strings
  import opened Values

  /** A character the index pattern `[a-zA-Z0-9\-\_]` accepts. */
  predicate IsIndexChar(c: char) {
    ('a' <= c <= 'z') || ('A' <= c <= 'Z') || ('0' <= c <= '9') || c == '-' || c == '_'
  }

  /** A non-empty run of index characters. */
  ghost predicate IsToken(t: string) {
    |t| > 0 && forall i :: 0 <= i < |t| ==> IsIndexChar(t[i])
  }

  /** Length of the run of index characters that starts `s`. */
  function IndexRun(s: string): (n: nat)
    ensures n <= |s|
    ensures forall i :: 0 <= i < n ==> IsIndexChar(s[i])
    ensures n < |s| ==> !IsIndexChar(s[n])
  {
    if s != [] && IsIndexChar(s[0]) then 1 + IndexRun(s[1..]) else 0
  }

  /** One attempt of the pattern `\[('?)([a-zA-Z0-9\-\_]+)('?)\]` at the
      start of `s`: the captured token and the length of the match. The
      quantifiers are greedy, and giving a quote back can never help, since
      the token class holds neither a quote nor a bracket. */
  function MatchIndexAt(s: string): (m: Option<(string, nat)>)
    ensures m.Some? ==> 0 < m.value.1 <= |s| && IsToken(m.value.0)
  {
    if s == [] || s[0] != '[' then None
    else
      var j := if |s| > 1 && s[1] == '\'' then 2 else 1;
      var n := IndexRun(s[j..]);
      var k := j + n;
      assert forall i :: j <= i < k ==> s[i] == s[j..][i - j];
      if n == 0 then None
      else if k < |s| && s[k] == ']' then Some((s[j..k], k + 1))
      else if k + 1 < |s| && s[k] == '\'' && s[k + 1] == ']' then Some((s[j..k], k + 2))
      else None
  }

  /** preg_match_all of the index pattern: every match, left to right, each
      search resuming after the previous match. */
  function ScanIndexes(s: string): (r: seq<string>)
    ensures forall i :: 0 <= i < |r| ==> IsToken(r[i])
    decreases |s|
  {
    if s == [] then []
    else
      match MatchIndexAt(s)
      case Some((t, len)) => [t] + ScanIndexes(s[len..])
      case None => ScanIndexes(s[1..])
  }

  /** getArrayIndexes: the root name is the text before the first '[' with
      whitespace removed; the indexes are the tokens the pattern finds. */
  function ParsePath(data: string): (string, seq<string>) {
    (RemoveSpaces(Explode(data, "[")[0]), ScanIndexes(data))
  }

  /** The path `name[t1][t2]...` written out. */
  function RenderPath(name: string, idx: seq<string>): string {
    name + RenderIndexes(idx)
  }

  function RenderIndexes(idx: seq<string>): string
    decreases |idx|
  {
    if idx == [] then "" else "[" + idx[0] + "]" + RenderIndexes(idx[1..])
  }

  lemma {:induction false} IndexRunOf(t: string, rest: string)
    requires forall i :: 0 <= i < |t| ==> IsIndexChar(t[i])
    requires rest != [] && !IsIndexChar(rest[0])
    ensures IndexRun(t + rest) == |t|
  {
    if t != [] {
      assert (t + rest)[1..] == t[1..] + rest;
      IndexRunOf(t[1..], rest);
    }
  }

  /** Text without '[' holds no index. */
  lemma {:induction false} ScanSkip(a: string, rest: string)
    requires '[' !in a
    ensures ScanIndexes(a + rest) == ScanIndexes(rest)
  {
    if a == [] {
      assert a + rest == rest;
    } else {
      assert (a + rest)[0] == a[0] && (a + rest)[1..] == a[1..] + rest;
      ScanSkip(a[1..], rest);
    }
  }

  lemma {:induction false} ScanRendered(idx: seq<string>)
    requires forall i :: 0 <= i < |idx| ==> IsToken(idx[i])
    ensures ScanIndexes(RenderIndexes(idx)) == idx
    decreases |idx|
  {
    if idx != [] {
      var t := idx[0];
      var tail := RenderIndexes(idx[1..]);
      var s := RenderIndexes(idx);
      assert s == "[" + t + "]" + tail;
      assert s[1..] == t + ("]" + tail);
      assert s[1] == t[0];
      IndexRunOf(t, "]" + tail);
      assert s[1..1 + |t|] == t;
      assert s[1 + |t|] == ']';
      assert MatchIndexAt(s) == Some((t, |t| + 2));
      assert s[|t| + 2..] == tail;
      ScanRendered(idx[1..]);
    }
  }

  lemma PathRootOf(name: string, idx: seq<string>)
    requires '[' !in name && NoSpace(name)
    ensures RemoveSpaces(Explode(RenderPath(name, idx), "[")[0]) == name
  {
    if idx == [] {
      assert RenderPath(name, idx) == name;
      ExplodeNone(name, '[');
    } else {
      var more := idx[0] + "]" + RenderIndexes(idx[1..]);
      assert RenderPath(name, idx) == name + ['['] + more;
      ExplodeFirst(name, '[', more);
    }
    RemoveSpacesOfNoSpace(name);
  }

  lemma PathIndexesOf(name: string, idx: seq<string>)
    requires '[' !in name
    requires forall i :: 0 <= i < |idx| ==> IsToken(idx[i])
    ensures ScanIndexes(RenderPath(name, idx)) == idx
  {
    ScanSkip(name, RenderIndexes(idx));
    ScanRendered(idx);
  }

  /** getArrayIndexes recovers the root name and the indexes of a path
      written as `name[t1][t2]...`. */
  lemma ParseRenderPath(name: string, idx: seq<string>)
    requires '[' !in name && NoSpace(name)
    requires forall i :: 0 <= i < |idx| ==> IsToken(idx[i])
    ensures ParsePath(RenderPath(name, idx)) == (name, idx)
  {
    PathRootOf(name, idx);
    PathIndexesOf(name, idx);
  }

  /** The value under `key` when `v` is an array holding that key. */
  function Descend(v: Value, key: string): Option<Value> {
    if v.Arr? then Lookup(v.entries, key) else None
  }

  /** The nested value at the end of the path, when every key exists. */
  function Follow(v: Value, idx: seq<string>): Option<Value>
    decreases |idx|
  {
    if idx == [] then Some(v)
    else
      match Descend(v, idx[0])
      case None => None
      case Some(w) => Follow(w, idx[1..])
  }

  /** Following `a + b` is following `a`, then `b` from where it ends. */
  lemma {:induction false} FollowConcat(v: Value, a: seq<string>, b: seq<string>)
    ensures Follow(v, a + b) == match Follow(v, a) { case None => None case Some(w) => Follow(w, b) }
    decreases |a|
  {
    if a == [] {
      assert a + b == b;
    } else {
      assert (a + b)[0] == a[0] && (a + b)[1..] == a[1..] + b;
      match Descend(v, a[0])
      case None =>
      case Some(w) => FollowConcat(w, a[1..], b);
    }
  }

  /** The position of the first index the path cannot follow. */
  function FirstMissing(v: Value, idx: seq<string>): (k: nat)
    requires Follow(v, idx).None?
    ensures k < |idx|
    ensures Follow(v, idx[..k]).Some? && Descend(Follow(v, idx[..k]).value, idx[k]).None?
    decreases |idx|
  {
    match Descend(v, idx[0])
    case None =>
      assert idx[..0] == [];
      0
    case Some(w) =>
      var k := FirstMissing(w, idx[1..]);
      assert idx[..k + 1] == [idx[0]] + idx[1..][..k];
      assert idx[..k + 1][1..] == idx[1..][..k];
      k + 1
  }

  /** compileArray's walk over the indexes from the root value. */
  function Walk(root: string, v: Value, idx: seq<string>, silent: bool): Result<Value>
    decreases |idx|
  {
    if idx == [] then Ok(v)
    else if v.Arr? && Lookup(v.entries, idx[0]).Some? then
      Walk(root, Lookup(v.entries, idx[0]).value, idx[1..], silent)
    else if silent then Ok(Num(0))
    else Err(UndefinedIndex(idx[0], root))
  }

  /** The walk yields the nested value when every key exists; otherwise
      zero in silent mode and, in strict mode, the error naming the first
      missing index and the root variable. */
  lemma {:induction false} WalkFollows(root: string, v: Value, idx: seq<string>, silent: bool)
    ensures Walk(root, v, idx, silent) ==
      match Follow(v, idx)
      case Some(w) => Ok(w)
      case None => if silent then Ok(Num(0)) else Err(UndefinedIndex(idx[FirstMissing(v, idx)], root))
    decreases |idx|
  {
    if idx != [] {
      match Descend(v, idx[0])
      case None =>
      case Some(w) =>
        WalkFollows(root, w, idx[1..], silent);
        if Follow(v, idx).None? {
          assert FirstMissing(v, idx) == FirstMissing(w, idx[1..]) + 1;
        }
    }
  }

  /** A silent walk never fails, and it agrees with a strict walk that
      succeeds. */
  lemma WalkModes(root: string, v: Value, idx: seq<string>)
    ensures Walk(root, v, idx, true).Ok?
    ensures Walk(root, v, idx, false).Ok? ==> Walk(root, v, idx, true) == Walk(root, v, idx, false)
  {
    WalkFollows(root, v, idx, true);
    WalkFollows(root, v, idx, false);
  }

  /** compileArray as a whole: parse the path, look the root up in the
      environment, walk the indexes. */
  function ResolvePath(env: Env, data: string, silent: bool): Result<Value> {
    var (name, idx) := ParsePath(data);
    Walk(name, Get(env, name), idx, silent)
  }
}
