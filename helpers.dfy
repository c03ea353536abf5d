/** The engine's string helpers around the binder (the pair of markers that
    delimit a directive, "{{" and "}}" by default) and template file names. */
module Helpers {
  import opened Strings

  datatype Binder = Binder(open: string, close: string)

  const DefaultBinder := Binder("{{", "}}")

  /** The extension of template files. */
  const FileExt := "vit"

  /** addBinder: the text wrapped in the two markers. */
  function AddBinder(b: Binder, s: string): (r: string)
    ensures |r| == |b.open| + |s| + |b.close|
    ensures r[..|b.open|] == b.open && r[|b.open|..|b.open| + |s|] == s && r[|b.open| + |s|..] == b.close
  {
    b.open + s + b.close
  }

  /** stripBinder: str_replace with both markers as the search list, which
      first deletes every opening marker and then every closing marker. */
  function StripBinder(b: Binder, s: string): (r: string)
    ensures |r| <= |s|
  {
    RemoveAll(RemoveAll(s, b.open), b.close)
  }

  /** Markers that are non-empty and where the opening marker does not
      occur inside the closing one (true of the default pair). */
  ghost predicate ValidBinder(b: Binder) {
    b.open != [] && b.close != [] &&
    forall i :: 0 <= i < |b.close| ==> !OccursAt(b.close, b.open, i)
  }

  lemma DefaultBinderValid()
    ensures ValidBinder(DefaultBinder)
  {
    forall i | 0 <= i < 2 ensures !OccursAt("}}", "{{", i) {
      if i == 0 { assert "}}"[0..2][0] == '}'; }
    }
  }

  /** stripBinder undoes addBinder for text that shares no character with
      either marker. */
  lemma StripAddBinder(b: Binder, s: string)
    requires ValidBinder(b)
    requires forall i :: 0 <= i < |s| ==> s[i] !in b.open && s[i] !in b.close
    ensures StripBinder(b, AddBinder(b, s)) == s
  {
    var x := b.open + s + b.close;
    assert x[..|b.open|] == b.open;
    assert x[|b.open|..] == s + b.close;
    forall i | 0 <= i < |s + b.close| ensures !OccursAt(s + b.close, b.open, i) {
      if i < |s| {
        assert s[i] != b.open[0];
        if i + |b.open| <= |s + b.close| {
          assert (s + b.close)[i..i + |b.open|][0] == s[i];
        }
      } else if i + |b.open| <= |s + b.close| {
        assert (s + b.close)[i..i + |b.open|] == b.close[i - |s|..i - |s| + |b.open|];
        assert !OccursAt(b.close, b.open, i - |s|);
      }
    }
    RemoveAllAbsent(s + b.close, b.open);
    assert RemoveAll(x, b.open) == s + b.close;
    forall i | 0 <= i < |s| ensures !OccursAt(s + b.close, b.close, i) {
      assert s[i] != b.close[0];
      if i + |b.close| <= |s + b.close| {
        assert (s + b.close)[i..i + |b.close|][0] == s[i];
      }
    }
    RemoveAllSkip(s, b.close, b.close);
    assert b.close[..|b.close|] == b.close && b.close[|b.close|..] == [];
  }

  /** str_split: the characters of `s` one by one; [""] for "". */
  function StrSplit(s: string): (r: seq<string>)
    ensures |r| == if s == [] then 1 else |s|
    ensures s == [] ==> r == [""]
    ensures forall i :: 0 <= i < |s| ==> r[i] == [s[i]]
  {
    if s == [] then [""] else seq(|s|, i requires 0 <= i < |s| => [s[i]])
  }

  /** Every character of `t` preceded by a backslash. */
  function Interleave(t: string): (r: string)
    ensures |r| == 2 * |t|
    ensures forall i :: 0 <= i < |t| ==> r[2 * i] == '\\' && r[2 * i + 1] == t[i]
  {
    if t == [] then []
    else
      var rest := Interleave(t[1..]);
      var r := ['\\', t[0]] + rest;
      assert forall i :: 0 <= i < |t| ==> r[2 * i] == '\\' && r[2 * i + 1] == t[i] by {
        forall i | 1 <= i < |t| ensures r[2 * i] == '\\' && r[2 * i + 1] == t[i] {
          assert t[i] == t[1..][i - 1];
          assert r[2 * i] == rest[2 * (i - 1)] && r[2 * i + 1] == rest[2 * (i - 1) + 1];
        }
      }
      r
  }

  /** escapeRegex: a backslash, then the characters of `s` joined by
      backslashes, so every character is preceded by one backslash. The
      empty string gives a lone backslash. */
  function EscapeRegex(s: string): (r: string)
    ensures s == [] ==> r == "\\"
    ensures s != [] ==> |r| == 2 * |s|
    ensures s != [] ==> forall i :: 0 <= i < |s| ==> r[2 * i] == '\\' && r[2 * i + 1] == s[i]
  {
    JoinOfChars(s);
    "\\" + Join(StrSplit(s), "\\")
  }

  lemma {:induction false} JoinOfChars(s: string)
    ensures s != [] ==> "\\" + Join(StrSplit(s), "\\") == Interleave(s)
  {
    if |s| > 1 {
      JoinOfChars(s[1..]);
      assert StrSplit(s) == [[s[0]]] + StrSplit(s[1..]);
    }
  }

  /** The characters at the odd positions: undoes escapeRegex. */
  function Unescape(r: string): (s: string)
    ensures |s| == |r| / 2
  {
    seq(|r| / 2, i requires 0 <= i < |r| / 2 => r[2 * i + 1])
  }

  lemma UnescapeEscape(s: string)
    requires s != []
    ensures Unescape(EscapeRegex(s)) == s
  {
  }

  /** addFileExtension: the name followed by ".vit". */
  function AddFileExtension(name: string): (r: string)
    ensures |r| == |name| + 4 && r[..|name|] == name && r[|name|..] == "." + FileExt
  {
    name + "." + FileExt
  }

  /** getFileLink: where a template named `name` lives under `dir`. */
  function GetFileLink(dir: string, name: string): (r: string)
    ensures r == dir + "/" + AddFileExtension(name)
  {
    dir + "/" + name + "." + FileExt
  }

  /** Distinct template names give distinct files. */
  lemma {:induction false} FileLinkInjective(dir: string, a: string, b: string)
    requires GetFileLink(dir, a) == GetFileLink(dir, b)
    ensures a == b
  {
    var la := GetFileLink(dir, a);
    assert |a| == |b|;
    assert a == la[|dir| + 1..|dir| + 1 + |a|];
    assert b == GetFileLink(dir, b)[|dir| + 1..|dir| + 1 + |b|];
  }
}
