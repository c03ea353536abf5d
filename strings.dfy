/** String primitives the engine builds on: PHP's trim, the whitespace class
    of its regular expressions, explode/implode, str_replace with an empty
    replacement, and PHP's truthiness of strings. */
module Strings {

  /** A character of PCRE's `\s` class: space, tab, newline, vertical tab,
      form feed, carriage return. */
  predicate IsSpace(c: char) {
    c == ' ' || c == '\t' || c == '\n' || c == '\U{0B}' || c == '\U{0C}' || c == '\r'
  }

  /** A character PHP's trim() removes by default: space, tab, newline,
      carriage return, NUL and vertical tab (not form feed). */
  predicate IsTrimChar(c: char) {
    c == ' ' || c == '\t' || c == '\n' || c == '\r' || c == '\0' || c == '\U{0B}'
  }

  ghost predicate AllTrim(s: string) {
    forall i :: 0 <= i < |s| ==> IsTrimChar(s[i])
  }

  ghost predicate NoSpace(s: string) {
    forall i :: 0 <= i < |s| ==> !IsSpace(s[i])
  }

  /** Drops trim characters from the front. */
  function TrimLeft(s: string): (r: string)
    ensures |r| <= |s| && r == s[|s| - |r|..]
    ensures AllTrim(s[..|s| - |r|])
    ensures |r| > 0 ==> !IsTrimChar(r[0])
  {
    if |s| > 0 && IsTrimChar(s[0]) then TrimLeft(s[1..]) else s
  }

  /** Drops trim characters from the back. */
  function TrimRight(s: string): (r: string)
    ensures |r| <= |s| && r == s[..|r|]
    ensures AllTrim(s[|r|..])
    ensures |r| > 0 ==> !IsTrimChar(r[|r| - 1])
  {
    if |s| > 0 && IsTrimChar(s[|s| - 1]) then TrimRight(s[..|s| - 1]) else s
  }

  /** PHP's trim($s): the text between the leading and the trailing run of
      trim characters. */
  function Trim(s: string): (r: string)
    ensures |r| <= |s|
    ensures |r| > 0 ==> !IsTrimChar(r[0]) && !IsTrimChar(r[|r| - 1])
  {
    TrimRight(TrimLeft(s))
  }

  /** Trim cuts off exactly a leading and a trailing run of trim characters:
      its result is a slice of the input with only trim characters around it. */
  lemma TrimIsSlice(s: string)
    ensures exists k :: 0 <= k <= |s| - |Trim(s)| && Trim(s) == s[k..k + |Trim(s)|]
                        && AllTrim(s[..k]) && AllTrim(s[k + |Trim(s)|..])
  {
    var l := TrimLeft(s);
    var t := Trim(s);
    assert t == TrimRight(l);
    SliceOfHalves(s, l, t);
  }

  lemma SliceOfHalves(s: string, l: string, r: string)
    requires |l| <= |s| && l == s[|s| - |l|..] && AllTrim(s[..|s| - |l|])
    requires |r| <= |l| && r == l[..|r|] && AllTrim(l[|r|..])
    ensures exists k :: 0 <= k <= |s| - |r| && r == s[k..k + |r|] && AllTrim(s[..k]) && AllTrim(s[k + |r|..])
  {
    var k := |s| - |l|;
    assert s[k..k + |r|] == r;
    assert s[k + |r|..] == l[|r|..];
  }

  lemma {:induction false} TrimRightOfAllTrim(s: string)
    requires AllTrim(s)
    ensures TrimRight(s) == ""
  {
    var r := TrimRight(s);
    assert forall i :: 0 <= i < |r| ==> r[i] == s[i];
  }

  /** A trimmed string is its own trim. */
  lemma {:induction false} TrimIdempotent(s: string)
    ensures Trim(Trim(s)) == Trim(s)
  {
    var t := Trim(s);
    if |t| > 0 {
      assert TrimLeft(t) == t;
      assert TrimRight(t) == t;
    }
  }

  /** The blank test of the engine (isEmpty): trim leaves nothing. */
  predicate IsEmpty(s: string) {
    !(|Trim(s)| > 0)
  }

  lemma {:induction false} TrimLeftOfAllTrim(s: string)
    requires AllTrim(s)
    ensures TrimLeft(s) == ""
  {
    if |s| > 0 {
      TrimLeftOfAllTrim(s[1..]);
    }
  }

  /** A text is blank exactly when every character is one that trim()
      removes. */
  lemma {:induction false} IsEmptyIffAllTrim(s: string)
    ensures IsEmpty(s) <==> AllTrim(s)
  {
    var l := TrimLeft(s);
    var k := |s| - |l|;
    if AllTrim(s) {
      TrimLeftOfAllTrim(s);
    }
    if |Trim(s)| == 0 {
      assert l == l[0..];
      assert |l| == 0;
      assert s[..k] == s;
    }
  }

  /** preg_replace('/([\s]+)/', '', $s): every whitespace character removed. */
  function RemoveSpaces(s: string): (r: string)
    ensures |r| <= |s|
    ensures NoSpace(r)
  {
    if s == [] then []
    else (if IsSpace(s[0]) then [] else [s[0]]) + RemoveSpaces(s[1..])
  }

  /** Text without whitespace comes back unchanged. */
  lemma {:induction false} RemoveSpacesOfNoSpace(s: string)
    requires NoSpace(s)
    ensures RemoveSpaces(s) == s
  {
    if s != [] {
      RemoveSpacesOfNoSpace(s[1..]);
    }
  }

  lemma RemoveSpacesIdempotent(s: string)
    ensures RemoveSpaces(RemoveSpaces(s)) == RemoveSpaces(s)
  {
    RemoveSpacesOfNoSpace(RemoveSpaces(s));
  }

  /** Removing whitespace distributes over concatenation. */
  lemma {:induction false} RemoveSpacesConcat(a: string, b: string)
    ensures RemoveSpaces(a + b) == RemoveSpaces(a) + RemoveSpaces(b)
  {
    if a == [] {
      assert a + b == b;
    } else {
      assert (a + b)[1..] == a[1..] + b;
      RemoveSpacesConcat(a[1..], b);
    }
  }

  /** A whitespace character on its own is removed entirely. */
  lemma RemoveSpacesOfSpace(c: char)
    requires IsSpace(c)
    ensures RemoveSpaces([c]) == ""
  {
    assert [c][1..] == [];
  }

  /** `pat` occurs in `s` starting at position i. */
  predicate OccursAt(s: string, pat: string, i: nat) {
    i + |pat| <= |s| && s[i..i + |pat|] == pat
  }

  /** An occurrence in the tail is an occurrence one place further on. */
  lemma OccursTail(s: string, pat: string, i: nat)
    requires |s| > 0
    ensures OccursAt(s[1..], pat, i) <==> OccursAt(s, pat, i + 1)
  {
    if i + |pat| <= |s[1..]| {
      assert s[1..][i..i + |pat|] == s[i + 1..i + 1 + |pat|];
    }
  }

  /** str_replace($pat, '', $s): every occurrence of `pat`, found left to
      right without overlap, removed; an empty `pat` changes nothing. */
  function RemoveAll(s: string, pat: string): (r: string)
    ensures |r| <= |s|
    decreases |s|
  {
    if pat == [] || |s| < |pat| then s
    else if s[..|pat|] == pat then RemoveAll(s[|pat|..], pat)
    else [s[0]] + RemoveAll(s[1..], pat)
  }

  /** Text in which `pat` does not occur is left as it is. */
  lemma {:induction false} RemoveAllAbsent(s: string, pat: string)
    requires forall i :: 0 <= i < |s| ==> !OccursAt(s, pat, i)
    ensures RemoveAll(s, pat) == s
    decreases |s|
  {
    if pat != [] && |s| >= |pat| {
      assert !OccursAt(s, pat, 0);
      forall i | 0 <= i < |s[1..]| ensures !OccursAt(s[1..], pat, i) {
        OccursTail(s, pat, i);
      }
      RemoveAllAbsent(s[1..], pat);
    }
  }

  /** An occurrence of `pat` at the front is deleted. */
  lemma RemoveAllAt(b: string, pat: string)
    requires pat != []
    ensures RemoveAll(pat + b, pat) == RemoveAll(b, pat)
  {
    assert (pat + b)[..|pat|] == pat;
    assert (pat + b)[|pat|..] == b;
  }

  /** Deleting `pat` from `a + b` leaves `a` alone when no occurrence of
      `pat` starts inside `a`. */
  lemma {:induction false} RemoveAllSkip(a: string, b: string, pat: string)
    requires pat != []
    requires forall i :: 0 <= i < |a| ==> !OccursAt(a + b, pat, i)
    ensures RemoveAll(a + b, pat) == a + RemoveAll(b, pat)
  {
    if a == [] {
      assert a + b == b;
    } else if |a + b| < |pat| {
      assert RemoveAll(b, pat) == b;
    } else {
      var s := a + b;
      assert !OccursAt(s, pat, 0);
      assert s[1..] == a[1..] + b;
      forall i | 0 <= i < |a[1..]| ensures !OccursAt(a[1..] + b, pat, i) {
        OccursTail(s, pat, i);
      }
      RemoveAllSkip(a[1..], b, pat);
      assert [a[0]] + a[1..] == a;
    }
  }

  /** explode($sep, $s): the pieces of `s` between the occurrences of `sep`,
      found left to right without overlap. Joining them back gives `s`. */
  function Explode(s: string, sep: string): (r: seq<string>)
    requires |sep| > 0
    ensures |r| >= 1
    ensures Join(r, sep) == s
    decreases |s|
  {
    if |s| < |sep| then [s]
    else if s[..|sep|] == sep then
      assert s == sep + s[|sep|..];
      [""] + Explode(s[|sep|..], sep)
    else
      var rest := Explode(s[1..], sep);
      assert s == [s[0]] + s[1..];
      [[s[0]] + rest[0]] + rest[1..]
  }

  /** implode($sep, $parts). */
  function Join(parts: seq<string>, sep: string): string
    decreases |parts|
  {
    if parts == [] then ""
    else if |parts| == 1 then parts[0]
    else parts[0] + sep + Join(parts[1..], sep)
  }

  /** explode stops at the first occurrence of the separator. */
  lemma {:induction false} ExplodeAtFirst(a: string, sep: string, b: string)
    requires |sep| > 0
    requires forall i :: 0 <= i < |a| ==> !OccursAt(a + sep + b, sep, i)
    ensures Explode(a + sep + b, sep) == [a] + Explode(b, sep)
  {
    var s := a + sep + b;
    if a == [] {
      assert s[..|sep|] == sep && s[|sep|..] == b;
    } else {
      assert !OccursAt(s, sep, 0);
      assert s[1..] == a[1..] + sep + b;
      forall i | 0 <= i < |a[1..]| ensures !OccursAt(a[1..] + sep + b, sep, i) {
        OccursTail(s, sep, i);
      }
      ExplodeAtFirst(a[1..], sep, b);
      assert [a[0]] + a[1..] == a;
    }
  }

  /** Text without the separator is one piece. */
  lemma {:induction false} ExplodeAbsent(s: string, sep: string)
    requires |sep| > 0
    requires forall i :: 0 <= i < |s| ==> !OccursAt(s, sep, i)
    ensures Explode(s, sep) == [s]
    decreases |s|
  {
    if |s| >= |sep| {
      assert !OccursAt(s, sep, 0);
      forall i | 0 <= i < |s[1..]| ensures !OccursAt(s[1..], sep, i) {
        OccursTail(s, sep, i);
      }
      ExplodeAbsent(s[1..], sep);
      assert [s[0]] + s[1..] == s;
    }
  }

  /** Splitting on a single character that a piece does not contain stops
      at the first separator. */
  lemma {:induction false} ExplodeFirst(a: string, c: char, t: string)
    requires c !in a
    ensures Explode(a + [c] + t, [c]) == [a] + Explode(t, [c])
  {
    if a == [] {
      assert (a + [c] + t)[1..] == t;
    } else {
      assert (a + [c] + t)[1..] == a[1..] + [c] + t;
      assert a[0] != c && (a + [c] + t)[0] == a[0];
      assert [a[0]] + a[1..] == a;
      ExplodeFirst(a[1..], c, t);
    }
  }

  lemma {:induction false} ExplodeNone(a: string, c: char)
    requires c !in a
    ensures Explode(a, [c]) == [a]
  {
    if a != [] {
      assert a[1..] + [] == a[1..];
      ExplodeNone(a[1..], c);
    }
  }

  /** explode undoes implode on one separator character when no piece
      contains it. */
  lemma {:induction false} ExplodeJoin(parts: seq<string>, c: char)
    requires |parts| >= 1
    requires forall i :: 0 <= i < |parts| ==> c !in parts[i]
    ensures Explode(Join(parts, [c]), [c]) == parts
    decreases |parts|
  {
    if |parts| == 1 {
      ExplodeNone(parts[0], c);
    } else {
      ExplodeFirst(parts[0], c, Join(parts[1..], [c]));
      ExplodeJoin(parts[1..], c);
    }
  }

  /** PHP's truthiness of a string: only "" and "0" are falsy. */
  predicate Truthy(s: string) {
    s != "" && s != "0"
  }

  /** substr($s, 1): everything after the first character. For "" PHP 7
      returns false rather than a string; this model gives "". */
  function DropFirst(s: string): (r: string)
    ensures s != [] ==> [s[0]] + r == s
  {
    if s == [] then [] else s[1..]
  }

  function DigitChar(d: nat): (c: char)
    requires d < 10
    ensures '0' <= c <= '9' && c as int - '0' as int == d
  {
    ('0' as int + d) as char
  }

  /** The number a text of decimal digits denotes. */
  function DigitsValue(r: string): int
    decreases |r|
  {
    if r == [] then 0 else DigitsValue(r[..|r| - 1]) * 10 + (r[|r| - 1] as int - '0' as int)
  }

  /** Decimal text of a natural number, as PHP prints an integer key: the
      digits denote `n`, and only 0 is written with a leading '0'. */
  function NatToString(n: nat): (r: string)
    ensures |r| >= 1
    ensures forall i :: 0 <= i < |r| ==> '0' <= r[i] <= '9'
    ensures DigitsValue(r) == n
    ensures r[0] == '0' <==> n == 0
  {
    if n < 10 then
      var r := [DigitChar(n)];
      assert r[..0] == [];
      r
    else
      var p := NatToString(n / 10);
      var r := p + [DigitChar(n % 10)];
      assert r[..|r| - 1] == p;
      r
  }

  /** Distinct integer keys are written as distinct texts. */
  lemma NatToStringInjective(a: nat, b: nat)
    requires NatToString(a) == NatToString(b)
    ensures a == b
  {
  }
}
