/** Conditions: the verdict of getConditionStatus, the operator test, the
    branch selection of an if/elseif/else block, and the choices made by the
    inline ternary `{{ (c) ? a : b }}` and the null-coalesce `{{ a ?? b }}`. */
module Conditions {
  import opened Strings
  import opened Values

  /** `_false_statements`: the resolved texts that make a condition false. */
  const FalseStatements: seq<string> := ["false", "0", "null", "", "undefined"]

  /** The steps the engine takes that lie outside this model. `resolve`
      turns a statement into its final text (variables and arrays bound,
      filters applied); `evaluate` compiles a statement holding an operator
      and runs it as host code, reporting whether the outcome is truthy.
      Either may raise a build error. */
  datatype Oracle = Oracle(resolve: string -> Result<string>, evaluate: string -> Result<bool>)

  predicate IsDigit(c: char) {
    '0' <= c <= '9'
  }

  /** Zeros with at most one '.', and at least one zero. */
  predicate ZeroMantissa(m: string) {
    (exists i :: 0 <= i < |m| && m[i] == '0') &&
    (forall i :: 0 <= i < |m| ==> m[i] == '0' || m[i] == '.') &&
    (forall i, j :: 0 <= i < j < |m| ==> !(m[i] == '.' && m[j] == '.'))
  }

  /** An exponent: empty, or 'e'/'E', an optional sign and at least one digit. */
  predicate ExponentPart(e: string) {
    if e == [] then true
    else if e[0] != 'e' && e[0] != 'E' then false
    else
      var d := if |e| > 1 && (e[1] == '+' || e[1] == '-') then e[2..] else e[1..];
      d != [] && forall i :: 0 <= i < |d| ==> IsDigit(d[i])
  }

  /** Position of the first 'e' or 'E', or the length. */
  function ExponentStart(u: string): (k: nat)
    ensures k <= |u|
  {
    if u == [] || u[0] == 'e' || u[0] == 'E' then 0 else 1 + ExponentStart(u[1..])
  }

  function DropSpaces(s: string): string {
    if s != [] && IsSpace(s[0]) then DropSpaces(s[1..]) else s
  }

  /** A numeric string of PHP 7 (leading whitespace allowed, trailing not)
      whose value is zero: in_array's loose comparison finds such a text
      equal to "0". */
  predicate IsZeroNumeric(s: string) {
    var t := DropSpaces(s);
    var u := if t != [] && (t[0] == '+' || t[0] == '-') then t[1..] else t;
    var k := ExponentStart(u);
    ZeroMantissa(u[..k]) && ExponentPart(u[k..])
  }

  /** in_array($v, $this->_false_statements), a loose comparison. */
  predicate InFalseSet(v: string) {
    v in FalseStatements || IsZeroNumeric(v)
  }

  /** The no-operator verdict on a resolved text: false when it is in the
      false set, and a single leading '!' negates that. */
  predicate Verdict(resolved: string) {
    if resolved != [] && resolved[0] == '!' then InFalseSet(resolved[1..])
    else !InFalseSet(resolved)
  }

  /** A character of the operator class `[(\=\=)|(\=\=\=)|...]`, which is
      one character class: ( = ) | & < >. */
  predicate IsOperatorChar(c: char) {
    c == '(' || c == '=' || c == ')' || c == '|' || c == '&' || c == '<' || c == '>'
  }

  /** hasOperator: the text contains an operator character. */
  predicate HasOperator(s: string)
    ensures HasOperator(s) <==> exists i :: 0 <= i < |s| && IsOperatorChar(s[i])
  {
    if s == [] then false
    else
      assert forall i :: 1 <= i < |s| ==> s[i] == s[1..][i - 1];
      IsOperatorChar(s[0]) || HasOperator(s[1..])
  }

  /** getConditionStatus: a falsy statement ("" or "0") is false; with an
      operator the statement is evaluated; otherwise its resolved text gets
      the verdict. */
  function ConditionStatus(statement: string, o: Oracle): Result<bool> {
    if !Truthy(statement) then Ok(false)
    else if HasOperator(statement) then o.evaluate(statement)
    else
      match o.resolve(statement)
      case Err(e) => Err(e)
      case Ok(v) => Ok(Verdict(v))
  }

  /** A falsy statement ("" or "0") is false without being resolved. */
  lemma FalsyStatementIsFalse(statement: string, o: Oracle)
    requires !Truthy(statement)
    ensures ConditionStatus(statement, o) == Ok(false)
  {
  }

  /** Without an operator, a statement whose text resolves to `w`, or to
      `!w`, is true exactly when `w` lies outside the false set, the '!'
      flipping that. */
  lemma NoOperatorStatus(statement: string, o: Oracle, w: string, negated: bool)
    requires Truthy(statement) && !HasOperator(statement)
    requires o.resolve(statement) == Ok(if negated then "!" + w else w)
    requires negated || w == [] || w[0] != '!'
    ensures ConditionStatus(statement, o) == Ok(InFalseSet(w) == negated)
  {
    assert ("!" + w)[1..] == w;
  }

  /** Every member of the false set gets a false verdict, and with a '!'
      in front a true one. */
  lemma FalseStatementsAreFalse()
    ensures forall f :: f in FalseStatements ==> !Verdict(f) && Verdict("!" + f)
  {
    forall f | f in FalseStatements ensures !Verdict(f) && Verdict("!" + f) {
      assert ("!" + f)[1..] == f;
    }
  }

  /** A leading '!' negates the verdict of a text that does not itself start
      with '!'. */
  lemma VerdictNegation(x: string)
    requires x == [] || x[0] != '!'
    ensures Verdict("!" + x) == !Verdict(x)
  {
    assert ("!" + x)[1..] == x;
  }

  /** Numeric texts equal to zero are in the false set, as loose
      comparison finds them equal to "0". */
  lemma ZeroTextsAreFalse()
    ensures !Verdict("00") && !Verdict(" 0.0") && !Verdict("-0e5")
  {
    DoubleZero();
    SpacedDecimalZero();
    NegativeZeroExponent();
  }

  lemma DoubleZero()
    ensures !Verdict("00")
  {
    assert ExponentStart("00") == 2 && "00"[..2] == "00" && "00"[0] == '0';
  }

  lemma SpacedDecimalZero()
    ensures !Verdict(" 0.0")
  {
    assert DropSpaces(" 0.0") == "0.0" && ExponentStart("0.0") == 3 && "0.0"[..3] == "0.0" && "0.0"[0] == '0';
  }

  lemma NegativeZeroExponent()
    ensures !Verdict("-0e5")
  {
    assert DropSpaces("-0e5") == "-0e5" && "-0e5"[1..] == "0e5";
    assert ExponentStart("0e5") == 1 && "0e5"[..1] == "0" && "0e5"[1..] == "e5";
    assert "0"[0] == '0' && ZeroMantissa("0");
    assert "e5"[1..] == "5" && IsDigit("5"[0]) && ExponentPart("e5");
  }

  /** Trailing whitespace, hexadecimal and other words are not zero. */
  lemma OtherTextsAreTrue()
    ensures Verdict("yes") && Verdict("0 ") && Verdict("0x0") && !Verdict("!1") && Verdict("!null")
  {
    WordIsTrue();
    TrailingSpaceIsTrue();
    HexIsTrue();
    assert "!1"[1..] == "1" && !ZeroMantissa("1");
    assert "!null"[1..] == "null";
  }

  lemma WordIsTrue()
    ensures Verdict("yes")
  {
    assert !ZeroMantissa("yes"[..ExponentStart("yes")]) by {
      assert "yes"[..ExponentStart("yes")][0] == 'y';
    }
  }

  lemma TrailingSpaceIsTrue()
    ensures Verdict("0 ")
  {
    assert !ZeroMantissa("0 ") by { assert "0 "[1] == ' '; }
  }

  lemma HexIsTrue()
    ensures Verdict("0x0")
  {
    assert !ZeroMantissa("0x0") by { assert "0x0"[1] == 'x'; }
  }

  /** How a branch condition is judged: getConditionStatus on the trimmed
      text, as the engine does for the if condition and for every elseif
      condition. */
  function Judge(o: Oracle): string -> Result<bool> {
    cond => ConditionStatus(Trim(cond), o)
  }

  /** A branch is taken when its condition holds and its body is not blank. */
  predicate Taken(b: (string, string), judge: string -> Result<bool>) {
    judge(b.0) == Ok(true) && !IsEmpty(b.1)
  }

  /** The selection an if/elseif/else block makes among its (condition,
      body) branches: the first taken branch, judging in order and stopping
      at an error; the else body when none is taken. */
  function Selected(branches: seq<(string, string)>, elseBody: string, judge: string -> Result<bool>): Result<string>
    decreases |branches|
  {
    if branches == [] then Ok(elseBody)
    else
      match judge(branches[0].0)
      case Err(e) => Err(e)
      case Ok(b) => if b && !IsEmpty(branches[0].1) then Ok(branches[0].1) else Selected(branches[1..], elseBody, judge)
  }

  /** One step of the selection, from position i of the branches. */
  lemma SelectedStep(bs: seq<(string, string)>, i: nat, elseBody: string, judge: string -> Result<bool>)
    requires i < |bs|
    ensures Selected(bs[i..], elseBody, judge) ==
      match judge(bs[i].0)
      case Err(e) => Err(e)
      case Ok(b) => if b && !IsEmpty(bs[i].1) then Ok(bs[i].1) else Selected(bs[i + 1..], elseBody, judge)
  {
    assert bs[i..][0] == bs[i];
    assert bs[i..][1..] == bs[i + 1..];
  }

  /** The branch selection of parseConditions: the if condition is always
      judged; each elseif condition only while the content chosen so far is
      blank; blank content at the end falls back to the else body. */
  method SelectBranch(ifCond: string, ifBody: string, elseIfs: seq<(string, string)>, elseBody: string,
                      judge: string -> Result<bool>)
    returns (r: Result<string>)
    ensures r == Selected([(ifCond, ifBody)] + elseIfs, elseBody, judge)
  {
    var all := [(ifCond, ifBody)] + elseIfs;
    SelectedStep(all, 0, elseBody, judge);
    assert all[0] == (ifCond, ifBody) && all[0..] == all && all[1..] == elseIfs;
    var status := judge(ifCond);
    if status.Err? {
      return Err(status.error);
    }
    var content := if status.value then ifBody else "";
    var i := 0;
    while i < |elseIfs|
      invariant 0 <= i <= |elseIfs|
      invariant Selected(all, elseBody, judge) ==
        if !IsEmpty(content) then Ok(content) else Selected(elseIfs[i..], elseBody, judge)
    {
      if IsEmpty(content) {
        SelectedStep(elseIfs, i, elseBody, judge);
        var s := judge(elseIfs[i].0);
        if s.Err? {
          return Err(s.error);
        }
        content := if s.value then elseIfs[i].1 else "";
      }
      i := i + 1;
    }
    if IsEmpty(content) {
      content := elseBody;
    }
    return Ok(content);
  }

  /** A first branch that is judged without error and not taken passes the
      selection on to the rest. */
  lemma SkipFirst(branches: seq<(string, string)>, elseBody: string, judge: string -> Result<bool>)
    requires branches != [] && judge(branches[0].0).Ok? && !Taken(branches[0], judge)
    ensures Selected(branches, elseBody, judge) == Selected(branches[1..], elseBody, judge)
  {
  }

  /** The first taken branch wins, whatever the branches after it hold,
      even conditions that would raise an error. */
  lemma {:induction false} FirstTakenWins(branches: seq<(string, string)>, k: nat, elseBody: string, judge: string -> Result<bool>)
    requires k < |branches| && Taken(branches[k], judge)
    requires forall i :: 0 <= i < k ==> judge(branches[i].0).Ok? && !Taken(branches[i], judge)
    ensures Selected(branches, elseBody, judge) == Ok(branches[k].1)
    decreases k
  {
    if k > 0 {
      var rest := branches[1..];
      SkipFirst(branches, elseBody, judge);
      forall i | 0 <= i < k - 1 ensures judge(rest[i].0).Ok? && !Taken(rest[i], judge) {
        assert rest[i] == branches[i + 1];
      }
      assert rest[k - 1] == branches[k];
      FirstTakenWins(rest, k - 1, elseBody, judge);
    }
  }

  /** When no branch is taken, the else body is used. */
  lemma {:induction false} NoneTaken(branches: seq<(string, string)>, elseBody: string, judge: string -> Result<bool>)
    requires forall i :: 0 <= i < |branches| ==> judge(branches[i].0).Ok? && !Taken(branches[i], judge)
    ensures Selected(branches, elseBody, judge) == Ok(elseBody)
    decreases |branches|
  {
    if branches != [] {
      var rest := branches[1..];
      SkipFirst(branches, elseBody, judge);
      forall i | 0 <= i < |rest| ensures judge(rest[i].0).Ok? && !Taken(rest[i], judge) {
        assert rest[i] == branches[i + 1];
      }
      NoneTaken(rest, elseBody, judge);
    }
  }

  /** An error in a condition that is reached is the block's error. */
  lemma {:induction false} FirstErrorRaised(branches: seq<(string, string)>, k: nat, elseBody: string, judge: string -> Result<bool>)
    requires k < |branches| && judge(branches[k].0).Err?
    requires forall i :: 0 <= i < k ==> judge(branches[i].0).Ok? && !Taken(branches[i], judge)
    ensures Selected(branches, elseBody, judge) == Err(judge(branches[k].0).error)
    decreases k
  {
    if k > 0 {
      var rest := branches[1..];
      SkipFirst(branches, elseBody, judge);
      forall i | 0 <= i < k - 1 ensures judge(rest[i].0).Ok? && !Taken(rest[i], judge) {
        assert rest[i] == branches[i + 1];
      }
      assert rest[k - 1] == branches[k];
      FirstErrorRaised(rest, k - 1, elseBody, judge);
    }
  }

  /** The outcome is one of the bodies: a taken branch's, or the else body. */
  lemma {:induction false} SelectedIsABody(branches: seq<(string, string)>, elseBody: string, judge: string -> Result<bool>)
    ensures Selected(branches, elseBody, judge).Ok? ==>
      Selected(branches, elseBody, judge).value == elseBody ||
      exists i :: 0 <= i < |branches| && Taken(branches[i], judge) &&
        Selected(branches, elseBody, judge).value == branches[i].1
    decreases |branches|
  {
    if branches != [] {
      var r := Selected(branches, elseBody, judge);
      match judge(branches[0].0)
      case Err(_) =>
      case Ok(b) =>
        if b && !IsEmpty(branches[0].1) {
          assert Taken(branches[0], judge) && r.value == branches[0].1;
        } else {
          SelectedIsABody(branches[1..], elseBody, judge);
          if r.Ok? && r.value != elseBody {
            var i :| 0 <= i < |branches[1..]| && Taken(branches[1..][i], judge) && r.value == branches[1..][i].1;
            assert branches[1..][i] == branches[i + 1];
          }
        }
    }
  }

  /** The inline ternary `(cond) ? yes : no`: the condition is judged as
      written, and the chosen side is trimmed. */
  function OneWay(cond: string, yes: string, no: string, o: Oracle): Result<string> {
    match ConditionStatus(cond, o)
    case Err(e) => Err(e)
    case Ok(b) => Ok(if b then Trim(yes) else Trim(no))
  }

  /** The ternary picks the trimmed true side exactly when the condition
      holds, the trimmed false side exactly when it does not, and its text
      is its own trim. */
  lemma OneWayChoice(cond: string, yes: string, no: string, o: Oracle)
    ensures OneWay(cond, yes, no, o).Err? <==> ConditionStatus(cond, o).Err?
    ensures ConditionStatus(cond, o) == Ok(true) ==> OneWay(cond, yes, no, o) == Ok(Trim(yes))
    ensures ConditionStatus(cond, o) == Ok(false) ==> OneWay(cond, yes, no, o) == Ok(Trim(no))
    ensures OneWay(cond, yes, no, o).Ok? ==> Trim(OneWay(cond, yes, no, o).value) == OneWay(cond, yes, no, o).value
  {
    match ConditionStatus(cond, o)
    case Err(e) =>
    case Ok(b) =>
      if b {
        TrimIdempotent(yes);
      } else {
        TrimIdempotent(no);
      }
  }

  /** The null-coalesce `main ?? other`: both sides are trimmed and compiled
      (so an error on either side is raised), and the other side is used
      when the main side's text is blank. */
  function Coalesce(main: string, other: string, compile: string -> Result<string>): Result<string> {
    match compile(Trim(main))
    case Err(e) => Err(e)
    case Ok(m) =>
      match compile(Trim(other))
      case Err(e) => Err(e)
      case Ok(x) => Ok(if IsEmpty(m) then x else m)
  }

  /** The fallback is taken exactly when the main text is blank, the result
      is blank exactly when both texts are, and an error compiling the
      unused side still surfaces. */
  lemma CoalesceChoice(main: string, other: string, compile: string -> Result<string>)
    ensures compile(Trim(main)).Ok? && compile(Trim(other)).Ok? ==>
      var m := compile(Trim(main)).value;
      var x := compile(Trim(other)).value;
      Coalesce(main, other, compile).Ok? &&
      (IsEmpty(m) ==> Coalesce(main, other, compile).value == x) &&
      (!IsEmpty(m) ==> Coalesce(main, other, compile).value == m) &&
      (IsEmpty(Coalesce(main, other, compile).value) <==> IsEmpty(m) && IsEmpty(x))
    ensures compile(Trim(other)).Err? ==> Coalesce(main, other, compile).Err?
    ensures compile(Trim(main)).Err? ==> Coalesce(main, other, compile) == compile(Trim(main))
    ensures compile(Trim(main)).Ok? && compile(Trim(other)).Err? ==>
      Coalesce(main, other, compile) == compile(Trim(other))
  {
  }
}
