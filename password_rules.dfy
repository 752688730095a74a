/**
 * The frontend's `passwordRules`: eight independent tests, each guarded by `value &&`, listed in
 * the order their messages are shown.
 */
module PasswordRules {
  import opened Wrappers
  import opened JsText
  import opened PasswordRegex

  datatype Rule =
    | MinLength      // at least MIN_PASSWORD_LENGTH characters
    | Uppercase      // at least one of [A-Z]
    | Lowercase      // at least one of [a-z]
    | Number         // at least one of [0-9]
    | SpecialChar    // at least one of the special characters
    | NoRepeats      // no character four times in a row
    | NoNumberRun    // none of the listed digit runs
    | NoAlphabetRun  // none of the listed letter runs, in either case

  const PasswordRules: seq<Rule> :=
    [MinLength, Uppercase, Lowercase, Number, SpecialChar, NoRepeats, NoNumberRun, NoAlphabetRun]

  /** `rule.test(value)`: `value && ...` is falsy for `undefined` and for the empty string. */
  predicate Passes(rule: Rule, value: Option<string>) {
    match value
    case None => false
    case Some(v) =>
      v != "" &&
      match rule
      case MinLength => |v| >= MinPasswordLength
      case Uppercase => HasUppercase(v)
      case Lowercase => HasLowercase(v)
      case Number => HasDigit(v)
      case SpecialChar => HasSpecialChar(v)
      case NoRepeats => !HasRepeatedRun(v)
      case NoNumberRun => !HasDigitRun(v)
      case NoAlphabetRun => !HasAlphabetRun(v)
  }

  /** Position of a rule in the list: the order in which its message appears. */
  function Position(rule: Rule): (k: nat)
    ensures k < |PasswordRules| && PasswordRules[k] == rule
  {
    match rule
    case MinLength => 0
    case Uppercase => 1
    case Lowercase => 2
    case Number => 3
    case SpecialChar => 4
    case NoRepeats => 5
    case NoNumberRun => 6
    case NoAlphabetRun => 7
  }

  /** The rules of `rules` that `value` fails, kept in list order. */
  function FailingAmong(rules: seq<Rule>, value: Option<string>): (r: seq<Rule>)
    ensures forall rule :: rule in r <==> rule in rules && !Passes(rule, value)
    ensures |r| <= |rules|
  {
    if rules == [] then []
    else
      var rest := FailingAmong(rules[1..], value);
      assert forall rule :: rule in rules <==> rule == rules[0] || rule in rules[1..];
      if Passes(rules[0], value) then rest else [rules[0]] + rest
  }

  /** The rules whose messages the form shows for `value`. */
  function FailingRules(value: Option<string>): (r: seq<Rule>)
    ensures forall rule :: rule in r <==> !Passes(rule, value)
    ensures InListOrder(r)
  {
    EveryRuleListed();
    ListInOrder();
    FailingAmongKeepsOrder(PasswordRules, value);
    FailingAmong(PasswordRules, value)
  }

  /** The list itself is in list order: positions are the indices. */
  lemma ListInOrder()
    ensures InListOrder(PasswordRules)
  {
    forall i, j | 0 <= i < j < |PasswordRules| ensures Position(PasswordRules[i]) < Position(PasswordRules[j]) {
      assert Position(PasswordRules[i]) == i && Position(PasswordRules[j]) == j;
    }
  }

  /** Every rule stands in the list. */
  lemma EveryRuleListed()
    ensures forall rule :: rule in PasswordRules
  {
    forall rule ensures rule in PasswordRules {
      assert PasswordRules[Position(rule)] == rule;
    }
  }

  /** `rs` lists rules in the order in which they stand in PasswordRules. */
  predicate InListOrder(rs: seq<Rule>) {
    forall i, j :: 0 <= i < j < |rs| ==> Position(rs[i]) < Position(rs[j])
  }

  /** A head standing before every entry of an ordered list keeps it ordered. */
  lemma ConsInListOrder(x: Rule, rest: seq<Rule>)
    requires InListOrder(rest) && forall y :: y in rest ==> Position(x) < Position(y)
    ensures InListOrder([x] + rest)
  {
    var r := [x] + rest;
    forall i, j | 0 <= i < j < |r| ensures Position(r[i]) < Position(r[j]) {
      assert r[j] == rest[j - 1];
      if i == 0 {
        assert rest[j - 1] in rest;
      } else {
        assert r[i] == rest[i - 1];
      }
    }
  }

  /** In an ordered list the head stands before every later entry. */
  lemma HeadBeforeTail(rules: seq<Rule>)
    requires rules != [] && InListOrder(rules)
    ensures forall y :: y in rules[1..] ==> Position(rules[0]) < Position(y)
  {
    forall y | y in rules[1..] ensures Position(rules[0]) < Position(y) {
      var j :| 0 <= j < |rules[1..]| && rules[1..][j] == y;
      assert rules[j + 1] == y;
    }
  }

  /** The failing rules appear in the order of the list (each rule is evaluated on its own). */
  lemma {:induction false} FailingAmongKeepsOrder(rules: seq<Rule>, value: Option<string>)
    requires InListOrder(rules)
    ensures InListOrder(FailingAmong(rules, value))
  {
    if rules != [] {
      assert InListOrder(rules[1..]);
      FailingAmongKeepsOrder(rules[1..], value);
      if !Passes(rules[0], value) {
        HeadBeforeTail(rules);
        ConsInListOrder(rules[0], FailingAmong(rules[1..], value));
      }
    }
  }

  /** A value passes every rule iff it satisfies all eight conditions. */
  lemma PassesAllIff(v: string)
    ensures FailingRules(Some(v)) == [] <==>
      && |v| >= MinPasswordLength
      && HasUppercase(v) && HasLowercase(v) && HasDigit(v) && HasSpecialChar(v)
      && !HasRepeatedRun(v) && !HasDigitRun(v) && !HasAlphabetRun(v)
  {
    var r := FailingRules(Some(v));
    if r != [] {
      assert r[0] in r;
    } else {
      forall rule ensures Passes(rule, Some(v)) {
        assert PasswordRules[Position(rule)] == rule;
        assert rule in PasswordRules && rule !in r;
      }
      assert Passes(MinLength, Some(v)) && Passes(Uppercase, Some(v)) && Passes(Lowercase, Some(v));
      assert Passes(Number, Some(v)) && Passes(SpecialChar, Some(v)) && Passes(NoRepeats, Some(v));
      assert Passes(NoNumberRun, Some(v)) && Passes(NoAlphabetRun, Some(v));
    }
  }

  /** An empty or undefined value fails every rule, because of the `value &&` guard. */
  lemma EmptyFailsEveryRule(value: Option<string>)
    requires value == None || value == Some("")
    ensures FailingRules(value) == PasswordRules
  {
    NoneFailAllFail(PasswordRules, value);
  }

  lemma {:induction false} NoneFailAllFail(rules: seq<Rule>, value: Option<string>)
    requires forall rule :: !Passes(rule, value)
    ensures FailingAmong(rules, value) == rules
  {
    if rules != [] {
      NoneFailAllFail(rules[1..], value);
      assert [rules[0]] + rules[1..] == rules;
    }
  }

  /** The lower-cased copy of a slice is the slice of the lower-cased string. */
  lemma LowerSlice(s: string, i: int, j: int)
    requires 0 <= i <= j <= |s|
    ensures Lower(s)[i..j] == Lower(s[i..j])
  {
  }

  /** The letter-run rule ignores case: a value containing "ABC" (or "aBc", ...) is rejected. */
  lemma UppercaseRunRejected(v: string, i: int)
    requires 0 <= i && i + 3 <= |v| && Lower(v[i..i + 3]) == "abc"
    ensures !Passes(NoAlphabetRun, Some(v))
  {
    LowerSlice(v, i, i + 3);
    assert OccursAt(Lower(v), AlphabetRuns[0], i);
  }
}
