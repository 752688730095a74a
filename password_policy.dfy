/**
 * The backend's password policy in the auth controller: the configured forbidden patterns,
 * `isCommonPattern`, and the ordered check list whose first failing entry is reported.
 */
module PasswordPolicy {
  import opened Wrappers
  import opened JsText
  import opened PasswordRegex
  import PasswordRules

  /** Trims every piece and drops the empty ones (`.map(trim).filter(length > 0)`). */
  function TrimmedNonEmpty(pieces: seq<string>): (r: seq<string>)
    ensures forall p :: p in r <==> p != "" && exists q :: q in pieces && Trim(q) == p
  {
    if pieces == [] then []
    else
      var rest := TrimmedNonEmpty(pieces[1..]);
      assert forall q :: q in pieces <==> q == pieces[0] || q in pieces[1..];
      var t := Trim(pieces[0]);
      if |t| > 0 then [t] + rest else rest
  }

  /**
   * `commonPatterns`: COMMON_PASSWORD_PATTERNS (or "" when unset) split on commas, each entry
   * trimmed, empty entries dropped; every entry is non-empty, trimmed and free of commas.
   */
  function CommonPatterns(config: Option<string>): (patterns: seq<string>)
    ensures forall p :: p in patterns ==> p != "" && Trim(p) == p && ',' !in p
    ensures forall p :: p in patterns <==> p != "" && exists q :: q in Split(config.GetOr(""), ",") && Trim(q) == p
  {
    var pieces := Split(config.GetOr(""), ",");
    SplitPiecesAvoidSeparator(config.GetOr(""), ',');
    forall q | q in pieces ensures ',' !in Trim(q) && Trim(Trim(q)) == Trim(q) {
      TrimIdempotent(q);
      var t := Trim(q);
      assert forall k :: 0 <= k < |t| ==> t[k] == q[Lead(q) + k];
    }
    TrimmedNonEmpty(pieces)
  }

  /** The reference meaning of `isCommonPattern(password)`: any of its four tests fires. */
  predicate IsCommon(password: string, patterns: seq<string>) {
    || (exists k | 0 <= k < |patterns| :: Contains(Lower(password), patterns[k]))
    || HasRepeatedRun(password)
    || HasDigitRun(password)
    || HasAlphabetRun(Lower(password))
  }

  /** `isCommonPattern`: the pattern loop with its early return, then the three regex tests. */
  method IsCommonPattern(password: string, patterns: seq<string>) returns (common: bool)
    ensures common == IsCommon(password, patterns)
  {
    var lowerPassword := Lower(password);
    var i := 0;
    while i < |patterns|
      invariant 0 <= i <= |patterns|
      invariant forall k :: 0 <= k < i ==> !Contains(lowerPassword, patterns[k])
    {
      if Contains(lowerPassword, patterns[i]) {
        return true;
      }
      i := i + 1;
    }
    if HasRepeatedRun(password) {
      return true;
    }
    if HasDigitRun(password) {
      return true;
    }
    if HasAlphabetRun(lowerPassword) {
      return true;
    }
    return false;
  }

  /** The entries of `passwordValidationChecks`, named by the message each one answers with. */
  datatype PasswordCheck = TooShort | NoUppercase | NoLowercase | NoNumber | NoSpecialChar | CommonPattern

  const CheckOrder: seq<PasswordCheck> :=
    [TooShort, NoUppercase, NoLowercase, NoNumber, NoSpecialChar, CommonPattern]

  /** Position of a check in the list. */
  function Rank(check: PasswordCheck): (k: nat)
    ensures k < |CheckOrder| && CheckOrder[k] == check
  {
    match check
    case TooShort => 0
    case NoUppercase => 1
    case NoLowercase => 2
    case NoNumber => 3
    case NoSpecialChar => 4
    case CommonPattern => 5
  }

  /** The `check` field of a list entry: true when the password fails it. */
  predicate Fails(check: PasswordCheck, password: string, patterns: seq<string>) {
    match check
    case TooShort => |password| < MinPasswordLength
    case NoUppercase => !HasUppercase(password)
    case NoLowercase => !HasLowercase(password)
    case NoNumber => !HasDigit(password)
    case NoSpecialChar => !HasSpecialChar(password)
    case CommonPattern => IsCommon(password, patterns)
  }

  /** The first entry of `checks` that the password fails. */
  function FirstFailingOf(checks: seq<PasswordCheck>, password: string, patterns: seq<string>): Option<PasswordCheck> {
    if checks == [] then None
    else if Fails(checks[0], password, patterns) then Some(checks[0])
    else FirstFailingOf(checks[1..], password, patterns)
  }

  /** The check whose message `register` answers with, or None when the local checks all pass. */
  function FirstFailure(password: string, patterns: seq<string>): Option<PasswordCheck> {
    FirstFailingOf(CheckOrder, password, patterns)
  }

  lemma {:induction false} FirstFailingOfIsFirst(checks: seq<PasswordCheck>, password: string, patterns: seq<string>)
    ensures FirstFailingOf(checks, password, patterns) == None <==>
      forall j :: 0 <= j < |checks| ==> !Fails(checks[j], password, patterns)
    ensures FirstFailingOf(checks, password, patterns).Some? ==>
      exists i :: 0 <= i < |checks| && checks[i] == FirstFailingOf(checks, password, patterns).value
        && Fails(checks[i], password, patterns)
        && forall j :: 0 <= j < i ==> !Fails(checks[j], password, patterns)
  {
    if checks != [] && !Fails(checks[0], password, patterns) {
      FirstFailingOfIsFirst(checks[1..], password, patterns);
      var r := FirstFailingOf(checks, password, patterns);
      if r.Some? {
        var i :| 0 <= i < |checks[1..]| && checks[1..][i] == r.value && Fails(checks[1..][i], password, patterns)
          && forall j :: 0 <= j < i ==> !Fails(checks[1..][j], password, patterns);
        assert checks[i + 1] == r.value;
        forall j | 0 <= j < i + 1 ensures !Fails(checks[j], password, patterns) {
          if j > 0 { assert checks[j] == checks[1..][j - 1]; }
        }
      }
      forall j | 0 <= j < |checks| && j > 0 ensures checks[j] == checks[1..][j - 1] { }
    }
  }

  /** The answered check fails, and every check ranked before it passes. */
  lemma FirstFailureFails(password: string, patterns: seq<string>)
    ensures FirstFailure(password, patterns) == None <==> forall c :: !Fails(c, password, patterns)
    ensures FirstFailure(password, patterns).Some? ==>
      var c := FirstFailure(password, patterns).value;
      Fails(c, password, patterns) && forall d :: Rank(d) < Rank(c) ==> !Fails(d, password, patterns)
  {
    FirstFailingOfIsFirst(CheckOrder, password, patterns);
    var r := FirstFailure(password, patterns);
    if r.Some? {
      var i :| 0 <= i < |CheckOrder| && CheckOrder[i] == r.value && Fails(CheckOrder[i], password, patterns)
        && forall j :: 0 <= j < i ==> !Fails(CheckOrder[j], password, patterns);
      assert Rank(r.value) == i;
      forall d | Rank(d) < Rank(r.value) ensures !Fails(d, password, patterns) {
        assert CheckOrder[Rank(d)] == d;
      }
    }
    if exists c :: Fails(c, password, patterns) {
      var c :| Fails(c, password, patterns);
      assert Fails(CheckOrder[Rank(c)], password, patterns);
    }
  }

  /**
   * The answer is exactly the first failing check in the fixed order length, uppercase,
   * lowercase, number, special character, common pattern; None iff every check passes.
   */
  lemma FirstFailureIsFirst(password: string, patterns: seq<string>)
    ensures FirstFailure(password, patterns) == None <==> forall c :: !Fails(c, password, patterns)
    ensures forall c :: FirstFailure(password, patterns) == Some(c) <==>
      Fails(c, password, patterns) && forall d :: Rank(d) < Rank(c) ==> !Fails(d, password, patterns)
  {
    FirstFailureFails(password, patterns);
    var r := FirstFailure(password, patterns);
    forall c | Fails(c, password, patterns) && forall d :: Rank(d) < Rank(c) ==> !Fails(d, password, patterns)
      ensures r == Some(c)
    {
      assert r.Some?;
      assert Rank(r.value) == Rank(c);
      assert CheckOrder[Rank(c)] == c;
    }
  }

  /** `passwordValidationChecks` and the loop over it that returns at the first failing entry. */
  method RunPasswordChecks(password: string, patterns: seq<string>) returns (failure: Option<PasswordCheck>)
    ensures failure == FirstFailure(password, patterns)
  {
    var common := IsCommonPattern(password, patterns);
    var checks := [
      (TooShort, |password| < MinPasswordLength),
      (NoUppercase, !HasUppercase(password)),
      (NoLowercase, !HasLowercase(password)),
      (NoNumber, !HasDigit(password)),
      (NoSpecialChar, !HasSpecialChar(password)),
      (CommonPattern, common)
    ];
    CheckListInOrder(password, patterns, common, checks);
    var i := 0;
    while i < |checks|
      invariant 0 <= i <= |checks|
      invariant FirstFailingOf(CheckOrder[i..], password, patterns) == FirstFailure(password, patterns)
    {
      assert checks[i].0 == CheckOrder[i] && checks[i].1 == Fails(CheckOrder[i], password, patterns);
      if checks[i].1 {
        return Some(checks[i].0);
      }
      assert CheckOrder[i..][1..] == CheckOrder[i + 1..];
      i := i + 1;
    }
    return None;
  }

  /** The (check, failed) pairs `register` evaluates follow `CheckOrder`, each with its verdict. */
  lemma CheckListInOrder(password: string, patterns: seq<string>, common: bool, checks: seq<(PasswordCheck, bool)>)
    requires common == IsCommon(password, patterns)
    requires checks == [
      (TooShort, |password| < MinPasswordLength),
      (NoUppercase, !HasUppercase(password)),
      (NoLowercase, !HasLowercase(password)),
      (NoNumber, !HasDigit(password)),
      (NoSpecialChar, !HasSpecialChar(password)),
      (CommonPattern, common)
    ]
    ensures |checks| == |CheckOrder|
    ensures forall j :: 0 <= j < |checks| ==>
      checks[j].0 == CheckOrder[j] && checks[j].1 == Fails(CheckOrder[j], password, patterns)
  {
  }

  /** A password shorter than 16 characters is refused for its length, whatever else it holds. */
  lemma ShortPasswordFailsLength(password: string, patterns: seq<string>)
    requires |password| < MinPasswordLength
    ensures FirstFailure(password, patterns) == Some(TooShort)
  {
  }

  /** The letter-run test gives the same answer on the password and on its lower-cased copy. */
  lemma AlphabetRunOfLower(password: string)
    ensures HasAlphabetRun(Lower(password)) == HasAlphabetRun(password)
  {
    LowerIdempotent(password);
  }

  /** A password the local checks accept meets each of the six requirements. */
  lemma AcceptedPasswordIsStrong(password: string, patterns: seq<string>)
    requires FirstFailure(password, patterns) == None
    ensures |password| >= MinPasswordLength
    ensures HasUppercase(password) && HasLowercase(password) && HasDigit(password) && HasSpecialChar(password)
    ensures !IsCommon(password, patterns)
  {
    FirstFailureIsFirst(password, patterns);
    assert !Fails(TooShort, password, patterns) && !Fails(NoUppercase, password, patterns);
    assert !Fails(NoLowercase, password, patterns) && !Fails(NoNumber, password, patterns);
    assert !Fails(NoSpecialChar, password, patterns) && !Fails(CommonPattern, password, patterns);
  }

  /** A password the backend's local checks accept passes every frontend rule. */
  lemma BackendAcceptanceImpliesFrontend(password: string, patterns: seq<string>)
    requires FirstFailure(password, patterns) == None
    ensures PasswordRules.FailingRules(Some(password)) == []
  {
    AcceptedPasswordIsStrong(password, patterns);
    AlphabetRunOfLower(password);
    PasswordRules.PassesAllIff(password);
  }

  /** The witness used below: a password every frontend rule accepts that contains "salon". */
  const SalonPassword: string := "Salon!Booking7Qz4Wm"

  lemma SalonPasswordHasNoRuns()
    ensures !HasRepeatedRun(SalonPassword) && !HasDigitRun(SalonPassword) && !HasAlphabetRun(SalonPassword)
  {
    var p := SalonPassword;
    var t := Lower(p);
    assert t == "salon!booking7qz4wm";
    forall i | 0 <= i < |p| ensures !RunOfFourAt(p, i) && !DigitStepAt(p, i) && !AscendingLettersAt(t, i) {
    }
    DigitRunIff(p);
    AlphabetRunIff(p);
  }

  lemma SalonPasswordHasEveryClass()
    ensures |SalonPassword| >= MinPasswordLength
    ensures HasUppercase(SalonPassword) && HasLowercase(SalonPassword)
    ensures HasDigit(SalonPassword) && HasSpecialChar(SalonPassword)
  {
    var p := SalonPassword;
    assert 'A' <= p[0] <= 'Z' && 'a' <= p[1] <= 'z' && p[5] in SpecialChars && '0' <= p[13] <= '9';
  }

  lemma SalonPasswordPassesFrontend()
    ensures PasswordRules.FailingRules(Some(SalonPassword)) == []
  {
    SalonPasswordHasNoRuns();
    SalonPasswordHasEveryClass();
    PasswordRules.PassesAllIff(SalonPassword);
  }

  lemma SalonPasswordIsCommon()
    ensures IsCommon(SalonPassword, ["salon"])
  {
    var t := Lower(SalonPassword);
    assert t[0] == 's' && t[1] == 'a' && t[2] == 'l' && t[3] == 'o' && t[4] == 'n';
    assert t[0..5] == "salon";
    assert OccursAt(t, ["salon"][0], 0);
  }

  /**
   * The converse fails: the frontend has no configured pattern list, so a password it accepts
   * can still be refused as common by the backend.
   */
  lemma FrontendAcceptanceDoesNotImplyBackend()
    ensures PasswordRules.FailingRules(Some(SalonPassword)) == []
    ensures FirstFailure(SalonPassword, ["salon"]) == Some(CommonPattern)
  {
    SalonPasswordPassesFrontend();
    SalonPasswordHasEveryClass();
    SalonPasswordIsCommon();
    CommonIsTheOnlyFailure(SalonPassword, ["salon"]);
  }

  /** A password that meets the length and the four character classes is refused, if at all, as common. */
  lemma CommonIsTheOnlyFailure(password: string, patterns: seq<string>)
    requires |password| >= MinPasswordLength
    requires HasUppercase(password) && HasLowercase(password) && HasDigit(password) && HasSpecialChar(password)
    ensures FirstFailure(password, patterns) == if IsCommon(password, patterns) then Some(CommonPattern) else None
  {
    FirstFailureIsFirst(password, patterns);
    assert forall d :: Rank(d) < Rank(CommonPattern) ==> !Fails(d, password, patterns);
    if !IsCommon(password, patterns) {
      assert forall c :: !Fails(c, password, patterns);
    }
  }
}
