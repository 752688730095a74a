/**
 * The password regular expressions, each written out as the character or substring test it performs.
 * The backend controller and the frontend helper declare the same eight constants; they are stated
 * once here.
 */
module PasswordRegex {
  import opened JsText

  /** MIN_PASSWORD_LENGTH. */
  const MinPasswordLength: nat := 16

  /** The class of HAS_SPECIAL_CHAR_REGEX, `[!@#$%^&*(),.?":{}|<>]`. */
  const SpecialChars: string := "!@#$%^&*(),.?\":{}|<>"

  /** `/[A-Z]/.test(s)`. */
  predicate HasUppercase(s: string) {
    exists i | 0 <= i < |s| :: 'A' <= s[i] <= 'Z'
  }

  /** `/[a-z]/.test(s)`. */
  predicate HasLowercase(s: string) {
    exists i | 0 <= i < |s| :: 'a' <= s[i] <= 'z'
  }

  /** `/[0-9]/.test(s)`. */
  predicate HasDigit(s: string) {
    exists i | 0 <= i < |s| :: '0' <= s[i] <= '9'
  }

  /** `/[!@#$%^&*(),.?":{}|<>]/.test(s)`. */
  predicate HasSpecialChar(s: string) {
    exists i | 0 <= i < |s| :: s[i] in SpecialChars
  }

  /** `(.)\1{3,}` matches at `i`: a character `.` accepts, then three more copies of it. */
  predicate RunOfFourAt(s: string, i: int) {
    0 <= i && i + 3 < |s| && !IsLineTerminator(s[i])
    && s[i + 1] == s[i] && s[i + 2] == s[i] && s[i + 3] == s[i]
  }

  /** `/(.)\1{3,}/.test(s)`: some character is repeated four or more times in a row. */
  predicate HasRepeatedRun(s: string) {
    exists i | 0 <= i < |s| :: RunOfFourAt(s, i)
  }

  /** The alternatives of SIMPLE_NUMBER_SEQUENCES_REGEX, in the source's order. */
  const DigitRuns: seq<string> :=
    ["123", "234", "345", "456", "567", "678", "789", "890",
     "098", "987", "876", "765", "654", "543", "432", "321"]

  /** The alternatives of SIMPLE_ALPHABET_SEQUENCES_REGEX, in the source's order. */
  const AlphabetRuns: seq<string> :=
    ["abc", "bcd", "cde", "def", "efg", "fgh", "ghi", "hij", "ijk", "jkl", "klm", "lmn",
     "mno", "nop", "opq", "pqr", "qrs", "rst", "stu", "tuv", "uvw", "vwx", "wxy", "xyz"]

  /** `SIMPLE_NUMBER_SEQUENCES_REGEX.test(s)`: one of the digit runs occurs in `s`. */
  predicate HasDigitRun(s: string) {
    exists k | 0 <= k < |DigitRuns| :: Contains(s, DigitRuns[k])
  }

  /**
   * `SIMPLE_ALPHABET_SEQUENCES_REGEX.test(s)`; the `i` flag makes the letters match in either case,
   * and no character outside ASCII canonicalises to an ASCII letter.
   */
  predicate HasAlphabetRun(s: string) {
    exists k | 0 <= k < |AlphabetRuns| :: Contains(Lower(s), AlphabetRuns[k])
  }

  /** Three letters in alphabetical order start at `i` of `t`. */
  predicate AscendingLettersAt(t: string, i: int) {
    0 <= i && i + 2 < |t| && 'a' <= t[i] <= 'x'
    && t[i + 1] as int == t[i] as int + 1 && t[i + 2] as int == t[i] as int + 2
  }

  lemma AlphabetRunsAreConsecutive()
    ensures |AlphabetRuns| == 24
    ensures forall k :: 0 <= k < 24 ==>
      AlphabetRuns[k] == [('a' as int + k) as char, ('a' as int + k + 1) as char, ('a' as int + k + 2) as char]
  {
  }

  /**
   * The 24 listed letter runs are exactly the triples of consecutive letters: the regex matches
   * iff, ignoring case, three letters in alphabetical order stand side by side.
   */
  lemma AlphabetRunIff(s: string)
    ensures HasAlphabetRun(s) <==> exists i | 0 <= i < |s| :: AscendingLettersAt(Lower(s), i)
  {
    var t := Lower(s);
    AlphabetRunsAreConsecutive();
    if HasAlphabetRun(s) {
      var k, i :| 0 <= k < |AlphabetRuns| && 0 <= i <= |t| - 3 && OccursAt(t, AlphabetRuns[k], i);
      var run := AlphabetRuns[k];
      assert OccursAt(t, run, i) && |run| == 3;
      assert t[i] == run[0] && t[i + 1] == run[1] && t[i + 2] == run[2];
      assert AscendingLettersAt(t, i);
    }
    if i :| 0 <= i < |s| && AscendingLettersAt(t, i) {
      var k := t[i] as int - 'a' as int;
      assert t[i..i + 3] == [t[i], t[i + 1], t[i + 2]] == AlphabetRuns[k];
      assert OccursAt(t, AlphabetRuns[k], i);
    }
  }

  function DigitValue(c: char): int {
    c as int - '0' as int
  }

  /** The digit after `a`, counting round from 9 to 0. */
  function Next(a: int): int {
    if a == 9 then 0 else a + 1
  }

  /** The digit before `a`, counting round from 0 to 9. */
  function Prev(a: int): int {
    if a == 0 then 9 else a - 1
  }

  /**
   * Three digits that step by one, up or down, wrapping from 9 to 0: the listed numeric runs are
   * these triples except "012" and "901" among the rising ones and "210" and "109" among the falling.
   */
  predicate DigitStepAt(t: string, i: int) {
    0 <= i && i + 2 < |t| && '0' <= t[i] <= '9' && '0' <= t[i + 1] <= '9' && '0' <= t[i + 2] <= '9'
    && var a, b, c := DigitValue(t[i]), DigitValue(t[i + 1]), DigitValue(t[i + 2]);
    || (b == Next(a) && c == Next(b) && a != 0 && a != 9)
    || (b == Prev(a) && c == Prev(b) && a != 1 && a != 2)
  }

  function Digit(a: int): char
    requires 0 <= a <= 9
  {
    ('0' as int + a) as char
  }

  /** The three digits that start at digit `a` and step by one, upwards or downwards. */
  function StepTriple(a: int, rising: bool): string
    requires 0 <= a <= 9
  {
    if rising then [Digit(a), Digit(Next(a)), Digit(Next(Next(a)))]
    else [Digit(a), Digit(Prev(a)), Digit(Prev(Prev(a)))]
  }

  /** The first digit of the `k`-th listed run: 1..8 for the rising runs, then 0, 9..3 for the falling. */
  function FirstDigit(k: int): int {
    if k < 8 then k + 1 else if k == 8 then 0 else 18 - k
  }

  lemma DigitRunsAreSteps()
    ensures |DigitRuns| == 16
    ensures forall k :: 0 <= k < 16 ==> 0 <= FirstDigit(k) <= 9 && DigitRuns[k] == StepTriple(FirstDigit(k), k < 8)
  {
  }

  lemma StepAtFromRun(s: string, i: int, k: int)
    requires 0 <= k < |DigitRuns| && OccursAt(s, DigitRuns[k], i)
    ensures DigitStepAt(s, i)
  {
    DigitRunsAreSteps();
    var a := FirstDigit(k);
    assert s[i..i + 3] == StepTriple(a, k < 8);
    assert s[i] == s[i..i + 3][0] && s[i + 1] == s[i..i + 3][1] && s[i + 2] == s[i..i + 3][2];
  }

  /** The three characters at `i` are exactly the triple of their first digit. */
  lemma StepTripleMatches(s: string, i: int, rising: bool)
    requires 0 <= i && i + 2 < |s| && '0' <= s[i] <= '9' && '0' <= s[i + 1] <= '9'
    requires s[i + 1] == Digit(if rising then Next(DigitValue(s[i])) else Prev(DigitValue(s[i])))
    requires s[i + 2] == Digit(if rising then Next(DigitValue(s[i + 1])) else Prev(DigitValue(s[i + 1])))
    ensures s[i..i + 3] == StepTriple(DigitValue(s[i]), rising)
  {
    var a := DigitValue(s[i]);
    assert s[i] == Digit(a);
    assert s[i..i + 3] == [s[i], s[i + 1], s[i + 2]];
  }

  lemma RunFromStepAt(s: string, i: int) returns (k: int)
    requires DigitStepAt(s, i)
    ensures 0 <= k < |DigitRuns| && OccursAt(s, DigitRuns[k], i)
  {
    var a, b := DigitValue(s[i]), DigitValue(s[i + 1]);
    var rising := b == Next(a) && DigitValue(s[i + 2]) == Next(b) && a != 0 && a != 9;
    k := if rising then a - 1 else if a == 0 then 8 else 18 - a;
    assert s[i + 1] == Digit(b) && s[i + 2] == Digit(DigitValue(s[i + 2]));
    StepTripleMatches(s, i, rising);
    DigitRunsAreSteps();
    assert FirstDigit(k) == a && (k < 8) == rising;
  }

  /** The numeric-run regex matches iff three digits stepping by one (as above) stand side by side. */
  lemma DigitRunIff(s: string)
    ensures HasDigitRun(s) <==> exists i | 0 <= i < |s| :: DigitStepAt(s, i)
  {
    if HasDigitRun(s) {
      var k, i :| 0 <= k < |DigitRuns| && 0 <= i <= |s| - 3 && OccursAt(s, DigitRuns[k], i);
      StepAtFromRun(s, i, k);
    }
    if i :| 0 <= i < |s| && DigitStepAt(s, i) {
      var k := RunFromStepAt(s, i);
    }
  }

  /** The list includes the wrap-arounds "890" and "098" but neither "012", "210" nor "901". */
  lemma DigitRunListing()
    ensures HasDigitRun("890") && HasDigitRun("098")
    ensures !HasDigitRun("012") && !HasDigitRun("210") && !HasDigitRun("901")
  {
    DigitRunIff("890");
    DigitRunIff("098");
    DigitRunIff("012");
    DigitRunIff("210");
    DigitRunIff("901");
    assert DigitStepAt("890", 0);
    assert DigitStepAt("098", 0);
  }
}
