/**
 * The string built-ins the source relies on, stated over `seq<char>`:
 * `String.prototype.trim`, ASCII case mapping, `includes` and `split`/`join`.
 */
module JsText {

  /** ECMAScript WhiteSpace and LineTerminator code points: what `trim` removes. */
  predicate IsWhitespace(c: char) {
    || c == '\U{9}' || c == '\U{A}' || c == '\U{B}' || c == '\U{C}' || c == '\U{D}'
    || c == ' ' || c == '\U{A0}' || c == '\U{1680}'
    || ('\U{2000}' <= c <= '\U{200A}')
    || c == '\U{2028}' || c == '\U{2029}' || c == '\U{202F}' || c == '\U{205F}'
    || c == '\U{3000}' || c == '\U{FEFF}'
  }

  /** LineTerminator code points: the characters the regex `.` does not match. */
  predicate IsLineTerminator(c: char) {
    c == '\U{A}' || c == '\U{D}' || c == '\U{2028}' || c == '\U{2029}'
  }

  /** Drops the leading whitespace. */
  function TrimStart(s: string): (r: string)
    ensures |r| <= |s|
  {
    if |s| > 0 && IsWhitespace(s[0]) then TrimStart(s[1..]) else s
  }

  /** The result of `TrimStart` is a suffix of `s` that starts with no whitespace, after only whitespace. */
  lemma {:induction false} TrimStartMeaning(s: string)
    ensures TrimStart(s) == s[|s| - |TrimStart(s)|..]
    ensures forall k :: 0 <= k < |s| - |TrimStart(s)| ==> IsWhitespace(s[k])
    ensures TrimStart(s) != [] ==> !IsWhitespace(TrimStart(s)[0])
    decreases |s|
  {
    if |s| > 0 && IsWhitespace(s[0]) {
      TrimStartMeaning(s[1..]);
      forall k | 1 <= k < |s| - |TrimStart(s)| ensures IsWhitespace(s[k]) {
        assert s[k] == s[1..][k - 1];
      }
    }
  }

  /** Drops the trailing whitespace. */
  function TrimEnd(s: string): (r: string)
    ensures |r| <= |s|
  {
    if |s| > 0 && IsWhitespace(s[|s| - 1]) then TrimEnd(s[..|s| - 1]) else s
  }

  /** The result of `TrimEnd` is a prefix of `s` that ends with no whitespace, before only whitespace. */
  lemma {:induction false} TrimEndMeaning(s: string)
    ensures TrimEnd(s) == s[..|TrimEnd(s)|]
    ensures forall k :: |TrimEnd(s)| <= k < |s| ==> IsWhitespace(s[k])
    ensures TrimEnd(s) != [] ==> !IsWhitespace(TrimEnd(s)[|TrimEnd(s)| - 1])
    decreases |s|
  {
    if |s| > 0 && IsWhitespace(s[|s| - 1]) {
      TrimEndMeaning(s[..|s| - 1]);
    }
  }

  /** How many whitespace characters `trim` drops from the front of `s`. */
  function Lead(s: string): nat {
    |s| - |TrimStart(s)|
  }

  /**
   * `s.trim()`: the slice of `s` that starts after the leading whitespace; all of `s` outside
   * it is whitespace and neither of its ends is; it is empty exactly when `s` is all whitespace.
   */
  function Trim(s: string): (r: string)
    ensures Lead(s) + |r| <= |s| && r == s[Lead(s)..Lead(s) + |r|]
    ensures forall k :: 0 <= k < Lead(s) ==> IsWhitespace(s[k])
    ensures forall k :: Lead(s) + |r| <= k < |s| ==> IsWhitespace(s[k])
    ensures r != [] ==> !IsWhitespace(r[0]) && !IsWhitespace(r[|r| - 1])
    ensures r == [] <==> forall k :: 0 <= k < |s| ==> IsWhitespace(s[k])
  {
    var t := TrimStart(s);
    TrimStartMeaning(s);
    TrimEndMeaning(t);
    TrimSliceOf(s, Lead(s), t, TrimEnd(t));
    TrimEnd(t)
  }

  /** `r`, the front of the suffix `t` of `s` that starts after `lead` whitespace characters, is a slice of `s`. */
  lemma TrimSliceOf(s: string, lead: nat, t: string, r: string)
    requires lead + |t| == |s| && t == s[lead..]
    requires forall k :: 0 <= k < lead ==> IsWhitespace(s[k])
    requires t != [] ==> !IsWhitespace(t[0])
    requires |r| <= |t| && r == t[..|r|]
    requires forall k :: |r| <= k < |t| ==> IsWhitespace(t[k])
    requires r != [] ==> !IsWhitespace(r[|r| - 1])
    ensures r == s[lead..lead + |r|]
    ensures forall k :: lead + |r| <= k < |s| ==> IsWhitespace(s[k])
    ensures r != [] ==> !IsWhitespace(r[0]) && !IsWhitespace(r[|r| - 1])
    ensures r == [] <==> forall k :: 0 <= k < |s| ==> IsWhitespace(s[k])
  {
    forall k | lead + |r| <= k < |s| ensures IsWhitespace(s[k]) {
      assert s[k] == t[k - lead];
    }
    if r == [] {
      assert t == [];
    } else {
      assert r[0] == t[0] && r[0] == s[lead];
    }
  }

  /** Trimming twice is trimming once: a trimmed string has no whitespace left at either end. */
  lemma TrimIdempotent(s: string)
    ensures Trim(Trim(s)) == Trim(s)
  {
    var r := Trim(s);
    assert TrimStart(r) == r;
    assert TrimEnd(r) == r;
  }

  /** `!s || s.trim() === ""` for a string value: JavaScript's blank-field test. */
  predicate IsBlank(s: string) {
    Trim(s) == []
  }

  /** A non-empty string with no whitespace at either end, which trimming leaves as it is (`TrimmedIsFixed`). */
  predicate IsTrimmedNonEmpty(s: string) {
    s != "" && !IsWhitespace(s[0]) && !IsWhitespace(s[|s| - 1])
  }

  /** The strings `IsTrimmedNonEmpty` admits are exactly the non-empty fixed points of `Trim`. */
  lemma TrimmedIsFixed(s: string)
    ensures IsTrimmedNonEmpty(s) <==> s != "" && Trim(s) == s
  {
    if IsTrimmedNonEmpty(s) {
      assert Lead(s) == 0;
      assert |Trim(s)| == |s|;
    }
  }

  /** Trimming a string that is not blank gives a non-empty trimmed string. */
  lemma TrimOfNonBlank(s: string)
    requires !IsBlank(s)
    ensures IsTrimmedNonEmpty(Trim(s))
  {
  }

  function LowerChar(c: char): char {
    if 'A' <= c <= 'Z' then (c as int + 32) as char else c
  }

  function UpperChar(c: char): char {
    if 'a' <= c <= 'z' then (c as int - 32) as char else c
  }

  /** `s.toLowerCase()` on the ASCII letters. */
  function Lower(s: string): string {
    seq(|s|, i requires 0 <= i < |s| => LowerChar(s[i]))
  }

  /** `s.toUpperCase()` on the ASCII letters. */
  function Upper(s: string): string {
    seq(|s|, i requires 0 <= i < |s| => UpperChar(s[i]))
  }

  /**
   * Lower-casing keeps the length, leaves no upper-case letter, and changes a character only
   * to the same letter in the other case.
   */
  lemma LowerMeaning(s: string)
    ensures |Lower(s)| == |s|
    ensures forall i :: 0 <= i < |s| ==> !('A' <= Lower(s)[i] <= 'Z') && UpperChar(Lower(s)[i]) == UpperChar(s[i])
    ensures forall i :: 0 <= i < |s| && !('A' <= s[i] <= 'Z') ==> Lower(s)[i] == s[i]
  {
  }

  /**
   * Upper-casing keeps the length, leaves no lower-case letter, and changes a character only
   * to the same letter in the other case.
   */
  lemma UpperMeaning(s: string)
    ensures |Upper(s)| == |s|
    ensures forall i :: 0 <= i < |s| ==> !('a' <= Upper(s)[i] <= 'z') && LowerChar(Upper(s)[i]) == LowerChar(s[i])
    ensures forall i :: 0 <= i < |s| && !('a' <= s[i] <= 'z') ==> Upper(s)[i] == s[i]
  {
  }

  /** Lower-casing an already lower-cased string changes nothing. */
  lemma LowerIdempotent(s: string)
    ensures Lower(Lower(s)) == Lower(s)
  {
  }

  /** `t` occurs in `s` starting at position `i`. */
  predicate OccursAt(s: string, t: string, i: int) {
    0 <= i && i + |t| <= |s| && s[i..i + |t|] == t
  }

  /** `s.includes(t)`: `t` occurs in `s` at some position. */
  predicate Contains(s: string, t: string) {
    exists i | 0 <= i <= |s| - |t| :: OccursAt(s, t, i)
  }

  /** `s.split(sep)` for a non-empty separator: the leftmost occurrences are cut out, left to right. */
  function Split(s: string, sep: string): (pieces: seq<string>)
    requires |sep| > 0
    ensures |pieces| >= 1
    decreases |s|
  {
    if |sep| <= |s| && s[..|sep|] == sep then [""] + Split(s[|sep|..], sep)
    else if s == [] then [""]
    else
      var rest := Split(s[1..], sep);
      [[s[0]] + rest[0]] + rest[1..]
  }

  /** `pieces.join(sep)`. */
  function Join(pieces: seq<string>, sep: string): string
    decreases |pieces|
  {
    if |pieces| == 0 then ""
    else if |pieces| == 1 then pieces[0]
    else pieces[0] + sep + Join(pieces[1..], sep)
  }

  /** Extending the first piece by one character extends the joined string by that character. */
  lemma JoinExtendFirst(c: char, pieces: seq<string>, sep: string)
    requires |pieces| >= 1
    ensures Join([[c] + pieces[0]] + pieces[1..], sep) == [c] + Join(pieces, sep)
  {
    var ext := [[c] + pieces[0]] + pieces[1..];
    if |pieces| > 1 {
      assert ext[1..] == pieces[1..];
    }
  }

  /** Joining the pieces of a split with the same separator gives back the original string. */
  lemma {:induction false} JoinSplit(s: string, sep: string)
    requires |sep| > 0
    ensures Join(Split(s, sep), sep) == s
    decreases |s|
  {
    if |sep| <= |s| && s[..|sep|] == sep {
      var rest := Split(s[|sep|..], sep);
      JoinSplit(s[|sep|..], sep);
      assert ([""] + rest)[1..] == rest;
      assert s == sep + s[|sep|..];
    } else if s == [] {
    } else {
      var rest := Split(s[1..], sep);
      JoinSplit(s[1..], sep);
      JoinExtendFirst(s[0], rest, sep);
      assert s == [s[0]] + s[1..];
    }
  }

  /** The first piece of a split is a prefix of the string. */
  lemma {:induction false} FirstPieceIsPrefix(s: string, sep: string)
    requires |sep| > 0
    ensures |Split(s, sep)[0]| <= |s| && Split(s, sep)[0] == s[..|Split(s, sep)[0]|]
    decreases |s|
  {
    if |sep| <= |s| && s[..|sep|] == sep {
    } else if s == [] {
    } else {
      FirstPieceIsPrefix(s[1..], sep);
      var rest := Split(s[1..], sep);
      assert [s[0]] + rest[0] == s[..|rest[0]| + 1];
    }
  }

  /** Every occurrence of the separator is cut out: no piece of a split contains it. */
  lemma {:induction false} SplitPiecesOmitSeparator(s: string, sep: string)
    requires |sep| > 0
    ensures forall p :: p in Split(s, sep) ==> !Contains(p, sep)
    decreases |s|
  {
    if |sep| <= |s| && s[..|sep|] == sep {
      SplitPiecesOmitSeparator(s[|sep|..], sep);
    } else if s == [] {
    } else {
      SplitPiecesOmitSeparator(s[1..], sep);
      FirstPieceIsPrefix(s[1..], sep);
      var rest := Split(s[1..], sep);
      var first := [s[0]] + rest[0];
      assert first == s[..|first|];
      assert !Contains(rest[0], sep);
      forall i | 0 <= i <= |first| - |sep| ensures !OccursAt(first, sep, i) {
        if i == 0 {
          assert first[..|sep|] == s[..|sep|];
        } else {
          assert !OccursAt(rest[0], sep, i - 1);
          assert first[i..i + |sep|] == rest[0][i - 1..i - 1 + |sep|];
        }
      }
      assert forall p :: p in rest[1..] ==> p in rest;
    }
  }

  /** Splitting on a single character leaves that character in none of the pieces. */
  lemma SplitPiecesAvoidSeparator(s: string, c: char)
    ensures forall p :: p in Split(s, [c]) ==> c !in p
  {
    SplitPiecesOmitSeparator(s, [c]);
    forall p | p in Split(s, [c]) ensures c !in p {
      if c in p {
        var i :| 0 <= i < |p| && p[i] == c;
        assert OccursAt(p, [c], i);
      }
    }
  }
}
