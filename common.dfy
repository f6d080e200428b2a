/** String helpers with the semantics of the JavaScript built-ins the screens
    rely on: `String.prototype.trim`, `toLowerCase` and `includes`, plus the
    Option type standing for values that may be null or undefined. */
module Common {

  datatype Option<T> = None | Some(value: T)

  /** JavaScript truthiness of a nullable document id: null and "" are falsy. */
  predicate Truthy(id: Option<string>)
  {
    id.Some? && id.value != ""
  }

  /** The code points `trim` removes: ECMAScript WhiteSpace and LineTerminator. */
  predicate IsWhitespace(c: char)
  {
    || c == '\t' || c == '\n' || c == '\U{000B}' || c == '\U{000C}' || c == '\r'
    || c == ' ' || c == '\U{00A0}' || c == '\U{1680}'
    || ('\U{2000}' <= c <= '\U{200A}')
    || c == '\U{2028}' || c == '\U{2029}' || c == '\U{202F}' || c == '\U{205F}'
    || c == '\U{3000}' || c == '\U{FEFF}'
  }

  /** The string has a character that is not whitespace. */
  predicate HasVisibleChar(s: string)
  {
    exists i :: 0 <= i < |s| && !IsWhitespace(s[i])
  }

  /** Drops leading whitespace. */
  function TrimStart(s: string): (r: string)
    ensures |r| <= |s| && r == s[|s| - |r|..]
    ensures r != [] ==> !IsWhitespace(r[0])
    ensures forall i :: 0 <= i < |s| - |r| ==> IsWhitespace(s[i])
  {
    if s != [] && IsWhitespace(s[0]) then
      var r := TrimStart(s[1..]);
      assert forall i :: 1 <= i < |s| ==> s[1..][i - 1] == s[i];
      r
    else
      s
  }

  /** Drops trailing whitespace. */
  function TrimEnd(s: string): (r: string)
    ensures |r| <= |s| && r == s[..|r|]
    ensures r != [] ==> !IsWhitespace(r[|r| - 1])
    ensures forall i :: |r| <= i < |s| ==> IsWhitespace(s[i])
  {
    if s != [] && IsWhitespace(s[|s| - 1]) then
      var r := TrimEnd(s[..|s| - 1]);
      assert forall i :: 0 <= i < |s| - 1 ==> s[..|s| - 1][i] == s[i];
      r
    else
      s
  }

  /** `r` occurs in `s` at `i`, and everything before and after it is whitespace. */
  predicate TrimmedAt(s: string, r: string, i: nat)
  {
    && OccursAt(s, r, i)
    && (forall j :: 0 <= j < i ==> IsWhitespace(s[j]))
    && (forall j :: i + |r| <= j < |s| ==> IsWhitespace(s[j]))
  }

  /** A trimmed piece is empty exactly when the string has no visible character. */
  lemma TrimmedEmpty(s: string, r: string, i: nat)
    requires TrimmedAt(s, r, i)
    requires r != [] ==> !IsWhitespace(r[0])
    ensures r == [] <==> !HasVisibleChar(s)
  {
    if r != [] {
      assert s[i] == r[0];
    }
  }

  /** Dropping leading, then trailing whitespace leaves a piece trimmed at the
      number of leading characters dropped. */
  lemma TrimEndOfTrimStart(s: string)
    ensures TrimmedAt(s, TrimEnd(TrimStart(s)), |s| - |TrimStart(s)|)
  {
    var t := TrimStart(s);
    var r := TrimEnd(t);
    var i := |s| - |t|;
    TrimmedPiece(s, t, r, i);
  }

  /** Trailing whitespace of a suffix is trailing whitespace of the whole. */
  lemma TrimmedPiece(s: string, t: string, r: string, i: nat)
    requires i <= |s| && t == s[i..]
    requires |r| <= |t| && r == t[..|r|]
    requires forall j :: 0 <= j < i ==> IsWhitespace(s[j])
    requires forall j :: |r| <= j < |t| ==> IsWhitespace(t[j])
    ensures TrimmedAt(s, r, i)
  {
    assert s[i..i + |r|] == r;
    forall j | i + |r| <= j < |s| ensures IsWhitespace(s[j]) {
      assert s[j] == t[j - i];
    }
  }

  /** `s.trim()`: a contiguous piece of `s` with whitespace at neither end,
      obtained by dropping only whitespace. */
  function Trim(s: string): (r: string)
    ensures r != [] ==> !IsWhitespace(r[0]) && !IsWhitespace(r[|r| - 1])
    ensures exists i: nat :: TrimmedAt(s, r, i)
    ensures r == [] <==> !HasVisibleChar(s)
  {
    var r := TrimEnd(TrimStart(s));
    TrimEndOfTrimStart(s);
    TrimmedEmpty(s, r, |s| - |TrimStart(s)|);
    r
  }

  /** `b` with some elements left out, in the same order, is `a`. */
  predicate IsSubsequence<T(==)>(a: seq<T>, b: seq<T>)
    decreases |b|
  {
    if a == [] then true
    else if b == [] then false
    else if a[0] == b[0] then IsSubsequence(a[1..], b[1..])
    else IsSubsequence(a, b[1..])
  }

  /** `s.filter(keep)`: the elements for which `keep` holds, in their order,
      each as many times as it occurs. */
  function Filter<T(==,!new)>(s: seq<T>, keep: T -> bool): (r: seq<T>)
    ensures IsSubsequence(r, s)
    ensures forall i :: 0 <= i < |r| ==> keep(r[i])
    ensures forall m :: multiset(r)[m] == if keep(m) then multiset(s)[m] else 0
    ensures |r| <= |s|
  {
    if s == [] then []
    else
      var rest := Filter(s[1..], keep);
      assert s == [s[0]] + s[1..];
      if keep(s[0]) then
        [s[0]] + rest
      else
        assert rest != [] ==> rest[0] != s[0];
        rest
  }

  /** A filter that every element passes keeps the sequence. */
  lemma {:induction false} FilterKeepsAll<T(!new)>(s: seq<T>, keep: T -> bool)
    requires forall i :: 0 <= i < |s| ==> keep(s[i])
    ensures Filter(s, keep) == s
  {
    if s != [] {
      FilterKeepsAll(s[1..], keep);
    }
  }

  /** Filtering twice with the same test is filtering once. */
  lemma {:induction false} FilterTwice<T(!new)>(s: seq<T>, keep: T -> bool)
    ensures Filter(Filter(s, keep), keep) == Filter(s, keep)
  {
    FilterKeepsAll(Filter(s, keep), keep);
  }

  /** `s.trim() === ''`: the string is empty or all whitespace. */
  predicate IsBlank(s: string)
  {
    Trim(s) == ""
  }

  /** `toLowerCase` on one character; only ASCII letters are mapped. */
  function LowerChar(c: char): (l: char)
    ensures !('A' <= l <= 'Z')
    ensures 'a' <= c <= 'z' ==> l == c
  {
    if 'A' <= c <= 'Z' then (c as int + 32) as char else c
  }

  /** `s.toLowerCase()`, character by character. */
  function ToLower(s: string): (r: string)
    ensures |r| == |s|
    ensures forall i :: 0 <= i < |s| ==> r[i] == LowerChar(s[i])
  {
    if s == [] then [] else [LowerChar(s[0])] + ToLower(s[1..])
  }

  /** `needle` occurs in `s` starting at position `i`. */
  predicate OccursAt(s: string, needle: string, i: nat)
  {
    i + |needle| <= |s| && s[i..i + |needle|] == needle
  }

  lemma OccursShift(s: string, needle: string)
    requires s != []
    ensures forall i: nat :: OccursAt(s[1..], needle, i) <==> OccursAt(s, needle, i + 1)
  {
    forall i: nat ensures OccursAt(s[1..], needle, i) <==> OccursAt(s, needle, i + 1) {
      if i + |needle| <= |s[1..]| {
        assert s[1..][i..i + |needle|] == s[i + 1..i + 1 + |needle|];
      }
    }
  }

  /** `s.includes(needle)`: true exactly when `needle` occurs somewhere in `s`
      (the empty needle occurs everywhere). */
  function Includes(s: string, needle: string): (b: bool)
    ensures b <==> exists i: nat :: OccursAt(s, needle, i)
    decreases |s|
  {
    if needle <= s then
      assert OccursAt(s, needle, 0);
      true
    else if s == [] then
      false
    else
      OccursShift(s, needle);
      assert !OccursAt(s, needle, 0);
      assert (exists i: nat :: OccursAt(s, needle, i)) ==> exists i: nat :: OccursAt(s[1..], needle, i) by {
        if i: nat :| OccursAt(s, needle, i) {
          assert i > 0 && OccursAt(s[1..], needle, i - 1);
        }
      }
      Includes(s[1..], needle)
  }

  /** Lower-casing twice changes nothing further. */
  lemma ToLowerIdempotent(s: string)
    ensures ToLower(ToLower(s)) == ToLower(s)
  {
  }
}
