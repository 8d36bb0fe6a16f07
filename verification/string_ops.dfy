/** Sequence and string helpers shared by the model: Python's `in` on strings,
    `str.startswith`, `str.lower`, `str.strip`, `str.split(sep, 1)` and `str.rfind`. */
module StringOps {

  datatype Option<+T> = None | Some(value: T)

  predicate IsPrefix<T(==)>(p: seq<T>, s: seq<T>) {
    |p| <= |s| && s[..|p|] == p
  }

  predicate IsSuffix<T(==)>(p: seq<T>, s: seq<T>) {
    |p| <= |s| && s[|s| - |p|..] == p
  }

  /** `sub` occurs in `s` starting at index `i`. */
  predicate WindowAt<T(==)>(s: seq<T>, sub: seq<T>, i: int) {
    0 <= i && i + |sub| <= |s| && s[i..i + |sub|] == sub
  }

  /** Python's `sub in s` for strings and byte strings. */
  predicate Contains<T(==)>(s: seq<T>, sub: seq<T>) {
    exists i | 0 <= i <= |s| - |sub| :: WindowAt(s, sub, i)
  }

  lemma PrefixContained<T>(sub: seq<T>, s: seq<T>)
    requires IsPrefix(sub, s)
    ensures Contains(s, sub)
  {
    assert WindowAt(s, sub, 0);
  }

  lemma ContainedInRight<T>(a: seq<T>, b: seq<T>, sub: seq<T>)
    requires Contains(b, sub)
    ensures Contains(a + b, sub)
  {
    var i :| 0 <= i <= |b| - |sub| && WindowAt(b, sub, i);
    assert (a + b)[|a| + i..|a| + i + |sub|] == b[i..i + |sub|];
    assert WindowAt(a + b, sub, |a| + i);
  }

  /** A string that lacks one of the elements of `sub` cannot contain `sub`. */
  lemma {:induction false} MissingElement<T>(s: seq<T>, sub: seq<T>, x: T)
    requires x in sub && x !in s
    ensures !Contains(s, sub)
  {
    forall i | 0 <= i <= |s| - |sub|
      ensures !WindowAt(s, sub, i)
    {
      var k :| 0 <= k < |sub| && sub[k] == x;
      assert s[i..i + |sub|][k] == s[i + k];
      assert s[i + k] in s;
    }
  }

  /** When the first element of `sub` occurs in `s` only at index `p`, the only
      possible occurrence of `sub` starts there. */
  lemma {:induction false} AnchoredAtFirst<T>(s: seq<T>, sub: seq<T>, p: nat)
    requires 0 < |sub| && p < |s| && s[p] == sub[0]
    requires sub[0] !in s[..p] && sub[0] !in s[p + 1..]
    ensures Contains(s, sub) <==> WindowAt(s, sub, p)
  {
    forall i | 0 <= i < |s| && i != p
      ensures s[i] != sub[0]
    {
      if i < p {
        assert s[..p][i] == s[i];
      } else {
        assert s[p + 1..][i - p - 1] == s[i];
      }
    }
    forall i | WindowAt(s, sub, i)
      ensures i == p
    {
      assert s[i] == s[i..i + |sub|][0];
    }
  }

  lemma NotInConcat<T>(a: seq<T>, b: seq<T>, x: T)
    requires x !in a && x !in b
    ensures x !in a + b
  {
  }

  lemma NotPrefixAt<T>(p: seq<T>, s: seq<T>, k: nat)
    requires k < |p| && k < |s| && p[k] != s[k]
    ensures !IsPrefix(p, s)
  {
    if |p| <= |s| {
      assert s[..|p|][k] == s[k];
    }
  }

  lemma NotSuffixAt<T>(p: seq<T>, s: seq<T>, k: nat)
    requires k < |p| <= |s| && p[k] != s[|s| - |p| + k]
    ensures !IsSuffix(p, s)
  {
    assert s[|s| - |p|..][k] == s[|s| - |p| + k];
  }

  // ---- case mapping ---------------------------------------------------------

  predicate IsUpper(c: char) {
    'A' <= c <= 'Z'
  }

  function LowerChar(c: char): char {
    if IsUpper(c) then (c as int + 32) as char else c
  }

  /** `str.lower()` on the ASCII range; other characters are kept as they are. */
  function Lower(s: string): (r: string)
    ensures |r| == |s|
    ensures forall i | 0 <= i < |s| ::
      if IsUpper(s[i]) then r[i] as int == s[i] as int + 32 else r[i] == s[i]
    ensures forall c | c in r :: !IsUpper(c)
  {
    seq(|s|, i requires 0 <= i < |s| => LowerChar(s[i]))
  }

  /** The two strings differ at most in the case of ASCII letters. */
  predicate EqualIgnoringCase(s: string, t: string) {
    |s| == |t| && forall i | 0 <= i < |s| :: LowerChar(s[i]) == LowerChar(t[i])
  }

  /** Lowering identifies exactly the strings that differ only in case. */
  lemma LowerIdentifiesCase(s: string, t: string)
    ensures Lower(s) == Lower(t) <==> EqualIgnoringCase(s, t)
  {
    if Lower(s) == Lower(t) {
      forall i | 0 <= i < |s|
        ensures LowerChar(s[i]) == LowerChar(t[i])
      {
        assert Lower(s)[i] == Lower(t)[i];
      }
    }
  }

  predicate NoUpper(s: string) {
    forall c | c in s :: !IsUpper(c)
  }

  lemma NoUpperConcat(a: string, b: string)
    requires NoUpper(a) && NoUpper(b)
    ensures NoUpper(a + b)
  {
  }

  /** Lowering leaves a string without upper-case letters as it is. */
  lemma LowerKeepsLowercase(s: string)
    requires NoUpper(s)
    ensures Lower(s) == s
  {
    forall i | 0 <= i < |s|
      ensures Lower(s)[i] == s[i]
    {
      assert s[i] in s;
    }
  }

  // ---- searching and splitting ----------------------------------------------

  /** `s.rfind(c)`: the last index of `c` in `s`, or -1. */
  function LastIndexOf<T(==)>(s: seq<T>, c: T): (r: int)
    ensures -1 <= r < |s|
    ensures r == -1 ==> c !in s
    ensures 0 <= r ==> s[r] == c && c !in s[r + 1..]
  {
    if s == [] then -1
    else if s[|s| - 1] == c then |s| - 1
    else
      var r := LastIndexOf(s[..|s| - 1], c);
      assert s[r + 1..] == s[..|s| - 1][r + 1..] + [s[|s| - 1]];
      r
  }

  /** The last occurrence of `c` is the one with no `c` after it. */
  lemma LastIndexOfAt<T>(s: seq<T>, c: T, p: nat)
    requires p < |s| && s[p] == c && c !in s[p + 1..]
    ensures LastIndexOf(s, c) == p
  {
    assert s[p] in s;
    var r := LastIndexOf(s, c);
    forall j | p < j < |s|
      ensures s[j] != c
    {
      assert s[j] == s[p + 1..][j - p - 1];
    }
    forall j | r < j < |s|
      ensures s[j] != c
    {
      assert s[j] == s[r + 1..][j - r - 1];
    }
  }

  /** `s.find(c)`: the first index of `c` in `s`, or -1. */
  function IndexOf<T(==)>(s: seq<T>, c: T): (r: int)
    ensures -1 <= r < |s|
    ensures r == -1 ==> c !in s
    ensures 0 <= r ==> s[r] == c && c !in s[..r]
  {
    if s == [] then -1
    else if s[0] == c then 0
    else
      var r := IndexOf(s[1..], c);
      if r == -1 then -1
      else
        assert s[..r + 1] == [s[0]] + s[1..][..r];
        r + 1
  }

  /** `s.split(sep, 1)` for a string that contains `sep`: the text before the
      first separator and the text after it. */
  function SplitFirst(s: string, sep: char): (parts: (string, string))
    requires sep in s
    ensures sep !in parts.0
    ensures s == parts.0 + [sep] + parts.1
  {
    var i := IndexOf(s, sep);
    assert s == s[..i] + [sep] + s[i + 1..];
    (s[..i], s[i + 1..])
  }

  /** The characters `str.isspace()` accepts. */
  predicate IsSpace(c: char) {
    || '\t' <= c <= '\r' || '\U{1c}' <= c <= ' ' || c == '\U{85}' || c == '\U{a0}'
    || c == '\U{1680}' || '\U{2000}' <= c <= '\U{200a}' || c == '\U{2028}' || c == '\U{2029}'
    || c == '\U{202f}' || c == '\U{205f}' || c == '\U{3000}'
  }

  /** `s.lstrip()`: drops the whitespace before the first other character. */
  function StripLeft(s: string): (r: string)
    ensures IsSuffix(r, s)
    ensures forall k | 0 <= k < |s| - |r| :: IsSpace(s[k])
    ensures r == [] || !IsSpace(r[0])
  {
    if s != [] && IsSpace(s[0]) then
      var r := StripLeft(s[1..]);
      assert s[|s| - |r|..] == s[1..][|s| - 1 - |r|..];
      assert forall k | 1 <= k < |s| - |r| :: s[k] == s[1..][k - 1];
      r
    else s
  }

  /** `s.rstrip()`: drops the whitespace after the last other character. */
  function StripRight(s: string): (r: string)
    ensures IsPrefix(r, s)
    ensures forall k | |r| <= k < |s| :: IsSpace(s[k])
    ensures r == [] || !IsSpace(r[|r| - 1])
  {
    if s != [] && IsSpace(s[|s| - 1]) then
      var r := StripRight(s[..|s| - 1]);
      assert s[..|r|] == s[..|s| - 1][..|r|];
      assert forall k | |r| <= k < |s| - 1 :: s[k] == s[..|s| - 1][k];
      r
    else s
  }

  /** Stripping both ends leaves a slice of the input with only whitespace
      around it. */
  lemma StripBothEnds(s: string)
    ensures var left := StripLeft(s); var r := StripRight(left); var i := |s| - |left|;
      && i + |r| <= |s| && r == s[i..i + |r|]
      && (forall k | 0 <= k < i :: IsSpace(s[k]))
      && (forall k | i + |r| <= k < |s| :: IsSpace(s[k]))
  {
    var left := StripLeft(s);
    var r := StripRight(left);
    var i := |s| - |left|;
    assert left == s[i..];
    assert r == left[..|r|];
    forall k | i + |r| <= k < |s|
      ensures IsSpace(s[k])
    {
      assert s[k] == left[k - i];
    }
  }

  /** `s.strip()`: the text between the leading and the trailing whitespace,
      which is empty exactly when the string is all whitespace. */
  function Strip(s: string): (r: string)
    ensures exists i, j | 0 <= i <= j <= |s| ::
      && r == s[i..j]
      && (forall k | 0 <= k < i :: IsSpace(s[k]))
      && (forall k | j <= k < |s| :: IsSpace(s[k]))
    ensures r == [] || (!IsSpace(r[0]) && !IsSpace(r[|r| - 1]))
    ensures r == [] <==> forall c | c in s :: IsSpace(c)
  {
    StripBothEnds(s);
    var r := StripRight(StripLeft(s));
    assert r != [] ==> r[0] == s[|s| - |StripLeft(s)|];
    r
  }
}
