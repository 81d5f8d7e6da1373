/**
 * The few `java.lang` string primitives the core relies on:
 * `String.indexOf(String)`, `String.trim()` and `Character.isWhitespace(char)`.
 */
module JavaString {

  /** `d` occurs in `t` starting at index `i`. */
  predicate OccursAt(t: string, d: string, i: int) {
    0 <= i && i + |d| <= |t| && t[i..i + |d|] == d
  }

  /** `d` occurs somewhere in `t`. */
  ghost predicate Contains(t: string, d: string) {
    exists i :: OccursAt(t, d, i)
  }

  /** `i` is the least index at which `d` occurs in `t`. */
  ghost predicate FirstOccurrence(t: string, d: string, i: int) {
    OccursAt(t, d, i) && forall j :: 0 <= j < i ==> !OccursAt(t, d, j)
  }

  /** `String.indexOf(d)`: the least index of an occurrence of `d`, or -1. */
  function IndexOf(t: string, d: string): (r: int)
    ensures r == -1 <==> !Contains(t, d)
    ensures r != -1 ==> FirstOccurrence(t, d, r)
  {
    IndexOfFrom(t, d, 0)
  }

  /** The scan behind `IndexOf`, starting at index `from`. */
  function IndexOfFrom(t: string, d: string, from: nat): (r: int)
    ensures r == -1 || (from <= r && OccursAt(t, d, r))
    ensures r == -1 ==> forall i :: from <= i ==> !OccursAt(t, d, i)
    ensures r != -1 ==> forall i :: from <= i < r ==> !OccursAt(t, d, i)
    decreases |t| - from
  {
    if from + |d| > |t| then -1
    else if t[from..from + |d|] == d then from
    else IndexOfFrom(t, d, from + 1)
  }

  /** An occurrence inside a prefix of `t` is an occurrence in `t`. */
  lemma OccursInPrefix(t: string, n: nat, d: string, i: int)
    requires n <= |t|
    requires OccursAt(t[..n], d, i)
    ensures OccursAt(t, d, i)
  {
    assert t[..n][i..i + |d|] == t[i..i + |d|];
  }

  /**
   * `Character.isWhitespace(char)`: the Unicode space, line and paragraph
   * separators other than the no-break spaces U+00A0, U+2007 and U+202F,
   * together with U+0009..U+000D and U+001C..U+001F.
   */
  predicate IsWhitespace(c: char) {
    var n := c as int;
    || 0x09 <= n <= 0x0D
    || 0x1C <= n <= 0x20
    || n == 0x1680
    || 0x2000 <= n <= 0x2006
    || 0x2008 <= n <= 0x200A
    || n == 0x2028 || n == 0x2029
    || n == 0x205F
    || n == 0x3000
  }

  /** The characters `String.trim()` strips: every code unit up to and including the space. */
  predicate IsTrimmable(c: char) {
    c <= ' '
  }

  /** Neither end of `s` is a character `trim()` strips. */
  predicate IsTrimmed(s: string) {
    |s| > 0 ==> !IsTrimmable(s[0]) && !IsTrimmable(s[|s| - 1])
  }

  /** The first scan of `trim()`: from `st`, the index of the first character it keeps (or `|s|`). */
  function TrimStart(s: string, st: nat): (r: nat)
    requires st <= |s|
    ensures st <= r <= |s|
    ensures forall i :: st <= i < r ==> IsTrimmable(s[i])
    ensures r < |s| ==> !IsTrimmable(s[r])
    decreases |s| - st
  {
    if st < |s| && IsTrimmable(s[st]) then TrimStart(s, st + 1) else st
  }

  /** The second scan of `trim()`: from `len` down to `st`, the end of the kept part. */
  function TrimEnd(s: string, st: nat, len: nat): (r: nat)
    requires st <= len <= |s|
    ensures st <= r <= len
    ensures forall i :: r <= i < len ==> IsTrimmable(s[i])
    ensures st < r ==> !IsTrimmable(s[r - 1])
    decreases len
  {
    if st < len && IsTrimmable(s[len - 1]) then TrimEnd(s, st, len - 1) else len
  }

  /** `r` is the infix of `s` at `a`, and everything around it is trimmable. */
  ghost predicate TrimmedAt(s: string, a: int, r: string) {
    && 0 <= a <= |s| - |r|
    && r == s[a..a + |r|]
    && (forall i :: 0 <= i < a ==> IsTrimmable(s[i]))
    && (forall i :: a + |r| <= i < |s| ==> IsTrimmable(s[i]))
  }

  /**
   * `String.trim()`: the result is the infix of `s` left after removing a
   * trimmable prefix and a trimmable suffix, and it neither starts nor ends
   * with a trimmable character.
   */
  function Trim(s: string): (r: string)
    ensures IsTrimmed(r)
    ensures exists a :: TrimmedAt(s, a, r)
  {
    var st := TrimStart(s, 0);
    var len := TrimEnd(s, st, |s|);
    assert TrimmedAt(s, st, s[st..len]);
    s[st..len]
  }

  /** A string that neither starts nor ends with a trimmable character is its own trim. */
  lemma TrimOfTrimmed(s: string)
    requires IsTrimmed(s)
    ensures Trim(s) == s
  {
    var st := TrimStart(s, 0);
    assert st == 0;
    assert TrimEnd(s, st, |s|) == |s|;
  }

  /** Trimming twice is trimming once. */
  lemma TrimIdempotent(s: string)
    ensures Trim(Trim(s)) == Trim(s)
  {
    TrimOfTrimmed(Trim(s));
  }
}
