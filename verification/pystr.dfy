/**
 * The handful of Python `str` operations the store and the web layer use:
 * `strip()`, `lower()`, `rsplit(".", 1)` through the last occurrence of a
 * character, and `split(sep, 1)` / `in` through the first occurrence of a
 * substring.
 */
module PyStr {
  import opened Wrappers

  /** Python's `str.isspace` for one character (the Unicode whitespace set). */
  predicate IsSpace(c: char)
    ensures IsSpace(c) ==> !('0' <= c <= '9') && !('A' <= c <= 'Z') && !('a' <= c <= 'z')
    ensures IsSpace(c) ==> c as int <= 0x3000
  {
    || c == ' '
    || '\t' <= c <= '\r'
    || '\U{1c}' <= c <= '\U{1f}'
    || c == '\U{85}'
    || c == '\U{a0}'
    || c == '\U{1680}'
    || '\U{2000}' <= c <= '\U{200a}'
    || c == '\U{2028}'
    || c == '\U{2029}'
    || c == '\U{202f}'
    || c == '\U{205f}'
    || c == '\U{3000}'
  }

  predicate AllSpace(s: string) {
    forall i :: 0 <= i < |s| ==> IsSpace(s[i])
  }

  /** The number of whitespace characters `strip()` removes at the front. */
  function LeadingSpace(s: string): (n: nat)
    ensures n <= |s|
    ensures AllSpace(s[..n])
    ensures n < |s| ==> !IsSpace(s[n])
    ensures n == |s| <==> AllSpace(s)
  {
    if |s| == 0 || !IsSpace(s[0]) then 0
    else
      var m := LeadingSpace(s[1..]);
      m + 1
  }

  /** The number of whitespace characters `strip()` removes at the back. */
  function TrailingSpace(s: string): (n: nat)
    ensures n <= |s|
    ensures AllSpace(s[|s| - n..])
    ensures n < |s| ==> !IsSpace(s[|s| - n - 1])
    ensures n == |s| <==> AllSpace(s)
  {
    if |s| == 0 || !IsSpace(s[|s| - 1]) then 0
    else
      var t := s[..|s| - 1];
      var m := TrailingSpace(t);
      assert s[|s| - (m + 1)..] == t[|t| - m..] + [s[|s| - 1]];
      m + 1
  }

  /** Python's `s.strip()` with no argument. */
  function Strip(s: string): (r: string)
    ensures |r| <= |s|
    ensures r == [] <==> AllSpace(s)
    ensures r != [] ==> !IsSpace(r[0]) && !IsSpace(r[|r| - 1])
    ensures StrippedAt(s, LeadingSpace(s), r)
  {
    var a := LeadingSpace(s);
    var b := TrailingSpace(s[a..]);
    StripFacts(s, a, b);
    s[a..][..|s| - a - b]
  }

  lemma StripFacts(s: string, a: nat, b: nat)
    requires a == LeadingSpace(s) && b == TrailingSpace(s[a..])
    ensures var r := s[a..][..|s| - a - b];
            && (r == [] <==> AllSpace(s))
            && (r != [] ==> !IsSpace(r[0]) && !IsSpace(r[|r| - 1]))
            && StrippedAt(s, a, r)
  {
    CoreEnds(s, a, s[a..], b);
    CorePlaced(s, a, b);
  }

  /**
   * `a` counted up to the first non-whitespace character and `b` back to
   * the last one in `rest == s[a..]` leave a core that is empty exactly for
   * all-whitespace input and otherwise starts and ends with non-whitespace.
   */
  lemma CoreEnds(s: string, a: nat, rest: string, b: nat)
    requires a <= |s| && (a < |s| ==> !IsSpace(s[a])) && (a == |s| <==> AllSpace(s))
    requires rest == s[a..]
    requires b <= |rest| && (b < |rest| ==> !IsSpace(rest[|rest| - b - 1])) && (b == |rest| <==> AllSpace(rest))
    ensures var r := rest[..|rest| - b];
            && (r == [] <==> AllSpace(s))
            && (r != [] ==> !IsSpace(r[0]) && !IsSpace(r[|r| - 1]))
  {
    var r := rest[..|rest| - b];
    if a < |s| {
      assert rest[0] == s[a];
      assert !AllSpace(rest);
      assert r[0] == rest[0];
      assert r[|r| - 1] == rest[|rest| - b - 1];
    }
  }

  /** Whitespace before `a` and in the last `b` of `s[a..]` places the core between them. */
  lemma CorePlaced(s: string, a: nat, b: nat)
    requires a + b <= |s|
    requires AllSpace(s[..a])
    requires AllSpace(s[a..][|s| - a - b..])
    ensures StrippedAt(s, a, s[a..][..|s| - a - b])
  {
    var k := |s| - a - b;
    SliceTake(s, a, k);
    SliceDrop(s, a, k);
  }

  /** Taking `k` after dropping `a` is the slice `a..a + k`. */
  lemma SliceTake<T>(s: seq<T>, a: nat, k: nat)
    requires a + k <= |s|
    ensures s[a..][..k] == s[a..a + k]
  {
  }

  /** Dropping `k` after dropping `a` is dropping `a + k`. */
  lemma SliceDrop<T>(s: seq<T>, a: nat, k: nat)
    requires a + k <= |s|
    ensures s[a..][k..] == s[a + k..]
  {
  }

  /**
   * `r` is `s` with only whitespace removed, all of it before position `a`
   * and all of it after the end of `r`.
   */
  ghost predicate StrippedAt(s: string, a: nat, r: string) {
    && a + |r| <= |s|
    && s[a..a + |r|] == r
    && AllSpace(s[..a])
    && AllSpace(s[a + |r|..])
  }

  /**
   * An independent characterisation of `strip()`: any decomposition
   * `s == spaces + core + spaces` whose core has no whitespace at either
   * end is exactly what `Strip` returns.
   */
  lemma {:induction false} StripUnique(s: string, a: nat, b: nat)
    requires a <= b <= |s|
    requires AllSpace(s[..a]) && AllSpace(s[b..])
    requires a < b ==> !IsSpace(s[a]) && !IsSpace(s[b - 1])
    ensures Strip(s) == s[a..b]
  {
    if a == b {
      forall i | 0 <= i < |s| ensures IsSpace(s[i]) {
        if i < a { assert s[..a][i] == s[i]; } else { assert s[b..][i - b] == s[i]; }
      }
      assert AllSpace(s);
    } else {
      LeadingSpaceAt(s, a);
      var rest := s[a..];
      assert rest[..b - a] == s[a..b];
      assert rest[b - a..] == s[b..];
      TrailingSpaceAt(rest, |rest| - (b - a));
    }
  }

  /** Leading whitespace ends at the first non-whitespace character. */
  lemma LeadingSpaceAt(s: string, a: nat)
    requires a < |s| && AllSpace(s[..a]) && !IsSpace(s[a])
    ensures LeadingSpace(s) == a
  {
  }

  /** Trailing whitespace starts after the last non-whitespace character. */
  lemma TrailingSpaceAt(s: string, n: nat)
    requires n < |s| && AllSpace(s[|s| - n..]) && !IsSpace(s[|s| - n - 1])
    ensures TrailingSpace(s) == n
  {
  }

  /** Stripping twice is stripping once. */
  lemma StripIdempotent(s: string)
    ensures Strip(Strip(s)) == Strip(s)
  {
    var r := Strip(s);
    StripUnique(r, 0, |r|);
  }

  /**
   * Python's `str.lower()` on one character, restricted to ASCII: a capital
   * letter becomes its small letter, anything else is unchanged.
   */
  function LowerChar(c: char): (d: char)
    ensures !('A' <= d <= 'Z')
    ensures !('A' <= c <= 'Z') ==> d == c
    ensures 'A' <= c <= 'Z' ==> d as int == c as int + 32
  {
    if 'A' <= c <= 'Z' then (c as int + 32) as char else c
  }

  /** Python's `str.lower()` restricted to ASCII letters, character by character. */
  function Lower(s: string): (r: string)
    ensures |r| == |s|
    ensures forall i :: 0 <= i < |s| ==> r[i] == LowerChar(s[i])
  {
    seq(|s|, i requires 0 <= i < |s| => LowerChar(s[i]))
  }

  /** `k` is the position of the last `c` in `s`. */
  ghost predicate LastAt(s: string, c: char, k: int) {
    0 <= k < |s| && s[k] == c && forall j :: k < j < |s| ==> s[j] != c
  }

  /** The position of the last `c` in `s`, as `rsplit(c, 1)` finds it. */
  function LastIndexOf(s: string, c: char): (r: Option<nat>)
    ensures r.Some? ==> LastAt(s, c, r.value)
    ensures r.None? <==> c !in s
  {
    if |s| == 0 then None
    else if s[|s| - 1] == c then Some(|s| - 1)
    else
      var t := s[..|s| - 1];
      assert forall j :: 0 <= j < |t| ==> t[j] == s[j];
      LastIndexOf(t, c)
  }

  /** `pat` occurs in `s` starting at position `k`. */
  predicate OccursAt(s: string, pat: string, k: int) {
    0 <= k && k + |pat| <= |s| && s[k..k + |pat|] == pat
  }

  /** Python's `pat in s` for strings. */
  ghost predicate Contains(s: string, pat: string) {
    exists k :: OccursAt(s, pat, k)
  }

  /** The first occurrence of `pat` in `s` at or after `from`. */
  function FindFrom(s: string, pat: string, from: nat): (r: Option<nat>)
    ensures r.Some? ==> from <= r.value && OccursAt(s, pat, r.value)
    ensures r.Some? ==> forall k :: from <= k < r.value ==> !OccursAt(s, pat, k)
    ensures r.None? ==> forall k :: from <= k ==> !OccursAt(s, pat, k)
    decreases |s| - from
  {
    if from + |pat| > |s| then None
    else if s[from..from + |pat|] == pat then Some(from)
    else FindFrom(s, pat, from + 1)
  }

  /** The first occurrence of `pat` in `s`, as `s.split(pat, 1)` cuts it. */
  function FindFirst(s: string, pat: string): (r: Option<nat>)
    ensures r.Some? ==> OccursAt(s, pat, r.value)
    ensures r.Some? ==> forall k :: 0 <= k < r.value ==> !OccursAt(s, pat, k)
    ensures r.None? <==> !Contains(s, pat)
  {
    FindFrom(s, pat, 0)
  }
}
