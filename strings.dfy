/**
 * The few Python string operations the application relies on, restricted to
 * ASCII: `str.lower`, `str.isspace`, `str.strip`, `in` / `str.index` on
 * substrings and single-character `str.replace`.
 */
module Strings {
  import opened Wrappers

  /** Python's falsy empty string: a value counts as present only when it is a non-empty string. */
  predicate IsTruthy(o: Option<string>) {
    o.Some? && o.value != ""
  }

  /** `str.isspace` on ASCII: tab, line feed, vertical tab, form feed, carriage return,
      the four information separators 0x1C-0x1F, and space. */
  predicate IsSpace(c: char)
    ensures IsSpace(c) ==> !('A' <= c <= 'Z') && !('a' <= c <= 'z')
  {
    9 <= c as int <= 13 || 28 <= c as int <= 32
  }

  predicate AllSpace(s: string) {
    forall k :: 0 <= k < |s| ==> IsSpace(s[k])
  }

  /** ASCII lower-casing of one character. */
  function LowerChar(c: char): (d: char)
    ensures 'A' <= c <= 'Z' ==> d as int == c as int + 32
    ensures !('A' <= c <= 'Z') ==> d == c
  {
    if 'A' <= c <= 'Z' then (c as int + 32) as char else c
  }

  /** `str.lower`, approximated as a length-preserving character map. */
  function Lower(s: string): (r: string)
    ensures |r| == |s|
  {
    seq(|s|, k requires 0 <= k < |s| => LowerChar(s[k]))
  }

  /** ASCII upper-casing of one character. */
  function UpperChar(c: char): (d: char)
    ensures 'a' <= c <= 'z' ==> d as int == c as int - 32
    ensures !('a' <= c <= 'z') ==> d == c
  {
    if 'a' <= c <= 'z' then (c as int - 32) as char else c
  }

  /** `str.upper`, approximated as a length-preserving character map. */
  function Upper(s: string): (r: string)
    ensures |r| == |s|
    ensures forall k :: 0 <= k < |s| ==> r[k] == UpperChar(s[k])
  {
    seq(|s|, k requires 0 <= k < |s| => UpperChar(s[k]))
  }

  /** Upper-casing ignores a prior lower-casing: strings equal up to ASCII case have one upper-case form. */
  lemma UpperOfLower(s: string)
    ensures Upper(Lower(s)) == Upper(s)
  {
    forall k | 0 <= k < |s|
      ensures Upper(Lower(s))[k] == Upper(s)[k]
    {
      assert UpperChar(LowerChar(s[k])) == UpperChar(s[k]);
    }
  }

  /** Lower-casing commutes with slicing. */
  lemma LowerSlice(s: string, i: nat, j: nat)
    requires i <= j <= |s|
    ensures Lower(s[i..j]) == Lower(s)[i..j]
  {
  }

  /** Lower-casing twice changes nothing more. */
  lemma LowerIdempotent(s: string)
    ensures Lower(Lower(s)) == Lower(s)
  {
  }

  /** The number of whitespace characters that `lstrip` removes. */
  function LeadingSpaces(s: string): (n: nat)
    ensures n <= |s|
    ensures forall k :: 0 <= k < n ==> IsSpace(s[k])
    ensures n < |s| ==> !IsSpace(s[n])
  {
    if s == [] || !IsSpace(s[0]) then 0 else 1 + LeadingSpaces(s[1..])
  }

  /** The length that `rstrip` keeps. */
  function TrimmedLength(s: string): (m: nat)
    ensures m <= |s|
    ensures forall k :: m <= k < |s| ==> IsSpace(s[k])
    ensures m > 0 ==> !IsSpace(s[m - 1])
  {
    if s == [] || !IsSpace(s[|s| - 1]) then |s| else TrimmedLength(s[..|s| - 1])
  }

  /** `str.strip()`: the slice of `s` left after removing leading and trailing whitespace. */
  function Strip(s: string): (r: string)
    ensures LeadingSpaces(s) + |r| <= |s|
    ensures r == s[LeadingSpaces(s)..LeadingSpaces(s) + |r|]
    ensures AllSpace(s[LeadingSpaces(s) + |r|..])
    ensures r == [] <==> AllSpace(s)
    ensures r != [] ==> !IsSpace(r[0]) && !IsSpace(r[|r| - 1])
  {
    var lo := LeadingSpaces(s);
    if lo == |s| then [] else s[lo..TrimmedLength(s)]
  }

  /** Strip is determined by its result: whitespace, then a core that neither starts
      nor ends with whitespace, then whitespace, strips to exactly that core. */
  lemma StripPadded(a: string, m: string, b: string)
    requires AllSpace(a) && AllSpace(b)
    requires m == [] || (!IsSpace(m[0]) && !IsSpace(m[|m| - 1]))
    ensures Strip(a + m + b) == m
  {
    var s := a + m + b;
    if m == [] {
      assert s == a + b;
      assert AllSpace(s);
    } else {
      var lo := LeadingSpaces(s);
      assert s[|a|] == m[0];
      assert lo == |a|;
      var hi := TrimmedLength(s);
      assert s[|a| + |m| - 1] == m[|m| - 1];
      assert hi == |a| + |m|;
      assert s[lo..hi] == m;
    }
  }

  /** A string that neither starts nor ends with whitespace is its own strip. */
  lemma StripExact(s: string)
    requires s != [] && !IsSpace(s[0]) && !IsSpace(s[|s| - 1])
    ensures Strip(s) == s
  {
    StripPadded([], s, []);
    assert [] + s + [] == s;
  }

  /** Stripping twice removes nothing more. */
  lemma StripIdempotent(s: string)
    ensures Strip(Strip(s)) == Strip(s)
  {
    var r := Strip(s);
    StripPadded([], r, []);
    assert [] + r + [] == r;
  }

  /** `p` occurs in `t` starting at index `i`. */
  predicate OccursAt(p: string, t: string, i: int) {
    0 <= i && i + |p| <= |t| && t[i..i + |p|] == p
  }

  /** The first occurrence of `p` in `t` at or after index `i`. */
  function FindFrom(p: string, t: string, i: nat): (r: Option<nat>)
    decreases |t| - i
    ensures r.Some? ==> i <= r.value && OccursAt(p, t, r.value)
  {
    if i + |p| > |t| then None
    else if t[i..i + |p|] == p then Some(i)
    else FindFrom(p, t, i + 1)
  }

  /** The scan finds the first occurrence from `i` on, and finds nothing only when there is none. */
  lemma {:induction false} FindFromIsFirst(p: string, t: string, i: nat)
    ensures var r := FindFrom(p, t, i);
      && (r.Some? ==> forall j :: i <= j < r.value ==> !OccursAt(p, t, j))
      && (r.None? ==> forall j :: i <= j ==> !OccursAt(p, t, j))
    decreases |t| - i
  {
    if i + |p| <= |t| && t[i..i + |p|] != p {
      FindFromIsFirst(p, t, i + 1);
    }
  }

  /** A character of `p` that is missing from the stretch `t[b..e]` rules out every
      occurrence of `p` that would place that character inside the stretch. */
  lemma AbsentCharBlocks(p: string, t: string, d: nat, b: nat, e: nat)
    requires d < |p| && b <= e <= |t|
    requires p[d] !in t[b..e]
    ensures forall j :: 0 <= j && b <= j + d < e ==> !OccursAt(p, t, j)
  {
    forall j | 0 <= j && b <= j + d < e
      ensures !OccursAt(p, t, j)
    {
      assert t[b..e][j + d - b] == t[j + d];
      assert t[j + d] != p[d];
    }
  }

  /** `t.find(p)`: the first occurrence of `p` in `t`, if any (so `p in t` is `Find(p, t).Some?`
      and `t.index(p)` is its value). */
  function Find(p: string, t: string): (r: Option<nat>)
    ensures r.Some? ==> OccursAt(p, t, r.value)
  {
    FindFrom(p, t, 0)
  }

  /** `Find` gives the first occurrence, and nothing exactly when `p` does not occur. */
  lemma FindIsFirst(p: string, t: string)
    ensures Find(p, t).Some? ==> forall j :: 0 <= j < Find(p, t).value ==> !OccursAt(p, t, j)
    ensures Find(p, t).None? <==> forall j :: !OccursAt(p, t, j)
  {
    FindFromIsFirst(p, t, 0);
  }

  /** Python's `p in t` for strings: `p` is a prefix of `t` or occurs in its tail. */
  predicate Contains(p: string, t: string)
    decreases |t|
  {
    |p| <= |t| && (t[..|p|] == p || (t != [] && Contains(p, t[1..])))
  }

  /** `p in t` holds exactly when `p` occurs somewhere in `t`. */
  lemma {:induction false} ContainsOccurs(p: string, t: string)
    ensures Contains(p, t) <==> exists j :: OccursAt(p, t, j)
    decreases |t|
  {
    if |p| <= |t| {
      assert t[0..|p|] == t[..|p|];
      if t == [] {
        assert OccursAt(p, t, 0);
      } else {
        var tail := t[1..];
        ContainsOccurs(p, tail);
        if Contains(p, t) {
          if t[..|p|] == p {
            assert OccursAt(p, t, 0);
          } else {
            var j :| OccursAt(p, tail, j);
            assert tail[j..j + |p|] == t[j + 1..j + 1 + |p|];
            assert OccursAt(p, t, j + 1);
          }
        }
        if j :| OccursAt(p, t, j) {
          if j > 0 {
            assert tail[j - 1..j - 1 + |p|] == t[j..j + |p|];
            assert OccursAt(p, tail, j - 1);
          }
          assert Contains(p, t);
        }
      }
    }
  }

  /** `p in t` agrees with the search: it holds exactly when `t.find(p)` finds something. */
  lemma ContainsIsFind(p: string, t: string)
    ensures Contains(p, t) <==> Find(p, t).Some?
  {
    ContainsOccurs(p, t);
    FindIsFirst(p, t);
  }

  /** `s.replace(from, to)` for one-character `from` and `to`. */
  function ReplaceChar(s: string, from: char, to: char): (r: string)
    ensures |r| == |s|
    ensures forall k :: 0 <= k < |s| ==> r[k] == (if s[k] == from then to else s[k])
    ensures from != to ==> from !in r
  {
    seq(|s|, k requires 0 <= k < |s| => if s[k] == from then to else s[k])
  }

  /** Replacing a character by one the pattern does not hold creates no occurrence of it. */
  lemma ReplaceKeepsAbsence(p: string, s: string, from: char, to: char)
    requires to !in p
    requires forall j :: !OccursAt(p, s, j)
    ensures forall j :: !OccursAt(p, ReplaceChar(s, from, to), j)
  {
    var r := ReplaceChar(s, from, to);
    forall j
      ensures !OccursAt(p, r, j)
    {
      if 0 <= j && j + |p| <= |r| {
        assert !OccursAt(p, s, j);
        var k :| 0 <= k < |p| && s[j..j + |p|][k] != p[k];
        assert r[j..j + |p|][k] == r[j + k];
      }
    }
  }
}
