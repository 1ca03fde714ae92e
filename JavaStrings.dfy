/**
 * The few operations of java.lang.String that the codec factory relies on,
 * restricted to what they do on ASCII letters: trim, toLowerCase,
 * equalsIgnoreCase, startsWith, endsWith and indexOf.
 */
module JavaStrings {
  import opened Wrappers

  /** String.trim removes every character whose code is at most U+0020. */
  predicate IsTrimmable(c: char) {
    c <= ' '
  }

  predicate AllTrimmable(s: string) {
    forall i :: 0 <= i < |s| ==> IsTrimmable(s[i])
  }

  /** Drops the leading trimmable characters; what is left starts with a visible character. */
  function TrimLeading(s: string): (r: string)
    ensures |r| <= |s|
    ensures r != [] ==> !IsTrimmable(r[0])
  {
    if |s| > 0 && IsTrimmable(s[0]) then TrimLeading(s[1..]) else s
  }

  /** Drops the trailing trimmable characters; what is left ends with a visible character. */
  function TrimTrailing(s: string): (r: string)
    ensures |r| <= |s|
    ensures r != [] ==> !IsTrimmable(r[|r| - 1]) && r[0] == s[0]
  {
    if |s| > 0 && IsTrimmable(s[|s| - 1]) then TrimTrailing(s[..|s| - 1]) else s
  }

  /**
   * String.trim: what is left of `s` once the trimmable characters at both
   * ends are removed; it neither starts nor ends with one.
   */
  function Trim(s: string): (r: string)
    ensures r != [] ==> !IsTrimmable(r[0]) && !IsTrimmable(r[|r| - 1])
  {
    TrimTrailing(TrimLeading(s))
  }

  /** TrimLeading removes a prefix of trimmable characters and keeps the rest as it is. */
  lemma {:induction false} TrimLeadingDropsPrefix(s: string)
    ensures var k := |s| - |TrimLeading(s)|; TrimLeading(s) == s[k..] && AllTrimmable(s[..k])
  {
    if |s| > 0 && IsTrimmable(s[0]) {
      TrimLeadingDropsPrefix(s[1..]);
      var k := |s| - |TrimLeading(s)|;
      assert s[..k] == [s[0]] + s[1..][..k - 1];
    }
  }

  /** TrimTrailing removes a suffix of trimmable characters and keeps the rest as it is. */
  lemma {:induction false} TrimTrailingDropsSuffix(s: string)
    ensures var k := |TrimTrailing(s)|; TrimTrailing(s) == s[..k] && AllTrimmable(s[k..])
  {
    if |s| > 0 && IsTrimmable(s[|s| - 1]) {
      TrimTrailingDropsSuffix(s[..|s| - 1]);
      var k := |TrimTrailing(s)|;
      assert s[k..] == s[..|s| - 1][k..] + [s[|s| - 1]];
    }
  }

  /** A prefix of a suffix, and what follows it, read back in the original string. */
  lemma SliceOfSuffix(s: string, i: nat, left: string, r: string)
    requires i <= |s| && left == s[i..] && |r| <= |left| && r == left[..|r|] && AllTrimmable(left[|r|..])
    ensures forall k :: 0 <= k < |r| ==> r[k] == s[i + k]
    ensures forall k :: i + |r| <= k < |s| ==> IsTrimmable(s[k])
  {
    forall k | 0 <= k < |r|
      ensures r[k] == s[i + k]
    {
      assert r[k] == left[k];
    }
    forall k | i + |r| <= k < |s|
      ensures IsTrimmable(s[k])
    {
      assert s[k] == left[k - i] == left[|r|..][k - i - |r|];
    }
  }

  /** What trim removes are trimmable characters at the two ends, and nothing else. */
  lemma TrimRemovesOnlyEnds(s: string)
    ensures var r, i := Trim(s), |s| - |TrimLeading(s)|;
            i + |r| <= |s| && AllTrimmable(s[..i])
            && (forall k :: 0 <= k < |r| ==> r[k] == s[i + k])
            && (forall k :: i + |r| <= k < |s| ==> IsTrimmable(s[k]))
  {
    var left := TrimLeading(s);
    TrimLeadingDropsPrefix(s);
    TrimTrailingDropsSuffix(left);
    SliceOfSuffix(s, |s| - |left|, left, TrimTrailing(left));
  }

  lemma TrimmedIsUnchanged(s: string)
    requires s != [] ==> !IsTrimmable(s[0]) && !IsTrimmable(s[|s| - 1])
    ensures Trim(s) == s
  {
  }

  lemma {:induction false} AllTrimmableTrimsAway(w: string)
    requires AllTrimmable(w)
    ensures TrimLeading(w) == [] && TrimTrailing(w) == []
  {
    if |w| > 0 {
      assert IsTrimmable(w[0]) && IsTrimmable(w[|w| - 1]);
      assert AllTrimmable(w[1..]) && AllTrimmable(w[..|w| - 1]) by {
        assert forall i :: 0 <= i < |w| - 1 ==> w[1..][i] == w[i + 1] && w[..|w| - 1][i] == w[i];
      }
      AllTrimmableTrimsAway(w[1..]);
      AllTrimmableTrimsAway(w[..|w| - 1]);
    }
  }

  /** Leading trimmable characters of `s + t` reach into `t` only when `s` has no other character. */
  lemma {:induction false} TrimLeadingAppend(s: string, t: string)
    ensures TrimLeading(s + t) == if TrimLeading(s) == [] then TrimLeading(t) else TrimLeading(s) + t
  {
    if |s| == 0 {
      assert s + t == t;
    } else if IsTrimmable(s[0]) {
      assert (s + t)[1..] == s[1..] + t;
      TrimLeadingAppend(s[1..], t);
    }
  }

  /** Trailing trimmable characters of `s + t` reach into `s` only when `t` has no other character. */
  lemma {:induction false} TrimTrailingPrepend(s: string, t: string)
    ensures TrimTrailing(s + t) == if TrimTrailing(t) == [] then TrimTrailing(s) else s + TrimTrailing(t)
  {
    if |t| == 0 {
      assert s + t == s;
    } else if IsTrimmable(t[|t| - 1]) {
      assert (s + t)[..|s + t| - 1] == s + t[..|t| - 1];
      TrimTrailingPrepend(s, t[..|t| - 1]);
    }
  }

  /** Surrounding whitespace never changes what trim returns. */
  lemma TrimPadded(w1: string, s: string, w2: string)
    requires AllTrimmable(w1) && AllTrimmable(w2)
    ensures Trim(w1 + s + w2) == Trim(s)
  {
    AllTrimmableTrimsAway(w1);
    AllTrimmableTrimsAway(w2);
    var x := s + w2;
    assert w1 + s + w2 == w1 + x;
    TrimLeadingAppend(w1, x);
    assert TrimLeading(w1 + s + w2) == TrimLeading(x);
    TrimLeadingAppend(s, w2);
    var left := TrimLeading(s);
    if left == [] {
      assert TrimLeading(x) == [];
    } else {
      assert TrimLeading(x) == left + w2;
      TrimTrailingPrepend(left, w2);
      assert TrimTrailing(left + w2) == TrimTrailing(left);
    }
  }

  /** Trimming a string that ends in a visible character only removes leading characters. */
  lemma TrimEndingVisible(s: string, c: char)
    requires !IsTrimmable(c)
    ensures Trim(s + [c]) == TrimLeading(s) + [c]
  {
    TrimLeadingAppend(s, [c]);
    assert TrimLeading([c]) == [c];
  }

  lemma TrimAfterTrimLeading(s: string)
    ensures Trim(TrimLeading(s)) == Trim(s)
  {
  }

  /** A visible first and last character of `p` survive trimming of `p + t`, and with them all of `p`. */
  lemma TrimKeepsVisiblePrefix(p: string, t: string)
    requires p != [] && !IsTrimmable(p[0]) && !IsTrimmable(p[|p| - 1])
    ensures StartsWith(Trim(p + t), p)
  {
    assert TrimLeading(p + t) == p + t;
    TrimTrailingPrepend(p, t);
    assert TrimTrailing(p) == p;
  }

  lemma TrimKeepsOnlyOwnCharacters(s: string, c: char)
    requires c in Trim(s)
    ensures c in s
  {
    TrimRemovesOnlyEnds(s);
    var r, i := Trim(s), |s| - |TrimLeading(s)|;
    var k :| 0 <= k < |r| && r[k] == c;
    assert s[i + k] == c;
  }

  // ---------------------------------------------------------------------------
  // Case folding, restricted to the ASCII letters.

  function ToLowerChar(c: char): (l: char)
    ensures 'A' <= c <= 'Z' ==> 'a' <= l <= 'z'
  {
    if 'A' <= c <= 'Z' then (c as int - 'A' as int + 'a' as int) as char else c
  }

  function ToUpperChar(c: char): (u: char)
    ensures 'a' <= c <= 'z' ==> 'A' <= u <= 'Z'
  {
    if 'a' <= c <= 'z' then (c as int - 'a' as int + 'A' as int) as char else c
  }

  predicate IsLowerCase(s: string) {
    forall i :: 0 <= i < |s| ==> !('A' <= s[i] <= 'Z')
  }

  /** String.toLowerCase: every upper-case letter replaced by its lower-case one, nothing else touched. */
  function ToLower(s: string): (r: string)
    ensures |r| == |s|
    ensures forall i :: 0 <= i < |s| ==> r[i] == ToLowerChar(s[i])
    ensures IsLowerCase(r)
    ensures EqualsIgnoreCase(s, r)
  {
    seq(|s|, i requires 0 <= i < |s| => ToLowerChar(s[i]))
  }

  lemma ToLowerOfLowerCase(s: string)
    requires IsLowerCase(s)
    ensures ToLower(s) == s
  {
  }

  lemma ToLowerPrefix(s: string, n: nat)
    requires n <= |s|
    ensures ToLower(s[..n]) == ToLower(s)[..n]
  {
    var l, u, t := ToLower(s[..n]), ToLower(s), s[..n];
    forall k | 0 <= k < n
      ensures l[k] == u[..n][k]
    {
      assert l[k] == ToLowerChar(t[k]) && t[k] == s[k];
      assert u[..n][k] == u[k] == ToLowerChar(s[k]);
    }
  }

  lemma ToLowerSuffix(s: string, n: nat)
    requires n <= |s|
    ensures ToLower(s[n..]) == ToLower(s)[n..]
  {
    var l, u, t := ToLower(s[n..]), ToLower(s), s[n..];
    forall k | 0 <= k < |t|
      ensures l[k] == u[n..][k]
    {
      assert l[k] == ToLowerChar(t[k]) && t[k] == s[n + k];
      assert u[n..][k] == u[n + k] == ToLowerChar(s[n + k]);
    }
  }

  /** The per-character test of String.regionMatches with ignoreCase set. */
  predicate CharEqualsIgnoreCase(a: char, b: char) {
    a == b || ToUpperChar(a) == ToUpperChar(b) || ToLowerChar(ToUpperChar(a)) == ToLowerChar(ToUpperChar(b))
  }

  /** String.equalsIgnoreCase: equal lengths and every pair of characters equal up to case. */
  predicate EqualsIgnoreCase(a: string, b: string) {
    |a| == |b| && forall i :: 0 <= i < |a| ==> CharEqualsIgnoreCase(a[i], b[i])
  }

  lemma CharEqualsIgnoreCaseIsLowerEquality(a: char, b: char)
    ensures CharEqualsIgnoreCase(a, b) <==> ToLowerChar(a) == ToLowerChar(b)
  {
  }

  /** Two strings are equal ignoring case exactly when their lower-case forms are equal. */
  lemma EqualsIgnoreCaseIsLowerEquality(a: string, b: string)
    ensures EqualsIgnoreCase(a, b) <==> ToLower(a) == ToLower(b)
  {
    if EqualsIgnoreCase(a, b) {
      forall i | 0 <= i < |a| ensures ToLower(a)[i] == ToLower(b)[i] {
        CharEqualsIgnoreCaseIsLowerEquality(a[i], b[i]);
      }
    }
    if ToLower(a) == ToLower(b) {
      forall i | 0 <= i < |a| ensures CharEqualsIgnoreCase(a[i], b[i]) {
        assert ToLower(a)[i] == ToLower(b)[i];
        CharEqualsIgnoreCaseIsLowerEquality(a[i], b[i]);
      }
    }
  }

  /** Lower-casing and trimming commute: case folding never turns a visible character into whitespace. */
  lemma {:induction false} TrimLeadingToLower(s: string)
    ensures TrimLeading(ToLower(s)) == ToLower(TrimLeading(s))
  {
    if |s| > 0 && IsTrimmable(s[0]) {
      assert ToLower(s)[1..] == ToLower(s[1..]);
      TrimLeadingToLower(s[1..]);
    }
  }

  lemma {:induction false} TrimTrailingToLower(s: string)
    ensures TrimTrailing(ToLower(s)) == ToLower(TrimTrailing(s))
  {
    if |s| > 0 && IsTrimmable(s[|s| - 1]) {
      assert ToLower(s)[..|s| - 1] == ToLower(s[..|s| - 1]);
      TrimTrailingToLower(s[..|s| - 1]);
    }
  }

  lemma TrimToLower(s: string)
    ensures Trim(ToLower(s)) == ToLower(Trim(s))
  {
    TrimLeadingToLower(s);
    TrimTrailingToLower(TrimLeading(s));
  }

  // ---------------------------------------------------------------------------
  // Prefixes, suffixes and search.

  /** String.startsWith. */
  predicate StartsWith(s: string, prefix: string) {
    |prefix| <= |s| && s[..|prefix|] == prefix
  }

  /** A lower-case prefix survives lower-casing the whole string. */
  lemma StartsWithLowerCase(s: string, p: string)
    requires IsLowerCase(p) && StartsWith(s, p)
    ensures StartsWith(ToLower(s), p)
  {
    ToLowerPrefix(s, |p|);
    ToLowerOfLowerCase(p);
  }

  /** Two prefixes of one string are prefixes of each other. */
  lemma PrefixesComparable(s: string, p: string, q: string)
    requires StartsWith(s, p)
    ensures StartsWith(s, q) ==> StartsWith(p, q) || StartsWith(q, p)
  {
    if StartsWith(s, q) {
      if |q| <= |p| {
        assert p[..|q|] == s[..|q|];
      } else {
        assert q[..|p|] == s[..|p|];
      }
    }
  }

  /** Two ways of writing one string as a concatenation have comparable first parts. */
  lemma ConcatenationsComparable(p: string, x: string, q: string, y: string)
    ensures p + x == q + y ==> StartsWith(p, q) || StartsWith(q, p)
  {
    if p + x == q + y {
      if |p| <= |q| {
        assert q[..|p|] == (q + y)[..|p|] == (p + x)[..|p|] == p;
      } else {
        assert p[..|q|] == (p + x)[..|q|] == (q + y)[..|q|] == q;
      }
    }
  }

  /** String.endsWith. */
  predicate EndsWith(s: string, suffix: string) {
    |suffix| <= |s| && s[|s| - |suffix|..] == suffix
  }

  /** String.indexOf of one character: the first position holding `c`, or None (Java's -1) when there is none. */
  function IndexOf(s: string, c: char): (r: Option<nat>)
    ensures r.None? <==> c !in s
    ensures r.Some? ==> r.value < |s| && s[r.value] == c && c !in s[..r.value]
  {
    if s == [] then None
    else if s[0] == c then Some(0)
    else match IndexOf(s[1..], c)
      case None => None
      case Some(k) =>
        assert s[..k + 1] == [s[0]] + s[1..][..k];
        Some(k + 1)
  }

  /** The first `c` of `a + [c] + b` is the one after `a` when `a` holds none. */
  lemma IndexOfAfter(a: string, c: char, b: string)
    requires c !in a
    ensures IndexOf(a + [c] + b, c) == Some(|a|)
  {
    var s := a + [c] + b;
    assert s[|a|] == c;
  }

  /** Searching for a character that case folding leaves alone gives the same answer on the lower-cased string. */
  lemma IndexOfToLower(s: string, c: char)
    requires !('A' <= c <= 'Z') && !('a' <= c <= 'z')
    ensures IndexOf(ToLower(s), c) == IndexOf(s, c)
  {
    var l := ToLower(s);
    assert forall i :: 0 <= i < |s| ==> (l[i] == c <==> s[i] == c);
    if c in s {
      var k :| 0 <= k < |s| && s[k] == c;
      assert l[k] == c;
    }
    if c in l {
      var k :| 0 <= k < |l| && l[k] == c;
      assert s[k] == c;
    }
  }
}
