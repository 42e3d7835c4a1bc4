/**
 * The three java.lang.String operations the query pipeline relies on:
 * trim(), toLowerCase() and contains().
 *
 * trim() removes every character at or below U+0020 from both ends, as the JDK does.
 * toLowerCase() is modelled as ASCII lowercasing (A-Z to a-z, everything else kept).
 */
module JavaText {

  /** A character that String.trim() strips: code point U+0020 or below. */
  predicate IsTrimmable(c: char) {
    c <= ' '
  }

  predicate AllTrimmable(s: string) {
    forall i :: 0 <= i < |s| ==> IsTrimmable(s[i])
  }

  /** The leading-whitespace loop of String.trim(). */
  function TrimStart(s: string): (r: string)
    ensures |r| <= |s| && r == s[|s| - |r|..]
    ensures AllTrimmable(s[..|s| - |r|])
    ensures r == [] || !IsTrimmable(r[0])
  {
    if |s| > 0 && IsTrimmable(s[0]) then
      var r := TrimStart(s[1..]);
      assert s[..|s| - |r|] == [s[0]] + s[1..][..|s| - 1 - |r|];
      r
    else s
  }

  /** The trailing-whitespace loop of String.trim(). */
  function TrimEnd(s: string): (r: string)
    ensures |r| <= |s| && r == s[..|r|]
    ensures AllTrimmable(s[|r|..])
    ensures r == [] || !IsTrimmable(r[|r| - 1])
  {
    if |s| > 0 && IsTrimmable(s[|s| - 1]) then
      var r := TrimEnd(s[..|s| - 1]);
      assert s[|r|..] == s[..|s| - 1][|r|..] + [s[|s| - 1]];
      r
    else s
  }

  /** String.trim(): a contiguous slice of s with only trimmable characters cut off either end. */
  function Trim(s: string): (r: string)
    ensures exists a, b :: 0 <= a <= b <= |s| && r == s[a..b] && AllTrimmable(s[..a]) && AllTrimmable(s[b..])
    ensures r == [] || (!IsTrimmable(r[0]) && !IsTrimmable(r[|r| - 1]))
  {
    TrimIsSlice(s, TrimStart(s), TrimEnd(TrimStart(s)));
    TrimEnd(TrimStart(s))
  }

  /**
   * Whatever the two loops of trim() leave, t after the leading loop and r after the trailing
   * one, r is a slice of s with only trimmable characters cut off either end.
   */
  lemma TrimIsSlice(s: string, t: string, r: string)
    requires |t| <= |s| && t == s[|s| - |t|..] && AllTrimmable(s[..|s| - |t|])
    requires t == [] || !IsTrimmable(t[0])
    requires |r| <= |t| && r == t[..|r|] && AllTrimmable(t[|r|..])
    requires r == [] || !IsTrimmable(r[|r| - 1])
    ensures exists a, b :: 0 <= a <= b <= |s| && r == s[a..b] && AllTrimmable(s[..a]) && AllTrimmable(s[b..])
    ensures r == [] || (!IsTrimmable(r[0]) && !IsTrimmable(r[|r| - 1]))
  {
    var a := |s| - |t|;
    PrefixOfSuffix(s, t, r, a);
    assert r == s[a..a + |r|] && AllTrimmable(s[..a]) && AllTrimmable(s[a + |r|..]);
    if r != [] {
      assert r[0] == t[0];
    }
  }

  /** A prefix of a suffix of s is a slice of s, and what follows it is a suffix of s. */
  lemma PrefixOfSuffix(s: string, t: string, r: string, a: nat)
    requires a <= |s| && t == s[a..] && |r| <= |t| && r == t[..|r|]
    ensures r == s[a..a + |r|] && t[|r|..] == s[a + |r|..]
  {
  }

  /** ASCII lowercasing of one character. */
  function LowerChar(c: char): (r: char)
    ensures IsTrimmable(r) <==> IsTrimmable(c)
    ensures !('A' <= r <= 'Z')
    ensures 'A' <= c <= 'Z' ==> r as int == c as int + 32
    ensures !('A' <= c <= 'Z') ==> r == c
  {
    if 'A' <= c <= 'Z' then (c as int + 32) as char else c
  }

  /** String.toLowerCase(), character by character. */
  function Lower(s: string): (r: string)
    ensures |r| == |s|
    ensures forall i :: 0 <= i < |s| ==> r[i] == LowerChar(s[i])
  {
    seq(|s|, i requires 0 <= i < |s| => LowerChar(s[i]))
  }

  /** `t` occurs in `s` starting at index `i`. */
  predicate OccursAt(s: string, t: string, i: int) {
    0 <= i && i + |t| <= |s| && s[i..i + |t|] == t
  }

  /** String.contains(): t occurs somewhere in s. */
  predicate Contains(s: string, t: string)
    ensures t == [] ==> Contains(s, t)
    ensures Contains(s, t) ==> |t| <= |s|
    ensures OccursAt(s, t, 0) ==> Contains(s, t)
  {
    assert t == [] ==> OccursAt(s, t, 0);
    exists i | 0 <= i <= |s| :: OccursAt(s, t, i)
  }

  // ----- lemmas -----

  lemma {:induction false} TrimStartOfPrefixedTrimmable(pre: string, s: string)
    requires AllTrimmable(pre)
    ensures TrimStart(pre + s) == TrimStart(s)
  {
    if pre != [] {
      var rest := pre[1..];
      assert IsTrimmable(pre[0]);
      assert AllTrimmable(rest) by {
        forall i | 0 <= i < |rest| ensures IsTrimmable(rest[i]) {
          assert rest[i] == pre[i + 1];
        }
      }
      calc {
        TrimStart(pre + s);
        { assert (pre + s)[0] == pre[0]; }
        TrimStart((pre + s)[1..]);
        { assert (pre + s)[1..] == rest + s; }
        TrimStart(rest + s);
        { TrimStartOfPrefixedTrimmable(rest, s); }
        TrimStart(s);
      }
    } else {
      assert pre + s == s;
    }
  }

  lemma {:induction false} TrimStartOfAppended(s: string, post: string)
    requires !AllTrimmable(s)
    ensures TrimStart(s + post) == TrimStart(s) + post
  {
    assert |s| > 0;
    if IsTrimmable(s[0]) {
      assert (s + post)[1..] == s[1..] + post;
      assert !AllTrimmable(s[1..]) by {
        var k :| 0 <= k < |s| && !IsTrimmable(s[k]);
        assert s[1..][k - 1] == s[k];
      }
      TrimStartOfAppended(s[1..], post);
    }
  }

  lemma {:induction false} TrimEndOfAppendedTrimmable(s: string, post: string)
    requires AllTrimmable(post)
    ensures TrimEnd(s + post) == TrimEnd(s)
  {
    if post != [] {
      var p := post[..|post| - 1];
      assert (s + post)[..|s + post| - 1] == s + p;
      TrimEndOfAppendedTrimmable(s, p);
    } else {
      assert s + post == s;
    }
  }

  lemma AllTrimmableAppend(s: string, t: string)
    requires AllTrimmable(s) && AllTrimmable(t)
    ensures AllTrimmable(s + t)
  {
    forall i | 0 <= i < |s + t| ensures IsTrimmable((s + t)[i]) {
      if i >= |s| {
        assert (s + t)[i] == t[i - |s|];
      }
    }
  }

  lemma TrimStartOfAllTrimmable(s: string)
    requires AllTrimmable(s)
    ensures TrimStart(s) == []
  {
  }

  /** The two loops of trim() pass over surrounding whitespace. */
  lemma TrimLoopsIgnorePadding(pre: string, s: string, post: string)
    requires AllTrimmable(pre) && AllTrimmable(post)
    ensures TrimEnd(TrimStart(pre + s + post)) == TrimEnd(TrimStart(s))
  {
    assert pre + s + post == pre + (s + post);
    TrimStartOfPrefixedTrimmable(pre, s + post);
    if AllTrimmable(s) {
      AllTrimmableAppend(s, post);
      TrimStartOfAllTrimmable(s + post);
      TrimStartOfAllTrimmable(s);
    } else {
      TrimStartOfAppended(s, post);
      TrimEndOfAppendedTrimmable(TrimStart(s), post);
    }
  }

  /** Surrounding whitespace never changes what trim() returns. */
  lemma TrimIgnoresPadding(pre: string, s: string, post: string)
    requires AllTrimmable(pre) && AllTrimmable(post)
    ensures Trim(pre + s + post) == Trim(s)
  {
    TrimLoopsIgnorePadding(pre, s, post);
  }

  /** trim() yields the empty string exactly when every character is trimmable. */
  lemma TrimEmptyIff(s: string)
    ensures Trim(s) == [] <==> AllTrimmable(s)
  {
    if AllTrimmable(s) {
      TrimStartOfPrefixedTrimmable(s, []);
      assert s + [] == s;
    }
  }

  lemma {:induction false} TrimStartLowerCommute(s: string)
    ensures TrimStart(Lower(s)) == Lower(TrimStart(s))
  {
    if |s| > 0 && IsTrimmable(s[0]) {
      assert Lower(s)[1..] == Lower(s[1..]);
      TrimStartLowerCommute(s[1..]);
    }
  }

  lemma {:induction false} TrimEndLowerCommute(s: string)
    ensures TrimEnd(Lower(s)) == Lower(TrimEnd(s))
  {
    if |s| > 0 && IsTrimmable(s[|s| - 1]) {
      assert Lower(s)[..|s| - 1] == Lower(s[..|s| - 1]);
      TrimEndLowerCommute(s[..|s| - 1]);
    }
  }

  /** Trimming and lowercasing commute. */
  lemma TrimLowerCommute(s: string)
    ensures Trim(Lower(s)) == Lower(Trim(s))
  {
    TrimStartLowerCommute(s);
    TrimEndLowerCommute(TrimStart(s));
  }

  lemma LowerAppend(a: string, b: string)
    ensures Lower(a + b) == Lower(a) + Lower(b)
  {
  }

  /** A string cannot contain a longer one, and contains one of equal length only if they are equal. */
  lemma ContainsByLength(s: string, t: string)
    ensures |s| < |t| ==> !Contains(s, t)
    ensures |s| == |t| ==> (Contains(s, t) <==> s == t)
  {
    if |s| == |t| && s == t {
      assert s[0..|t|] == s;
      assert OccursAt(s, t, 0);
    }
  }
}
