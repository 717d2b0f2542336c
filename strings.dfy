/** The string operations the job relies on: Python's `str.lower`, `str.strip`,
    the substring test `in` and `str.replace`, over `seq<char>`.

    `IsSpace` is exactly the set of characters for which Python's `str.isspace`
    holds. `LowerChar` is exact for the Latin-1 range (U+0000 to U+00FF), which
    covers every letter of the literals the job compares against; characters
    above U+00FF are left unchanged. */
module Strings {

  /** Python's `str.isspace`, character by character. */
  predicate IsSpace(c: char) {
    var n := c as int;
    (0x09 <= n <= 0x0D) || (0x1C <= n <= 0x20) || n == 0x85 || n == 0xA0 || n == 0x1680
    || (0x2000 <= n <= 0x200A) || n == 0x2028 || n == 0x2029 || n == 0x202F
    || n == 0x205F || n == 0x3000
  }

  /** Upper-case letters of Latin-1: A to Z, U+00C0 to U+00DE except the sign U+00D7. */
  predicate IsUpper(c: char) {
    var n := c as int;
    ('A' as int <= n <= 'Z' as int) || (0xC0 <= n <= 0xDE && n != 0xD7)
  }

  function LowerChar(c: char): (r: char)
    ensures !IsUpper(r)
    ensures IsSpace(r) == IsSpace(c)
    ensures !IsUpper(c) ==> r == c
  {
    if IsUpper(c) then (c as int + 32) as char else c
  }

  /** `s.lower()` */
  function Lower(s: string): (r: string)
    ensures |r| == |s|
  {
    seq(|s|, i requires 0 <= i < |s| => LowerChar(s[i]))
  }

  ghost predicate AllSpace(s: string) {
    forall i :: 0 <= i < |s| ==> IsSpace(s[i])
  }

  /** `r` has no white space at either end. */
  ghost predicate Stripped(r: string) {
    r == [] || (!IsSpace(r[0]) && !IsSpace(r[|r| - 1]))
  }

  /** `r` is what is left of `s` once the white space at both ends is removed. */
  ghost predicate IsStripOf(s: string, r: string) {
    exists a, b :: 0 <= a <= b <= |s| && r == s[a..b] && AllSpace(s[..a]) && AllSpace(s[b..])
                   && Stripped(r)
  }

  /** `s.lstrip()` */
  function TrimLeft(s: string): (r: string)
    ensures |r| <= |s|
  {
    if s != [] && IsSpace(s[0]) then TrimLeft(s[1..]) else s
  }

  /** `s.rstrip()` */
  function TrimRight(s: string): (r: string)
    ensures |r| <= |s|
  {
    if s != [] && IsSpace(s[|s| - 1]) then TrimRight(s[..|s| - 1]) else s
  }

  /** `lstrip` removes a prefix made only of white space, and no more. */
  lemma {:induction false} TrimLeftSpec(s: string)
    ensures var r := TrimLeft(s);
      && r == s[|s| - |r|..]
      && AllSpace(s[..|s| - |r|])
      && (r == [] || !IsSpace(r[0]))
  {
    if s != [] && IsSpace(s[0]) {
      TrimLeftSpec(s[1..]);
      var r := TrimLeft(s);
      assert s[1..][|s| - 1 - |r|..] == s[|s| - |r|..];
      assert s[..|s| - |r|] == [s[0]] + s[1..][..|s| - 1 - |r|];
    }
  }

  /** `rstrip` removes a suffix made only of white space, and no more. */
  lemma {:induction false} TrimRightSpec(s: string)
    ensures var r := TrimRight(s);
      && r == s[..|r|]
      && AllSpace(s[|r|..])
      && (r == [] || !IsSpace(r[|r| - 1]))
  {
    if s != [] && IsSpace(s[|s| - 1]) {
      TrimRightSpec(s[..|s| - 1]);
      var r := TrimRight(s);
      assert s[..|s| - 1][..|r|] == s[..|r|];
      assert s[|r|..] == s[..|s| - 1][|r|..] + [s[|s| - 1]];
    }
  }

  /** `s.strip()` */
  function Trim(s: string): (r: string)
    ensures |r| <= |s|
  {
    TrimRight(TrimLeft(s))
  }

  /** What `strip` returns is `s` without its white space at both ends. */
  lemma TrimSpec(s: string)
    ensures IsStripOf(s, Trim(s))
  {
    var l := TrimLeft(s);
    var r := TrimRight(l);
    TrimLeftSpec(s);
    TrimRightSpec(l);
    var a := |s| - |l|;
    var b := a + |r|;
    assert r == s[a..b];
    assert s[b..] == l[|r|..];
    assert AllSpace(s[..a]) && AllSpace(s[b..]);
    assert r != [] ==> r[0] == l[0];
    assert Stripped(r);
  }

  /** Stripping text without white space at its ends leaves it as it is. */
  lemma TrimStripped(s: string)
    requires Stripped(s)
    ensures Trim(s) == s
  {
    assert TrimLeft(s) == s;
  }

  /** Stripping is idempotent. */
  lemma TrimIdempotent(s: string)
    ensures Trim(Trim(s)) == Trim(s)
  {
    TrimSpec(s);
    TrimStripped(Trim(s));
  }

  lemma {:induction false} TrimLeftLower(s: string)
    ensures TrimLeft(Lower(s)) == Lower(TrimLeft(s))
  {
    if s != [] {
      assert Lower(s)[1..] == Lower(s[1..]);
      TrimLeftLower(s[1..]);
    }
  }

  lemma {:induction false} TrimRightLower(s: string)
    ensures TrimRight(Lower(s)) == Lower(TrimRight(s))
  {
    if s != [] {
      assert Lower(s)[..|s| - 1] == Lower(s[..|s| - 1]);
      TrimRightLower(s[..|s| - 1]);
    }
  }

  /** Lower-casing and stripping commute, so `s.strip().lower()` and
      `s.lower().strip()` agree. */
  lemma LowerTrimCommute(s: string)
    ensures Lower(Trim(s)) == Trim(Lower(s))
  {
    TrimLeftLower(s);
    TrimRightLower(TrimLeft(s));
  }

  /** `pat in s` */
  function Contains(s: string, pat: string): bool
    decreases |s|
  {
    |pat| <= |s| && (s[..|pat|] == pat || (s != [] && Contains(s[1..], pat)))
  }

  /** `pat` occurs in `s` starting at index `i`. */
  ghost predicate OccursAt(s: string, pat: string, i: int) {
    0 <= i && i + |pat| <= |s| && s[i..i + |pat|] == pat
  }

  /** The scanning definition of `Contains` agrees with "occurs at some index". */
  lemma {:induction false} ContainsIffOccurs(s: string, pat: string)
    ensures Contains(s, pat) <==> exists i :: OccursAt(s, pat, i)
    decreases |s|
  {
    if |pat| <= |s| && s[..|pat|] != pat && s != [] {
      ContainsIffOccurs(s[1..], pat);
      if exists i :: OccursAt(s, pat, i) {
        var i :| OccursAt(s, pat, i);
        assert i != 0;
        assert OccursAt(s[1..], pat, i - 1) by {
          assert s[1..][i - 1..i - 1 + |pat|] == s[i..i + |pat|];
        }
      }
      if exists i :: OccursAt(s[1..], pat, i) {
        var i :| OccursAt(s[1..], pat, i);
        assert s[1..][i..i + |pat|] == s[i + 1..i + 1 + |pat|];
        assert OccursAt(s, pat, i + 1);
      }
    } else if |pat| <= |s| && s[..|pat|] == pat {
      assert OccursAt(s, pat, 0);
    }
  }

  /** `s.replace(pat, rep)`: a left-to-right scan that replaces each
      non-overlapping occurrence of `pat`. */
  function ReplaceAll(s: string, pat: string, rep: string): string
    requires pat != []
    decreases |s|
  {
    if |s| < |pat| then s
    else if s[..|pat|] == pat then rep + ReplaceAll(s[|pat|..], pat, rep)
    else [s[0]] + ReplaceAll(s[1..], pat, rep)
  }

  /** Without an occurrence of `pat`, replacing leaves the text as it was. */
  lemma {:induction false} ReplaceAbsent(s: string, pat: string, rep: string)
    requires pat != []
    requires !Contains(s, pat)
    ensures ReplaceAll(s, pat, rep) == s
    decreases |s|
  {
    if |s| >= |pat| {
      ReplaceAbsent(s[1..], pat, rep);
      assert [s[0]] + s[1..] == s;
    }
  }

  /** When `rep` is longer than `pat`, replacing never shortens the text and
      lengthens it whenever `pat` occurs. */
  lemma {:induction false} ReplaceLonger(s: string, pat: string, rep: string)
    requires pat != [] && |rep| > |pat|
    ensures |ReplaceAll(s, pat, rep)| >= |s|
    ensures Contains(s, pat) ==> |ReplaceAll(s, pat, rep)| > |s|
    decreases |s|
  {
    if |s| >= |pat| {
      if s[..|pat|] == pat {
        ReplaceLonger(s[|pat|..], pat, rep);
      } else {
        ReplaceLonger(s[1..], pat, rep);
      }
    }
  }

  /** Appending in two steps is appending the two parts at once. */
  lemma AppendAssociative<T>(a: seq<T>, b: seq<T>, c: seq<T>)
    ensures a + b + c == a + (b + c)
  {
  }

  /** An occurrence in `s[1..]` is an occurrence in `s` one index later. */
  lemma OccursShift(s: string, pat: string, j: int)
    requires s != [] && 0 <= j
    ensures OccursAt(s[1..], pat, j) <==> OccursAt(s, pat, j + 1)
  {
    if j + |pat| <= |s| - 1 {
      assert s[1..][j..j + |pat|] == s[j + 1..j + 1 + |pat|];
    }
  }

  /** No occurrence of `pat` starts inside `pre` when `pre` is followed by `pat`
      and `post`: the occurrence right after `pre` is the first one. */
  ghost predicate FirstAfter(pre: string, pat: string, post: string) {
    forall j :: 0 <= j < |pre| ==> !OccursAt(pre + pat + post, pat, j)
  }

  /** Dropping the first character of `pre` keeps the occurrence after it the
      first one. */
  lemma FirstAfterTail(pre: string, pat: string, post: string)
    requires pre != [] && FirstAfter(pre, pat, post)
    ensures FirstAfter(pre[1..], pat, post)
    ensures (pre + pat + post)[1..] == pre[1..] + pat + post
  {
    var s := pre + pat + post;
    assert s[1..] == pre[1..] + pat + post;
    forall j | 0 <= j < |pre| - 1
      ensures !OccursAt(pre[1..] + pat + post, pat, j)
    {
      OccursShift(s, pat, j);
    }
  }

  /** The first occurrence of `pat` is replaced by `rep`, the text before it
      is kept, and the scan resumes right after it. With `ReplaceAbsent` this
      fixes the result from the occurrences alone. */
  lemma {:induction false} ReplaceFirst(pre: string, pat: string, post: string, rep: string)
    requires pat != [] && FirstAfter(pre, pat, post)
    ensures ReplaceAll(pre + pat + post, pat, rep) == pre + rep + ReplaceAll(post, pat, rep)
    decreases |pre|
  {
    var s := pre + pat + post;
    if pre == [] {
      assert s[..|pat|] == pat && s[|pat|..] == post;
    } else {
      FirstAfterTail(pre, pat, post);
      var tail := ReplaceAll(post, pat, rep);
      calc {
        ReplaceAll(s, pat, rep);
        { assert !OccursAt(s, pat, 0); }
        [s[0]] + ReplaceAll(s[1..], pat, rep);
        [pre[0]] + ReplaceAll(pre[1..] + pat + post, pat, rep);
        { ReplaceFirst(pre[1..], pat, post, rep); }
        [pre[0]] + (pre[1..] + rep + tail);
        { AppendAssociative([pre[0]], pre[1..] + rep, tail);
          AppendAssociative([pre[0]], pre[1..], rep);
          assert [pre[0]] + pre[1..] == pre; }
        pre + rep + tail;
      }
    }
  }

  /** So replacing changes the text exactly when `pat` occurs in it. */
  lemma ReplaceChangesIffContains(s: string, pat: string, rep: string)
    requires pat != [] && |rep| > |pat|
    ensures ReplaceAll(s, pat, rep) == s <==> !Contains(s, pat)
  {
    ReplaceLonger(s, pat, rep);
    if !Contains(s, pat) {
      ReplaceAbsent(s, pat, rep);
    }
  }
}
