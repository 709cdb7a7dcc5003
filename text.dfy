/** The string operations of Go's `strings` and `bytes` packages that the
    documentation template uses: lower-casing, prefix and suffix tests, searching
    for a pattern and replacing every occurrence of it. */
module Text {

  /** `strings.HasPrefix`. */
  predicate HasPrefix(s: string, p: string)
  {
    |p| <= |s| && s[..|p|] == p
  }

  /** `strings.HasSuffix`. */
  predicate HasSuffix(s: string, p: string)
  {
    |p| <= |s| && s[|s| - |p|..] == p
  }

  /** `pat` is at the front of `s`, compared character by character. */
  predicate StartsWith(s: string, pat: string)
    ensures StartsWith(s, pat) ==> |pat| <= |s|
    decreases pat
  {
    pat == [] || (s != [] && s[0] == pat[0] && StartsWith(s[1..], pat[1..]))
  }

  lemma {:induction false} StartsWithIsHasPrefix(s: string, pat: string)
    ensures StartsWith(s, pat) <==> HasPrefix(s, pat)
    decreases pat
  {
    if pat != [] && s != [] {
      StartsWithIsHasPrefix(s[1..], pat[1..]);
      if HasPrefix(s, pat) {
        assert s[1..][..|pat| - 1] == s[..|pat|][1..];
      }
      if StartsWith(s, pat) {
        assert s[..|pat|] == [s[0]] + s[1..][..|pat| - 1];
      }
    }
  }

  predicate IsUpperChar(c: char)
  {
    'A' <= c <= 'Z'
  }

  /** No ASCII upper-case letter occurs in `s`. */
  predicate IsLower(s: string)
  {
    forall i :: 0 <= i < |s| ==> !IsUpperChar(s[i])
  }

  /** Lower-cases one ASCII letter and leaves every other character alone. */
  function LowerChar(c: char): (r: char)
  {
    if IsUpperChar(c) then (c as int - 'A' as int + 'a' as int) as char else c
  }

  /** `strings.ToLower`, restricted to the ASCII letters. */
  function ToLower(s: string): (r: string)
    ensures |r| == |s|
    ensures forall i :: 0 <= i < |s| ==> r[i] == LowerChar(s[i])
    ensures IsLower(r)
    ensures IsLower(s) ==> r == s
  {
    seq(|s|, i requires 0 <= i < |s| => LowerChar(s[i]))
  }

  /** Lower-casing works character by character, so it distributes over `+`. */
  lemma ToLowerAppend(a: string, b: string)
    ensures ToLower(a + b) == ToLower(a) + ToLower(b)
  {
    var l, r := ToLower(a + b), ToLower(a) + ToLower(b);
    forall i | 0 <= i < |l| ensures l[i] == r[i] {
      if i < |a| {
        assert (a + b)[i] == a[i];
      } else {
        assert (a + b)[i] == b[i - |a|];
      }
    }
  }

  /** Lower-casing neither creates nor removes a character that is not a letter. */
  lemma ToLowerKeepsNonLetter(s: string, c: char)
    requires !IsUpperChar(c) && !('a' <= c <= 'z')
    ensures c in ToLower(s) <==> c in s
  {
    var l := ToLower(s);
    if c in s {
      var i :| 0 <= i < |s| && s[i] == c;
      assert l[i] == c;
    }
    if c in l {
      var i :| 0 <= i < |l| && l[i] == c;
      assert s[i] == c;
    }
  }

  /** `pat` occurs in `s` starting at position `i`. */
  predicate OccursAt(s: string, i: nat, pat: string)
  {
    i + |pat| <= |s| && s[i..i + |pat|] == pat
  }

  predicate Contains(s: string, pat: string)
  {
    exists i: nat | i <= |s| :: OccursAt(s, i, pat)
  }

  /** Dropping the first character shifts every occurrence one place left. */
  lemma OccursAfterFirst(s: string, pat: string)
    requires s != []
    ensures forall j: nat | 1 <= j :: OccursAt(s, j, pat) <==> OccursAt(s[1..], j - 1, pat)
  {
    forall j: nat | 1 <= j
      ensures OccursAt(s, j, pat) <==> OccursAt(s[1..], j - 1, pat)
    {
      if j + |pat| <= |s| {
        var u, v := s[j..j + |pat|], s[1..][j - 1..j - 1 + |pat|];
        assert |u| == |v|;
        forall k | 0 <= k < |u| ensures u[k] == v[k] {
          assert u[k] == s[j + k] && v[k] == s[1..][j - 1 + k];
        }
      }
    }
  }

  /** `bytes.Index`: the position of the first occurrence of `pat` in `s`, or
      -1 (characterised by `IndexOfIsFirst`). */
  function IndexOf(s: string, pat: string): (r: int)
    decreases |s|
  {
    if StartsWith(s, pat) then 0
    else if s == [] then -1
    else
      var k := IndexOf(s[1..], pat);
      if k < 0 then -1 else k + 1
  }

  /** `IndexOf` finds the first occurrence, and finds one whenever there is one. */
  lemma {:induction false} IndexOfIsFirst(s: string, pat: string)
    ensures IndexOf(s, pat) >= -1
    ensures IndexOf(s, pat) >= 0 ==> OccursAt(s, IndexOf(s, pat), pat)
    ensures forall j: nat :: j < IndexOf(s, pat) ==> !OccursAt(s, j, pat)
    ensures IndexOf(s, pat) < 0 <==> !Contains(s, pat)
    decreases |s|
  {
    StartsWithIsHasPrefix(s, pat);
    if StartsWith(s, pat) {
      assert OccursAt(s, 0, pat);
    } else if s != [] {
      assert !OccursAt(s, 0, pat);
      IndexOfIsFirst(s[1..], pat);
      OccursAfterFirst(s, pat);
    }
  }

  /** `bytes.ReplaceAll` for a non-empty pattern: scanning from the left, every
      occurrence of `pat` is replaced by `rep`, and the scan resumes right after
      the occurrence, so occurrences never overlap. */
  function ReplaceAll(s: string, pat: string, rep: string): (r: string)
    requires pat != []
    decreases |s|
  {
    if s == [] then []
    else if StartsWith(s, pat) then rep + ReplaceAll(s[|pat|..], pat, rep)
    else [s[0]] + ReplaceAll(s[1..], pat, rep)
  }

  /** A string without an occurrence of the pattern comes back unchanged. */
  lemma {:induction false} ReplaceAllNoMatch(s: string, pat: string, rep: string)
    requires pat != []
    requires !Contains(s, pat)
    ensures ReplaceAll(s, pat, rep) == s
    decreases |s|
  {
    if s != [] {
      assert !OccursAt(s, 0, pat);
      StartsWithIsHasPrefix(s, pat);
      assert !Contains(s[1..], pat) by {
        forall j: nat ensures !OccursAt(s[1..], j, pat) {
          assert !OccursAt(s, j + 1, pat);
          if j + |pat| <= |s| - 1 {
            assert s[1..][j..j + |pat|] == s[j + 1..j + 1 + |pat|];
          }
        }
      }
      ReplaceAllNoMatch(s[1..], pat, rep);
    }
  }

  /** The search-driven form of the replacement: with no occurrence the text
      is copied; otherwise the text before the first occurrence is copied, the
      replacement is emitted and the search goes on after the occurrence. */
  ghost predicate ReplacesAtFirst(s: string, pat: string, rep: string)
    requires pat != []
  {
    var i := IndexOf(s, pat);
    if i < 0 then ReplaceAll(s, pat, rep) == s
    else i + |pat| <= |s| && ReplaceAll(s, pat, rep) == s[..i] + rep + ReplaceAll(s[i + |pat|..], pat, rep)
  }

  /** Putting a character back in front of a text that was split at `k`. */
  lemma ConsSplice(c: char, t: string, k: nat, n: nat, rep: string, rest: string)
    requires k <= n <= |t|
    ensures [c] + (t[..k] + rep + rest) == ([c] + t)[..k + 1] + rep + rest
    ensures ([c] + t)[n + 1..] == t[n..]
  {
    assert ([c] + t)[..k + 1] == [c] + t[..k];
  }

  /** The cases of `ReplaceAllByIndex`: an empty text, ... */
  lemma ReplacesAtFirstEmpty(pat: string, rep: string)
    requires pat != []
    ensures ReplacesAtFirst([], pat, rep)
  {
    assert IndexOf([], pat) == -1;
  }

  /** ... a text that starts with an occurrence, ... */
  lemma ReplacesAtFirstAtStart(s: string, pat: string, rep: string)
    requires pat != [] && StartsWith(s, pat)
    ensures ReplacesAtFirst(s, pat, rep)
  {
    assert IndexOf(s, pat) == 0;
    assert s[..0] + rep == rep;
  }

  /** ... a text whose first character starts no occurrence and whose
      remainder holds none, ... */
  lemma ReplacesAtFirstSkipNone(s: string, pat: string, rep: string)
    requires pat != [] && s != [] && !StartsWith(s, pat)
    requires IndexOf(s[1..], pat) < 0 && ReplaceAll(s[1..], pat, rep) == s[1..]
    ensures ReplacesAtFirst(s, pat, rep)
  {
    assert IndexOf(s, pat) < 0;
    assert [s[0]] + s[1..] == s;
  }

  /** ... and one whose remainder holds its first occurrence at `k`. */
  lemma ReplacesAtFirstSkipSome(s: string, pat: string, rep: string, k: nat)
    requires pat != [] && s != [] && !StartsWith(s, pat)
    requires IndexOf(s[1..], pat) == k && k + |pat| <= |s| - 1
    requires ReplaceAll(s[1..], pat, rep) == s[1..][..k] + rep + ReplaceAll(s[1..][k + |pat|..], pat, rep)
    ensures ReplacesAtFirst(s, pat, rep)
  {
    var t := s[1..];
    var rest := ReplaceAll(t[k + |pat|..], pat, rep);
    assert IndexOf(s, pat) == k + 1;
    ConsSplice(s[0], t, k, k + |pat|, rep, rest);
    assert [s[0]] + t == s;
  }

  /** The left-to-right scan of `ReplaceAll` agrees with the search-driven
      loop of `bytes.Replace`, for every text. */
  lemma {:induction false} ReplaceAllByIndex(s: string, pat: string, rep: string)
    requires pat != []
    ensures ReplacesAtFirst(s, pat, rep)
    decreases |s|
  {
    if s == [] {
      ReplacesAtFirstEmpty(pat, rep);
    } else if StartsWith(s, pat) {
      ReplacesAtFirstAtStart(s, pat, rep);
    } else {
      ReplaceAllByIndex(s[1..], pat, rep);
      var k := IndexOf(s[1..], pat);
      if k < 0 {
        ReplacesAtFirstSkipNone(s, pat, rep);
      } else {
        ReplacesAtFirstSkipSome(s, pat, rep, k);
      }
    }
  }

  /** A single occurrence flanked by text that cannot start the pattern is the
      only thing replaced. */
  lemma {:induction false} ReplaceAllSplice(a: string, pat: string, b: string, rep: string)
    requires pat != []
    requires pat[0] !in a && pat[0] !in b
    ensures ReplaceAll(a + pat + b, pat, rep) == a + rep + b
    decreases |a|
  {
    var s := a + pat + b;
    if a == [] {
      assert s == pat + b && HasPrefix(s, pat);
      StartsWithIsHasPrefix(s, pat);
      assert s[|pat|..] == b;
      assert !Contains(b, pat) by {
        forall j: nat | j <= |b| ensures !OccursAt(b, j, pat) {
          if j + |pat| <= |b| {
            assert b[j..j + |pat|][0] == b[j] != pat[0];
          }
        }
      }
      ReplaceAllNoMatch(b, pat, rep);
    } else {
      assert s[0] == a[0] != pat[0];
      assert !StartsWith(s, pat);
      assert s[1..] == a[1..] + pat + b;
      ReplaceAllSplice(a[1..], pat, b, rep);
    }
  }
}
