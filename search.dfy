/** Substring search and replacement as Python's str operators do them:
    `p in s`, str.replace, str.split(c)[0] and str.split(c)[-1], with the
    facts the normalisers rely on: replacing a word by a space never creates
    a space-free word that was not there before. */
module Search {
  import opened Text

  predicate StartsWith(s: string, p: string) {
    |p| <= |s| && s[..|p|] == p
  }

  predicate EndsWith(s: string, p: string) {
    |p| <= |s| && s[|s| - |p|..] == p
  }

  /** Python's `p in s` on strings. */
  predicate Contains(s: string, p: string)
    decreases |s|
  {
    StartsWith(s, p) || (s != [] && Contains(s[1..], p))
  }

  /** Python's `any(k in s for k in ps)`. */
  predicate ContainsAny(s: string, ps: seq<string>) {
    exists i :: 0 <= i < |ps| && Contains(s, ps[i])
  }

  /** No character of p is the plain space. */
  predicate NoBlank(p: string) {
    forall i :: 0 <= i < |p| ==> p[i] != ' '
  }

  /** No character of p is whitespace. */
  predicate NoWhitespace(p: string) {
    forall i :: 0 <= i < |p| ==> !IsSpace(p[i])
  }

  /** str.replace(pat, rep): scans left to right and replaces every
      non-overlapping occurrence of pat; text without pat comes back as it
      is. */
  function Replace(s: string, pat: string, rep: string): (r: string)
    requires pat != []
    ensures !Contains(s, pat) ==> r == s
    decreases |s|
  {
    if s == [] then []
    else if StartsWith(s, pat) then rep + Replace(s[|pat|..], pat, rep)
    else
      assert [s[0]] + s[1..] == s;
      [s[0]] + Replace(s[1..], pat, rep)
  }

  /** s.split(c)[0]: the text before the first c, or all of s. */
  function BeforeFirst(s: string, c: char): (r: string)
    ensures |r| <= |s| && r == s[..|r|]
    ensures c !in r
    ensures |r| < |s| ==> s[|r|] == c
  {
    if s == [] || s[0] == c then [] else [s[0]] + BeforeFirst(s[1..], c)
  }

  /** A separator not in a ends the text before the first one. */
  lemma BeforeFirstAt(a: string, b: string, c: char)
    requires c !in a
    ensures BeforeFirst(a + [c] + b, c) == a
  {
    var s := a + [c] + b;
    assert s[|a|] == c;
    assert s[..|a|] == a;
  }

  /** s.split(c)[-1]: the text after the last c, or all of s. */
  function AfterLast(s: string, c: char): (r: string)
    ensures |r| <= |s| && r == s[|s| - |r|..]
    ensures c !in r
    ensures |r| < |s| ==> s[|s| - |r| - 1] == c
  {
    if s == [] || s[|s| - 1] == c then [] else AfterLast(s[..|s| - 1], c) + [s[|s| - 1]]
  }

  // ---------------------------------------------------------------------
  // Lemmas about Contains

  lemma {:induction false} ContainsLength(s: string, p: string)
    requires Contains(s, p)
    ensures |p| <= |s|
    decreases |s|
  {
    if !StartsWith(s, p) {
      ContainsLength(s[1..], p);
    }
  }

  lemma {:induction false} ContainsInSuffix(s: string, k: nat, p: string)
    requires k <= |s| && Contains(s[k..], p)
    ensures Contains(s, p)
    decreases k
  {
    if k > 0 {
      assert s[1..][k - 1..] == s[k..];
      ContainsInSuffix(s[1..], k - 1, p);
    }
  }

  lemma {:induction false} ContainsInPrefix(s: string, k: nat, p: string)
    requires k <= |s| && Contains(s[..k], p)
    ensures Contains(s, p)
    decreases k
  {
    if StartsWith(s[..k], p) {
      assert s[..k][..|p|] == s[..|p|];
    } else {
      assert s[..k][1..] == s[1..][..k - 1];
      ContainsInPrefix(s[1..], k - 1, p);
    }
  }

  /** Every occurrence of a + b holds an occurrence of a and one of b. */
  lemma {:induction false} ContainsParts(s: string, a: string, b: string)
    requires Contains(s, a + b)
    ensures Contains(s, a) && Contains(s, b)
    decreases |s|
  {
    if StartsWith(s, a + b) {
      assert s[..|a|] == (a + b)[..|a|] == a;
      assert s[|a|..][..|b|] == (a + b)[|a|..] == b;
      ContainsInSuffix(s, |a|, b);
    } else {
      ContainsParts(s[1..], a, b);
    }
  }

  /** A character of p occurs in every string that contains p. */
  lemma {:induction false} ContainsChar(s: string, p: string, c: char)
    requires Contains(s, p) && c in p
    ensures c in s
    decreases |s|
  {
    if StartsWith(s, p) {
      assert c in s[..|p|];
    } else {
      ContainsChar(s[1..], p, c);
    }
  }

  /** An occurrence in a + b lies in a, lies in b, or straddles the joint:
      a ends with a head of p and b starts with the rest. */
  lemma {:induction false} ContainsAcross(a: string, b: string, p: string)
    requires Contains(a + b, p)
    ensures || Contains(a, p) || Contains(b, p)
            || exists j :: 0 < j < |p| && EndsWith(a, p[..j]) && StartsWith(b, p[j..])
    decreases |a|
  {
    var s := a + b;
    if a == [] {
      assert s == b;
    } else if StartsWith(s, p) {
      if |p| <= |a| {
        assert a[..|p|] == s[..|p|];
      } else {
        var j := |a|;
        assert p[..j] == s[..j] == a;
        assert b[..|p| - j] == s[j..|p|] == p[j..];
      }
    } else {
      assert s[1..] == a[1..] + b;
      ContainsAcross(a[1..], b, p);
      if Contains(a[1..], p) {
        ContainsInSuffix(a, 1, p);
      } else if !Contains(b, p) {
        var j :| 0 < j < |p| && EndsWith(a[1..], p[..j]) && StartsWith(b, p[j..]);
        assert a[|a| - j..] == a[1..][|a| - 1 - j..];
      }
    }
  }

  /** A pattern whose first character is not in a starts in b, if at all. */
  lemma ContainsSkipLeft(a: string, b: string, p: string)
    requires p != [] && p[0] !in a && Contains(a + b, p)
    ensures Contains(b, p)
  {
    ContainsAcross(a, b, p);
    if Contains(a, p) {
      ContainsChar(a, p, p[0]);
    }
  }

  /** A pattern whose last character is not in b ends in a, if at all. */
  lemma ContainsSkipRight(a: string, b: string, p: string)
    requires p != [] && p[|p| - 1] !in b && Contains(a + b, p)
    ensures Contains(a, p)
  {
    ContainsAcross(a, b, p);
    if Contains(b, p) {
      ContainsChar(b, p, p[|p| - 1]);
    }
  }

  /** A word without blanks never straddles a blank. */
  lemma WordAcrossBlank(a: string, b: string, w: string)
    requires w != [] && NoBlank(w) && Contains(a + (" " + b), w)
    ensures Contains(a, w) || Contains(b, w)
  {
    var c := " " + b;
    ContainsAcross(a, c, w);
    if Contains(c, w) {
      assert !StartsWith(c, w) by {
        assert c[0] == ' ' && w[0] != ' ';
      }
      assert c[1..] == b;
    }
  }

  lemma ContainsAnyOf(s: string, ps: seq<string>, k: nat)
    requires k < |ps| && Contains(s, ps[k])
    ensures ContainsAny(s, ps)
  {
  }

  // ---------------------------------------------------------------------
  // Lemmas about Replace

  /** A pattern holding a character the text lacks does not occur in it. */
  lemma MissingChar(s: string, pat: string, c: char)
    requires c in pat && c !in s
    ensures !Contains(s, pat)
  {
    if Contains(s, pat) {
      ContainsChar(s, pat, c);
    }
  }

  /** Text before the first possible start of the pattern is copied. */
  lemma {:induction false} ReplaceSplit(a: string, b: string, pat: string, rep: string)
    requires pat != [] && pat[0] !in a
    ensures Replace(a + b, pat, rep) == a + Replace(b, pat, rep)
    decreases |a|
  {
    if a != [] {
      assert (a + b)[0] == a[0];
      assert (a + b)[1..] == a[1..] + b;
      ReplaceSplit(a[1..], b, pat, rep);
    } else {
      assert a + b == b;
    }
  }

  /** A pattern holding a character the text lacks is not replaced. */
  lemma ReplaceMissingChar(s: string, pat: string, rep: string, c: char)
    requires pat != [] && c in pat && c !in s
    ensures Replace(s, pat, rep) == s
  {
    if Contains(s, pat) {
      ContainsChar(s, pat, c);
    }
  }

  /** A one-character pattern cannot straddle two parts, so each part is
      replaced apart. */
  lemma {:induction false} ReplaceSplitsOneChar(a: string, b: string, c: char, rep: string)
    ensures Replace(a + b, [c], rep) == Replace(a, [c], rep) + Replace(b, [c], rep)
    decreases |a|
  {
    var s := a + b;
    if a == [] {
      assert s == b;
    } else {
      assert s[0] == a[0];
      assert s[..1] == [s[0]] && a[..1] == [a[0]];
      assert s[1..] == a[1..] + b;
      ReplaceSplitsOneChar(a[1..], b, c, rep);
    }
  }

  lemma ReplaceAtFront(pat: string, rest: string, rep: string)
    requires pat != []
    ensures Replace(pat + rest, pat, rep) == rep + Replace(rest, pat, rep)
  {
    assert (pat + rest)[..|pat|] == pat;
    assert (pat + rest)[|pat|..] == rest;
  }

  /** A pattern without blanks is replaced on each side of a blank apart. */
  lemma {:induction false} ReplaceAtBlank(a: string, b: string, pat: string, rep: string)
    requires pat != [] && NoBlank(pat)
    ensures Replace(a + (" " + b), pat, rep) == Replace(a, pat, rep) + Replace(" " + b, pat, rep)
    decreases |a|
  {
    var c := " " + b;
    var s := a + c;
    if a == [] {
      assert s == c;
    } else if StartsWith(s, pat) {
      assert |pat| <= |a| by {
        assert s[|a|] == ' ';
        assert forall i :: 0 <= i < |pat| ==> s[i] != ' ' by {
          assert forall i :: 0 <= i < |pat| ==> s[i] == pat[i];
        }
      }
      assert a[..|pat|] == s[..|pat|];
      assert s[|pat|..] == a[|pat|..] + c;
      ReplaceAtBlank(a[|pat|..], b, pat, rep);
    } else {
      assert s[1..] == a[1..] + c;
      ReplaceAtBlank(a[1..], b, pat, rep);
    }
  }

  /** A space-free prefix of the replaced text is a prefix of the original. */
  lemma {:induction false} BlankReplacePrefix(s: string, pat: string, w: string)
    requires pat != [] && NoBlank(w) && StartsWith(Replace(s, pat, " "), w)
    ensures StartsWith(s, w)
    decreases |s|
  {
    var r := Replace(s, pat, " ");
    if w != [] {
      assert r[0] == w[0];
      if StartsWith(s, pat) {
        assert false;
      }
      var r' := Replace(s[1..], pat, " ");
      assert r == [s[0]] + r';
      assert StartsWith(r', w[1..]) by {
        assert r'[..|w| - 1] == r[1..|w|] == w[1..];
      }
      assert NoBlank(w[1..]);
      BlankReplacePrefix(s[1..], pat, w[1..]);
      assert s[..|w|] == [s[0]] + s[1..][..|w| - 1];
    }
  }

  /** Replacing by a space never creates a space-free word. */
  lemma {:induction false} BlankReplaceBack(s: string, pat: string, w: string)
    requires pat != [] && NoBlank(w) && Contains(Replace(s, pat, " "), w)
    ensures Contains(s, w)
    decreases |s|
  {
    var r := Replace(s, pat, " ");
    if StartsWith(r, w) {
      BlankReplacePrefix(s, pat, w);
    } else if StartsWith(s, pat) {
      assert r[1..] == Replace(s[|pat|..], pat, " ");
      ContainsLength(s, pat);
      BlankReplaceBack(s[|pat|..], pat, w);
      ContainsInSuffix(s, |pat|, w);
    } else {
      assert r[1..] == Replace(s[1..], pat, " ");
      BlankReplaceBack(s[1..], pat, w);
    }
  }

  /** After replacing a space-free pattern by a space, it no longer occurs. */
  lemma {:induction false} BlankReplaceRemoves(s: string, pat: string)
    requires pat != [] && NoBlank(pat)
    ensures !Contains(Replace(s, pat, " "), pat)
    decreases |s|
  {
    var r := Replace(s, pat, " ");
    if s == [] {
      assert !StartsWith(r, pat);
    } else if StartsWith(s, pat) {
      BlankReplaceRemoves(s[|pat|..], pat);
      assert r[1..] == Replace(s[|pat|..], pat, " ");
      assert r[0] == ' ' && pat[0] != ' ';
    } else {
      BlankReplaceRemoves(s[1..], pat);
      assert r[1..] == Replace(s[1..], pat, " ");
      if StartsWith(r, pat) {
        BlankReplacePrefix(s, pat, pat);
      }
    }
  }

  // ---------------------------------------------------------------------
  // Collapsing whitespace never creates a word

  lemma {:induction false} SquashPrefixBack(s: string, w: string)
    requires NoWhitespace(w) && StartsWith(Squash(s), w)
    ensures StartsWith(s, w)
    decreases |s|
  {
    if w != [] {
      SquashWordHead(s, w);
      var r' := Squash(s[1..]);
      assert StartsWith(r', w[1..]) && NoWhitespace(w[1..]) by {
        assert r'[..|w| - 1] == Squash(s)[1..|w|] == w[1..];
      }
      SquashPrefixBack(s[1..], w[1..]);
      assert s[..|w|] == [s[0]] + s[1..][..|w| - 1];
    }
  }

  /** Squashed text that starts with a non-space character starts with the
      input's first character, which is not whitespace. */
  lemma SquashWordHead(s: string, w: string)
    requires w != [] && NoWhitespace(w) && StartsWith(Squash(s), w)
    ensures s != [] && !IsSpace(s[0]) && Squash(s) == [s[0]] + Squash(s[1..])
  {
    assert Squash(s)[0] == w[0] && !IsSpace(w[0]);
  }

  lemma {:induction false} SquashBack(s: string, w: string)
    requires w != [] && NoWhitespace(w) && Contains(Squash(s), w)
    ensures Contains(s, w)
    decreases |s|
  {
    var r := Squash(s);
    if StartsWith(r, w) {
      SquashPrefixBack(s, w);
    } else if IsSpace(s[0]) {
      var rest := StripLeft(s);
      assert r[1..] == Squash(rest);
      SquashBack(rest, w);
      ContainsInSuffix(s, |s| - |rest|, w);
    } else {
      assert r[1..] == Squash(s[1..]);
      SquashBack(s[1..], w);
    }
  }

  lemma StripBack(s: string, w: string)
    requires Contains(Strip(s), w)
    ensures Contains(s, w)
  {
    var l := StripLeft(s);
    assert Strip(s) == l[..|Strip(s)|];
    ContainsInPrefix(l, |Strip(s)|, w);
    ContainsInSuffix(s, |s| - |l|, w);
  }

  /** A word without whitespace that occurs after collapsing whitespace
      occurred before. */
  lemma CollapseBack(s: string, w: string)
    requires w != [] && NoWhitespace(w) && Contains(Collapse(s), w)
    ensures Contains(s, w)
  {
    StripBack(Squash(s), w);
    SquashBack(s, w);
  }

  // ---------------------------------------------------------------------
  // Blanking single characters never creates a word

  /** t is s with some characters replaced by a space. */
  predicate BlankedFrom(t: string, s: string) {
    |t| == |s| && forall i :: 0 <= i < |s| ==> t[i] == s[i] || t[i] == ' '
  }

  lemma {:induction false} BlankedBack(t: string, s: string, w: string)
    requires BlankedFrom(t, s) && NoBlank(w) && Contains(t, w)
    ensures Contains(s, w)
    decreases |s|
  {
    if StartsWith(t, w) {
      assert s[..|w|] == w by {
        forall i | 0 <= i < |w| ensures s[i] == w[i] {
          assert t[i] == w[i];
        }
      }
    } else {
      BlankedBack(t[1..], s[1..], w);
    }
  }
}
