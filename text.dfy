/** Character classes and the whitespace handling shared by the name
    normalisers and the page extractor: Python's str.isspace, ASCII casing,
    str.strip(), re.sub(r"\s+", " ", s) and str.title(). */
module Text {
  import opened Wrappers

  /** The characters Python's str.isspace() accepts. The \s class of the re
      module on str patterns and str.strip() without arguments use this set. */
  predicate IsSpace(c: char) {
    var n := c as int;
    n == 0x20 || 0x09 <= n <= 0x0D || 0x1C <= n <= 0x1F || n == 0x85 || n == 0xA0
    || n == 0x1680 || 0x2000 <= n <= 0x200A || n == 0x2028 || n == 0x2029
    || n == 0x202F || n == 0x205F || n == 0x3000
  }

  predicate IsLowerLetter(c: char) { 'a' <= c <= 'z' }
  predicate IsUpperLetter(c: char) { 'A' <= c <= 'Z' }
  predicate IsLetter(c: char) { IsLowerLetter(c) || IsUpperLetter(c) }
  predicate IsDigit(c: char) { '0' <= c <= '9' }

  function LowerChar(c: char): char {
    if IsUpperLetter(c) then (c as int + 32) as char else c
  }

  function UpperChar(c: char): char {
    if IsLowerLetter(c) then (c as int - 32) as char else c
  }

  /** str.lower() on the ASCII letters. */
  function Lower(s: string): string {
    seq(|s|, i requires 0 <= i < |s| => LowerChar(s[i]))
  }

  /** str.lower() leaves no upper-case letter, and every character of the
      result is the input's, up to case. */
  lemma LowerMeaning(s: string)
    ensures |Lower(s)| == |s|
    ensures forall i :: 0 <= i < |s| ==> !IsUpperLetter(Lower(s)[i]) && UpperChar(Lower(s)[i]) == UpperChar(s[i])
  {
  }

  /** The text Python's `s or ""` yields for an optional string. */
  function OrEmpty(s: Option<string>): string {
    s.GetOr("")
  }

  /** str.lstrip(): drops the leading whitespace. */
  function StripLeft(s: string): (r: string)
    ensures |r| <= |s| && r == s[|s| - |r|..]
    ensures forall i :: 0 <= i < |s| - |r| ==> IsSpace(s[i])
    ensures r == [] || !IsSpace(r[0])
  {
    if s != [] && IsSpace(s[0]) then StripLeft(s[1..]) else s
  }

  /** str.rstrip(): drops the trailing whitespace. */
  function StripRight(s: string): (r: string)
    ensures |r| <= |s| && r == s[..|r|]
    ensures forall i :: |r| <= i < |s| ==> IsSpace(s[i])
    ensures r == [] || !IsSpace(r[|r| - 1])
  {
    if s != [] && IsSpace(s[|s| - 1]) then StripRight(s[..|s| - 1]) else s
  }

  /** str.strip(): the longest infix with no whitespace at either end. */
  function Strip(s: string): (r: string)
    ensures |r| <= |s|
    ensures r == [] || (!IsSpace(r[0]) && !IsSpace(r[|r| - 1]))
    ensures (forall i :: 0 <= i < |s| ==> IsSpace(s[i])) <==> r == []
  {
    StripRight(StripLeft(s))
  }

  /** t sits at offset k of s with only whitespace before and after it. */
  predicate BetweenRuns(s: string, t: string, k: int) {
    0 <= k <= |s| - |t| && t == s[k..k + |t|] && AllSpace(s[..k]) && AllSpace(s[k + |t|..])
  }

  /** strip() removes the leading and the trailing whitespace and nothing
      else: what is left is the infix between two whitespace runs. */
  lemma StripMeaning(s: string)
    ensures exists k :: BetweenRuns(s, Strip(s), k)
  {
    var l := StripLeft(s);
    var r := StripRight(l);
    var k := InfixBetweenRuns(s, l, r);
    assert BetweenRuns(s, Strip(s), k);
  }

  lemma InfixBetweenRuns(s: string, l: string, r: string) returns (k: nat)
    requires |l| <= |s| && l == s[|s| - |l|..] && forall i :: 0 <= i < |s| - |l| ==> IsSpace(s[i])
    requires |r| <= |l| && r == l[..|r|] && forall i :: |r| <= i < |l| ==> IsSpace(l[i])
    ensures BetweenRuns(s, r, k)
  {
    StripInfix(s, l, r);
    k := |s| - |l|;
  }

  /** Dropping a whitespace head and then a whitespace tail leaves an
      infix between two whitespace runs. */
  lemma StripInfix(s: string, l: string, r: string)
    requires |l| <= |s| && l == s[|s| - |l|..] && forall i :: 0 <= i < |s| - |l| ==> IsSpace(s[i])
    requires |r| <= |l| && r == l[..|r|] && forall i :: |r| <= i < |l| ==> IsSpace(l[i])
    ensures var k := |s| - |l|;
      r == s[k..k + |r|] && AllSpace(s[..k]) && AllSpace(s[k + |r|..])
  {
    var k := |s| - |l|;
    var h := s[..k];
    forall i | 0 <= i < |h| ensures IsSpace(h[i]) {
      assert h[i] == s[i];
    }
    var e := s[k + |r|..];
    assert e == l[|r|..];
    forall i | 0 <= i < |e| ensures IsSpace(e[i]) {
      assert e[i] == l[|r| + i];
    }
  }

  /** lstrip() stops at the first non-space character, so text after one
      is kept as it is. */
  lemma {:induction false} StripLeftBefore(a: string, t: string)
    requires t != [] && !IsSpace(t[0])
    ensures StripLeft(a + t) == StripLeft(a) + t
    decreases |a|
  {
    if a == [] {
      assert a + t == t;
    } else {
      assert (a + t)[0] == a[0];
      if IsSpace(a[0]) {
        assert (a + t)[1..] == a[1..] + t;
        StripLeftBefore(a[1..], t);
      }
    }
  }

  /** rstrip() stops at the last non-space character, so text before one
      is kept as it is. */
  lemma {:induction false} StripRightAfter(t: string, b: string)
    requires t != [] && !IsSpace(t[|t| - 1])
    ensures StripRight(t + b) == t + StripRight(b)
    decreases |b|
  {
    if b == [] {
      assert t + b == t;
    } else {
      assert (t + b)[|t + b| - 1] == b[|b| - 1];
      if IsSpace(b[|b| - 1]) {
        assert (t + b)[..|t + b| - 1] == t + b[..|b| - 1];
        StripRightAfter(t, b[..|b| - 1]);
      }
    }
  }

  /** strip() of a text with a middle part that starts and ends with
      non-space characters strips the two sides apart and keeps the middle. */
  lemma StripAround(a: string, m: string, b: string)
    requires m != [] && !IsSpace(m[0]) && !IsSpace(m[|m| - 1])
    ensures Strip(a + m + b) == StripLeft(a) + m + StripRight(b)
  {
    assert a + m + b == a + (m + b);
    assert (m + b)[0] == m[0];
    StripLeftBefore(a, m + b);
    assert StripLeft(a) + (m + b) == (StripLeft(a) + m) + b;
    StripRightAfter(StripLeft(a) + m, b);
  }

  /** lower() works character by character. */
  lemma LowerAppend(x: string, y: string)
    ensures Lower(x + y) == Lower(x) + Lower(y)
  {
    assert forall i :: 0 <= i < |x + y| ==> Lower(x + y)[i] == (Lower(x) + Lower(y))[i];
  }

  /** The only whitespace is the plain space and no two spaces touch. */
  predicate SingleSpaced(t: string) {
    && (forall i :: 0 <= i < |t| && IsSpace(t[i]) ==> t[i] == ' ')
    && (forall i :: 0 <= i < |t| - 1 ==> t[i] != ' ' || t[i + 1] != ' ')
  }

  /** Every character of t is a space or a non-space character of s. */
  predicate CharsFrom(t: string, s: string) {
    forall i :: 0 <= i < |t| ==> t[i] == ' ' || (!IsSpace(t[i]) && t[i] in s)
  }

  /** re.sub(r"\s+", " ", s): every maximal run of whitespace becomes one
      space and every other character is kept in place. */
  function Squash(s: string): string
    decreases |s|
  {
    if s == [] then []
    else if IsSpace(s[0]) then
      var rest := StripLeft(s);
      " " + Squash(rest)
    else
      [s[0]] + Squash(s[1..])
  }

  /** What Squash produces: no longer than its input, single spaced, made
      of the input's characters, empty exactly when the input is, and
      starting or ending with a space exactly when the input starts or
      ends with whitespace. */
  lemma {:induction false} SquashShape(s: string)
    ensures |Squash(s)| <= |s|
    ensures SingleSpaced(Squash(s)) && CharsFrom(Squash(s), s)
    ensures |Squash(s)| > 0 <==> |s| > 0
    ensures |s| > 0 ==> (Squash(s)[0] == ' ' <==> IsSpace(s[0]))
    ensures |s| > 0 ==> (Squash(s)[|Squash(s)| - 1] == ' ' <==> IsSpace(s[|s| - 1]))
    decreases |s|
  {
    if s != [] {
      var c, rest := SquashHead(s);
      var q := Squash(rest);
      SquashShape(rest);
      forall i | 0 <= i < |q| && q[i] != ' ' ensures q[i] in s {
        assert q[i] in rest;
      }
      JoinShape(c, q, rest, s);
    }
  }

  /** The first character Squash emits and the text it squashes after it. */
  lemma SquashHead(s: string) returns (c: char, rest: string)
    requires s != []
    ensures Squash(s) == [c] + Squash(rest)
    ensures |rest| < |s| && rest == s[|s| - |rest|..]
    ensures (c == ' ' || c == s[0]) && (c == ' ' <==> IsSpace(s[0]))
    ensures c == ' ' ==> rest == [] || !IsSpace(rest[0])
  {
    if IsSpace(s[0]) {
      c, rest := ' ', StripLeft(s);
    } else {
      c, rest := s[0], s[1..];
    }
  }

  /** Putting one character in front of a squashed tail. */
  lemma JoinShape(c: char, q: string, rest: string, s: string)
    requires s != [] && (c == ' ' || c == s[0]) && (c == ' ' <==> IsSpace(s[0]))
    requires SingleSpaced(q) && (forall i :: 0 <= i < |q| ==> q[i] == ' ' || (!IsSpace(q[i]) && q[i] in s))
    requires c == ' ' ==> q == [] || q[0] != ' '
    requires |q| > 0 <==> |rest| > 0
    requires |rest| > 0 ==> (q[|q| - 1] == ' ' <==> IsSpace(rest[|rest| - 1]))
    requires |rest| > 0 ==> rest[|rest| - 1] == s[|s| - 1]
    requires rest == [] ==> (c == ' ' <==> IsSpace(s[|s| - 1]))
    ensures SingleSpaced([c] + q) && CharsFrom([c] + q, s)
    ensures ([c] + q)[|[c] + q| - 1] == ' ' <==> IsSpace(s[|s| - 1])
  {
    var r := [c] + q;
    forall i | 0 <= i < |r| - 1 ensures r[i] != ' ' || r[i + 1] != ' ' {
      if i > 0 {
        assert r[i] == q[i - 1] && r[i + 1] == q[i];
      }
    }
    forall i | 0 <= i < |r| ensures r[i] == ' ' || (!IsSpace(r[i]) && r[i] in s) {
      if i > 0 {
        assert r[i] == q[i - 1];
      }
    }
  }

  /** The shape re.sub(r"\s+", " ", s).strip() produces: single spaced and
      neither end is whitespace. */
  predicate NormalSpaced(t: string) {
    SingleSpaced(t) && (|t| > 0 ==> !IsSpace(t[0]) && !IsSpace(t[|t| - 1]))
  }

  /** re.sub(r"\s+", " ", s).strip(). */
  function Collapse(s: string): (r: string)
    ensures NormalSpaced(r) && CharsFrom(r, s)
  {
    CollapseShape(s);
    Strip(Squash(s))
  }

  lemma CollapseShape(s: string)
    ensures NormalSpaced(Strip(Squash(s))) && CharsFrom(Strip(Squash(s)), s)
  {
    SquashShape(s);
    StripKeeps(s, Squash(s));
  }

  /** Trimming keeps single spacing and the origin of the characters. */
  lemma StripKeeps(s: string, q: string)
    requires SingleSpaced(q) && CharsFrom(q, s)
    ensures SingleSpaced(Strip(q)) && CharsFrom(Strip(q), s)
  {
    var l := StripLeft(q);
    assert l == q[|q| - |l|..|q|];
    SliceKeeps(s, q, |q| - |l|, |q|);
    var r := StripRight(l);
    assert r == l[0..|r|];
    SliceKeeps(s, l, 0, |r|);
  }

  /** An infix keeps single spacing and the origin of its characters. */
  lemma SliceKeeps(s: string, q: string, a: nat, b: nat)
    requires a <= b <= |q|
    requires SingleSpaced(q) && CharsFrom(q, s)
    ensures SingleSpaced(q[a..b]) && CharsFrom(q[a..b], s)
  {
    var t := q[a..b];
    forall i | 0 <= i < |t| - 1 ensures t[i] != ' ' || t[i + 1] != ' ' {
      assert t[i] == q[a + i] && t[i + 1] == q[a + i + 1];
    }
  }

  /** _clean_text: None gives "", otherwise whitespace runs become one space
      and the ends are trimmed. */
  function CleanText(s: Option<string>): (r: string)
    ensures s == None || s == Some("") ==> r == ""
    ensures NormalSpaced(r)
  {
    Collapse(OrEmpty(s))
  }

  /** The text with every whitespace character removed. */
  function NonSpace(s: string): string {
    if s == [] then [] else (if IsSpace(s[0]) then [] else [s[0]]) + NonSpace(s[1..])
  }

  /** str.title() on ASCII text: a letter is upper-cased when the character
      before it is not a letter and lower-cased otherwise; every other
      character is left alone (so "3rd" becomes "3Rd"). */
  function Title(s: string): (r: string)
    ensures |r| == |s|
    ensures forall i :: 0 <= i < |s| ==> LowerChar(r[i]) == LowerChar(s[i])
    ensures forall i :: 0 <= i < |s| ==>
      (IsUpperLetter(r[i]) <==> IsLetter(s[i]) && (i == 0 || !IsLetter(s[i - 1])))
  {
    var r := seq(|s|, i requires 0 <= i < |s| => TitleChar(i == 0 || !IsLetter(s[i - 1]), s[i]));
    assert forall i :: 0 <= i < |s| ==>
      (LowerChar(r[i]) == LowerChar(s[i])
       && (IsUpperLetter(r[i]) <==> IsLetter(s[i]) && (i == 0 || !IsLetter(s[i - 1])))) by {
      forall i | 0 <= i < |s|
        ensures LowerChar(r[i]) == LowerChar(s[i])
        ensures IsUpperLetter(r[i]) <==> IsLetter(s[i]) && (i == 0 || !IsLetter(s[i - 1]))
      {
        TitleCharCase(i == 0 || !IsLetter(s[i - 1]), s[i]);
      }
    }
    r
  }

  /** One character of str.title(): upper-cased at the start of a run of
      letters, lower-cased inside one. */
  function TitleChar(start: bool, c: char): char {
    if start then UpperChar(c) else LowerChar(c)
  }

  lemma TitleCharCase(start: bool, c: char)
    ensures LowerChar(TitleChar(start, c)) == LowerChar(c)
    ensures IsUpperLetter(TitleChar(start, c)) <==> IsLetter(c) && start
  {
  }

  /** Lower-case letters, digits and spaces: the alphabet the normalisers
      keep before title-casing. */
  predicate LowerAlnumSpace(c: string) {
    forall i :: 0 <= i < |c| ==> IsLowerLetter(c[i]) || IsDigit(c[i]) || c[i] == ' '
  }

  /** ASCII letters, digits and spaces. */
  predicate AlnumSpace(t: string) {
    forall i :: 0 <= i < |t| ==> IsLetter(t[i]) || IsDigit(t[i]) || t[i] == ' '
  }

  // ---------------------------------------------------------------------
  // Lemmas

  lemma {:induction false} SquashIdentity(t: string)
    requires SingleSpaced(t)
    ensures Squash(t) == t
    decreases |t|
  {
    if t != [] {
      assert SingleSpaced(t[1..]) by {
        forall i | 0 <= i < |t[1..]| - 1 ensures t[1..][i] != ' ' || t[1..][i + 1] != ' ' {
          assert t[1..][i] == t[i + 1] && t[1..][i + 1] == t[i + 2];
        }
      }
      SquashIdentity(t[1..]);
      if IsSpace(t[0]) {
        assert t[0] == ' ';
        assert t[1..] == [] || !IsSpace(t[1]);
        assert StripLeft(t[1..]) == t[1..];
        assert StripLeft(t) == t[1..];
      }
    }
  }

  lemma StripIdentity(t: string)
    requires t == [] || (!IsSpace(t[0]) && !IsSpace(t[|t| - 1]))
    ensures Strip(t) == t
  {
  }

  /** re.sub(r"\s+", " ", s).strip() leaves text already in that shape
      unchanged, so applying it twice is applying it once. */
  lemma CollapseIdentity(t: string)
    requires NormalSpaced(t)
    ensures Collapse(t) == t
  {
    SquashIdentity(t);
    StripIdentity(t);
  }

  lemma CollapseIdempotent(s: string)
    ensures Collapse(Collapse(s)) == Collapse(s)
  {
    CollapseIdentity(Collapse(s));
  }

  predicate AllSpace(a: string) {
    forall i :: 0 <= i < |a| ==> IsSpace(a[i])
  }

  predicate NoSpace(w: string) {
    forall i :: 0 <= i < |w| ==> !IsSpace(w[i])
  }

  /** A leading run of whitespace is what lstrip() removes. */
  lemma {:induction false} StripLeftRun(a: string, t: string)
    requires AllSpace(a) && (t == [] || !IsSpace(t[0]))
    ensures StripLeft(a + t) == t
    decreases |a|
  {
    if a == [] {
      assert a + t == t;
    } else {
      assert (a + t)[1..] == a[1..] + t;
      StripLeftRun(a[1..], t);
    }
  }

  /** A trailing run of whitespace is what rstrip() removes. */
  lemma {:induction false} StripRightRun(t: string, b: string)
    requires AllSpace(b) && (t == [] || !IsSpace(t[|t| - 1]))
    ensures StripRight(t + b) == t
    decreases |b|
  {
    if b == [] {
      assert t + b == t;
    } else {
      var s := t + b;
      assert s[..|s| - 1] == t + b[..|b| - 1];
      StripRightRun(t, b[..|b| - 1]);
    }
  }

  /** A whitespace run squashes to one space in front of what follows. */
  lemma SquashRun(a: string, t: string)
    requires a != [] && AllSpace(a) && (t == [] || !IsSpace(t[0]))
    ensures Squash(a + t) == " " + Squash(t)
  {
    StripLeftRun(a, t);
  }

  lemma ConsAppend(w: string, q: string)
    requires w != []
    ensures [w[0]] + (w[1..] + q) == w + q
  {
    assert [w[0]] + w[1..] == w;
  }

  /** Characters that are not whitespace are copied by Squash. */
  lemma {:induction false} SquashWord(w: string, t: string)
    requires NoSpace(w)
    ensures Squash(w + t) == w + Squash(t)
    decreases |w|
  {
    if w == [] {
      assert w + t == t;
    } else {
      var x := w + t;
      assert x[0] == w[0] && !IsSpace(x[0]);
      assert x[1..] == w[1..] + t;
      assert Squash(x) == [w[0]] + Squash(w[1..] + t);
      SquashWord(w[1..], t);
      ConsAppend(w, Squash(t));
    }
  }

  /** What Squash makes of an all-whitespace run. */
  function Pad(a: string): string {
    if a == [] then [] else " "
  }

  lemma SquashPadded(a: string, w: string, b: string)
    requires AllSpace(a) && AllSpace(b) && w != [] && NoSpace(w)
    ensures Squash(a + (w + b)) == Pad(a) + (w + Pad(b))
  {
    assert Squash(b) == Pad(b) by {
      if b != [] {
        StripLeftRun(b, []);
        assert b + [] == b;
      }
    }
    SquashWord(w, b);
    if a == [] {
      assert a + (w + b) == w + b;
    } else {
      SquashRun(a, w + b);
    }
  }

  lemma StripPadded(h: string, w: string, t: string)
    requires AllSpace(h) && (t == [] || t == " ") && w != [] && NoSpace(w)
    ensures Strip(h + (w + t)) == w
  {
    var x := w + t;
    assert x[0] == w[0];
    StripLeftRun(h, x);
    assert StripRight(w) == w by {
      assert !IsSpace(w[|w| - 1]);
    }
    if t != [] {
      assert x[|x| - 1] == ' ';
      assert x[..|x| - 1] == w;
    } else {
      assert x == w;
    }
  }

  /** A word with whitespace on either side collapses to the bare word. */
  lemma CollapsePadded(a: string, w: string, b: string)
    requires AllSpace(a) && AllSpace(b) && w != [] && NoSpace(w)
    ensures Collapse(a + (w + b)) == w
  {
    SquashPadded(a, w, b);
    StripPadded(Pad(a), w, Pad(b));
  }

  /** Trailing whitespace squashes to one space after the squashed text. */
  lemma {:induction false} SquashTrailing(m: string, b: string)
    requires AllSpace(b) && (m == [] || !IsSpace(m[|m| - 1]))
    ensures Squash(m + b) == Squash(m) + Pad(b)
    decreases |m|, 1
  {
    if m == [] {
      SquashSpaces(b);
      assert m + b == b;
    } else if IsSpace(m[0]) {
      SquashTrailingAfterRun(m, b);
    } else {
      SquashTrailingAfterChar(m, b);
    }
  }

  /** SquashTrailing when m starts with whitespace. */
  lemma {:induction false} SquashTrailingAfterRun(m: string, b: string)
    requires AllSpace(b) && m != [] && IsSpace(m[0]) && !IsSpace(m[|m| - 1])
    ensures Squash(m + b) == Squash(m) + Pad(b)
    decreases |m|, 0
  {
    var l := SquashLeadingRun(m, b);
    SquashTrailing(l, b);
    PrefixJoin(Squash(m + b), Squash(m), " ", Squash(l), Squash(l + b), Pad(b));
  }

  /** SquashTrailing when m starts with a visible character. */
  lemma {:induction false} SquashTrailingAfterChar(m: string, b: string)
    requires AllSpace(b) && m != [] && !IsSpace(m[0]) && !IsSpace(m[|m| - 1])
    ensures Squash(m + b) == Squash(m) + Pad(b)
    decreases |m|, 0
  {
    SquashLeadingChar(m, b);
    SquashTrailing(m[1..], b);
    PrefixJoin(Squash(m + b), Squash(m), [m[0]], Squash(m[1..]), Squash(m[1..] + b), Pad(b));
  }

  /** The same head in front of a text and of that text with a tail. */
  lemma PrefixJoin(x: string, y: string, h: string, u: string, v: string, p: string)
    requires x == h + v && y == h + u && v == u + p
    ensures x == y + p
  {
  }

  /** A whitespace run squashes to one space, and nothing to nothing. */
  lemma SquashSpaces(b: string)
    requires AllSpace(b)
    ensures Squash(b) == Pad(b)
  {
    if b != [] {
      StripLeftRun(b, []);
      assert b + [] == b;
    }
  }

  /** A leading whitespace run of m is squashed before the rest of m + b. */
  lemma SquashLeadingRun(m: string, b: string) returns (l: string)
    requires m != [] && IsSpace(m[0]) && !IsSpace(m[|m| - 1])
    ensures l == StripLeft(m) && l != [] && |l| < |m| && !IsSpace(l[|l| - 1])
    ensures Squash(m) == " " + Squash(l)
    ensures Squash(m + b) == " " + Squash(l + b)
  {
    l := StripLeft(m);
    var a := m[..|m| - |l|];
    assert l != [] && m == a + l;
    assert m + b == a + (l + b);
    StripLeftRun(a, l + b);
  }

  /** A leading non-space character of m is copied before the rest of m + b. */
  lemma SquashLeadingChar(m: string, b: string)
    requires m != [] && !IsSpace(m[0])
    ensures Squash(m) == [m[0]] + Squash(m[1..])
    ensures Squash(m + b) == [m[0]] + Squash(m[1..] + b)
  {
    assert (m + b)[1..] == m[1..] + b;
  }

  /** Squashing commutes with rstrip(). */
  lemma SquashStripRight(s: string)
    ensures StripRight(Squash(s)) == Squash(StripRight(s))
  {
    var m := StripRight(s);
    var b := TrailingRun(s);
    SquashTrailing(m, b);
    SquashLast(m);
    StripRightPad(Squash(m), b);
  }

  /** What rstrip() drops is a whitespace run. */
  lemma TrailingRun(s: string) returns (b: string)
    ensures s == StripRight(s) + b && AllSpace(b)
  {
    b := s[|StripRight(s)|..];
  }

  /** Text that does not end with whitespace squashes to such text. */
  lemma SquashLast(m: string)
    requires m == [] || !IsSpace(m[|m| - 1])
    ensures Squash(m) == [] || !IsSpace(Squash(m)[|Squash(m)| - 1])
  {
    SquashShape(m);
  }

  /** rstrip() removes the one space Pad may add. */
  lemma StripRightPad(q: string, b: string)
    requires q == [] || !IsSpace(q[|q| - 1])
    ensures StripRight(q + Pad(b)) == q
  {
    if b != [] {
      assert (q + " ")[..|q|] == q;
    } else {
      assert q + Pad(b) == q;
    }
  }

  /** Squashing commutes with lstrip(). */
  lemma SquashStripLeft(s: string)
    ensures StripLeft(Squash(s)) == Squash(StripLeft(s))
  {
    SquashShape(StripLeft(s));
    SquashShape(s);
    if s != [] && IsSpace(s[0]) {
      assert Squash(s)[1..] == Squash(StripLeft(s));
    }
  }

  /** Trimming and then squashing whitespace runs gives what squashing and
      then trimming gives. */
  lemma SquashStripCommute(s: string)
    ensures Squash(Strip(s)) == Collapse(s)
  {
    SquashStripLeft(s);
    SquashStripRight(StripLeft(s));
  }

  lemma {:induction false} NonSpaceAppend(a: string, b: string)
    ensures NonSpace(a + b) == NonSpace(a) + NonSpace(b)
    decreases |a|
  {
    if a == [] {
      assert a + b == b;
    } else {
      var head := if IsSpace(a[0]) then [] else [a[0]];
      assert (a + b)[0] == a[0] && (a + b)[1..] == a[1..] + b;
      assert NonSpace(a + b) == head + NonSpace(a[1..] + b);
      assert NonSpace(a[1..] + b) == NonSpace(a[1..]) + NonSpace(b) by {
        NonSpaceAppend(a[1..], b);
      }
      assert head + (NonSpace(a[1..]) + NonSpace(b)) == (head + NonSpace(a[1..])) + NonSpace(b);
    }
  }

  lemma {:induction false} NonSpaceStripLeft(s: string)
    ensures NonSpace(StripLeft(s)) == NonSpace(s)
    decreases |s|
  {
    if s != [] && IsSpace(s[0]) {
      NonSpaceStripLeft(s[1..]);
    }
  }

  lemma {:induction false} NonSpaceStripRight(s: string)
    ensures NonSpace(StripRight(s)) == NonSpace(s)
    decreases |s|
  {
    if s != [] && IsSpace(s[|s| - 1]) {
      var init := s[..|s| - 1];
      NonSpaceStripRight(init);
      assert s == init + [s[|s| - 1]];
      NonSpaceAppend(init, [s[|s| - 1]]);
      assert NonSpace([s[|s| - 1]]) == [];
    }
  }

  lemma {:induction false} NonSpaceSquash(s: string)
    ensures NonSpace(Squash(s)) == NonSpace(s)
    decreases |s|
  {
    if s != [] {
      if IsSpace(s[0]) {
        var rest := StripLeft(s);
        NonSpaceSquash(rest);
        NonSpaceStripLeft(s);
        assert (" " + Squash(rest))[1..] == Squash(rest);
      } else {
        NonSpaceSquash(s[1..]);
        assert ([s[0]] + Squash(s[1..]))[1..] == Squash(s[1..]);
      }
    }
  }

  /** Collapsing whitespace changes only whitespace: the other characters
      survive, in order. */
  lemma CollapseKeepsText(s: string)
    ensures NonSpace(Collapse(s)) == NonSpace(s)
  {
    NonSpaceSquash(s);
    NonSpaceStripLeft(Squash(s));
    NonSpaceStripRight(StripLeft(Squash(s)));
  }

  /** Title-casing lower-case text and lower-casing it again gives the text
      back; title-casing keeps the alphabet and puts spaces where they were. */
  lemma TitleOfLower(c: string)
    requires LowerAlnumSpace(c)
    ensures Lower(Title(c)) == c
    ensures AlnumSpace(Title(c))
    ensures forall i :: 0 <= i < |c| ==> (Title(c)[i] == ' ' <==> c[i] == ' ')
    ensures NormalSpaced(c) ==> NormalSpaced(Title(c))
  {
    var t := Title(c);
    forall i | 0 <= i < |c|
      ensures LowerChar(t[i]) == c[i]
      ensures IsLetter(t[i]) || IsDigit(t[i]) || t[i] == ' '
      ensures t[i] == ' ' <==> c[i] == ' '
      ensures IsSpace(t[i]) <==> c[i] == ' '
    {
      assert IsLowerLetter(c[i]) || IsDigit(c[i]) || c[i] == ' ';
    }
    assert Lower(t) == c;
  }

  lemma TitleExample(s: string)
    requires s == "3rd street"
    ensures Title(s) == "3Rd Street"
  {
    var r := Title(s);
    assert r[0] == '3' && r[1] == 'R' && r[2] == 'd' && r[3] == ' ' && r[4] == 'S';
    assert r[5] == 't' && r[6] == 'r' && r[7] == 'e' && r[8] == 'e' && r[9] == 't';
  }

  /** str.lower() applied twice is applied once. */
  lemma LowerIdempotent(t: string)
    ensures Lower(Lower(t)) == Lower(t)
  {
  }

  /** Lower-casing changes no character into or out of whitespace and
      leaves the plain space as it is, so single-spaced, trimmed text stays
      so. */
  lemma LowerNormalSpaced(t: string)
    requires NormalSpaced(t)
    ensures NormalSpaced(Lower(t))
  {
    var l := Lower(t);
    forall i | 0 <= i < |t|
      ensures (IsSpace(l[i]) <==> IsSpace(t[i])) && (l[i] == ' ' <==> t[i] == ' ')
    {
      assert l[i] == LowerChar(t[i]);
    }
  }

  /** Lower-casing changes no character into or out of whitespace, so it
      commutes with strip(). */
  lemma StripLower(s: string)
    ensures Strip(Lower(s)) == Lower(Strip(s))
  {
    StripLeftLower(s);
    StripRightLower(StripLeft(s));
  }

  lemma {:induction false} StripLeftLower(s: string)
    ensures StripLeft(Lower(s)) == Lower(StripLeft(s))
    decreases |s|
  {
    if s != [] {
      var t := Lower(s);
      assert t[0] == LowerChar(s[0]);
      if IsSpace(s[0]) {
        assert IsSpace(t[0]);
        assert t[1..] == Lower(s[1..]);
        StripLeftLower(s[1..]);
        assert StripLeft(t) == StripLeft(t[1..]);
      } else {
        assert !IsSpace(t[0]);
        assert StripLeft(t) == t && StripLeft(s) == s;
      }
    }
  }

  lemma {:induction false} StripRightLower(s: string)
    ensures StripRight(Lower(s)) == Lower(StripRight(s))
    decreases |s|
  {
    if s != [] {
      assert Lower(s)[|s| - 1] == LowerChar(s[|s| - 1]);
      if IsSpace(s[|s| - 1]) {
        assert Lower(s)[..|s| - 1] == Lower(s[..|s| - 1]);
        StripRightLower(s[..|s| - 1]);
      }
    }
  }

  // ---------------------------------------------------------------------
  // Words: str.split() and " ".join

  /** The longest prefix of s without whitespace. */
  function FirstWord(s: string): (w: string)
    ensures |w| <= |s| && w == s[..|w|] && NoSpace(w)
    ensures |w| < |s| ==> IsSpace(s[|w|])
    ensures s != [] && !IsSpace(s[0]) ==> w != []
  {
    if s == [] || IsSpace(s[0]) then [] else [s[0]] + FirstWord(s[1..])
  }

  /** str.split() without arguments: the maximal runs of characters other
      than whitespace, in order. */
  function Words(s: string): (ws: seq<string>)
    ensures forall k :: 0 <= k < |ws| ==> ws[k] != [] && NoSpace(ws[k])
    decreases |s|
  {
    var t := StripLeft(s);
    if t == [] then []
    else
      var w := FirstWord(t);
      var ws := Words(t[|w|..]);
      WordsCons(w, ws);
      [w] + ws
  }

  lemma WordsCons(w: string, ws: seq<string>)
    requires w != [] && NoSpace(w)
    requires forall k :: 0 <= k < |ws| ==> ws[k] != [] && NoSpace(ws[k])
    ensures forall k :: 0 <= k < |[w] + ws| ==> ([w] + ws)[k] != [] && NoSpace(([w] + ws)[k])
  {
    forall k | 0 <= k < |[w] + ws| ensures ([w] + ws)[k] != [] && NoSpace(([w] + ws)[k]) {
      if k > 0 {
        assert ([w] + ws)[k] == ws[k - 1];
      }
    }
  }

  /** " ".join(ws). */
  function JoinWords(ws: seq<string>): string {
    if ws == [] then [] else if |ws| == 1 then ws[0] else ws[0] + " " + JoinWords(ws[1..])
  }

  /** Collapsing whitespace runs and trimming joins the words of the text
      with single spaces: re.sub(r"\s+", " ", s).strip() is
      " ".join(s.split()). */
  lemma CollapseWords(s: string)
    ensures Collapse(s) == JoinWords(Words(s))
  {
    assert Collapse(s) == Squash(Strip(s)) by {
      CollapseSquashes(s);
    }
    assert Squash(Strip(s)) == JoinWords(Words(Strip(s))) by {
      SquashWords(Strip(s));
    }
    WordsStrip(s);
  }

  /** Trimming and squashing commute: collapsing is squashing the trimmed
      text. */
  lemma CollapseSquashes(s: string)
    ensures Collapse(s) == Squash(Strip(s))
  {
    SquashStripLeft(s);
    SquashStripRight(StripLeft(s));
  }

  /** _clean_text joins the words of its input with single spaces. */
  lemma CleanTextWords(s: Option<string>)
    ensures CleanText(s) == JoinWords(Words(OrEmpty(s)))
  {
    CollapseWords(OrEmpty(s));
  }

  /** _clean_text of each text of a list is its words joined by single
      spaces. */
  lemma CleanTextsWords(xs: seq<string>)
    ensures forall i :: 0 <= i < |xs| ==> CleanText(Some(xs[i])) == JoinWords(Words(xs[i]))
  {
    forall i | 0 <= i < |xs| ensures CleanText(Some(xs[i])) == JoinWords(Words(xs[i])) {
      CleanTextWords(Some(xs[i]));
    }
  }

  /** On text with no whitespace at either end, squashing whitespace runs
      joins its words with single spaces. */
  lemma {:induction false} SquashWords(t: string)
    requires t == [] || (!IsSpace(t[0]) && !IsSpace(t[|t| - 1]))
    ensures Squash(t) == JoinWords(Words(t))
    decreases |t|
  {
    if t != [] {
      var w := FirstWord(t);
      var rest := t[|w|..];
      if rest == [] {
        SquashLastWord(t);
      } else {
        var r2 := SquashNextWord(t);
        SquashWords(r2);
        JoinCons(w, Words(r2));
      }
    }
  }

  /** Text that is one word squashes to itself, its only word. */
  lemma SquashLastWord(t: string)
    requires t != [] && !IsSpace(t[0]) && |FirstWord(t)| == |t|
    ensures Squash(t) == JoinWords(Words(t))
  {
    var w := FirstWord(t);
    assert w == t;
    assert Words(t[|w|..]) == [];
    assert Words(t) == [w];
    SquashWord(w, []);
    assert w + [] == w;
  }

  /** After the first word comes a whitespace run and then the rest. */
  lemma SquashNextWord(t: string) returns (r2: string)
    requires t != [] && !IsSpace(t[0]) && !IsSpace(t[|t| - 1]) && |FirstWord(t)| < |t|
    ensures r2 != [] && |r2| < |t| && !IsSpace(r2[0]) && !IsSpace(r2[|r2| - 1])
    ensures Squash(t) == FirstWord(t) + " " + Squash(r2)
    ensures Words(t) == [FirstWord(t)] + Words(r2)
  {
    var w := FirstWord(t);
    var a;
    a, r2 := NextWordSplit(t);
    SquashSplit(w, a, r2);
    assert Words(t) == [w] + Words(t[|w|..]) by {
      assert StripLeft(t) == t;
    }
    WordsAfterRun(a, r2);
  }

  /** Text with a first word and more splits as that word, a whitespace run
      and text that starts and ends with a character other than whitespace. */
  lemma NextWordSplit(t: string) returns (a: string, r2: string)
    requires t != [] && !IsSpace(t[0]) && !IsSpace(t[|t| - 1]) && |FirstWord(t)| < |t|
    ensures t == FirstWord(t) + (a + r2) && t[|FirstWord(t)|..] == a + r2
    ensures a != [] && AllSpace(a)
    ensures r2 != [] && |r2| < |t| && !IsSpace(r2[0]) && !IsSpace(r2[|r2| - 1])
  {
    var w := FirstWord(t);
    var rest := t[|w|..];
    assert t == w + rest;
    assert rest[0] == t[|w|] && rest[|rest| - 1] == t[|t| - 1];
    r2 := StripLeft(rest);
    a := RunBefore(rest, r2, []);
  }

  /** A word, a whitespace run and the rest squash to the word, one space
      and the squashed rest. */
  lemma SquashSplit(w: string, a: string, r2: string)
    requires NoSpace(w) && a != [] && AllSpace(a) && (r2 == [] || !IsSpace(r2[0]))
    ensures Squash(w + (a + r2)) == w + " " + Squash(r2)
  {
    SquashWord(w, a + r2);
    SquashRun(a, r2);
    ConcatAssoc(w, " ", Squash(r2));
  }

  /** A whitespace run in front adds no word. */
  lemma WordsAfterRun(a: string, r2: string)
    requires AllSpace(a) && (r2 == [] || !IsSpace(r2[0]))
    ensures Words(a + r2) == Words(r2)
  {
    StripLeftRun(a, r2);
    assert StripLeft(r2) == r2;
  }

  lemma ConcatAssoc<T>(a: seq<T>, b: seq<T>, c: seq<T>)
    ensures (a + b) + c == a + (b + c)
  {
  }

  lemma JoinCons(w: string, ws: seq<string>)
    requires ws != []
    ensures JoinWords([w] + ws) == w + " " + JoinWords(ws)
  {
    assert ([w] + ws)[1..] == ws;
  }

  /** split() ignores leading and trailing whitespace. */
  lemma WordsStrip(s: string)
    ensures Words(Strip(s)) == Words(s)
  {
    var t := StripLeft(s);
    assert Words(s) == Words(t);
    var b := TrailingRun(t);
    WordsTrailing(StripRight(t), b);
  }

  /** Whitespace after the last word adds no word. */
  lemma {:induction false} WordsTrailing(m: string, b: string)
    requires AllSpace(b)
    ensures Words(m + b) == Words(m)
    decreases |m|
  {
    var u := StripLeft(m);
    if u == [] {
      WordsAllSpace(m, b);
    } else {
      var w := FirstWord(u);
      WordsFirst(m, b);
      WordsTrailing(u[|w|..], b);
    }
  }

  /** Nothing but whitespace has no word. */
  lemma WordsAllSpace(m: string, b: string)
    requires AllSpace(b) && StripLeft(m) == []
    ensures Words(m + b) == [] && Words(m) == []
  {
    var a := m[..|m|];
    assert m == a && AllSpace(m);
    StripLeftRun(m + b, []);
    assert m + b + [] == m + b;
  }

  /** The first word of m is the first word of m followed by whitespace. */
  lemma WordsFirst(m: string, b: string)
    requires AllSpace(b) && StripLeft(m) != []
    ensures var u := StripLeft(m); var w := FirstWord(u);
      Words(m + b) == [w] + Words(u[|w|..] + b) && Words(m) == [w] + Words(u[|w|..])
  {
    var u := StripLeft(m);
    var a := LeadingRun(m, b);
    WordsAfterRun(a, u + b);
    WordsAfterRun([], u);
    WordsOfWordFirst(u, b);
  }

  /** What lstrip() drops is a whitespace run. */
  lemma LeadingRun(m: string, b: string) returns (a: string)
    ensures m == a + StripLeft(m) && AllSpace(a)
    ensures m + b == a + (StripLeft(m) + b)
  {
    a := RunBefore(m, StripLeft(m), b);
  }

  /** A text whose first characters are whitespace and whose rest is l is a
      whitespace run followed by l. */
  lemma RunBefore(m: string, l: string, b: string) returns (a: string)
    requires |l| <= |m| && l == m[|m| - |l|..]
    requires forall i :: 0 <= i < |m| - |l| ==> IsSpace(m[i])
    ensures m == a + l && AllSpace(a)
    ensures m + b == a + (l + b)
  {
    a := m[..|m| - |l|];
    assert forall i :: 0 <= i < |a| ==> a[i] == m[i];
    assert m == a + l;
    assert m + b == (a + l) + b;
  }

  lemma WordsOfWordFirst(u: string, b: string)
    requires AllSpace(b) && u != [] && !IsSpace(u[0])
    ensures var w := FirstWord(u);
      Words(u + b) == [w] + Words(u[|w|..] + b) && Words(u) == [w] + Words(u[|w|..])
  {
    var w := FirstWord(u);
    FirstWordExtend(u, b);
    assert (u + b)[|w|..] == u[|w|..] + b;
    WordsAtWord(u + b);
    WordsAtWord(u);
  }

  /** Text that starts with a character other than whitespace splits into
      its first word and the words after it. */
  lemma WordsAtWord(v: string)
    requires v != [] && !IsSpace(v[0])
    ensures Words(v) == [FirstWord(v)] + Words(v[|FirstWord(v)|..])
  {
    assert StripLeft(v) == v;
  }

  /** The first word ends where whitespace, or the text, begins. */
  lemma {:induction false} FirstWordExtend(u: string, b: string)
    requires b == [] || IsSpace(b[0])
    ensures FirstWord(u + b) == FirstWord(u)
    decreases |u|
  {
    if u == [] {
      assert u + b == b;
    } else if !IsSpace(u[0]) {
      assert (u + b)[1..] == u[1..] + b;
      FirstWordExtend(u[1..], b);
    }
  }
}
