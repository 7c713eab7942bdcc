/** The name normalisers of the matching engine (app.py clean_city_twp and
    clean_school): lower-case, blank out administrative phrases or spell out
    "&", blank every character other than a-z, 0-9 and whitespace, collapse
    whitespace, trim and title-case. */
module Normalize {
  import opened Wrappers
  import opened Text
  import opened Search

  /** The phrases clean_city_twp blanks out, in the order it does so. */
  const Junk: seq<Phrase> := [
    CityOf, VillageOf, CharterTownshipOf, CharterTownship,
    TownshipOf, Township, Twp, City, Village
  ]
  const CityOf: Phrase := "city of"
  const VillageOf: Phrase := "village of"
  const CharterTownshipOf: Phrase := "charter township of"
  const CharterTownship: Phrase := "charter township"
  const TownshipOf: Phrase := "township of"
  const Township: Phrase := "township"
  const Twp: Phrase := "twp"
  const City: Phrase := "city"
  const Village: Phrase := "village"

  /** What the normalisers return: ASCII letters, digits and single interior
      spaces, with no space at either end. */
  predicate CleanName(t: string) {
    AlnumSpace(t) && NormalSpaced(t)
  }

  /** None of the junk phrases occurs in t. */
  predicate JunkFree(t: string) {
    forall k :: 0 <= k < |Junk| ==> !Contains(t, Junk[k])
  }

  /** A phrase to blank out; str.replace with an empty pattern is not used. */
  type Phrase = p: string | p != [] witness "x"

  /** re.sub(r"[^a-z0-9\s]", " ", c) on one character. */
  function KeepChar(c: char): char {
    if IsLowerLetter(c) || IsDigit(c) || IsSpace(c) then c else ' '
  }

  /** re.sub(r"[^a-z0-9\s]", " ", s). */
  function BlankPunctuation(s: string): string {
    seq(|s|, i requires 0 <= i < |s| => KeepChar(s[i]))
  }

  /** s after `for j in ps: s = s.replace(j, " ")`. */
  function BlankAll(s: string, ps: seq<Phrase>): string
    decreases |ps|
  {
    if ps == [] then s else BlankAll(Replace(s, ps[0], " "), ps[1..])
  }

  /** clean_city_twp before title-casing. */
  function PlaceCore(s: string): string {
    Collapse(BlankPunctuation(BlankAll(Lower(Strip(s)), Junk)))
  }

  /** The value clean_city_twp returns; None and "" give "". */
  function CleanedPlace(s: Option<string>): (r: string)
    ensures (forall i :: 0 <= i < |OrEmpty(s)| ==> IsSpace(OrEmpty(s)[i])) ==> r == ""
    ensures CleanName(r)
  {
    PlaceCoreBlank(OrEmpty(s));
    PlaceCoreShape(OrEmpty(s));
    TitleOfLower(PlaceCore(OrEmpty(s)));
    Title(PlaceCore(OrEmpty(s)))
  }

  /** clean_city_twp: the junk phrases are blanked one after the other in a
      loop over the list. */
  method CleanCityTwp(s: Option<string>) returns (r: string)
    ensures r == CleanedPlace(s)
    ensures CleanName(r) && JunkFree(Lower(r))
  {
    var t := BlankJunk(Lower(Strip(OrEmpty(s))));
    t := BlankPunctuation(t);
    t := Collapse(t);
    r := Title(t);
    CleanedPlaceShape(s);
  }

  /** The loop of clean_city_twp over the junk phrases. */
  method BlankJunk(s: string) returns (t: string)
    ensures t == BlankAll(s, Junk)
  {
    t := s;
    for i := 0 to |Junk|
      invariant BlankAll(t, Junk[i..]) == BlankAll(s, Junk)
    {
      BlankAllStep(t, Junk[i..]);
      assert Junk[i..][1..] == Junk[i + 1..];
      t := Replace(t, Junk[i], " ");
    }
    assert Junk[|Junk|..] == [];
  }

  /** The name clean_city_twp returns holds no junk phrase, in any case. */
  lemma CleanedPlaceShape(s: Option<string>)
    ensures CleanName(CleanedPlace(s)) && JunkFree(Lower(CleanedPlace(s)))
  {
    PlaceCoreShape(OrEmpty(s));
    TitleOfLower(PlaceCore(OrEmpty(s)));
  }

  /** clean_school before title-casing. */
  function SchoolCore(s: string): string {
    Collapse(BlankPunctuation(Replace(Lower(Strip(s)), "&", "and")))
  }

  /** clean_school; None and "" give "". */
  function CleanSchool(s: Option<string>): (r: string)
    ensures (forall i :: 0 <= i < |OrEmpty(s)| ==> IsSpace(OrEmpty(s)[i])) ==> r == ""
    ensures CleanName(r)
  {
    SchoolCoreBlank(OrEmpty(s));
    SchoolCoreShape(OrEmpty(s));
    TitleOfLower(SchoolCore(OrEmpty(s)));
    Title(SchoolCore(OrEmpty(s)))
  }

  // ---------------------------------------------------------------------
  // Lemmas

  lemma BlankPunctuationAlphabet(s: string)
    ensures forall c :: c in BlankPunctuation(s) ==> IsLowerLetter(c) || IsDigit(c) || IsSpace(c)
  {
  }

  lemma BlankPunctuationIdentity(c: string)
    requires LowerAlnumSpace(c)
    ensures BlankPunctuation(c) == c
  {
  }

  /** The alphabet and spacing of a collapsed, punctuation-free text. */
  lemma CoreAlphabet(x: string)
    ensures LowerAlnumSpace(Collapse(BlankPunctuation(x)))
    ensures NormalSpaced(Collapse(BlankPunctuation(x)))
  {
    var p := BlankPunctuation(x);
    var c := Collapse(p);
    BlankPunctuationAlphabet(x);
    forall i | 0 <= i < |c| ensures IsLowerLetter(c[i]) || IsDigit(c[i]) || c[i] == ' ' {
      assert c[i] == ' ' || (!IsSpace(c[i]) && c[i] in p);
    }
  }

  /** A word without blanks that occurs after blanking occurred before. */
  lemma {:induction false} BlankAllBack(s: string, ps: seq<Phrase>, w: string)
    requires NoBlank(w) && Contains(BlankAll(s, ps), w)
    ensures Contains(s, w)
    decreases |ps|
  {
    if ps != [] {
      BlankAllBack(Replace(s, ps[0], " "), ps[1..], w);
      BlankReplaceBack(s, ps[0], w);
    }
  }

  /** After the loop no blank-free phrase of the list occurs any more. */
  lemma {:induction false} BlankAllRemoves(s: string, ps: seq<Phrase>, k: nat)
    requires k < |ps| && NoBlank(ps[k])
    ensures !Contains(BlankAll(s, ps), ps[k])
    decreases |ps|
  {
    var t := Replace(s, ps[0], " ");
    if k == 0 {
      BlankReplaceRemoves(s, ps[0]);
      if Contains(BlankAll(t, ps[1..]), ps[0]) {
        BlankAllBack(t, ps[1..], ps[0]);
      }
    } else {
      BlankAllRemoves(t, ps[1..], k - 1);
    }
  }

  /** Blanking phrases none of which occurs changes nothing. */
  lemma {:induction false} BlankAllAbsent(t: string, ps: seq<Phrase>)
    requires forall k :: 0 <= k < |ps| ==> !Contains(t, ps[k])
    ensures BlankAll(t, ps) == t
    decreases |ps|
  {
    if ps != [] {
      BlankAllAbsent(t, ps[1..]);
    }
  }

  lemma {:induction false} BlankAllEmpty(ps: seq<Phrase>)
    ensures BlankAll([], ps) == []
    decreases |ps|
  {
    if ps != [] {
      BlankAllEmpty(ps[1..]);
    }
  }

  lemma CollapseOfEmpty(s: string)
    requires s == []
    ensures Collapse(s) == []
  {
  }

  /** Text that is all whitespace cleans to the empty name. */
  lemma PlaceCoreBlank(s: string)
    ensures (forall i :: 0 <= i < |s| ==> IsSpace(s[i])) ==> PlaceCore(s) == []
  {
    if forall i :: 0 <= i < |s| ==> IsSpace(s[i]) {
      var l := Lower(Strip(s));
      assert l == [] by {
        assert Strip(s) == [];
      }
      var b := BlankAll(l, Junk);
      assert b == [] by {
        BlankAllEmpty(Junk);
      }
      CollapseOfEmpty(BlankPunctuation(b));
    }
  }

  lemma SchoolCoreBlank(s: string)
    ensures (forall i :: 0 <= i < |s| ==> IsSpace(s[i])) ==> SchoolCore(s) == []
  {
    if forall i :: 0 <= i < |s| ==> IsSpace(s[i]) {
      var l := Lower(Strip(s));
      assert l == [];
      var b := Replace(l, "&", "and");
      assert b == [];
      CollapseOfEmpty(BlankPunctuation(b));
    }
  }

  /** Every junk phrase holds one of the four junk words. */
  lemma JunkFreeByWords(t: string)
    requires !Contains(t, "city") && !Contains(t, "village")
    requires !Contains(t, "township") && !Contains(t, "twp")
    ensures JunkFree(t)
  {
    assert "city of" == "city" + " of";
    assert "village of" == "village" + " of";
    assert "township of" == "township" + " of";
    assert "charter township" == "charter " + "township";
    assert "charter township of" == "charter " + "township of";
    if Contains(t, "city of") { ContainsParts(t, "city", " of"); }
    if Contains(t, "village of") { ContainsParts(t, "village", " of"); }
    if Contains(t, "charter township of") {
      ContainsParts(t, "charter ", "township of");
      ContainsParts(t, "township", " of");
    }
    if Contains(t, "charter township") { ContainsParts(t, "charter ", "township"); }
    if Contains(t, "township of") { ContainsParts(t, "township", " of"); }
  }

  /** The replace loop leaves no junk phrase behind, and blanking
      punctuation or collapsing whitespace never brings one back. */
  lemma PlaceCoreShape(s: string)
    ensures LowerAlnumSpace(PlaceCore(s)) && NormalSpaced(PlaceCore(s))
    ensures JunkFree(PlaceCore(s))
  {
    JunkWordsPlain();
    JunkWordGone(s, 5);
    JunkWordGone(s, 6);
    JunkWordGone(s, 7);
    JunkWordGone(s, 8);
    JunkFreeByWords(PlaceCore(s));
    CoreAlphabet(BlankAll(Lower(Strip(s)), Junk));
  }

  /** The single-word phrases at the end of the list are plain words. */
  lemma JunkWordsPlain()
    ensures forall k :: 5 <= k < |Junk| ==> NoBlank(Junk[k]) && NoWhitespace(Junk[k])
  {
    LettersOnly(Township);
    LettersOnly(Twp);
    LettersOnly(City);
    LettersOnly(Village);
  }


  lemma LettersOnly(w: string)
    requires forall i :: 0 <= i < |w| ==> IsLowerLetter(w[i])
    ensures NoBlank(w) && NoWhitespace(w)
  {
  }

  /** A junk phrase without whitespace does not survive. */
  lemma JunkWordGone(s: string, k: nat)
    requires k < |Junk| && NoBlank(Junk[k]) && NoWhitespace(Junk[k])
    ensures !Contains(PlaceCore(s), Junk[k])
  {
    var l := Lower(Strip(s));
    var b := BlankAll(l, Junk);
    var p := BlankPunctuation(b);
    var w := Junk[k];
    BlankAllRemoves(l, Junk, k);
    if Contains(Collapse(p), w) {
      CollapseBack(p, w);
      BlankedBack(p, b, w);
    }
  }

  lemma SchoolCoreShape(s: string)
    ensures LowerAlnumSpace(SchoolCore(s)) && NormalSpaced(SchoolCore(s))
  {
    CoreAlphabet(Replace(Lower(Strip(s)), "&", "and"));
  }

  /** clean_city_twp is idempotent. */
  lemma CleanedPlaceIdempotent(s: Option<string>)
    ensures CleanedPlace(Some(CleanedPlace(s))) == CleanedPlace(s)
  {
    var c := PlaceCore(OrEmpty(s));
    var y := Title(c);
    PlaceCoreShape(OrEmpty(s));
    TitleOfLower(c);
    StripIdentity(y);
    assert Lower(Strip(y)) == c;
    BlankAllAbsent(c, Junk);
    BlankPunctuationIdentity(c);
    CollapseIdentity(c);
  }

  lemma NoAmpersand(c: string)
    requires LowerAlnumSpace(c)
    ensures !Contains(c, "&")
  {
    if Contains(c, "&") {
      ContainsChar(c, "&", '&');
    }
  }

  /** clean_school is idempotent. */
  lemma CleanSchoolIdempotent(s: Option<string>)
    ensures CleanSchool(Some(CleanSchool(s))) == CleanSchool(s)
  {
    var c := SchoolCore(OrEmpty(s));
    var y := Title(c);
    SchoolCoreShape(OrEmpty(s));
    TitleOfLower(c);
    StripIdentity(y);
    assert Lower(Strip(y)) == c;
    NoAmpersand(c);
    BlankPunctuationIdentity(c);
    CollapseIdentity(c);
  }

  // ---------------------------------------------------------------------
  // Names already in cleaned form, and case

  /** A clean name that lower-casing leaves alone has no upper-case letter. */
  lemma LowerCleanName(n: string)
    requires CleanName(n) && Lower(n) == n
    ensures LowerAlnumSpace(n)
  {
    LowerMeaning(n);
    forall i | 0 <= i < |n| ensures IsLowerLetter(n[i]) || IsDigit(n[i]) || n[i] == ' ' {
      assert !IsUpperLetter(Lower(n)[i]);
    }
  }

  lemma LowerKeepsLower(c: string)
    requires LowerAlnumSpace(c)
    ensures Lower(c) == c
  {
  }

  /** Lower-case text with no whitespace at either end is what the loop
      starts from. */
  lemma Prepared(s: string)
    requires LowerAlnumSpace(s) && (s == [] || (!IsSpace(s[0]) && !IsSpace(s[|s| - 1])))
    ensures Lower(Strip(s)) == s
  {
    StripIdentity(s);
    LowerKeepsLower(s);
  }

  /** clean_city_twp gives a clean lower-case name without junk phrases
      back title-cased, and changes it in no other way. */
  lemma CleanedPlaceFixedPoint(n: string)
    requires CleanName(n) && Lower(n) == n && JunkFree(n)
    ensures CleanedPlace(Some(n)) == Title(n)
  {
    assert PlaceCore(n) == n by {
      PlaceCoreOfClean(n);
    }
  }

  lemma PlaceCoreOfClean(n: string)
    requires CleanName(n) && Lower(n) == n && JunkFree(n)
    ensures PlaceCore(n) == n
  {
    LowerCleanName(n);
    assert Lower(Strip(n)) == n by {
      Prepared(n);
    }
    assert BlankAll(n, Junk) == n by {
      BlankAllAbsent(n, Junk);
    }
    assert BlankPunctuation(n) == n by {
      BlankPunctuationIdentity(n);
    }
    CollapseIdentity(n);
  }

  /** clean_school gives a clean lower-case name back title-cased. */
  lemma CleanSchoolFixedPoint(n: string)
    requires CleanName(n) && Lower(n) == n
    ensures CleanSchool(Some(n)) == Title(n)
  {
    assert SchoolCore(n) == n by {
      SchoolCoreOfClean(n);
    }
  }

  lemma SchoolCoreOfClean(n: string)
    requires CleanName(n) && Lower(n) == n
    ensures SchoolCore(n) == n
  {
    LowerCleanName(n);
    assert Lower(Strip(n)) == n by {
      Prepared(n);
    }
    assert Replace(n, "&", "and") == n by {
      NoAmpersand(n);
    }
    assert BlankPunctuation(n) == n by {
      BlankPunctuationIdentity(n);
    }
    CollapseIdentity(n);
  }

  lemma PreparedIgnoresCase(s: string)
    ensures Lower(Strip(Lower(s))) == Lower(Strip(s))
  {
    StripLower(s);
    LowerIdempotent(Strip(s));
  }

  /** clean_city_twp lower-cases first: the case of its input does not
      matter. */
  lemma CleanedPlaceIgnoresCase(s: string)
    ensures CleanedPlace(Some(Lower(s))) == CleanedPlace(Some(s))
  {
    PreparedIgnoresCase(s);
  }

  /** clean_school lower-cases first: the case of its input does not
      matter. */
  lemma CleanSchoolIgnoresCase(s: string)
    ensures CleanSchool(Some(Lower(s))) == CleanSchool(Some(s))
  {
    PreparedIgnoresCase(s);
  }

  // ---------------------------------------------------------------------
  // Stop phrases around a clean name

  /** The junk phrases one by one, for a text free of all of them. */
  lemma JunkWords(n: string)
    requires JunkFree(n)
    ensures !Contains(n, CityOf) && !Contains(n, VillageOf) && !Contains(n, CharterTownshipOf)
    ensures !Contains(n, CharterTownship) && !Contains(n, TownshipOf) && !Contains(n, Township)
    ensures !Contains(n, Twp) && !Contains(n, City) && !Contains(n, Village)
  {
    assert Junk[0] == CityOf && Junk[1] == VillageOf && Junk[2] == CharterTownshipOf;
    assert Junk[3] == CharterTownship && Junk[4] == TownshipOf && Junk[5] == Township;
    assert Junk[6] == Twp && Junk[7] == City && Junk[8] == Village;
  }

  /** Every junk phrase starts with a letter; the four with "of" end in 'f'. */
  lemma JunkEnds()
    ensures forall k :: 0 <= k < |Junk| ==> Junk[k][0] != ' '
    ensures forall k :: 0 <= k < |Junk| && k in {0, 1, 2, 4} ==> Junk[k][|Junk[k]| - 1] == 'f'
  {
  }

  lemma LowerAlnumSpaceJoin(a: string, b: string)
    requires LowerAlnumSpace(a) && LowerAlnumSpace(b)
    ensures LowerAlnumSpace(a + b)
  {
    forall i | 0 <= i < |a + b| ensures IsLowerLetter((a + b)[i]) || IsDigit((a + b)[i]) || (a + b)[i] == ' ' {
      if i < |a| {
        assert (a + b)[i] == a[i];
      } else {
        assert (a + b)[i] == b[i - |a|];
      }
    }
  }

  /** Whitespace on one side of a clean name collapses away. */
  lemma CollapseLeadingRun(a: string, n: string)
    requires AllSpace(a) && NormalSpaced(n) && n != []
    ensures Collapse(a + n) == n
  {
    StripLeftRun(a, n);
    StripIdentity(n);
    SquashStripCommute(a + n);
    SquashIdentity(n);
  }

  lemma CollapseTrailingRun(n: string, b: string)
    requires AllSpace(b) && NormalSpaced(n) && n != []
    ensures Collapse(n + b) == n
  {
    StripRightRun(n, b);
    assert StripLeft(n + b) == n + b by {
      assert (n + b)[0] == n[0];
    }
    SquashStripCommute(n + b);
    SquashIdentity(n);
  }

  /** Two spaces after a text free of junk hold no single-word phrase. */
  lemma PaddedTail(n: string, j: nat)
    requires JunkFree(n) && 5 <= j
    ensures forall k :: j < k < |Junk| ==> !Contains(n + (" " + " "), Junk[k])
  {
    JunkWordsPlain();
    JunkEnds();
    forall k | j < k < |Junk| ensures !Contains(n + (" " + " "), Junk[k]) {
      if Contains(n + (" " + " "), Junk[k]) {
        WordAcrossBlank(n, " ", Junk[k]);
        MissingChar(" ", Junk[k], Junk[k][0]);
      }
    }
  }

  /** The replace loop on a clean name behind "charter township of ". */
  lemma CharterPrefixBlank(n: string)
    requires JunkFree(n)
    ensures BlankAll(CharterTownshipOf + (" " + n), Junk) == "  " + n
  {
    var s := CharterTownshipOf + (" " + n);
    var t := "  " + n;
    JunkWords(n);
    CharterPrefixSkips(n);
    CharterPrefixHit(n);
    JunkEnds();
    forall k | 2 < k < |Junk| ensures !Contains(t, Junk[k]) {
      if Contains(t, Junk[k]) {
        ContainsSkipLeft("  ", n, Junk[k]);
      }
    }
    BlankAllOneHit(s, Junk, 2, t);
  }

  /** Neither "city of" nor "village of" occurs before the hit. */
  lemma CharterPrefixSkips(n: string)
    requires JunkFree(n)
    ensures forall k :: 0 <= k < 2 ==> !Contains(CharterTownshipOf + (" " + n), Junk[k])
  {
    assert !Contains(n, City) && !Contains(n, Village) by {
      JunkWords(n);
    }
    assert NoBlank(City) && NoBlank(Village) by {
      JunkWordsPlain();
      assert Junk[7] == City && Junk[8] == Village;
    }
    forall k | 0 <= k < 2 ensures !Contains(CharterTownshipOf + (" " + n), Junk[k]) {
      if k == 0 {
        assert Junk[0] == City + " of";
        PlaceOfOnlyInName(CharterTownshipOf, n, City, 'y');
      } else {
        assert Junk[1] == Village + " of";
        PlaceOfOnlyInName(CharterTownshipOf, n, Village, 'v');
      }
    }
  }

  /** "<word> of" occurs after a head lacking one of the word's letters only
      if the word occurs in the name. */
  lemma PlaceOfOnlyInName(head: string, n: string, w: string, c: char)
    requires w != [] && NoBlank(w) && c in w && c !in head && !Contains(n, w)
    ensures !Contains(head + (" " + n), w + " of")
  {
    WordOnlyInName(head, n, w, c);
    if Contains(head + (" " + n), w + " of") {
      ContainsParts(head + (" " + n), w, " of");
    }
  }

  /** A word the head lacks a letter of occurs after head and blank only
      if it occurs in the name. */
  lemma WordOnlyInName(head: string, n: string, w: string, c: char)
    requires w != [] && NoBlank(w) && c in w && c !in head && !Contains(n, w)
    ensures !Contains(head + (" " + n), w)
  {
    if Contains(head + (" " + n), w) {
      WordAcrossBlank(head, n, w);
      MissingChar(head, w, c);
    }
  }

  lemma CharterPrefixHit(n: string)
    requires !Contains(n, CharterTownshipOf)
    ensures Replace(CharterTownshipOf + (" " + n), Junk[2], " ") == "  " + n
  {
    ReplaceAtFront(CharterTownshipOf, " " + n, " ");
    if Contains(" " + n, CharterTownshipOf) {
      ContainsSkipLeft(" ", n, CharterTownshipOf);
    }
  }

  /** The replace loop on a clean name followed by " twp". */
  lemma TwpSuffixBlank(n: string)
    requires JunkFree(n)
    ensures BlankAll(n + (" " + Twp), Junk) == n + (" " + " ")
  {
    var s := n + (" " + Twp);
    var t := n + (" " + " ");
    TwpSuffixSkips(n);
    TwpSuffixHit(n);
    PaddedTail(n, 6);
    BlankAllOneHit(s, Junk, 6, t);
  }

  /** No phrase before "twp" in the list occurs in a clean name followed by
      " twp". */
  lemma TwpSuffixSkips(n: string)
    requires JunkFree(n)
    ensures forall k :: 0 <= k < 6 ==> !Contains(n + (" " + Twp), Junk[k])
  {
    var b := " " + Twp;
    var s := n + b;
    JunkWords(n);
    JunkWordsPlain();
    JunkEnds();
    assert !Contains(s, Township) by {
      if Contains(s, Township) {
        WordAcrossBlank(n, Twp, Township);
        ContainsLength(Twp, Township);
      }
    }
    forall k | 0 <= k < 6 ensures !Contains(s, Junk[k]) {
      if k == 3 {
        assert CharterTownship == "charter " + Township;
        if Contains(s, CharterTownship) {
          ContainsParts(s, "charter ", Township);
        }
      } else if k != 5 && Contains(s, Junk[k]) {
        ContainsSkipRight(n, b, Junk[k]);
      }
    }
  }

  /** Replacing "twp" in a clean name followed by " twp" blanks the suffix
      alone. */
  lemma TwpSuffixHit(n: string)
    requires JunkFree(n)
    ensures Replace(n + (" " + Twp), Junk[6], " ") == n + (" " + " ")
  {
    assert !Contains(n, Twp) by {
      JunkWords(n);
    }
    assert Junk[6] == Twp && NoBlank(Twp) by {
      JunkWordsPlain();
    }
    WordSuffixHit(n, Twp);
  }

  /** A blank-free word after a name that lacks it becomes one blank. */
  lemma WordSuffixHit(n: string, w: string)
    requires w != [] && NoBlank(w) && !Contains(n, w)
    ensures Replace(n + (" " + w), w, " ") == n + (" " + " ")
  {
    ReplaceAtBlank(n, w, w, " ");
    ReplaceSplit(" ", w, w, " ");
    assert w == w + [];
    ReplaceAtFront(w, [], " ");
  }

  /** "charter township" never straddles the end of a name that does not
      end in "charter" and a following " township". */
  lemma CharterStraddle(n: string)
    requires !Contains(n, CharterTownship) && !EndsWith(n, "charter")
    ensures !Contains(n + (" " + Township), CharterTownship)
  {
    var b := " " + Township;
    if Contains(n + b, CharterTownship) {
      ContainsAcross(n, b, CharterTownship);
      if Contains(b, CharterTownship) {
        ContainsLength(b, CharterTownship);
      } else {
        var j :| 0 < j < |CharterTownship| && EndsWith(n, CharterTownship[..j]) && StartsWith(b, CharterTownship[j..]);
        CharterTownshipBlank(j, b[0]);
      }
    }
  }

  /** The only blank of "charter township" is its eighth character. */
  lemma CharterTownshipBlank(j: nat, c: char)
    requires 7 <= j < |CharterTownship| && c == ' ' && CharterTownship[j] == c
    ensures j == 7 && CharterTownship[..j] == "charter"
  {
  }

  /** The replace loop on a clean name, not ending in "charter", followed
      by " township". */
  lemma TownshipSuffixBlank(n: string)
    requires JunkFree(n) && !EndsWith(n, "charter")
    ensures BlankAll(n + (" " + Township), Junk) == n + (" " + " ")
  {
    var s := n + (" " + Township);
    var t := n + (" " + " ");
    TownshipSuffixSkips(n);
    TownshipSuffixHit(n);
    PaddedTail(n, 5);
    BlankAllOneHit(s, Junk, 5, t);
  }

  /** No phrase before "township" in the list occurs in such a name followed
      by " township". */
  lemma TownshipSuffixSkips(n: string)
    requires JunkFree(n) && !EndsWith(n, "charter")
    ensures forall k :: 0 <= k < 5 ==> !Contains(n + (" " + Township), Junk[k])
  {
    var b := " " + Township;
    var s := n + b;
    JunkWords(n);
    JunkEnds();
    CharterStraddle(n);
    forall k | 0 <= k < 5 ensures !Contains(s, Junk[k]) {
      if k != 3 && Contains(s, Junk[k]) {
        ContainsSkipRight(n, b, Junk[k]);
      }
    }
  }

  /** Replacing "township" in a clean name followed by " township" blanks
      the suffix alone. */
  lemma TownshipSuffixHit(n: string)
    requires JunkFree(n)
    ensures Replace(n + (" " + Township), Junk[5], " ") == n + (" " + " ")
  {
    assert !Contains(n, Township) by {
      JunkWords(n);
    }
    assert Junk[5] == Township && NoBlank(Township) by {
      JunkWordsPlain();
    }
    WordSuffixHit(n, Township);
  }

  /** A text whose prepared form the loop turns into one blank cleans to "". */
  lemma BlanksToNothing(t: string, p: string)
    requires Lower(Strip(t)) == p && BlankAll(p, Junk) == " "
    ensures PlaceCore(t) == []
  {
    SpaceCleans(" ");
  }

  lemma PhrasePrepared(a: string, p: string, b: string)
    requires AllSpace(a) && AllSpace(b) && p != [] && !IsSpace(p[0]) && !IsSpace(p[|p| - 1])
    requires LowerAlnumSpace(p)
    ensures Lower(Strip(a + (p + b))) == p
  {
    assert (p + b)[0] == p[0];
    StripLeftRun(a, p + b);
    StripRightRun(p, b);
    LowerKeepsLower(p);
  }

  /** The loop turns a phrase of the list into a blank once no phrase
      before it occurs in it. */
  lemma PhraseBlanked(p: string, j: nat)
    requires j < |Junk| && p == Junk[j]
    requires forall k :: 0 <= k < j ==> !Contains(p, Junk[k])
    ensures BlankAll(p, Junk) == " "
  {
    JunkEnds();
    assert p == p + [];
    ReplaceAtFront(p, [], " ");
    forall k | j < k < |Junk| ensures !Contains(" ", Junk[k]) {
      MissingChar(" ", Junk[k], Junk[k][0]);
    }
    BlankAllOneHit(p, Junk, j, " ");
  }

  /** Whitespace alone cleans to "". */
  lemma SpaceCleans(x: string)
    requires AllSpace(x)
    ensures Collapse(BlankPunctuation(x)) == []
  {
    var y := BlankPunctuation(x);
    assert AllSpace(y) by {
      forall i | 0 <= i < |y| ensures IsSpace(y[i]) {
        assert y[i] == KeepChar(x[i]);
      }
    }
  }

  lemma CharterAloneSkips(p: string)
    requires p == "charter township of"
    ensures forall k :: 0 <= k < 2 ==> !Contains(p, Junk[k])
  {
    forall k | 0 <= k < 2 ensures !Contains(p, Junk[k]) {
      var w := Junk[k];
      if k == 0 {
        assert w == "city of";
        MissingChar(p, w, 'y');
      } else {
        assert w == "village of";
        MissingChar(p, w, 'v');
      }
    }
  }

  lemma TownshipAloneSkips(p: string)
    requires p == "township"
    ensures forall k :: 0 <= k < 5 ==> !Contains(p, Junk[k])
  {
    forall k | 0 <= k < 5 ensures !Contains(p, Junk[k]) {
      var w := Junk[k];
      if k == 0 {
        assert w == "city of";
        MissingChar(p, w, 'c');
      } else if k == 1 {
        assert w == "village of";
        MissingChar(p, w, 'v');
      } else if k == 2 {
        assert w == "charter township of";
        MissingChar(p, w, 'c');
      } else if k == 3 {
        assert w == "charter township";
        MissingChar(p, w, 'c');
      } else {
        assert w == "township of";
        MissingChar(p, w, 'f');
      }
    }
  }

  lemma TwpAloneSkips(p: string)
    requires p == "twp"
    ensures forall k :: 0 <= k < 6 ==> !Contains(p, Junk[k])
  {
    forall k | 0 <= k < 6 ensures !Contains(p, Junk[k]) {
      var w := Junk[k];
      if k == 0 {
        assert w == "city of";
        MissingChar(p, w, 'c');
      } else if k == 1 {
        assert w == "village of";
        MissingChar(p, w, 'v');
      } else if k == 2 {
        assert w == "charter township of";
        MissingChar(p, w, 'c');
      } else if k == 3 {
        assert w == "charter township";
        MissingChar(p, w, 'c');
      } else if k == 4 {
        assert w == "township of";
        MissingChar(p, w, 'o');
      } else {
        assert w == "township";
        MissingChar(p, w, 'o');
      }
    }
  }

  /** The three phrases have no blank at either end and only lower-case
      letters and blanks. */
  lemma PhraseShape(p: string)
    requires p == "charter township of" || p == "township" || p == "twp"
    ensures p != [] && !IsSpace(p[0]) && !IsSpace(p[|p| - 1]) && LowerAlnumSpace(p)
  {
  }

  /** "charter township of" alone, with the blank after it, cleans to "". */
  lemma CharterAlone(s: string, p: string)
    requires p == CharterTownshipOf && s == p + " "
    ensures PlaceCore(s) == []
  {
    CharterAlonePrepared(s, p);
    CharterAloneBlanked(p);
    BlanksToNothing(s, p);
  }

  lemma CharterAlonePrepared(s: string, p: string)
    requires p == CharterTownshipOf && s == p + " "
    ensures Lower(Strip(s)) == p
  {
    PhraseShape(p);
    PhrasePrepared([], p, " ");
    assert s == [] + (p + " ");
  }

  lemma CharterAloneBlanked(p: string)
    requires p == CharterTownshipOf
    ensures BlankAll(p, Junk) == " "
  {
    assert Junk[2] == p;
    CharterAloneSkips(p);
    PhraseBlanked(p, 2);
  }

  /** "township" alone, with the blank before it, cleans to "". */
  lemma TownshipAlone(s: string, p: string)
    requires p == Township && s == " " + p
    ensures PlaceCore(s) == []
  {
    TownshipAlonePrepared(s, p);
    TownshipAloneBlanked(p);
    BlanksToNothing(s, p);
  }

  lemma TownshipAlonePrepared(s: string, p: string)
    requires p == Township && s == " " + p
    ensures Lower(Strip(s)) == p
  {
    PhraseShape(p);
    PhrasePrepared(" ", p, []);
    assert s == " " + (p + []);
  }

  lemma TownshipAloneBlanked(p: string)
    requires p == Township
    ensures BlankAll(p, Junk) == " "
  {
    assert Junk[5] == p;
    TownshipAloneSkips(p);
    PhraseBlanked(p, 5);
  }

  /** "twp" alone, with the blank before it, cleans to "". */
  lemma TwpAlone(s: string, p: string)
    requires p == Twp && s == " " + p
    ensures PlaceCore(s) == []
  {
    TwpAlonePrepared(s, p);
    TwpAloneBlanked(p);
    BlanksToNothing(s, p);
  }

  lemma TwpAlonePrepared(s: string, p: string)
    requires p == Twp && s == " " + p
    ensures Lower(Strip(s)) == p
  {
    PhraseShape(p);
    PhrasePrepared(" ", p, []);
    assert s == " " + (p + []);
  }

  lemma TwpAloneBlanked(p: string)
    requires p == Twp
    ensures BlankAll(p, Junk) == " "
  {
    assert Junk[6] == p;
    TwpAloneSkips(p);
    PhraseBlanked(p, 6);
  }

  /** The non-empty case of CharterPrefixDropped. */
  lemma CharterPrefixCore(n: string, s: string)
    requires n != [] && LowerAlnumSpace(n) && NormalSpaced(n) && JunkFree(n)
    requires s == CharterTownshipOf + (" " + n)
    ensures PlaceCore(s) == n
  {
    CharterPrefixBlank(n);
    PhraseShape(CharterTownshipOf);
    PrefixCore(CharterTownshipOf, n, s);
  }

  /** A phrase the loop blanks out, a blank and a name come out as the
      name. */
  lemma PrefixCore(w: string, n: string, s: string)
    requires n != [] && LowerAlnumSpace(n) && NormalSpaced(n)
    requires w != [] && LowerAlnumSpace(w) && !IsSpace(w[0])
    requires s == w + (" " + n) && BlankAll(s, Junk) == "  " + n
    ensures PlaceCore(s) == n
  {
    assert LowerAlnumSpace(" " + n) by {
      LowerAlnumSpaceJoin(" ", n);
    }
    LowerAlnumSpaceJoin(w, " " + n);
    assert s[0] == w[0] && s[|s| - 1] == n[|n| - 1];
    Prepared(s);
    LowerAlnumSpaceJoin("  ", n);
    BlankPunctuationIdentity("  " + n);
    CollapseLeadingRun("  ", n);
  }

  /** A name, a blank and a phrase the loop blanks out come out as the
      name. */
  lemma SuffixCore(n: string, w: string, s: string)
    requires n != [] && LowerAlnumSpace(n) && NormalSpaced(n)
    requires w != [] && LowerAlnumSpace(w) && !IsSpace(w[|w| - 1])
    requires s == n + (" " + w) && BlankAll(s, Junk) == n + (" " + " ")
    ensures PlaceCore(s) == n
  {
    assert LowerAlnumSpace(" " + w) by {
      LowerAlnumSpaceJoin(" ", w);
    }
    LowerAlnumSpaceJoin(n, " " + w);
    assert s[0] == n[0] && s[|s| - 1] == w[|w| - 1];
    Prepared(s);
    LowerAlnumSpaceJoin(n, " " + " ");
    BlankPunctuationIdentity(n + (" " + " "));
    CollapseTrailingRun(n, " " + " ");
  }

  /** clean_city_twp drops "charter township of " in front of a clean name:
      what is left is the name, title-cased. */
  lemma CharterPrefixDropped(n: string)
    requires CleanName(n) && Lower(n) == n && JunkFree(n)
    ensures CleanedPlace(Some("charter township of " + n)) == Title(n)
  {
    var s := "charter township of " + n;
    if n == [] {
      assert s == CharterTownshipOf + " ";
      CharterAlone(s, CharterTownshipOf);
    } else {
      assert s == CharterTownshipOf + (" " + n);
      LowerCleanName(n);
      CharterPrefixCore(n, s);
    }
  }

  /** clean_city_twp drops " twp" after a clean name. */
  lemma TwpSuffixDropped(n: string)
    requires CleanName(n) && Lower(n) == n && JunkFree(n)
    ensures CleanedPlace(Some(n + " twp")) == Title(n)
  {
    var s := n + " twp";
    assert s == n + (" " + Twp);
    if n == [] {
      TwpAlone(s, Twp);
    } else {
      LowerCleanName(n);
      TwpSuffixBlank(n);
      PhraseShape(Twp);
      SuffixCore(n, Twp, s);
    }
  }

  /** clean_city_twp drops " township" after a clean name, unless the name
      ends in "charter": then "charter township" goes as a whole. */
  lemma TownshipSuffixDropped(n: string)
    requires CleanName(n) && Lower(n) == n && JunkFree(n) && !EndsWith(n, "charter")
    ensures CleanedPlace(Some(n + " township")) == Title(n)
  {
    var s := n + " township";
    assert s == n + (" " + Township);
    if n == [] {
      TownshipAlone(s, Township);
    } else {
      LowerCleanName(n);
      TownshipSuffixBlank(n);
      PhraseShape(Township);
      SuffixCore(n, Township, s);
    }
  }

  // ---------------------------------------------------------------------
  // Examples

  lemma BlankAllStep(s: string, ps: seq<Phrase>)
    requires ps != []
    ensures BlankAll(s, ps) == BlankAll(Replace(s, ps[0], " "), ps[1..])
  {
  }

  /** When only the j-th phrase occurs, and none after it occurs in what
      its replacement leaves, the loop's result is that replacement. */
  lemma {:induction false} BlankAllOneHit(s: string, ps: seq<Phrase>, j: nat, t: string)
    requires j < |ps|
    requires forall k :: 0 <= k < j ==> !Contains(s, ps[k])
    requires Replace(s, ps[j], " ") == t
    requires forall k :: j < k < |ps| ==> !Contains(t, ps[k])
    ensures BlankAll(s, ps) == t
    decreases j
  {
    if j == 0 {
      BlankAllAbsent(t, ps[1..]);
    } else {
      BlankAllOneHit(s, ps[1..], j - 1, t);
    }
  }

  /** A single word of letters padded with whitespace comes out of the
      last two steps as the bare word. */
  lemma FinishPadded(a: string, w: string, b: string, t: string)
    requires AllSpace(a) && AllSpace(b) && w != []
    requires forall i :: 0 <= i < |w| ==> IsLowerLetter(w[i])
    requires t == a + (w + b)
    ensures Collapse(BlankPunctuation(t)) == w
  {
    assert BlankPunctuation(t) == t by {
      forall i | 0 <= i < |t| ensures KeepChar(t[i]) == t[i] {
        if i < |a| {
          assert t[i] == a[i];
        } else if i < |a| + |w| {
          assert t[i] == w[i - |a|];
        } else {
          assert t[i] == b[i - |a| - |w|];
        }
      }
    }
    CollapsePadded(a, w, b);
  }

  /** "ada" holds none of the stop-phrases. */
  lemma AdaJunkFree(n: string)
    requires n == "ada"
    ensures JunkFree(n) && !EndsWith(n, "charter")
  {
    forall k | 0 <= k < |Junk| ensures !Contains(n, Junk[k]) {
      var c := Junk[k][0];
      assert c != 'a' && c != 'd';
      MissingChar(n, Junk[k], c);
    }
  }

  lemma CharterBlank(l: string)
    requires l == "charter township of ada"
    ensures BlankAll(l, Junk) == "  ada"
  {
    AdaJunkFree("ada");
    assert l == CharterTownshipOf + (" " + "ada");
    CharterPrefixBlank("ada");
  }

  lemma TownshipBlank(l: string)
    requires l == "ada township"
    ensures BlankAll(l, Junk) == "ada  "
  {
    AdaJunkFree("ada");
    assert l == "ada" + (" " + Township);
    TownshipSuffixBlank("ada");
  }

  lemma TwpBlank(l: string)
    requires l == "ada twp"
    ensures BlankAll(l, Junk) == "ada  "
  {
    AdaJunkFree("ada");
    assert l == "ada" + (" " + Twp);
    TwpSuffixBlank("ada");
  }

  lemma CharterLower(x: string)
    requires x == "Charter Township of Ada"
    ensures Lower(x) == "charter township of ada"
  {
  }

  lemma TownshipLower(x: string)
    requires x == "Ada Township"
    ensures Lower(x) == "ada township"
  {
  }

  lemma TwpLower(x: string)
    requires x == "ADA TWP"
    ensures Lower(x) == "ada twp"
  {
  }

  lemma CharterPrepared(x: string)
    requires x == "Charter Township of Ada"
    ensures Lower(Strip(x)) == "charter township of ada"
  {
    StripIdentity(x);
    CharterLower(x);
  }

  lemma TownshipPrepared(x: string)
    requires x == "Ada Township"
    ensures Lower(Strip(x)) == "ada township"
  {
    StripIdentity(x);
    TownshipLower(x);
  }

  lemma TwpPrepared(x: string)
    requires x == "ADA TWP"
    ensures Lower(Strip(x)) == "ada twp"
  {
    StripIdentity(x);
    TwpLower(x);
  }

  /** What is left of the three spellings collapses to the bare name. */
  lemma AdaFinish(t: string)
    requires t == "  ada" || t == "ada  "
    ensures Collapse(BlankPunctuation(t)) == "ada"
  {
    if t == "  ada" {
      FinishPadded("  ", "ada", "", t);
    } else {
      FinishPadded("", "ada", "  ", t);
    }
  }

  lemma CharterAda(x: string)
    requires x == "Charter Township of Ada"
    ensures PlaceCore(x) == "ada"
  {
    CharterPrepared(x);
    CharterBlank(Lower(Strip(x)));
    AdaFinish(BlankAll(Lower(Strip(x)), Junk));
  }

  lemma AdaTownship(x: string)
    requires x == "Ada Township"
    ensures PlaceCore(x) == "ada"
  {
    TownshipPrepared(x);
    TownshipBlank(Lower(Strip(x)));
    AdaFinish(BlankAll(Lower(Strip(x)), Junk));
  }

  lemma AdaTwp(x: string)
    requires x == "ADA TWP"
    ensures PlaceCore(x) == "ada"
  {
    TwpPrepared(x);
    TwpBlank(Lower(Strip(x)));
    AdaFinish(BlankAll(Lower(Strip(x)), Junk));
  }

  lemma TitleAda()
    ensures Title("ada") == "Ada"
  {
  }

  /** Stop-word insensitivity: the three spellings of the same township
      clean to the same name. */
  lemma StopWordInsensitive(x: string, y: string, z: string)
    requires x == "Charter Township of Ada" && y == "Ada Township" && z == "ADA TWP"
    ensures CleanedPlace(Some(x)) == "Ada"
    ensures CleanedPlace(Some(y)) == "Ada"
    ensures CleanedPlace(Some(z)) == "Ada"
  {
    CharterAda(x);
    AdaTownship(y);
    AdaTwp(z);
    TitleAda();
  }

  /** Lower-cased and stripped, a text whose lower-case middle starts and
      ends with non-space characters keeps that middle between the
      lower-cased sides. */
  lemma PreparedAround(a: string, m: string, b: string)
    requires m != [] && !IsSpace(m[0]) && !IsSpace(m[|m| - 1]) && Lower(m) == m
    ensures Lower(Strip(a + m + b)) == Lower(StripLeft(a)) + m + Lower(StripRight(b))
  {
    StripAround(a, m, b);
    LowerAppend(StripLeft(a) + m, StripRight(b));
    LowerAppend(StripLeft(a), m);
  }

  /** "&" and "and" are lower-case words with no whitespace at their ends. */
  lemma AndWords(m: string)
    requires m == "&" || m == "and"
    ensures m != [] && !IsSpace(m[0]) && !IsSpace(m[|m| - 1]) && Lower(m) == m
  {
  }

  /** Replacing "&" by "and" leaves the same text whichever of the two
      words stood in the middle. */
  lemma SpelledOutBetween(x: string, m: string, y: string)
    requires m == "&" || m == "and"
    ensures Replace(x + m + y, "&", "and") == Replace(x, "&", "and") + "and" + Replace(y, "&", "and")
  {
    assert "&" == ['&'];
    ReplaceSplitsOneChar(x + m, y, '&', "and");
    ReplaceSplitsOneChar(x, m, '&', "and");
    if m == "&" {
      assert Replace(m, "&", "and") == "and" + Replace([], "&", "and");
    } else {
      ReplaceMissingChar(m, "&", "and", '&');
    }
  }

  /** clean_school treats every "&" as the word "and": a name with "&" and
      the same name with "and" in its place clean alike. */
  lemma AmpersandIsAnd(a: string, b: string)
    ensures CleanSchool(Some(a + "&" + b)) == CleanSchool(Some(a + "and" + b))
  {
    var x := Lower(StripLeft(a));
    var y := Lower(StripRight(b));
    AndWords("&");
    AndWords("and");
    PreparedAround(a, "&", b);
    PreparedAround(a, "and", b);
    SpelledOutBetween(x, "&", y);
    SpelledOutBetween(x, "and", y);
    assert SchoolCore(a + "&" + b) == SchoolCore(a + "and" + b);
  }

  lemma AmpersandLower(x: string)
    requires x == "A & B"
    ensures Lower(x) == "a & b"
  {
  }

  lemma AmpersandReplace(l: string)
    requires l == "a & b"
    ensures Replace(l, "&", "and") == "a and b"
  {
    assert l == "a " + ("&" + " b");
    ReplaceSplit("a ", "&" + " b", "&", "and");
    ReplaceAtFront("&", " b", "and");
    ReplaceMissingChar(" b", "&", "and", '&');
  }

  lemma AmpersandSpaced(t: string)
    requires t == "a and b"
    ensures LowerAlnumSpace(t) && NormalSpaced(t)
  {
  }

  lemma AmpersandTitle(t: string)
    requires t == "a and b"
    ensures Title(t) == "A And B"
  {
  }

  /** clean_school spells out "&" before punctuation is blanked. */
  lemma AmpersandSpelledOut(x: string)
    requires x == "A & B"
    ensures CleanSchool(Some(x)) == "A And B"
  {
    StripIdentity(x);
    AmpersandLower(x);
    AmpersandReplace(Lower(Strip(x)));
    var t := "a and b";
    AmpersandSpaced(t);
    BlankPunctuationIdentity(t);
    CollapseIdentity(t);
    AmpersandTitle(t);
  }
}
