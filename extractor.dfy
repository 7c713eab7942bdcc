/** _parse_address_page, shared word for word by cloud_scraper.py and
    selenium_scraper.py: it reads the township, county and school district
    out of a HometownLocator address page. The model starts from what the
    HTML parser hands the function (the page's div.halfcontentpadded
    sections and its anchors, as text); parsing HTML is left out. */
module Extractor {
  import opened Wrappers
  import opened Text
  import opened Search
  import opened Scan

  /** One div.halfcontentpadded section: the text of its first h2 (None when
      it has none), the texts of its li elements in document order and the
      text of its first anchor (None when it has none). */
  datatype Section = Section(heading: Option<string>, items: seq<string>, firstAnchor: Option<string>)

  /** A parsed page: its sections and the text of every anchor in the
      document, in document order. */
  datatype Page = Page(sections: seq<Section>, anchors: seq<string>)

  /** The {township, county, school_district} dict; None is Python's None. */
  datatype Jurisdiction = Jurisdiction(township: Option<string>, county: Option<string>, schoolDistrict: Option<string>)

  const AdminKeywords: seq<string> := ["administrative", "geographic units", "census"]
  const SchoolKeywords: seq<string> := ["school district", "school zones", "schools", "school"]
  const PlaceKeywords: seq<string> := ["city of", "township", "village of", "charter township"]

  /** The lower-cased, cleaned heading; "" for a section without an h2. */
  function HeadingKey(s: Section): (r: string)
    ensures s.heading.None? ==> r == ""
  {
    if s.heading.Some? then Lower(CleanText(s.heading)) else ""
  }

  /** The heading key is already lower-case, single-spaced and trimmed, so
      the keyword tests see every spelling and spacing of a heading alike. */
  lemma HeadingKeyShape(s: Section)
    ensures Lower(HeadingKey(s)) == HeadingKey(s) && NormalSpaced(HeadingKey(s))
  {
    if s.heading.Some? {
      LowerIdempotent(CleanText(s.heading));
      LowerNormalSpaced(CleanText(s.heading));
    }
  }

  predicate IsAdmin(s: Section) {
    ContainsAny(HeadingKey(s), AdminKeywords)
  }

  predicate IsSchool(s: Section) {
    ContainsAny(HeadingKey(s), SchoolKeywords)
  }

  /** A list item naming a city, township or village. */
  predicate NamesPlace(txt: string) {
    ContainsAny(Lower(txt), PlaceKeywords)
  }

  predicate NamesCounty(txt: string) {
    Contains(Lower(txt), "county")
  }

  /** The pattern (public\s+schools?|school\s+district) under re.I, on text
      that _clean_text has already single-spaced. */
  predicate NamesDistrict(txt: string) {
    Contains(Lower(txt), "public school") || Contains(Lower(txt), "school district")
  }

  /** "County: Kent County" gives "Kent County": the trimmed text after the
      last colon, or the whole item when it has no colon. */
  function CountyValue(txt: string): (r: string)
    ensures ':' !in txt ==> r == txt
    ensures ':' in txt ==> ':' !in r && r == Strip(AfterLast(txt, ':'))
  {
    if ':' in txt then Strip(AfterLast(txt, ':')) else txt
  }

  /** Python truthiness of an optional string. */
  predicate Truthy(v: Option<string>) {
    v.Some? && v.value != ""
  }

  /** No whitespace at either end. */
  predicate Trimmed(t: string) {
    t == [] || (!IsSpace(t[0]) && !IsSpace(t[|t| - 1]))
  }

  /** The final "light normalisation" of a field. */
  function Polish(v: Option<string>): (r: Option<string>)
    ensures r.None? <==> v.None?
    ensures r.Some? ==> Trimmed(r.value)
    ensures v.Some? && !Contains(v.value, "County:") ==> r == Some(Strip(v.value))
  {
    if v.Some? then Some(Strip(Replace(v.value, "County:", ""))) else None
  }

  /** _clean_text applied to every text of xs. */
  function Cleaned(xs: seq<string>): (r: seq<string>)
    ensures |r| == |xs| && forall i :: 0 <= i < |xs| ==> r[i] == CleanText(Some(xs[i]))
  {
    seq(|xs|, i requires 0 <= i < |xs| => CleanText(Some(xs[i])))
  }

  /** Each cleaned text is the words of the raw text joined by single
      spaces. */
  lemma CleanedWords(xs: seq<string>)
    ensures |Cleaned(xs)| == |xs|
    ensures forall i :: 0 <= i < |xs| ==> Cleaned(xs)[i] == JoinWords(Words(xs[i]))
  {
    CleanTextsWords(xs);
  }

  // ---------------------------------------------------------------------
  // The page read declaratively

  /** The cleaned list items of the administrative sections, in document order. */
  function AdminTexts(secs: seq<Section>): seq<string> {
    if secs == [] then []
    else AdminTexts(secs[..|secs| - 1]) + (if IsAdmin(secs[|secs| - 1]) then Cleaned(secs[|secs| - 1].items) else [])
  }

  /** The cleaned list items of the school sections, in document order. */
  function SchoolTexts(secs: seq<Section>): seq<string> {
    if secs == [] then []
    else SchoolTexts(secs[..|secs| - 1]) + (if IsSchool(secs[|secs| - 1]) then Cleaned(secs[|secs| - 1].items) else [])
  }

  /** The link candidate a section offers: its cleaned first anchor, when
      that has at least four characters. */
  function LinkOf(first: Option<string>): (r: seq<string>)
    ensures |r| <= 1 && forall k :: 0 <= k < |r| ==> |r[k]| >= 4
  {
    if first.Some? && |CleanText(first)| >= 4 then [CleanText(first)] else []
  }

  /** The link candidate of one section: none unless it is a school section. */
  function SectionLinks(s: Section): (r: seq<string>)
    ensures forall k :: 0 <= k < |r| ==> |r[k]| >= 4
  {
    if IsSchool(s) then LinkOf(s.firstAnchor) else []
  }

  /** The link candidates of the school sections, in document order. */
  function Links(secs: seq<Section>): (r: seq<string>)
    ensures forall k :: 0 <= k < |r| ==> |r[k]| >= 4
  {
    if secs == [] then [] else Links(secs[..|secs| - 1]) + SectionLinks(secs[|secs| - 1])
  }

  /** The district the school sections settle on: the last list item naming
      a district; failing that, the first link candidate. */
  function SchoolStage(texts: seq<string>, links: seq<string>): Option<string> {
    match LastWith(texts, NamesDistrict)
    case Some(t) => Some(t)
    case None => if links == [] then None else Some(links[0])
  }

  /** The global anchor scan, which runs only while no district is set. */
  function Fallback(district: Option<string>, anchors: seq<string>): Option<string> {
    if Truthy(district) then district
    else match FirstWith(Cleaned(anchors), NamesDistrict)
      case Some(t) => Some(t)
      case None => district
  }

  function CountyOf(v: Option<string>): Option<string> {
    if v.Some? then Some(CountyValue(v.value)) else None
  }

  /** What _parse_address_page returns, rule by rule. Every field that is
      set comes back trimmed. */
  function Parse(page: Page): (r: Jurisdiction)
    ensures r.township.Some? ==> Trimmed(r.township.value)
    ensures r.county.Some? ==> Trimmed(r.county.value)
    ensures r.schoolDistrict.Some? ==> Trimmed(r.schoolDistrict.value)
  {
    var admin := AdminTexts(page.sections);
    Jurisdiction(
      Polish(LastWith(admin, NamesPlace)),
      Polish(CountyOf(LastWith(admin, NamesCounty))),
      Polish(Fallback(SchoolStage(SchoolTexts(page.sections), Links(page.sections)), page.anchors)))
  }

  // ---------------------------------------------------------------------
  // The parser as the source writes it

  method ParseAddressPage(page: Page) returns (r: Jurisdiction)
    ensures r == Parse(page)
  {
    var township, county, district := ScanSections(page.sections);
    district := FallBackOnAnchors(district, page.anchors);
    r := Jurisdiction(Polish(township), Polish(county), Polish(district));
  }

  /** The section loop: each section in document order updates the three
      candidates. */
  method ScanSections(secs: seq<Section>) returns (township: Option<string>, county: Option<string>, district: Option<string>)
    ensures township == LastWith(AdminTexts(secs), NamesPlace)
    ensures county == CountyOf(LastWith(AdminTexts(secs), NamesCounty))
    ensures district == SchoolStage(SchoolTexts(secs), Links(secs))
  {
    township, county, district := None, None, None;
    ghost var done: seq<Section> := [];
    NothingScanned(done);
    var i := 0;
    while i < |secs|
      invariant i <= |secs| && |done| == i && forall k :: 0 <= k < i ==> done[k] == secs[k]
      invariant township == LastWith(AdminTexts(done), NamesPlace)
      invariant county == CountyOf(LastWith(AdminTexts(done), NamesCounty))
      invariant district == SchoolStage(SchoolTexts(done), Links(done))
    {
      township, county, district := ScanSection(secs[i], done, township, county, district);
      done := done + [secs[i]];
      i := i + 1;
    }
    assert done == secs;
  }

  /** Before the first section every candidate is None. */
  lemma NothingScanned(done: seq<Section>)
    requires done == []
    ensures LastWith(AdminTexts(done), NamesPlace) == None
    ensures CountyOf(LastWith(AdminTexts(done), NamesCounty)) == None
    ensures SchoolStage(SchoolTexts(done), Links(done)) == None
  {
  }

  /** The anchor fallback after the section loop: when the district is
      still empty, the first anchor naming a district replaces it. */
  method FallBackOnAnchors(district0: Option<string>, anchors: seq<string>) returns (district: Option<string>)
    ensures district == Fallback(district0, anchors)
  {
    district := district0;
    if !Truthy(district) {
      var found := FirstDistrictAnchor(anchors);
      if found.Some? {
        district := found;
      }
    }
  }

  /** The body of the section loop: the administrative rules when the
      heading names one of AdminKeywords, then the school rules when it names
      one of SchoolKeywords. */
  method ScanSection(sec: Section, ghost done: seq<Section>,
                     township0: Option<string>, county0: Option<string>, district0: Option<string>)
    returns (township: Option<string>, county: Option<string>, district: Option<string>)
    requires township0 == LastWith(AdminTexts(done), NamesPlace)
    requires county0 == CountyOf(LastWith(AdminTexts(done), NamesCounty))
    requires district0 == SchoolStage(SchoolTexts(done), Links(done))
    ensures township == LastWith(AdminTexts(done + [sec]), NamesPlace)
    ensures county == CountyOf(LastWith(AdminTexts(done + [sec]), NamesCounty))
    ensures district == SchoolStage(SchoolTexts(done + [sec]), Links(done + [sec]))
  {
    SectionStep(done, sec);
    township, county, district := township0, county0, district0;
    var heading := HeadingKey(sec);
    if ContainsAny(heading, AdminKeywords) {
      township, county := ScanAdminItems(sec.items, AdminTexts(done), AdminTexts(done + [sec]), township, county);
    } else {
      assert AdminTexts(done + [sec]) == AdminTexts(done);
    }
    if ContainsAny(heading, SchoolKeywords) {
      district := TakeAnchor(sec.firstAnchor, SchoolTexts(done), Links(done), Links(done + [sec]), district);
      district := ScanSchoolItems(sec.items, SchoolTexts(done), SchoolTexts(done + [sec]), Links(done + [sec]), district);
    } else {
      assert SchoolTexts(done + [sec]) == SchoolTexts(done);
      assert Links(done + [sec]) == Links(done);
    }
  }

  /** The list-item loop of an administrative section: every item naming a
      place overwrites the township, every item naming a county the county. */
  method ScanAdminItems(items: seq<string>, ghost before: seq<string>, ghost after: seq<string>,
                        township0: Option<string>, county0: Option<string>)
    returns (township: Option<string>, county: Option<string>)
    requires after == before + Cleaned(items)
    requires township0 == LastWith(before, NamesPlace)
    requires county0 == CountyOf(LastWith(before, NamesCounty))
    ensures township == LastWith(after, NamesPlace)
    ensures county == CountyOf(LastWith(after, NamesCounty))
  {
    ghost var texts := Cleaned(items);
    township, county := township0, county0;
    assert before + texts[..0] == before;
    var j := 0;
    while j < |items|
      invariant j <= |items|
      invariant township == LastWith(before + texts[..j], NamesPlace)
      invariant county == CountyOf(LastWith(before + texts[..j], NamesCounty))
    {
      var txt := CleanText(Some(items[j]));
      var low := Lower(txt);
      if ContainsAny(low, PlaceKeywords) {
        township := Some(txt);
      }
      if Contains(low, "county") {
        county := Some(if ':' in txt then Strip(AfterLast(txt, ':')) else txt);
      }
      LastWithStep(before, texts, j, NamesPlace);
      LastWithStep(before, texts, j, NamesCounty);
      j := j + 1;
    }
    assert texts[..j] == texts;
  }

  /** The anchor step of a school section: its first anchor, cleaned, is
      taken when it has at least four characters and no district is set. */
  method TakeAnchor(first: Option<string>, ghost texts: seq<string>, ghost links: seq<string>, ghost links': seq<string>,
                    district0: Option<string>)
    returns (district: Option<string>)
    requires forall k :: 0 <= k < |links| ==> |links[k]| >= 4
    requires links' == links + LinkOf(first)
    requires district0 == SchoolStage(texts, links)
    ensures district == SchoolStage(texts, links')
  {
    district := district0;
    if first.Some? && !Truthy(district) {
      var candidate := CleanText(first);
      if |candidate| >= 4 {
        district := Some(candidate);
      }
    }
    AnchorStep(texts, links, first);
  }

  /** The list-item loop of a school section: every item naming a district
      overwrites the district. */
  method ScanSchoolItems(items: seq<string>, ghost before: seq<string>, ghost after: seq<string>, ghost links: seq<string>,
                         district0: Option<string>)
    returns (district: Option<string>)
    requires after == before + Cleaned(items)
    requires district0 == SchoolStage(before, links)
    ensures district == SchoolStage(after, links)
  {
    ghost var texts := Cleaned(items);
    district := district0;
    assert before + texts[..0] == before;
    var j := 0;
    while j < |items|
      invariant j <= |items|
      invariant district == SchoolStage(before + texts[..j], links)
    {
      var txt := CleanText(Some(items[j]));
      if NamesDistrict(txt) {
        district := Some(txt);
      }
      LastWithStep(before, texts, j, NamesDistrict);
      j := j + 1;
    }
    assert texts[..j] == texts;
  }

  /** The global anchor scan: the first anchor naming a district, and stop. */
  method FirstDistrictAnchor(anchors: seq<string>) returns (found: Option<string>)
    ensures found == FirstWith(Cleaned(anchors), NamesDistrict)
  {
    ghost var texts := Cleaned(anchors);
    found := None;
    var k := 0;
    while k < |anchors|
      invariant k <= |anchors|
      invariant FirstWith(texts, NamesDistrict) == FirstWith(texts[k..], NamesDistrict)
    {
      var t := CleanText(Some(anchors[k]));
      if NamesDistrict(t) {
        found := Some(t);
        break;
      }
      FirstWithSkip(texts, k, NamesDistrict);
      k := k + 1;
    }
  }

  /** What one more section adds to each declarative list. */
  lemma SectionStep(done: seq<Section>, sec: Section)
    ensures AdminTexts(done + [sec]) == AdminTexts(done) + (if IsAdmin(sec) then Cleaned(sec.items) else [])
    ensures SchoolTexts(done + [sec]) == SchoolTexts(done) + (if IsSchool(sec) then Cleaned(sec.items) else [])
    ensures Links(done + [sec]) == Links(done) + (if IsSchool(sec) then LinkOf(sec.firstAnchor) else [])
  {
    assert (done + [sec])[..|done|] == done;
  }

  /** A stage result is never the empty string: matching items contain a
      keyword and link candidates have four characters. */
  lemma StageNotEmpty(texts: seq<string>, links: seq<string>)
    requires forall k :: 0 <= k < |links| ==> |links[k]| >= 4
    ensures SchoolStage(texts, links) != Some("")
  {
    var d := LastWith(texts, NamesDistrict);
    LastWithMeaning(texts, NamesDistrict);
    if d.Some? {
      if Contains(Lower(d.value), "public school") {
        ContainsLength(Lower(d.value), "public school");
      } else {
        ContainsLength(Lower(d.value), "school district");
      }
    }
  }

  /** The link step of a school section: its anchor is taken only while no
      district is set. */
  lemma AnchorStep(texts: seq<string>, links: seq<string>, first: Option<string>)
    requires forall k :: 0 <= k < |links| ==> |links[k]| >= 4
    ensures var d := SchoolStage(texts, links);
            (if first.Some? && !Truthy(d) && |CleanText(first)| >= 4 then Some(CleanText(first)) else d)
            == SchoolStage(texts, links + LinkOf(first))
  {
    StageNotEmpty(texts, links);
    if links != [] {
      assert (links + LinkOf(first))[0] == links[0];
    }
  }

  // ---------------------------------------------------------------------
  // The rules, one lemma each

  /** The township is the last cleaned administrative list item naming a
      city, township or village; None when there is none. */
  lemma TownshipRule(page: Page)
    ensures var admin := AdminTexts(page.sections);
      && (Parse(page).township.None? <==> forall i :: 0 <= i < |admin| ==> !NamesPlace(admin[i]))
      && (Parse(page).township.Some? ==> exists i :: (0 <= i < |admin| && NamesPlace(admin[i])
            && Parse(page).township == Polish(Some(admin[i]))
            && forall j :: i < j < |admin| ==> !NamesPlace(admin[j])))
  {
    var admin := AdminTexts(page.sections);
    var t := LastWith(admin, NamesPlace);
    assert Parse(page).township == Polish(t);
    if t.Some? {
      var i := LastWithAt(admin, NamesPlace);
      assert Parse(page).township == Polish(Some(admin[i]));
    } else {
      LastWithMeaning(admin, NamesPlace);
    }
  }

  /** The county comes from the last cleaned administrative list item
      containing "county": the part after its last colon, trimmed. */
  lemma CountyRule(page: Page)
    ensures var admin := AdminTexts(page.sections);
      && (Parse(page).county.None? <==> forall i :: 0 <= i < |admin| ==> !NamesCounty(admin[i]))
      && (Parse(page).county.Some? ==> exists i :: (0 <= i < |admin| && NamesCounty(admin[i])
            && Parse(page).county == Polish(Some(CountyValue(admin[i])))
            && forall j :: i < j < |admin| ==> !NamesCounty(admin[j])))
  {
    var admin := AdminTexts(page.sections);
    LastWithMeaning(admin, NamesCounty);
    if LastWith(admin, NamesCounty).Some? {
      var i :| 0 <= i < |admin| && admin[i] == LastWith(admin, NamesCounty).value && NamesCounty(admin[i])
        && forall j :: i < j < |admin| ==> !NamesCounty(admin[j]);
      assert Parse(page).county == Polish(Some(CountyValue(admin[i])));
      assert 0 <= i < |admin| && NamesCounty(admin[i]) && Parse(page).county == Polish(Some(CountyValue(admin[i])))
        && forall j :: i < j < |admin| ==> !NamesCounty(admin[j]);
    }
  }

  /** A school-section list item naming a district beats every link: the
      last such item is the district, whatever the anchors say. */
  lemma ItemBeatsLink(page: Page, i: nat)
    requires i < |SchoolTexts(page.sections)| && NamesDistrict(SchoolTexts(page.sections)[i])
    ensures var texts := SchoolTexts(page.sections);
      exists k :: i <= k < |texts| && NamesDistrict(texts[k])
        && Parse(page).schoolDistrict == Polish(Some(texts[k]))
        && forall j :: k < j < |texts| ==> !NamesDistrict(texts[j])
  {
    var texts := SchoolTexts(page.sections);
    var k := LastWithFrom(texts, NamesDistrict, i);
    StageNotEmpty(texts, Links(page.sections));
    assert SchoolStage(texts, Links(page.sections)) == Some(texts[k]);
    assert Parse(page).schoolDistrict == Polish(Some(texts[k]));
  }

  /** With no district-naming item, the first link candidate is the
      district, and the anchors of the page are not consulted. */
  lemma LinkWhenNoItem(page: Page)
    requires forall i :: 0 <= i < |SchoolTexts(page.sections)| ==> !NamesDistrict(SchoolTexts(page.sections)[i])
    requires Links(page.sections) != []
    ensures Parse(page).schoolDistrict == Polish(Some(Links(page.sections)[0]))
  {
    var texts := SchoolTexts(page.sections);
    LastWithMeaning(texts, NamesDistrict);
    StageNotEmpty(texts, Links(page.sections));
  }

  /** The global anchor scan runs only when the sections set no district:
      once they do, replacing every anchor of the page changes nothing. */
  lemma FallbackOnlyWhenUnset(page: Page, anchors: seq<string>)
    requires SchoolStage(SchoolTexts(page.sections), Links(page.sections)).Some?
    ensures Parse(page).schoolDistrict == Parse(Page(page.sections, anchors)).schoolDistrict
  {
    StageNotEmpty(SchoolTexts(page.sections), Links(page.sections));
  }

  /** When the sections set no district, it is the first cleaned anchor of
      the page naming one, and stays None when no anchor does. */
  lemma FallbackFirstMatch(page: Page)
    requires SchoolStage(SchoolTexts(page.sections), Links(page.sections)).None?
    ensures var anchors := Cleaned(page.anchors);
      && (Parse(page).schoolDistrict.None? <==> forall k :: 0 <= k < |anchors| ==> !NamesDistrict(anchors[k]))
      && (Parse(page).schoolDistrict.Some? ==> exists k :: (0 <= k < |anchors| && NamesDistrict(anchors[k])
            && Parse(page).schoolDistrict == Polish(Some(anchors[k]))
            && forall j :: 0 <= j < k ==> !NamesDistrict(anchors[j])))
  {
    var anchors := Cleaned(page.anchors);
    var t := FirstWith(anchors, NamesDistrict);
    assert Parse(page).schoolDistrict == Polish(t);
    if t.Some? {
      var k := FirstWithAt(anchors, NamesDistrict);
      assert Parse(page).schoolDistrict == Polish(Some(anchors[k]));
    } else {
      FirstWithMeaning(anchors, NamesDistrict);
    }
  }

  /** A page on which no rule fires gives three None fields. */
  lemma NothingMatches(page: Page)
    requires forall i :: 0 <= i < |AdminTexts(page.sections)| ==>
      !NamesPlace(AdminTexts(page.sections)[i]) && !NamesCounty(AdminTexts(page.sections)[i])
    requires forall i :: 0 <= i < |SchoolTexts(page.sections)| ==> !NamesDistrict(SchoolTexts(page.sections)[i])
    requires Links(page.sections) == []
    requires forall k :: 0 <= k < |page.anchors| ==> !NamesDistrict(Cleaned(page.anchors)[k])
    ensures Parse(page) == Jurisdiction(None, None, None)
  {
    LastWithMeaning(AdminTexts(page.sections), NamesPlace);
    LastWithMeaning(AdminTexts(page.sections), NamesCounty);
    LastWithMeaning(SchoolTexts(page.sections), NamesDistrict);
    FirstWithMeaning(Cleaned(page.anchors), NamesDistrict);
  }

  /** A section without an h2 contributes nothing, wherever it stands. */
  lemma HeadinglessIgnored(before: seq<Section>, sec: Section, after: seq<Section>, anchors: seq<string>)
    requires sec.heading.None?
    ensures Parse(Page(before + [sec] + after, anchors)) == Parse(Page(before + after, anchors))
  {
    HeadinglessInert(sec);
    AdminSkip(before, sec, after);
    SchoolSkip(before, sec, after);
    LinksSkip(before, sec, after);
    SameLists(Page(before + [sec] + after, anchors), Page(before + after, anchors));
  }

  lemma AdminSkip(before: seq<Section>, sec: Section, after: seq<Section>)
    requires AdminTexts([sec]) == []
    ensures AdminTexts(before + [sec] + after) == AdminTexts(before + after)
  {
    AdminAppend(before + [sec], after);
    AdminAppend(before, [sec]);
    AdminAppend(before, after);
  }

  lemma SchoolSkip(before: seq<Section>, sec: Section, after: seq<Section>)
    requires SchoolTexts([sec]) == []
    ensures SchoolTexts(before + [sec] + after) == SchoolTexts(before + after)
  {
    SchoolAppend(before + [sec], after);
    SchoolAppend(before, [sec]);
    SchoolAppend(before, after);
  }

  lemma LinksSkip(before: seq<Section>, sec: Section, after: seq<Section>)
    requires Links([sec]) == []
    ensures Links(before + [sec] + after) == Links(before + after)
  {
    LinksAppend(before + [sec], after);
    LinksAppend(before, [sec]);
    LinksAppend(before, after);
  }

  /** Parse sees the sections only through the three lists. */
  lemma SameLists(p: Page, q: Page)
    requires p.anchors == q.anchors
    requires AdminTexts(p.sections) == AdminTexts(q.sections)
    requires SchoolTexts(p.sections) == SchoolTexts(q.sections)
    requires Links(p.sections) == Links(q.sections)
    ensures Parse(p) == Parse(q)
  {
  }

  /** A headingless section is neither administrative nor a school section,
      so it adds nothing to any list. */
  lemma HeadinglessInert(sec: Section)
    requires sec.heading.None?
    ensures AdminTexts([sec]) == [] && SchoolTexts([sec]) == [] && Links([sec]) == []
  {
    assert HeadingKey(sec) == "";
    forall k | 0 <= k < |AdminKeywords| ensures !Contains("", AdminKeywords[k]) {
      NotInEmpty(AdminKeywords[k]);
    }
    forall k | 0 <= k < |SchoolKeywords| ensures !Contains("", SchoolKeywords[k]) {
      NotInEmpty(SchoolKeywords[k]);
    }
    assert [sec][..0] == [];
  }

  lemma NotInEmpty(p: string)
    requires p != []
    ensures !Contains("", p)
  {
  }

  lemma {:induction false} AdminAppend(x: seq<Section>, y: seq<Section>)
    ensures AdminTexts(x + y) == AdminTexts(x) + AdminTexts(y)
    decreases |y|
  {
    if y == [] {
      assert x + y == x;
    } else {
      var y', last := y[..|y| - 1], y[|y| - 1];
      var part := if IsAdmin(last) then Cleaned(last.items) else [];
      assert AdminTexts(x + y) == AdminTexts(x + y') + part by {
        assert (x + y)[..|x + y| - 1] == x + y';
        assert (x + y)[|x + y| - 1] == last;
      }
      assert AdminTexts(y) == AdminTexts(y') + part;
      AdminAppend(x, y');
      ConcatAssoc(AdminTexts(x), AdminTexts(y'), part);
    }
  }

  lemma {:induction false} SchoolAppend(x: seq<Section>, y: seq<Section>)
    ensures SchoolTexts(x + y) == SchoolTexts(x) + SchoolTexts(y)
    decreases |y|
  {
    if y == [] {
      assert x + y == x;
    } else {
      var y', last := y[..|y| - 1], y[|y| - 1];
      var part := if IsSchool(last) then Cleaned(last.items) else [];
      assert SchoolTexts(x + y) == SchoolTexts(x + y') + part by {
        assert (x + y)[..|x + y| - 1] == x + y';
        assert (x + y)[|x + y| - 1] == last;
      }
      assert SchoolTexts(y) == SchoolTexts(y') + part;
      SchoolAppend(x, y');
      ConcatAssoc(SchoolTexts(x), SchoolTexts(y'), part);
    }
  }

  lemma {:induction false} LinksAppend(x: seq<Section>, y: seq<Section>)
    ensures Links(x + y) == Links(x) + Links(y)
    decreases |y|
  {
    if y == [] {
      assert x + y == x;
    } else {
      var y', last := y[..|y| - 1], y[|y| - 1];
      var part := SectionLinks(last);
      assert Links(x + y) == Links(x + y') + part by {
        assert (x + y)[..|x + y| - 1] == x + y';
        assert (x + y)[|x + y| - 1] == last;
      }
      assert Links(y) == Links(y') + part;
      assert Links(x + y') == Links(x) + Links(y') by {
        LinksAppend(x, y');
      }
      ConcatAssoc(Links(x), Links(y'), part);
    }
  }

  // ---------------------------------------------------------------------
  // The keyword tests and the two district stages

  /** Every keyword test lower-cases first, so the case of the text does
      not matter. */
  lemma KeywordsIgnoreCase(txt: string)
    ensures NamesPlace(Lower(txt)) == NamesPlace(txt)
    ensures NamesCounty(Lower(txt)) == NamesCounty(txt)
    ensures NamesDistrict(Lower(txt)) == NamesDistrict(txt)
  {
    LowerIdempotent(txt);
  }

  /** A text naming a district holds one of the two phrases, so it has at
      least thirteen characters. */
  lemma DistrictPhraseLength(txt: string)
    ensures NamesDistrict(txt) ==> |txt| >= 13
  {
    LowerMeaning(txt);
    if Contains(Lower(txt), "public school") {
      ContainsLength(Lower(txt), "public school");
    } else if Contains(Lower(txt), "school district") {
      ContainsLength(Lower(txt), "school district");
    }
  }

  /** Only a section with an h2 can be administrative or a school section. */
  lemma KindNeedsHeading(s: Section)
    ensures IsAdmin(s) || IsSchool(s) ==> s.heading.Some?
  {
    if s.heading.None? {
      assert HeadingKey(s) == "";
      forall k | 0 <= k < |AdminKeywords| ensures !Contains("", AdminKeywords[k]) {
        NotInEmpty(AdminKeywords[k]);
      }
      forall k | 0 <= k < |SchoolKeywords| ensures !Contains("", SchoolKeywords[k]) {
        NotInEmpty(SchoolKeywords[k]);
      }
    }
  }

  /** The school stage settles on the last item naming a district; failing
      that, on the first link; and on nothing only when there is neither. */
  lemma SchoolStageRule(texts: seq<string>, links: seq<string>)
    ensures SchoolStage(texts, links).None? <==>
      links == [] && forall i :: 0 <= i < |texts| ==> !NamesDistrict(texts[i])
    ensures (exists i :: 0 <= i < |texts| && NamesDistrict(texts[i])) ==>
      exists i :: 0 <= i < |texts| && NamesDistrict(texts[i]) && SchoolStage(texts, links) == Some(texts[i])
        && forall j :: i < j < |texts| ==> !NamesDistrict(texts[j])
    ensures (forall i :: 0 <= i < |texts| ==> !NamesDistrict(texts[i])) && links != [] ==>
      SchoolStage(texts, links) == Some(links[0])
  {
    LastWithMeaning(texts, NamesDistrict);
  }

  /** The fallback keeps a non-empty district; otherwise it takes the first
      cleaned anchor naming a district, and keeps the district as it is
      (None or "") when no anchor does. */
  lemma FallbackRule(district: Option<string>, anchors: seq<string>)
    ensures Truthy(district) ==> Fallback(district, anchors) == district
    ensures (forall k :: 0 <= k < |anchors| ==> !NamesDistrict(Cleaned(anchors)[k])) ==>
      Fallback(district, anchors) == district
    ensures !Truthy(district) && (exists k :: 0 <= k < |anchors| && NamesDistrict(Cleaned(anchors)[k])) ==>
      exists k :: 0 <= k < |anchors| && NamesDistrict(Cleaned(anchors)[k])
        && Fallback(district, anchors) == Some(Cleaned(anchors)[k])
        && forall j :: 0 <= j < k ==> !NamesDistrict(Cleaned(anchors)[j])
  {
    var texts := Cleaned(anchors);
    var t := FirstWith(texts, NamesDistrict);
    if t.Some? {
      var k := FirstWithAt(texts, NamesDistrict);
      assert !Truthy(district) ==> Fallback(district, anchors) == Some(texts[k]);
    } else {
      FirstWithMeaning(texts, NamesDistrict);
    }
  }

  /** "County: Kent County" style items: the county is what follows the
      last colon, trimmed. */
  lemma CountyAfterColon(name: string, rest: string)
    requires ':' !in rest
    ensures CountyValue(name + ":" + rest) == Strip(rest)
  {
    var t := name + ":" + rest;
    var a := AfterLast(t, ':');
    assert t[|t| - |rest|..] == rest;
    assert t[|t| - |rest| - 1] == ':';
    assert a == rest;
  }
}
