/** The section loop of playwright_scraper.py get_township_school_from_address:
    a reduced variant of the HometownLocator extractor. It skips sections
    without an h2, knows no "census" heading, keeps the county item whole,
    takes every school section's first link without a length check and has
    no global fallback and no final normalisation. Driving the browser is
    left out: the loop starts from the parsed sections, as text. */
module PlaywrightExtract {
  import opened Wrappers
  import opened Text
  import opened Search
  import opened Scan
  import opened Extractor

  /** One div.halfcontentpadded section as this scraper reads it: the text
      of its first h2 and of its first anchor as get_text(strip=True) gives
      them, and the text of each li element as get_text(" ", strip=True)
      gives it. */
  datatype Block = Block(heading: Option<string>, items: seq<string>, link: Option<string>)

  /** The lower-cased heading of a block that has one. */
  function Key(b: Block): string
    requires b.heading.Some?
  {
    Lower(b.heading.value)
  }

  predicate IsAdminBlock(b: Block) {
    b.heading.Some? && (Contains(Key(b), "administrative") || Contains(Key(b), "geographic units"))
  }

  predicate IsSchoolBlock(b: Block) {
    b.heading.Some? && (Contains(Key(b), "school district") || Contains(Key(b), "school zones"))
  }

  // ---------------------------------------------------------------------
  // The loop read declaratively

  /** The list items of the administrative blocks, in document order. */
  function BlockTexts(bs: seq<Block>): seq<string> {
    if bs == [] then []
    else BlockTexts(bs[..|bs| - 1]) + (if IsAdminBlock(bs[|bs| - 1]) then bs[|bs| - 1].items else [])
  }

  /** The first links of the school blocks that have one, in document order. */
  function BlockLinks(bs: seq<Block>): seq<string> {
    if bs == [] then []
    else BlockLinks(bs[..|bs| - 1]) + (if IsSchoolBlock(bs[|bs| - 1]) && bs[|bs| - 1].link.Some? then [bs[|bs| - 1].link.value] else [])
  }

  /** Every link counts: the school step overwrites the district with any
      link it finds. With this test, LastWith of the links is the last link,
      and the overwrite-on-match lemmas of Scan apply to it unchanged. */
  predicate AnyText(t: string) {
    true
  }

  /** What the loop leaves in the result dict. */
  function Extract(bs: seq<Block>): Jurisdiction {
    Jurisdiction(LastWith(BlockTexts(bs), NamesPlace), LastWith(BlockTexts(bs), NamesCounty),
                 LastWith(BlockLinks(bs), AnyText))
  }

  // ---------------------------------------------------------------------
  // The loop as the source writes it

  method ExtractBlocks(bs: seq<Block>) returns (r: Jurisdiction)
    ensures r == Extract(bs)
  {
    var township: Option<string> := None;
    var county: Option<string> := None;
    var district: Option<string> := None;
    var i := 0;
    while i < |bs|
      invariant i <= |bs|
      invariant township == LastWith(BlockTexts(bs[..i]), NamesPlace)
      invariant county == LastWith(BlockTexts(bs[..i]), NamesCounty)
      invariant district == LastWith(BlockLinks(bs[..i]), AnyText)
    {
      assert bs[..i + 1] == bs[..i] + [bs[i]];
      township, county, district := ScanBlock(bs[i], bs[..i], township, county, district);
      i := i + 1;
    }
    assert bs[..i] == bs;
    r := Jurisdiction(township, county, district);
  }

  /** The loop body for one section; a section without an h2 is skipped. */
  method ScanBlock(b: Block, ghost done: seq<Block>,
                   township0: Option<string>, county0: Option<string>, district0: Option<string>)
    returns (township: Option<string>, county: Option<string>, district: Option<string>)
    requires township0 == LastWith(BlockTexts(done), NamesPlace)
    requires county0 == LastWith(BlockTexts(done), NamesCounty)
    requires district0 == LastWith(BlockLinks(done), AnyText)
    ensures township == LastWith(BlockTexts(done + [b]), NamesPlace)
    ensures county == LastWith(BlockTexts(done + [b]), NamesCounty)
    ensures district == LastWith(BlockLinks(done + [b]), AnyText)
  {
    BlockStep(done, b);
    township, county, district := township0, county0, district0;
    if b.heading.None? {
      assert BlockTexts(done + [b]) == BlockTexts(done);
      assert BlockLinks(done + [b]) == BlockLinks(done);
      return;
    }
    var heading := Lower(b.heading.value);
    if Contains(heading, "administrative") || Contains(heading, "geographic units") {
      township, county := ScanBlockItems(b.items, BlockTexts(done), BlockTexts(done + [b]), township, county);
    } else {
      assert BlockTexts(done + [b]) == BlockTexts(done);
    }
    if Contains(heading, "school district") || Contains(heading, "school zones") {
      if b.link.Some? {
        district := Some(b.link.value);
        LastWithSnoc(BlockLinks(done), b.link.value, AnyText);
      } else {
        assert BlockLinks(done + [b]) == BlockLinks(done);
      }
    } else {
      assert BlockLinks(done + [b]) == BlockLinks(done);
    }
  }

  /** The list-item loop of an administrative section: an item naming a
      place becomes the township, an item containing "county" the county,
      both as they stand. */
  method ScanBlockItems(items: seq<string>, ghost before: seq<string>, ghost after: seq<string>,
                        township0: Option<string>, county0: Option<string>)
    returns (township: Option<string>, county: Option<string>)
    requires after == before + items
    requires township0 == LastWith(before, NamesPlace)
    requires county0 == LastWith(before, NamesCounty)
    ensures township == LastWith(after, NamesPlace)
    ensures county == LastWith(after, NamesCounty)
  {
    township, county := township0, county0;
    assert before + items[..0] == before;
    var j := 0;
    while j < |items|
      invariant j <= |items|
      invariant township == LastWith(before + items[..j], NamesPlace)
      invariant county == LastWith(before + items[..j], NamesCounty)
    {
      var text := items[j];
      var lower := Lower(text);
      if ContainsAny(lower, PlaceKeywords) {
        township := Some(text);
      }
      if Contains(lower, "county") {
        county := Some(text);
      }
      LastWithStep(before, items, j, NamesPlace);
      LastWithStep(before, items, j, NamesCounty);
      j := j + 1;
    }
    assert items[..j] == items;
  }

  lemma BlockStep(done: seq<Block>, b: Block)
    ensures BlockTexts(done + [b]) == BlockTexts(done) + (if IsAdminBlock(b) then b.items else [])
    ensures BlockLinks(done + [b]) == BlockLinks(done) + (if IsSchoolBlock(b) && b.link.Some? then [b.link.value] else [])
  {
    assert (done + [b])[..|done|] == done;
  }

  // ---------------------------------------------------------------------
  // The rules

  /** The township is the last administrative list item naming a city,
      township or village, kept as it stands; None when there is none. */
  lemma BlockTownshipRule(bs: seq<Block>)
    ensures var texts := BlockTexts(bs);
      && (Extract(bs).township.None? <==> forall i :: 0 <= i < |texts| ==> !NamesPlace(texts[i]))
      && (Extract(bs).township.Some? ==> exists i :: (0 <= i < |texts| && NamesPlace(texts[i])
            && Extract(bs).township == Some(texts[i])
            && forall j :: i < j < |texts| ==> !NamesPlace(texts[j])))
  {
    assert Extract(bs).township == LastWith(BlockTexts(bs), NamesPlace);
    LastWithMeaning(BlockTexts(bs), NamesPlace);
    if LastWith(BlockTexts(bs), NamesPlace).Some? {
      var texts := BlockTexts(bs);
      var i :| 0 <= i < |texts| && texts[i] == LastWith(texts, NamesPlace).value && NamesPlace(texts[i])
        && forall j :: i < j < |texts| ==> !NamesPlace(texts[j]);
      assert 0 <= i < |texts| && NamesPlace(texts[i]) && Extract(bs).township == Some(texts[i])
        && forall j :: i < j < |texts| ==> !NamesPlace(texts[j]);
    }
  }

  /** The county is the whole last administrative list item containing
      "county": no colon splitting and no trimming of "County:". */
  lemma BlockCountyRule(bs: seq<Block>)
    ensures var texts := BlockTexts(bs);
      && (Extract(bs).county.None? <==> forall i :: 0 <= i < |texts| ==> !NamesCounty(texts[i]))
      && (Extract(bs).county.Some? ==> exists i :: (0 <= i < |texts| && NamesCounty(texts[i])
            && Extract(bs).county == Some(texts[i])
            && forall j :: i < j < |texts| ==> !NamesCounty(texts[j])))
  {
    assert Extract(bs).county == LastWith(BlockTexts(bs), NamesCounty);
    LastWithMeaning(BlockTexts(bs), NamesCounty);
    if LastWith(BlockTexts(bs), NamesCounty).Some? {
      var texts := BlockTexts(bs);
      var i :| 0 <= i < |texts| && texts[i] == LastWith(texts, NamesCounty).value && NamesCounty(texts[i])
        && forall j :: i < j < |texts| ==> !NamesCounty(texts[j]);
      assert 0 <= i < |texts| && NamesCounty(texts[i]) && Extract(bs).county == Some(texts[i])
        && forall j :: i < j < |texts| ==> !NamesCounty(texts[j]);
    }
  }

  /** The district is the last school-section link, taken as it stands;
      None exactly when no school section has a link. */
  lemma BlockDistrictRule(bs: seq<Block>)
    ensures Extract(bs).schoolDistrict.None? <==> BlockLinks(bs) == []
    ensures BlockLinks(bs) != [] ==> Extract(bs).schoolDistrict == Some(BlockLinks(bs)[|BlockLinks(bs)| - 1])
  {
  }

  /** A later school section with a link overwrites the district, whatever
      the link says: there is no length check. */
  lemma LaterLinkWins(bs: seq<Block>, b: Block)
    requires IsSchoolBlock(b) && b.link.Some?
    ensures Extract(bs + [b]).schoolDistrict == b.link
  {
    BlockStep(bs, b);
    LastWithSnoc(BlockLinks(bs), b.link.value, AnyText);
  }

  /** Without a school section that has a link the district stays None:
      there is no fallback. */
  lemma NoLinkNoDistrict(bs: seq<Block>)
    requires forall i :: 0 <= i < |bs| ==> !(IsSchoolBlock(bs[i]) && bs[i].link.Some?)
    ensures Extract(bs).schoolDistrict.None?
  {
    NoLinks(bs);
  }

  lemma {:induction false} NoLinks(bs: seq<Block>)
    requires forall i :: 0 <= i < |bs| ==> !(IsSchoolBlock(bs[i]) && bs[i].link.Some?)
    ensures BlockLinks(bs) == []
    decreases |bs|
  {
    if bs != [] {
      NoLinks(bs[..|bs| - 1]);
    }
  }

  /** A section whose heading names neither kind (in particular one without
      an h2, or a "census" heading) contributes nothing, wherever it stands. */
  lemma UnmatchedBlockIgnored(before: seq<Block>, b: Block, after: seq<Block>)
    requires !IsAdminBlock(b) && !IsSchoolBlock(b)
    ensures Extract(before + [b] + after) == Extract(before + after)
  {
    BlockStep([], b);
    assert [] + [b] == [b];
    assert BlockTexts(before + [b] + after) == BlockTexts(before + after) by {
      BlockTextsAppend(before + [b], after);
      BlockTextsAppend(before, [b]);
      BlockTextsAppend(before, after);
    }
    assert BlockLinks(before + [b] + after) == BlockLinks(before + after) by {
      BlockLinksAppend(before + [b], after);
      BlockLinksAppend(before, [b]);
      BlockLinksAppend(before, after);
    }
  }

  lemma {:induction false} BlockTextsAppend(x: seq<Block>, y: seq<Block>)
    ensures BlockTexts(x + y) == BlockTexts(x) + BlockTexts(y)
    decreases |y|
  {
    if y == [] {
      assert x + y == x;
    } else {
      var y' := y[..|y| - 1];
      assert (x + y)[..|x + y| - 1] == x + y';
      BlockTextsAppend(x, y');
    }
  }

  lemma {:induction false} BlockLinksAppend(x: seq<Block>, y: seq<Block>)
    ensures BlockLinks(x + y) == BlockLinks(x) + BlockLinks(y)
    decreases |y|
  {
    if y == [] {
      assert x + y == x;
    } else {
      var y' := y[..|y| - 1];
      assert (x + y)[..|x + y| - 1] == x + y';
      BlockLinksAppend(x, y');
    }
  }
}
