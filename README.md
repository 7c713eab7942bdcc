# Property-tax lookup: a verified model of its core

The application takes a Michigan street address. It resolves the address to a
township, a county and a school district by reading the HometownLocator
address page. It then finds the rows of a reference table of millage rates
whose township and school district best match that answer. Around that sit a
Streamlit form, a SQLite loader, HTTP and browser drivers, and tax arithmetic.
This project models the logic in between, in Dafny:

- **Name normalisers** (`normalize.dfy`, on top of `text.dfy` and
  `search.dfy`): `clean_city_twp` and `clean_school` of `app.py`, exactly as
  written:
  - `s or ""`, then `strip()` and `lower()`;
  - the ordered `str.replace` loop over the stop-phrases, or the `&` to
    `and` replacement;
  - `re.sub(r"[^a-z0-9\s]", " ", s)`;
  - the whitespace collapse, then `str.title()`. Python's `str.title()`
    upper-cases a letter after any non-letter, so `3rd` becomes `3Rd`.
- **Scenario label** (`scenario.dfy`): `scenario_property_name` and
  `build_scenario_name`.
- **Reference table** (`millage.dfy`):
  - the column check and the four derived columns of `load_millage_data`;
  - `find_top_matches`: the target key, the scoring loop, the sort by
    descending score and pandas `head(n)`, including a negative `n`.
- **Page extractor** (`extractor.dfy`): `_parse_address_page`, which
  `cloud_scraper.py` and `selenium_scraper.py` share word for word. The
  extractor runs on the sections and anchors the HTML parser finds, as text.
  It is written twice:
  - as the nested loops of the source;
  - as one function per field rule (`Parse`).

  The loops are proved equal to the function, and each rule gets its own
  lemma.
- **Reduced variants** of the extractor:
  - the section loop of `playwright_scraper.py` (`playwright.dfy`);
  - the two-cell table reader of `scraper_test.py` (`table.dfy`).
- **Resolver** (`resolver.dfy`):
  - the acceptance guards of `_try_fast_lookup`;
  - `get_township_school_from_address`, as a class holding the
    `_address_cache` map.

  The HTTP response and the browser run are inputs to the model.
- **Last match and first match** (`scan.dfy`): the two scan patterns the
  scrapers use. An overwrite-on-match loop keeps the last match. A loop that
  breaks keeps the first.

## Model

| member | source | states |
|---|---|---|
| `Text.Strip` | app.py:27 | `str.strip()`: the result has no whitespace at either end, is no longer than its input, and is empty exactly when the input is all whitespace. |
| `Text.StripAround` | app.py:27 | `strip()` of a text whose middle part starts and ends with non-whitespace strips the text before the middle from the left and the text after it from the right, and keeps the middle as it is. |
| `Text.LowerAppend` | app.py:40 | `lower()` works character by character: `(x + y).lower() == x.lower() + y.lower()`. |
| `Text.StripMeaning` | app.py:27 | `strip()` removes the leading and the trailing whitespace and nothing else: the result is the infix of the input that sits between a whitespace run in front and a whitespace run behind. |
| `Text.StripLower` | app.py:27 | `strip().lower()` gives what `lower().strip()` gives: lower-casing keeps whitespace where it is. |
| `Text.LowerMeaning` | app.py:27 | `lower()` keeps the length, leaves no upper-case letter, and changes each character only in its case. |
| `Text.LowerIdempotent` | cloud_scraper.py:49 | Lower-casing an already lower-cased text changes nothing. |
| `Text.SquashShape` | app.py:53 | `re.sub(r"\s+", " ", s)` makes every whitespace run one plain space. The result is single-spaced and made of the input's characters. It is empty exactly when the input is, and it starts or ends with a space exactly when the input starts or ends with whitespace. |
| `Text.Collapse` | app.py:35 | The collapse-and-strip step leaves single spaces only, no whitespace at either end, and only characters of its input. |
| `Text.CollapseWords` | app.py:35 | `re.sub(r"\s+", " ", s).strip()` is `" ".join(s.split())`: the maximal whitespace-free runs of the input, in order, joined by single spaces. |
| `Text.SquashWords` | app.py:35 | On a text with no whitespace at either end, `re.sub(r"\s+", " ", t)` joins the words of `t` with single spaces. |
| `Text.CleanText` | selenium_scraper.py:32-33 | `_clean_text`: `None` and `""` give `""`. Any other result is single-spaced with no whitespace at either end. The cloud_scraper.py:36-37 copy is the same function. |
| `Text.CleanTextWords` | cloud_scraper.py:36-37 | `_clean_text(s)` is `" ".join((s or "").split())`: the words of the input joined by single spaces. |
| `Text.CollapseIdempotent` | cloud_scraper.py:36-37 | `_clean_text` applied to its own output changes nothing. |
| `Text.CollapseKeepsText` | cloud_scraper.py:37 | `_clean_text` changes only whitespace: the non-whitespace characters survive, in order. |
| `Text.SquashStripCommute` | app.py:52-53 | Trimming then collapsing whitespace runs gives what collapsing then trimming gives. |
| `Text.TitleOfLower` | app.py:36 | `str.title()` on lower-case letters, digits and spaces: lower-casing the result gives the input back, and the result keeps that alphabet, the positions of the spaces and the spacing. |
| `Text.Title` | app.py:36 | `str.title()` keeps the length and every character up to case. It upper-cases exactly the letters that start a run of letters: the first character, or a letter after a non-letter. |
| `Text.TitleExample` | app.py:36 | `"3rd street".title()` is `"3Rd Street"`: a letter after a digit is upper-cased. |
| `Normalize.CleanedPlace` | app.py:26-36 | `clean_city_twp` is total. `None`, `""` and all-whitespace input give `""`. Every result is a clean name: ASCII letters, digits and single interior spaces. |
| `Normalize.CleanCityTwp` | app.py:26-36 | The loop version returns the value `CleanedPlace` defines. Its result is a clean name, and lower-cased it contains none of the nine stop-phrases. |
| `Search.Replace` | app.py:32-33 | `str.replace`: a text that does not contain the pattern comes back unchanged. |
| `Search.ReplaceAtBlank` | app.py:32-33 | A pattern without blanks is replaced on each side of a blank apart: no occurrence straddles a blank, so the text before it and the text from it onwards are replaced independently. |
| `Search.ReplaceSplitsOneChar` | app.py:41 | A one-character pattern cannot straddle two parts: for every split `a + b`, replacing in the whole is replacing in `a` and in `b` apart. |
| `Search.BlankReplaceRemoves` | app.py:32-33 | Replacing a blank-free phrase by a space leaves no occurrence of that phrase. |
| `Normalize.BlankJunk` | app.py:32-33 | The replace loop blanks the stop-phrases one after the other, in list order. |
| `Normalize.CleanedPlaceShape` | app.py:28-36 | The cleaned name contains no stop-phrase in any letter case, so the phrases are gone, not just moved. |
| `Normalize.PlaceCoreShape` | app.py:32-35 | Before title-casing, the text is lower-case letters, digits and single interior spaces, with no stop-phrase left. Blanking punctuation or collapsing spaces never rebuilds a phrase. |
| `Normalize.PlaceCoreBlank` | app.py:27 | An all-whitespace input cleans to the empty name. |
| `Normalize.CleanedPlaceIdempotent` | app.py:26-36 | `clean_city_twp(clean_city_twp(s)) == clean_city_twp(s)`. |
| `Normalize.CleanedPlaceFixedPoint` | app.py:26-36 | A clean lower-case name holding no stop-phrase comes back title-cased and otherwise unchanged: the normaliser keeps every word it is not told to drop. |
| `Normalize.CleanedPlaceIgnoresCase` | app.py:27 | The case of the input does not matter: `clean_city_twp(s.lower()) == clean_city_twp(s)`. |
| `Normalize.CharterPrefixDropped` | app.py:29-33 | For every clean lower-case name `n` without stop-phrases, `"charter township of " + n` cleans to `n.title()`. |
| `Normalize.TwpSuffixDropped` | app.py:30-33 | For every clean lower-case name `n` without stop-phrases, `n + " twp"` cleans to `n.title()`. |
| `Normalize.TownshipSuffixDropped` | app.py:29-33 | For every clean lower-case name `n` without stop-phrases that does not end in "charter", `n + " township"` cleans to `n.title()`. A name ending in "charter" loses "charter township" as a whole. |
| `Normalize.StopWordInsensitive` | app.py:28-33 | `"Charter Township of Ada"`, `"Ada Township"` and `"ADA TWP"` all clean to `"Ada"`, because the longer phrases come first in the list. |
| `Normalize.CleanSchool` | app.py:39-44 | `clean_school` is total. `None`, `""` and all-whitespace input give `""`. Every result is a clean name. |
| `Normalize.SchoolCoreShape` | app.py:40-43 | Before title-casing, the school text is lower-case letters, digits and single interior spaces. |
| `Normalize.CleanSchoolIdempotent` | app.py:39-44 | `clean_school(clean_school(s)) == clean_school(s)`: no `&` survives cleaning. |
| `Normalize.CleanSchoolFixedPoint` | app.py:39-44 | A clean lower-case name comes back title-cased and otherwise unchanged. |
| `Normalize.CleanSchoolIgnoresCase` | app.py:40 | The case of the input does not matter: `clean_school(s.lower()) == clean_school(s)`. |
| `Normalize.AmpersandIsAnd` | app.py:39-44 | For all texts `a` and `b`, `clean_school(a + "&" + b) == clean_school(a + "and" + b)`: every `&` cleans exactly as the word `and`. |
| `Normalize.SpelledOutBetween` | app.py:41 | `replace("&", "and")` turns a middle `&` or `and` into `and` and replaces the two sides apart. |
| `Normalize.AmpersandSpelledOut` | app.py:41-42 | `&` is spelled out before punctuation is blanked, so `"A & B"` cleans to `"A And B"`. |
| `Scenario.PropertyName` | app.py:48-54 | An empty address gives `""`. Otherwise the result holds no comma and is single-spaced and trimmed, with exactly the non-whitespace characters of the text before the first comma. |
| `Scenario.PropertyNameIsCleanText` | app.py:52-53 | For a non-empty address, the property name is exactly `_clean_text` of the text before the first comma. |
| `Scenario.PropertyNameExample` | app.py:49 | `"4524 Glory Way SW, Wyoming, MI 49418"` gives `"4524 Glory Way SW"`. |
| `Scenario.ScenarioName` | app.py:63-68 | The result always ends with the price label. It is the label alone exactly when the property name is empty. Otherwise it is exactly the name, then `" - "`, then the label: the prefix, the suffix and the length are all fixed. |
| `Millage.Missing` | app.py:89 | A column is listed exactly when it is required and absent. |
| `Millage.Load` | app.py:83-97 | Loading fails exactly when one of the four required columns is absent, and the error names every absent one. Otherwise each row, in order, gets its derived columns. |
| `Millage.Derive` | app.py:93-97 | `Township_Clean` is `clean_city_twp` of the township cell and `School_Clean` is `clean_school` of the school cell, both clean names. `Combined_Clean` joins them with `" - "`. `Combined Key` joins the raw cells as `astype(str)` renders them, with `None` for a NULL. The row's own cells are kept. |
| `Millage.CombinedCleanSplits` | app.py:95 | `Combined_Clean` determines both cleaned names, because a clean name has no hyphen. |
| `Millage.ScoreRows` | app.py:106-110 | The scoring loop builds exactly the Score column that `Scored` defines. |
| `Millage.SortByScore` | app.py:114 | Sorting returns the same rows (a permutation), highest score first. It promises no order among ties. |
| `Millage.Rank` | app.py:114 | `sort_values(..., ascending=False).head(n)` is a top-n selection (`IsTopN`): `HeadCount(n)` rows (`min(n, len)` for `n >= 0`, all but the last `-n` for negative `n`, as `head` keeps), in non-increasing score order, all taken from the scored frame (a sub-multiset). Every row left out scores no higher than every row kept. |
| `Millage.TopAndRest` | app.py:114 | Cutting a descending sequence keeps the head descending and splits the rows exactly into kept and dropped. No dropped row outscores a kept one. |
| `Millage.TopMatches` | app.py:106-114 | The result is a top-n selection of the scored rows: `HeadCount(n)` of them, highest score first, and none left out scores above one kept. No order among equal scores is promised. |
| `Millage.FindTopMatches` | app.py:101-115 | The target is `clean_city_twp(township) + " - " + clean_school(school)`. The rows returned are a top-n selection of the input rows scored against it, with no order among equal scores promised; the input rows are values that nothing changes. |
| `Millage.RankedScores` | app.py:107-114 | In any top-n selection of the scored rows, every kept row is one of the input rows, carrying the score of its own `Combined_Clean` against the target. |
| `Scan.LastWithMeaning` | cloud_scraper.py:53-58 | An overwrite-on-match loop ends with nothing exactly when no candidate matches. Otherwise it ends with a matching candidate after which none matches. |
| `Scan.FirstWithMeaning` | cloud_scraper.py:78-82 | A loop that breaks on its first match ends with nothing exactly when no candidate matches. Otherwise it ends with a matching candidate before which none matches. |
| `Extractor.CleanedWords` | cloud_scraper.py:54 | Each list-item text becomes its words joined by single spaces, one for one: `_clean_text(li) == " ".join(li.split())`. |
| `Extractor.HeadingKeyShape` | cloud_scraper.py:48-49 | Every heading key is lower-case, single-spaced and trimmed, so the keyword tests see every spelling and spacing of a heading alike. |
| `Extractor.KindNeedsHeading` | cloud_scraper.py:52-64 | Only a section with an h2 can be administrative or a school section, because the empty key contains no keyword. |
| `Extractor.KeywordsIgnoreCase` | cloud_scraper.py:55-73 | The place, county and district tests ignore the case of the item: they lower-case it first, or search with `re.I`. |
| `Extractor.DistrictPhraseLength` | cloud_scraper.py:73 | An item naming a district contains "public school" or "school district", so it has at least 13 characters. |
| `Extractor.CountyValue` | cloud_scraper.py:61 | An item without a colon is kept whole. Otherwise the county is the trimmed text after the last colon, which holds no colon. |
| `Extractor.CountyAfterColon` | cloud_scraper.py:61 | `"<name>:<rest>"` with no colon in `rest` gives `rest` trimmed. |
| `Extractor.LinkOf` | cloud_scraper.py:65-69 | A section offers at most one link candidate: its cleaned first anchor, only when that has at least four characters. |
| `Extractor.Links` | cloud_scraper.py:64-69 | Every link candidate of the school sections has at least four characters. |
| `Extractor.Polish` | cloud_scraper.py:85-87 | The final normalisation keeps `None` as `None` and leaves any string with no whitespace at either end. A field without `County:` comes back as the field trimmed, and nothing else. |
| `Extractor.Parse` | cloud_scraper.py:40-89 | The extractor returns exactly the three fields, and every field that is set comes back trimmed. |
| `Extractor.ParseAddressPage` | selenium_scraper.py:36-89 | The nested section, item and anchor loops (also cloud_scraper.py:40-89), including the early `break`, compute exactly `Parse`. |
| `Extractor.ScanSection` | cloud_scraper.py:47-74 | One section moves each running field from its value on the earlier sections to its value on those sections plus this one. |
| `Extractor.ScanAdminItems` | cloud_scraper.py:53-61 | The item loop of an administrative section leaves the last place item as township and the last county item (colon-split) as county. |
| `Extractor.TakeAnchor` | cloud_scraper.py:65-69 | The first anchor is taken only while no district is set and only when it has four characters. |
| `Extractor.AnchorStep` | cloud_scraper.py:66-69 | The anchor step matches the rule "first link candidate unless an item named a district". |
| `Extractor.ScanSchoolItems` | cloud_scraper.py:71-74 | Every school-section item naming a district overwrites the district. |
| `Extractor.FirstDistrictAnchor` | cloud_scraper.py:78-82 | The global anchor scan returns the first cleaned anchor naming a district and stops there. |
| `Extractor.SchoolStageRule` | cloud_scraper.py:64-74 | The school sections settle on the last item naming a district. Failing that, they settle on the first link candidate. The district is `None` exactly when there is neither. |
| `Extractor.FallbackRule` | cloud_scraper.py:76-82 | A non-empty district is kept. Otherwise the first cleaned anchor naming a district replaces it, and when no anchor names one the district stays as it was (`None` or `""`). |
| `Extractor.ScanSections` | cloud_scraper.py:47-74 | The section loop ends with the last place item as township, the county of the last county item, and the school-stage district of the school sections. |
| `Extractor.FallBackOnAnchors` | cloud_scraper.py:77-82 | The fallback step computes exactly `Fallback` of the district and the page anchors. |
| `Extractor.TownshipRule` | selenium_scraper.py:50-56 | The township is `None` exactly when no administrative item names a place. Otherwise it is the last such item, cleaned and normalised (also cloud_scraper.py:52-58). |
| `Extractor.CountyRule` | cloud_scraper.py:60-61 | The county is `None` exactly when no administrative item contains "county". Otherwise it comes from the last such item, split at its last colon (also selenium_scraper.py:58-60). |
| `Extractor.ItemBeatsLink` | selenium_scraper.py:71-74 | When some school-section item names a district, the district is the last such item, whatever the anchors say (also cloud_scraper.py:71-74). |
| `Extractor.LinkWhenNoItem` | cloud_scraper.py:64-69 | With no district-naming item, the district is the first link candidate, and the page's anchors are not consulted. |
| `Extractor.FallbackOnlyWhenUnset` | selenium_scraper.py:77-82 | Once the sections set a district, replacing every anchor of the page changes nothing (also cloud_scraper.py:77-82). |
| `Extractor.FallbackFirstMatch` | cloud_scraper.py:76-82 | When the sections set no district, the district is the first cleaned anchor naming one, and `None` when no anchor does. |
| `Extractor.NothingMatches` | selenium_scraper.py:43 | A page on which no rule fires gives three `None` fields (also cloud_scraper.py:45). |
| `Extractor.HeadinglessIgnored` | cloud_scraper.py:48-52 | A section without an h2 contributes nothing, wherever it stands. |
| `PlaywrightExtract.ExtractBlocks` | playwright_scraper.py:67-95 | The section loop computes exactly `Extract`: last place item, last county item and last school link. |
| `PlaywrightExtract.ScanBlock` | playwright_scraper.py:68-93 | One section moves each running field to its value with that section added. A section without an h2 leaves all three unchanged. |
| `PlaywrightExtract.ScanBlockItems` | playwright_scraper.py:76-87 | The item loop leaves the last place item as township and the last county item as county. |
| `PlaywrightExtract.BlockTownshipRule` | playwright_scraper.py:75-84 | The township is `None` exactly when no administrative or geographic item names a place. Otherwise it is the last such item, unchanged. |
| `PlaywrightExtract.BlockCountyRule` | playwright_scraper.py:86-87 | The county is the whole last item containing "county", with no colon split and no trimming of `County:`. It is `None` exactly when there is none. |
| `PlaywrightExtract.BlockDistrictRule` | playwright_scraper.py:89-93 | The district is `None` exactly when no school section has a link. Otherwise it is the link of the last such section. |
| `PlaywrightExtract.LaterLinkWins` | playwright_scraper.py:90-93 | A later school section with a link overwrites the district, with no length check. |
| `PlaywrightExtract.NoLinkNoDistrict` | playwright_scraper.py:29-33 | Without a school section that has a link, the district stays `None`: there is no fallback. |
| `PlaywrightExtract.UnmatchedBlockIgnored` | playwright_scraper.py:68-70 | A section whose heading names neither kind (in particular one without an h2) changes nothing, wherever it stands. |
| `TableScrape.ScrapeRows` | scraper_test.py:19-31 | The row loop computes exactly `Scrape`: for each field, the stripped value of the last row of its kind, or `""`. |
| `TableScrape.ScanRow` | scraper_test.py:20-30 | One row moves each field to its value with that row added. |
| `TableScrape.Defaults` | scraper_test.py:14-18 | A field with no row of its kind stays `""`. |
| `TableScrape.ScrapeRule` | scraper_test.py:19-30 | Each field is `""` when no row of its kind exists. Otherwise it is the trimmed second cell of the last row of its kind. The kinds are tested in the order county, township, school district. |
| `TableScrape.CountyRowWins` | scraper_test.py:25-26 | A later county row overwrites the county and nothing else, even when its label also says "township" or "school district". |
| `TableScrape.TownshipRowWins` | scraper_test.py:27-28 | A later township row (no "county" in its label) overwrites the township and nothing else. |
| `TableScrape.SchoolRowWins` | scraper_test.py:29-30 | A later school-district row overwrites the district and nothing else. |
| `TableScrape.OtherRowIgnored` | scraper_test.py:21-30 | A row without exactly two cells, or whose label names no field, changes nothing, wherever it stands. |
| `Resolver.TryFastLookup` | cloud_scraper.py:106-118 | The fast path answers exactly when all of these hold (also selenium_scraper.py:107-120), and it then answers with the parse of the page: there was no exception; the status is 200; the lower-cased body contains the section marker; the township or district is truthy. |
| `Resolver.AddressCache.constructor` | cloud_scraper.py:33 | The cache starts empty. |
| `Resolver.AddressCache.Resolve` | selenium_scraper.py:189-245 | One call returns the answer and leaves the cache entries exactly as `Resolution` says (also cloud_scraper.py:242-295). |
| `Resolver.CacheKey` | cloud_scraper.py:242 | The key `address.strip().lower()` is trimmed and lower-case, so taking the key of a key changes nothing. |
| `Resolver.Resolution` | cloud_scraper.py:242-295 | A lookup never changes an existing entry and adds at most the address's own key. Every answer with fields is stored under that key. |
| `Resolver.MissAnswers` | cloud_scraper.py:249-291 | On a miss, a parse that `_try_fast_lookup` accepts is answered and stored under the key, and the browser result plays no part. Otherwise a rendered page's parse is answered and stored. |
| `Resolver.HitIgnoresPaths` | cloud_scraper.py:245-246 | A cache hit returns the stored value. It depends on neither the fetch nor the browser and leaves the cache unchanged. |
| `Resolver.ErrorNotCached` | cloud_scraper.py:293-295 | An error answer comes only from a browser exception after a miss and a declined fast path. It carries the exception's message and leaves the cache unchanged. |
| `Resolver.EmptyBrowserParseCached` | selenium_scraper.py:235-241 | The browser's parse is cached even when every field is `None`, because the `"error" not in parsed` test is always true. |
| `Resolver.AskTwice` | cloud_scraper.py:242-246 | Asking again with an address of the same key returns the first answer, whatever the paths would do the second time. |

## Left out

- HTTP requests, the Selenium and Playwright browser sessions, driver
  discovery and timeouts. These are I/O: the fetch outcome and the browser
  outcome are inputs to the resolver, and an exception is one of the
  possible outcomes.
- HTML parsing by BeautifulSoup or lxml. The extractors start from what the
  parser finds: section headings, list-item texts and first anchors, as
  text.
- `fuzz.token_set_ratio` is a foreign library. It is a parameter whose
  results are whole numbers from 0 to 100.
- Reading the table from SQLite, the `st.cache_data` decorator, the
  `IS_CLOUD` import switch and the Streamlit UI. The loaded table is an
  input to `Millage.Load`.
- Cells hold text or nothing. A NULL cell is `None`, and `astype(str)`
  renders it as `"None"`. Numeric cells and pandas NaN are not modelled.
- `format_k`, `calc_taxes` and `money_number_only`: float arithmetic with
  Python rounding. `build_scenario_name` takes the price label that
  `format_k` renders as an input.
- Scenario.PropertyName: takes a string. A `None` address, which `not
  address` would also map to `""`, is not modelled.
- Letter case is ASCII only. The re module's `re.I` case folding of the few
  non-ASCII letters that fold to ASCII, and `str.lower()`/`str.title()` on
  non-ASCII letters, are not modelled.
- Millage.SortByScore: pandas' default sort is not stable, so the model
  promises nothing about the order of rows with equal scores. It is
  specified by the permutation and descending-order properties only.
- The `finally` blocks that quit the browser driver and remove its temporary
  profile directory. They clean up resources and change no returned value.
- Aliasing: the cache hands out the stored dict itself, so a caller that
  mutates it would change the cache. The model stores values.
- Where the documented intent ("only successful browser results are cached")
  and the code differ, the model follows the code: `parsed` only ever holds
  the three field keys, so the browser path's parse is always cached, and
  only an exception escapes the cache.
- The scripts `playwright_setup.py`, `import_excel_to_db.py`,
  `excel_to_sqlite.py` and `test_db.py` are subprocess, spreadsheet and
  SQLite plumbing, and are not part of this model.
