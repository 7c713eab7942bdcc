/** get_township_school_from_address of cloud_scraper.py and
    selenium_scraper.py (the two differ only in the browser they start): a
    per-process cache in front of a fast HTTP lookup and a browser fallback.
    The HTTP response and the browser run are inputs: what they would give
    for the address, or the exception they would raise. */
module Resolver {
  import opened Wrappers
  import opened Text
  import opened Search
  import opened Extractor

  /** The fast path's HTTP request: an exception, or a response with its
      status code, its body and the page its body parses to. */
  datatype Fetch = Raised | Response(status: int, body: string, page: Page)

  /** The browser path: an exception with its message, or the rendered page. */
  datatype Browser = Crashed(message: string) | Rendered(page: Page)

  /** What the function returns: the three fields, or {"error": message}. */
  datatype Answer = Found(fields: Jurisdiction) | Error(message: string)

  const Marker := "halfcontentpadded"

  /** _try_fast_lookup: the parsed fields, or None to ask for the browser. */
  function TryFastLookup(fetch: Fetch): (r: Option<Jurisdiction>)
    ensures r.Some? <==>
      && fetch.Response?
      && fetch.status == 200
      && Contains(Lower(fetch.body), Marker)
      && (Truthy(Parse(fetch.page).township) || Truthy(Parse(fetch.page).schoolDistrict))
    ensures r.Some? ==> r.value == Parse(fetch.page)
  {
    match fetch
    case Raised => None
    case Response(status, body, page) =>
      if status != 200 then None
      else if !Contains(Lower(body), Marker) then None
      else
        var parsed := Parse(page);
        if Truthy(parsed.township) || Truthy(parsed.schoolDistrict) then Some(parsed) else None
  }

  /** address.strip().lower(). */
  function CacheKey(address: string): (r: string)
    ensures Strip(r) == r && Lower(r) == r
  {
    LowerStripped(Strip(address));
    LowerIdempotent(Strip(address));
    Lower(Strip(address))
  }

  /** One call on a cache: the answer and the cache afterwards. Existing
      entries are never overwritten, only the address's key can be added,
      and every answer with fields is cached under that key. */
  function Resolution(entries: map<string, Jurisdiction>, address: string, fetch: Fetch, browser: Browser)
    : (r: (Answer, map<string, Jurisdiction>))
    ensures forall k :: k in entries ==> k in r.1 && r.1[k] == entries[k]
    ensures forall k :: k in r.1 ==> k in entries || k == CacheKey(address)
    ensures r.0.Found? ==> CacheKey(address) in r.1 && r.1[CacheKey(address)] == r.0.fields
  {
    Settle(entries, CacheKey(address), TryFastLookup(fetch), browser)
  }

  /** The same call once the key and the fast path's result are known. */
  function Settle(entries: map<string, Jurisdiction>, key: string, fast: Option<Jurisdiction>, browser: Browser)
    : (r: (Answer, map<string, Jurisdiction>))
    ensures forall k :: k in entries ==> k in r.1 && r.1[k] == entries[k]
    ensures forall k :: k in r.1 ==> k in entries || k == key
    ensures r.0.Found? ==> key in r.1 && r.1[key] == r.0.fields
  {
    if key in entries then (Found(entries[key]), entries)
    else match fast
      case Some(v) => (Found(v), entries[key := v])
      case None =>
        match browser
        case Crashed(message) => (Error(message), entries)
        case Rendered(page) => (Found(Parse(page)), entries[key := Parse(page)])
  }

  /** The module-level _address_cache and the function that fills it. */
  class AddressCache {
    var entries: map<string, Jurisdiction>

    constructor()
      ensures entries == map[]
    {
      entries := map[];
    }

    method Resolve(address: string, fetch: Fetch, browser: Browser) returns (r: Answer)
      modifies this
      ensures (r, entries) == Resolution(old(entries), address, fetch, browser)
    {
      var key := Lower(Strip(address));
      if key in entries {
        return Found(entries[key]);
      }
      var fast := TryFastLookup(fetch);
      if fast.Some? {
        entries := entries[key := fast.value];
        return Found(fast.value);
      }
      match browser {
        case Crashed(message) =>
          r := Error(message);
        case Rendered(page) =>
          var parsed := ParseAddressPage(page);
          entries := entries[key := parsed];
          r := Found(parsed);
      }
    }
  }

  // ---------------------------------------------------------------------
  // The cache rules

  /** Lower-casing changes no character into or out of whitespace. */
  lemma LowerCharSpace(c: char)
    ensures IsSpace(LowerChar(c)) == IsSpace(c)
  {
  }

  lemma LowerStripped(t: string)
    requires t == [] || (!IsSpace(t[0]) && !IsSpace(t[|t| - 1]))
    ensures Strip(Lower(t)) == Lower(t)
  {
    var l := Lower(t);
    if l != [] {
      LowerCharSpace(t[0]);
      LowerCharSpace(t[|t| - 1]);
    }
    StripIdentity(l);
  }

  /** On a miss the fast path's parse, when _try_fast_lookup accepts it,
      is answered and stored without the browser; otherwise a rendered
      page's parse is answered and stored. */
  lemma MissAnswers(entries: map<string, Jurisdiction>, address: string, fetch: Fetch, browser: Browser)
    requires CacheKey(address) !in entries
    ensures TryFastLookup(fetch).Some? ==>
      Resolution(entries, address, fetch, browser)
        == (Found(TryFastLookup(fetch).value), entries[CacheKey(address) := TryFastLookup(fetch).value])
    ensures TryFastLookup(fetch).None? && browser.Rendered? ==>
      Resolution(entries, address, fetch, browser)
        == (Found(Parse(browser.page)), entries[CacheKey(address) := Parse(browser.page)])
  {
  }

  /** A hit returns the stored fields and runs neither path: the answer does
      not depend on the fetch or the browser, and the cache is unchanged. */
  lemma HitIgnoresPaths(entries: map<string, Jurisdiction>, address: string, f1: Fetch, b1: Browser, f2: Fetch, b2: Browser)
    requires CacheKey(address) in entries
    ensures Resolution(entries, address, f1, b1) == Resolution(entries, address, f2, b2)
    ensures Resolution(entries, address, f1, b1) == (Found(entries[CacheKey(address)]), entries)
  {
  }

  /** The exception path answers with the message and caches nothing; it is
      the only path that answers with an error. */
  lemma ErrorNotCached(entries: map<string, Jurisdiction>, address: string, fetch: Fetch, browser: Browser)
    ensures var (answer, after) := Resolution(entries, address, fetch, browser);
      answer.Error? <==> CacheKey(address) !in entries && TryFastLookup(fetch).None? && browser.Crashed?
    ensures var (answer, after) := Resolution(entries, address, fetch, browser);
      answer.Error? ==> answer.message == browser.message && after == entries
  {
  }

  /** The browser's parse is cached even when every field is None: only an
      exception keeps the browser path out of the cache. */
  lemma EmptyBrowserParseCached(entries: map<string, Jurisdiction>, address: string, fetch: Fetch, page: Page)
    requires CacheKey(address) !in entries && TryFastLookup(fetch).None?
    requires Parse(page) == Jurisdiction(None, None, None)
    ensures Resolution(entries, address, fetch, Rendered(page)).1 == entries[CacheKey(address) := Jurisdiction(None, None, None)]
  {
    var key := CacheKey(address);
    assert Resolution(entries, address, fetch, Rendered(page)) == (Found(Parse(page)), entries[key := Parse(page)]);
  }

  /** Asking again, with the same address or one with the same key, gives
      the first answer back, whatever the paths would do this time. */
  lemma AskTwice(entries: map<string, Jurisdiction>, a1: string, f1: Fetch, b1: Browser, a2: string, f2: Fetch, b2: Browser)
    requires CacheKey(a1) == CacheKey(a2)
    requires Resolution(entries, a1, f1, b1).0.Found?
    ensures var (answer, after) := Resolution(entries, a1, f1, b1);
      Resolution(after, a2, f2, b2) == (answer, after)
  {
  }
}
