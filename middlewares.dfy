/**
 * The context processor of the bulletin board. Besides the rubric list
 * (a database query, not modelled), it hands every template two query
 * suffixes for the links of the paginator and of the ad pages:
 * `keyword`, which carries the search keyword, and `all`, which carries
 * the keyword and the current page.
 */
module Middlewares {
  import opened Wrappers
  import opened QueryStrings

  /** The keyword the links carry: a `keyword` parameter that is present and not empty. */
  function SearchKeyword(get: map<string, string>): Option<string> {
    if "keyword" in get && get["keyword"] != "" then Some(get["keyword"]) else None
  }

  /** The page the links carry: a `page` parameter other than "1". */
  function LinkedPage(get: map<string, string>): Option<string> {
    if "page" in get && get["page"] != "1" then Some(get["page"]) else None
  }

  /** The suffix for a keyword and a page, each of which may be missing. */
  function SuffixFor(keyword: Option<string>, page: Option<string>): string {
    match (keyword, page)
    case (None, None) => ""
    case (Some(k), None) => "?keyword=" + k
    case (None, Some(p)) => "?page=" + p
    case (Some(k), Some(p)) => "?keyword=" + k + "&page=" + p
  }

  /** The `keyword` entry of the context. */
  function KeywordSuffix(get: map<string, string>): string {
    SuffixFor(SearchKeyword(get), None)
  }

  /** The `all` entry of the context. */
  function AllSuffix(get: map<string, string>): string {
    SuffixFor(SearchKeyword(get), LinkedPage(get))
  }

  /**
   * The context processor itself: both entries start empty, a non-empty
   * keyword sets both, and a page other than "1" is appended to `all`
   * (with `&` after a keyword, with `?` on its own).
   */
  method BboardContextProcessor(get: map<string, string>) returns (keyword: string, all: string)
    ensures keyword == KeywordSuffix(get)
    ensures all == AllSuffix(get)
  {
    keyword := "";
    all := "";
    if "keyword" in get {
      var kw := get["keyword"];
      if kw != "" {
        keyword := "?keyword=" + kw;
        all := keyword;
      }
    }
    if "page" in get {
      var page := get["page"];
      if page != "1" {
        if all != "" {
          all := all + "&page=" + page;
        } else {
          all := "?page=" + page;
        }
      }
    }
  }

  // ---------------------------------------------------------------------
  // The cases of the two suffixes

  lemma NoParametersNoSuffixes(get: map<string, string>)
    requires "keyword" !in get && "page" !in get
    ensures KeywordSuffix(get) == "" && AllSuffix(get) == ""
  {
  }

  lemma NoKeywordEmptyKeywordSuffix(get: map<string, string>)
    requires "keyword" !in get || get["keyword"] == ""
    ensures KeywordSuffix(get) == ""
  {
  }

  lemma KeywordSuffixCarriesKeyword(get: map<string, string>)
    requires "keyword" in get && get["keyword"] != ""
    ensures KeywordSuffix(get) == "?keyword=" + get["keyword"]
    ensures "?keyword=" + get["keyword"] <= AllSuffix(get)
  {
  }

  /** Page "1", or no page, leaves `all` equal to `keyword`. */
  lemma FirstPageAddsNothing(get: map<string, string>)
    requires "page" !in get || get["page"] == "1"
    ensures AllSuffix(get) == KeywordSuffix(get)
  {
  }

  lemma PageAfterKeyword(get: map<string, string>)
    requires "keyword" in get && get["keyword"] != ""
    requires "page" in get && get["page"] != "1"
    ensures AllSuffix(get) == "?keyword=" + get["keyword"] + "&page=" + get["page"]
  {
  }

  lemma PageWithoutKeyword(get: map<string, string>)
    requires "keyword" !in get || get["keyword"] == ""
    requires "page" in get && get["page"] != "1"
    ensures AllSuffix(get) == "?page=" + get["page"]
  {
  }

  /** Setting or removing the page never changes the `keyword` entry. */
  lemma KeywordSuffixIgnoresPage(get: map<string, string>, page: string)
    ensures KeywordSuffix(get["page" := page]) == KeywordSuffix(get)
    ensures KeywordSuffix(get - {"page"}) == KeywordSuffix(get)
  {
    assert "keyword" in get["page" := page] <==> "keyword" in get;
    assert "keyword" in get - {"page"} <==> "keyword" in get;
  }

  lemma KeywordSuffixPrefixOfAll(get: map<string, string>)
    ensures KeywordSuffix(get) <= AllSuffix(get)
  {
  }

  // ---------------------------------------------------------------------
  // Reading the suffixes back

  /** The parameters a link is meant to carry: the keyword and the page that the suffixes encode. */
  function ParamsFor(keyword: Option<string>, page: Option<string>): map<string, string> {
    var withKeyword := if keyword.Some? then map["keyword" := keyword.value] else map[];
    if page.Some? then withKeyword["page" := page.value] else withKeyword
  }

  /** The parameters that the `all` suffix is meant to carry for a request. */
  function Requested(get: map<string, string>): map<string, string> {
    ParamsFor(SearchKeyword(get), LinkedPage(get))
  }

  function DecodeOption(o: Option<string>): Option<string> {
    if o.Some? then Some(Decode(o.value)) else None
  }

  predicate SafeIn(o: Option<string>) {
    o.Some? ==> '&' !in o.value && '#' !in o.value
  }

  /**
   * A suffix whose keyword and page contain no `&` and no `#` reads back as
   * the decoded keyword and page and as nothing else.
   */
  lemma {:induction false} SuffixReadBack(keyword: Option<string>, page: Option<string>)
    requires SafeIn(keyword) && SafeIn(page)
    ensures ParseQuery(SuffixFor(keyword, page)) == ParamsFor(DecodeOption(keyword), DecodeOption(page))
  {
    match (keyword, page)
    case (None, None) =>
    case (Some(k), None) =>
      assert SuffixFor(keyword, page) == "?" + "keyword" + "=" + k;
      ReadOneField("keyword", k);
    case (None, Some(p)) =>
      assert SuffixFor(keyword, page) == "?" + "page" + "=" + p;
      ReadOneField("page", p);
    case (Some(k), Some(p)) =>
      assert SuffixFor(keyword, page) == "?" + "keyword" + "=" + k + "&" + "page" + "=" + p;
      ReadTwoFields("keyword", k, "page", p);
  }

  /**
   * As written, the suffixes read back as the requested parameters exactly
   * when nothing in the keyword or the page has a meaning of its own in a
   * query; see `AmpersandInKeywordLost` for what happens otherwise.
   */
  lemma PlainSuffixesReadBack(get: map<string, string>)
    requires "keyword" in get ==> IsPlain(get["keyword"])
    requires "page" in get ==> IsPlain(get["page"])
    ensures ParseQuery(AllSuffix(get)) == Requested(get)
    ensures ParseQuery(KeywordSuffix(get)) == Requested(get) - {"page"}
  {
    var k, p := SearchKeyword(get), LinkedPage(get);
    if k.Some? { DecodePlain(k.value); PlainHasNoSeparator(k.value); }
    if p.Some? { DecodePlain(p.value); PlainHasNoSeparator(p.value); }
    assert DecodeOption(k) == k && DecodeOption(p) == p;
    SuffixReadBack(k, p);
    SuffixReadBack(k, None);
    ParamsWithoutPage(k, p);
  }

  lemma ParamsWithoutPage(keyword: Option<string>, page: Option<string>)
    ensures ParamsFor(keyword, page) - {"page"} == ParamsFor(keyword, None)
  {
  }

  /**
   * A search for "R&D" puts `?keyword=R&D` into `all`; the link reads that
   * back as the keyword "R" and a stray parameter "D".
   */
  lemma AmpersandInKeywordLost()
    ensures ParseQuery(AllSuffix(map["keyword" := "R&D"])) == map["keyword" := "R", "D" := ""]
    ensures ParseQuery(AllSuffix(map["keyword" := "R&D"])) != Requested(map["keyword" := "R&D"])
  {
    var get := map["keyword" := "R&D"];
    assert AllSuffix(get) == "?" + "keyword" + "=" + "R" + "&" + "D";
    ReadFieldThenBareName("keyword", "R", "D");
    DecodePlain("R");
    assert Requested(get)["keyword"] == "R&D";
  }

  // ---------------------------------------------------------------------
  // The suffixes with their values escaped

  function EscapeOption(o: Option<string>): (r: Option<string>)
    ensures SafeIn(r)
  {
    if o.Some? then Some(Escape(o.value)) else None
  }

  /** The `keyword` entry with the keyword escaped. */
  function EscapedKeywordSuffix(get: map<string, string>): string {
    SuffixFor(EscapeOption(SearchKeyword(get)), None)
  }

  /** The `all` entry with the keyword and the page escaped. */
  function EscapedAllSuffix(get: map<string, string>): string {
    SuffixFor(EscapeOption(SearchKeyword(get)), EscapeOption(LinkedPage(get)))
  }

  /** With escaping, every keyword and every page read back exactly as requested. */
  lemma EscapedSuffixesReadBack(get: map<string, string>)
    ensures ParseQuery(EscapedAllSuffix(get)) == Requested(get)
    ensures ParseQuery(EscapedKeywordSuffix(get)) == Requested(get) - {"page"}
    ensures EscapedKeywordSuffix(get) <= EscapedAllSuffix(get)
  {
    var k, p := SearchKeyword(get), LinkedPage(get);
    SuffixReadBack(EscapeOption(k), EscapeOption(p));
    SuffixReadBack(EscapeOption(k), None);
    if k.Some? { DecodeEscape(k.value); }
    if p.Some? { DecodeEscape(p.value); }
  }

  /** Escaping leaves the suffixes of ordinary keywords and pages as they were. */
  lemma EscapingKeepsPlainSuffixes(get: map<string, string>)
    requires "keyword" in get ==> IsPlain(get["keyword"])
    requires "page" in get ==> IsPlain(get["page"])
    ensures EscapedAllSuffix(get) == AllSuffix(get)
    ensures EscapedKeywordSuffix(get) == KeywordSuffix(get)
  {
  }
}
