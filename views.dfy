/**
 * The decision rules of the bulletin board's function views: the rubric
 * page with its keyword search, the static pages looked up by name, and the
 * home page's latest ads. Database tables are sequences of records in the
 * order the query set yields them; a missing object is a 404.
 */
module Views {
  import opened Text
  import opened QuerySets

  /** An ad (`Bb`), reduced to what the views look at. */
  datatype Ad = Ad(title: string, content: string, rubric: int, isActive: bool)

  /** A page response, or the 404 raised for a missing rubric or template. */
  datatype Response<T> = Found(value: T) | NotFound

  // ---------------------------------------------------------------------
  // by_rubric

  /** The page number handed to the paginator: the raw `page` parameter, or the number 1. */
  datatype PageNumber = Raw(text: string) | Number(n: int)

  /** What the rubric view puts in its context before paginating. */
  datatype RubricPage = RubricPage(rubric: int, keyword: string, page: PageNumber, bbs: seq<Ad>)

  predicate ListedIn(pk: int, a: Ad) {
    a.isActive && a.rubric == pk
  }

  /** The `title__icontains | content__icontains` condition. */
  predicate MentionsKeyword(keyword: string, a: Ad) {
    ContainsIgnoringCase(a.title, keyword) || ContainsIgnoringCase(a.content, keyword)
  }

  /**
   * The rubric view: a 404 for an unknown rubric; otherwise the active ads
   * of the rubric, narrowed by the keyword when one is given, with the
   * keyword defaulting to "" and the page to the number 1.
   */
  function ByRubric(rubrics: set<int>, ads: seq<Ad>, pk: int, get: map<string, string>): (r: Response<RubricPage>)
    ensures r.NotFound? <==> pk !in rubrics
    ensures r.Found? ==> r.value.rubric == pk
    ensures r.Found? ==> r.value.keyword == (if "keyword" in get then get["keyword"] else "")
    ensures r.Found? ==> r.value.page == (if "page" in get then Raw(get["page"]) else Number(1))
    ensures r.Found? ==> forall a :: a in r.value.bbs <==>
      a in ads && ListedIn(pk, a) && ("keyword" in get ==> MentionsKeyword(get["keyword"], a))
  {
    if pk !in rubrics then NotFound
    else
      var listed := Filter(ads, a => ListedIn(pk, a));
      var (bbs, keyword) :=
        if "keyword" in get then
          var keyword := get["keyword"];
          (Filter(listed, a => MentionsKeyword(keyword, a)), keyword)
        else (listed, "");
      var pageNumber := if "page" in get then Raw(get["page"]) else Number(1);
      Found(RubricPage(pk, keyword, pageNumber, bbs))
  }

  /** The ads the rubric view selects, as one condition. */
  predicate Selected(pk: int, keyword: string, a: Ad) {
    ListedIn(pk, a) && MentionsKeyword(keyword, a)
  }

  /**
   * The selected ads are exactly those matching the whole condition, in
   * the order of the table, each as often as it occurs there.
   */
  lemma ByRubricSelects(rubrics: set<int>, ads: seq<Ad>, pk: int, get: map<string, string>)
    requires pk in rubrics
    ensures var keyword := if "keyword" in get then get["keyword"] else "";
      ByRubric(rubrics, ads, pk, get).value.bbs == Filter(ads, a => Selected(pk, keyword, a))
  {
    var keyword := if "keyword" in get then get["keyword"] else "";
    if "keyword" in get {
      FilterFilter(ads, a => ListedIn(pk, a), a => MentionsKeyword(keyword, a), a => Selected(pk, keyword, a));
    } else {
      forall i | 0 <= i < |ads|
        ensures ListedIn(pk, ads[i]) == Selected(pk, "", ads[i])
      {
        EmptyIsContained(ads[i].title);
      }
      FilterCongruent(ads, a => ListedIn(pk, a), a => Selected(pk, "", a));
    }
  }

  /** An empty `keyword` parameter lists the same ads as no keyword at all. */
  lemma EmptyKeywordListsAll(rubrics: set<int>, ads: seq<Ad>, pk: int, get: map<string, string>)
    requires pk in rubrics
    ensures ByRubric(rubrics, ads, pk, get["keyword" := ""]).value.bbs == ByRubric(rubrics, ads, pk, get - {"keyword"}).value.bbs
  {
    ByRubricSelects(rubrics, ads, pk, get["keyword" := ""]);
    ByRubricSelects(rubrics, ads, pk, get - {"keyword"});
  }

  /** Ads later in query-set order are listed after the earlier ones. */
  lemma ByRubricKeepsOrder(rubrics: set<int>, older: seq<Ad>, newer: seq<Ad>, pk: int, get: map<string, string>)
    requires pk in rubrics
    ensures ByRubric(rubrics, older + newer, pk, get).value.bbs
         == ByRubric(rubrics, older, pk, get).value.bbs + ByRubric(rubrics, newer, pk, get).value.bbs
  {
    var keyword := if "keyword" in get then get["keyword"] else "";
    ByRubricSelects(rubrics, older + newer, pk, get);
    ByRubricSelects(rubrics, older, pk, get);
    ByRubricSelects(rubrics, newer, pk, get);
    FilterConcat(older, newer, a => Selected(pk, keyword, a));
  }

  // ---------------------------------------------------------------------
  // other_page

  /** The template a static page is rendered from. */
  function TemplateName(page: string): string {
    "main/" + page + ".html"
  }

  /** The static page view: the page's template if the loader has it, a 404 otherwise. */
  function OtherPage(templates: set<string>, page: string): (r: Response<string>)
    ensures r.Found? <==> TemplateName(page) in templates
    ensures r.Found? ==> r.value == TemplateName(page) && r.value[5..|r.value| - 5] == page
  {
    var name := TemplateName(page);
    if name in templates then Found(name) else NotFound
  }

  /** Different pages never share a template. */
  lemma TemplateNameInjective(page1: string, page2: string)
    requires TemplateName(page1) == TemplateName(page2)
    ensures page1 == page2
  {
    var n := TemplateName(page1);
    assert n[5..|n| - 5] == page1;
    assert n[5..|n| - 5] == page2;
  }

  /**
   * A page name without `/` (the only kind the URL pattern `<str:page>/`
   * lets through) selects a template directly inside `main/`.
   */
  lemma TemplateStaysInMain(page: string)
    requires '/' !in page
    ensures var n := TemplateName(page); forall i :: 0 <= i < |n| && n[i] == '/' ==> i == 4
  {
  }

  // ---------------------------------------------------------------------
  // index

  /** Ads on the home page. */
  const INDEX_SIZE := 10

  predicate IsActive(a: Ad) {
    a.isActive
  }

  /** The home page: the first ten active ads. */
  function Index(ads: seq<Ad>): (r: seq<Ad>)
    ensures |r| <= INDEX_SIZE
    ensures forall i :: 0 <= i < |r| ==> r[i].isActive
    ensures forall a :: a in r ==> a in ads
    ensures r <= Filter(ads, IsActive)
    ensures |r| == if |Filter(ads, IsActive)| < INDEX_SIZE then |Filter(ads, IsActive)| else INDEX_SIZE
  {
    var active := Filter(ads, IsActive);
    assert forall i :: 0 <= i < |active| ==> active[i] in active;
    if |active| <= INDEX_SIZE then active else active[..INDEX_SIZE]
  }

  /** With ten active ads or fewer, the home page shows them all. */
  lemma IndexShowsFewActiveAds(ads: seq<Ad>)
    requires |Filter(ads, IsActive)| <= INDEX_SIZE
    ensures Index(ads) == Filter(ads, IsActive)
  {
  }

  /** Ads later in query-set order than the first ten active ones never reach the home page. */
  lemma {:induction false} IndexIgnoresLaterAds(ads: seq<Ad>, later: seq<Ad>)
    requires |Filter(ads, IsActive)| >= INDEX_SIZE
    ensures Index(ads + later) == Index(ads)
  {
    FilterConcat(ads, later, IsActive);
    var front := Filter(ads, IsActive);
    assert (front + Filter(later, IsActive))[..INDEX_SIZE] == front[..INDEX_SIZE];
  }
}
