# DjangoBboard: verified model of the bulletin board's request logic

DjangoBboard is a classifieds site: users register, activate their account
through a signed link, and browse ads ("Bb" records) by rubric with a keyword
search and a paginator. Nearly everything it does is handed to the web
framework. This project models the parts that make their own decisions and
proves what they promise:

- `middlewares.dfy` (module `Middlewares`): the context processor that builds
  the two query suffixes added to paginator and ad links. `keyword` carries
  the search keyword and `all` carries the keyword and the page. It is a
  method with local strings. It is proved equal to a four-case table and to
  the suffix properties the code relies on. It is also checked against how a
  link's query is read back (see Findings).
- `views.dfy` (module `Views`): `by_rubric` (404 for an unknown rubric,
  parameter defaults, the active/rubric/keyword filter), `other_page` (the
  template name and its 404) and `index` (the first ten active ads).
- `activation.dfy` (module `Activation`): `user_activate` as a method on a
  user table (`UserTable.users`, a map from user name to the two flags). It
  is proved against a pure function with four outcomes, then idempotence and
  the stability of activated accounts are proved over any series of requests.
- Support modules: `Wrappers` (Option), `Text` (the `icontains` lookup with
  ASCII lower-casing), `QuerySets` (the `filter` of a query set as an
  order-keeping filter of a sequence), `QueryStrings` (a reference reading of
  a link's query: split on `&`, first `=`, `+`/`%XY` decoding, later field
  wins, `#` ends the query).

Inputs the code gets from outside become parameters. The GET dictionary is a
`map<string, string>`. Database tables are sequences of records in query-set
order. The set of rubric keys and the set of template names the loader can
find are sets. The signer's `unsign` is any function `string -> Option<string>`.

## Model

| member | source | states |
|---|---|---|
| `Middlewares.BboardContextProcessor` | main/middlewares.py:7-22 | The built `keyword` and `all` are exactly the four-case table: empty, `?keyword=k`, `?page=p`, `?keyword=k&page=p` |
| `Middlewares.NoParametersNoSuffixes` | main/middlewares.py:7-10 | Without `keyword` and `page` parameters both entries are empty |
| `Middlewares.NoKeywordEmptyKeywordSuffix` | main/middlewares.py:11-14 | An absent or empty keyword leaves `keyword` empty |
| `Middlewares.KeywordSuffixCarriesKeyword` | main/middlewares.py:13-15 | A non-empty keyword k gives `keyword == "?keyword=" + k`, and `all` starts with it |
| `Middlewares.FirstPageAddsNothing` | main/middlewares.py:16-18 | Page "1" or no page leaves `all` equal to `keyword` |
| `Middlewares.PageAfterKeyword` | main/middlewares.py:19-20 | A page p other than "1" after a non-empty keyword k gives `?keyword=k&page=p` |
| `Middlewares.PageWithoutKeyword` | main/middlewares.py:21-22 | A page p other than "1" with no keyword gives `?page=p` |
| `Middlewares.KeywordSuffixIgnoresPage` | main/middlewares.py:11-16 | Setting or removing the page never changes `keyword` |
| `Middlewares.KeywordSuffixPrefixOfAll` | main/middlewares.py:15-22 | `keyword` is always a prefix of `all` |
| `Middlewares.SuffixReadBack` | main/middlewares.py:14-22 | A suffix whose values hold no `&` or `#` reads back as exactly the decoded keyword and page |
| `Middlewares.PlainSuffixesReadBack` | main/middlewares.py:11-22 | For keywords and pages without `%`, `+`, `&`, `;`, `#`, both suffixes read back as exactly the requested keyword and page |
| `Middlewares.AmpersandInKeywordLost` | main/middlewares.py:14-15 | As written, the keyword "R&D" reads back from `all` as keyword "R" plus a parameter "D" |
| `Middlewares.EscapedSuffixesReadBack` | main/middlewares.py:11-22 | With the values escaped, every keyword and page reads back exactly as requested, and `keyword` stays a prefix of `all` |
| `Middlewares.EscapingKeepsPlainSuffixes` | main/middlewares.py:11-22 | Escaping leaves the suffixes of plain keywords and pages unchanged |
| `QuerySets.Filter` | main/views.py:48 | The filter keeps each record exactly when it satisfies the condition, with its multiplicity, never lengthening the sequence |
| `QuerySets.FilterConcat` | main/views.py:48 | Filtering preserves the order of records: filtering a concatenation concatenates the filtered parts |
| `QuerySets.FilterFilter` | main/views.py:48-53 | Two filters in a row are one filter on the conjunction |
| `Text.EmptyIsContained` | main/views.py:51-52 | The empty keyword is contained in every title and content |
| `Views.ByRubric` | main/views.py:47-61 | 404 exactly for an unknown rubric; keyword defaults to "" and page to 1; listed ads are exactly the active ads of the rubric that mention a given keyword case-insensitively |
| `Views.ByRubricSelects` | main/views.py:48-53 | The list is the order-keeping filter of the table by active, rubric and keyword together |
| `Views.EmptyKeywordListsAll` | main/views.py:49-55 | An empty keyword lists the same ads as no keyword |
| `Views.ByRubricKeepsOrder` | main/views.py:48-53 | The listing of a concatenated table is the concatenation of the listings, so table order is kept |
| `Views.OtherPage` | main/views.py:151-155 | The page is found exactly when the loader has `main/<page>.html`, and that is the template used |
| `Views.TemplateNameInjective` | main/views.py:153 | Different page names never map to the same template |
| `Views.TemplateStaysInMain` | main/urls.py:8 | A page name without `/` selects a template directly inside `main/` |
| `Views.Index` | main/views.py:160 | At most ten ads, all active, a prefix of the active ads, and as many as there are up to ten |
| `Views.IndexShowsFewActiveAds` | main/views.py:160 | With ten active ads or fewer the home page shows all of them |
| `Views.IndexIgnoresLaterAds` | main/views.py:160 | Ads after the first ten active ones never change the home page |
| `Activation.Activate` | main/views.py:87-100 | Bad signature and unknown user leave the table unchanged; an activated user is left unchanged; otherwise that user becomes active and activated and no other user changes |
| `Activation.UserTable.UserActivate` | main/views.py:87-100 | The method's outcome and new table are those of `Activate` on the unsigned name, and the page it renders is the one chosen for that case |
| `Activation.ActivateTemplate` | main/views.py:90-96 | Bad signature renders `main/bad_signature.html`, an unknown user a 404, an activated user `main/user_is_activated.html`, any other user `main/activation_done.html` |
| `Activation.ActivateIdempotent` | main/views.py:93-99 | A second activation with the same link changes nothing and reports `user_is_activated` |
| `Activation.ActivateKeepsUsers` | main/views.py:92-99 | No request adds or removes users |
| `Activation.ActivateOnlyRaisesFlags` | main/views.py:95-98 | Activation never clears `is_active` or `is_activated` |
| `Activation.ActivatedUserUntouched` | main/views.py:93-94 | An activated account is never changed by any series of requests, so a deactivated account cannot reactivate itself |
| `Activation.LinkedUsersActivated` | main/views.py:95-99 | After a series of requests every user named by a valid link in it is activated |
| `Activation.ActivateAllKeepsUsers` | main/views.py:92-99 | A series of requests keeps the same set of users |
| `Activation.ActivatedReplayUnchanged` | main/views.py:93-94 | Requests that only name activated users, or nobody, change nothing |
| `Activation.ActivateAllIdempotent` | main/views.py:93-99 | Replaying a whole series of requests changes nothing |

## Findings

| source | as written | input that shows it | evidently intended | confidence | as-written member | corrected member |
|---|---|---|---|---|---|---|
| main/middlewares.py:14-22 | the keyword and the page are pasted into the query text without escaping | keyword `R&D` and no page: `all` is `?keyword=R&D`, which reads back as keyword `R` and a stray parameter `D` | the suffixes carry back the keyword and page that were requested | medium, not executed (the templates that use the suffixes are not part of this model) | `Middlewares.AmpersandInKeywordLost` | `Middlewares.EscapedSuffixesReadBack` |

`Middlewares.BboardContextProcessor` keeps the code as written.
`Middlewares.EscapedKeywordSuffix` and `Middlewares.EscapedAllSuffix` are the
corrected definitions. They escape `%`, `+`, `&`, `;` and `#`. Nothing else in
the model consumes the suffixes. `Middlewares.EscapingKeepsPlainSuffixes`
shows the fix changes nothing for keywords and pages made of other characters.

## Left out

- The `rubrics` entry of the context processor (main/middlewares.py:6): a database query.
- `Paginator.get_page` (main/views.py:57-62): clamping and validating the page number is library code. `Views.ByRubric` returns the page number it hands over and the whole filtered list, not the page of two ads.
- Views.ByRubric: returns the rubric key where the view puts the rubric record, and the keyword where the view builds a `SearchForm` with it as initial value.
- `icontains`: modelled with ASCII lower-casing, as SQLite compares. Unicode case folding on other databases is not modelled.
- Query-set order: the order of the tables is taken as given. The models' default ordering is not part of this model.
- `signer.unsign` (main/views.py:25, 89): the cryptography is a library. It is a parameter of `UserActivate`.
- `get_object_or_404`: a key lookup in a set or map. Template loading and rendering, `HttpResponse`, `messages` and `logout` are framework calls.
- The user record holds only `is_active` and `is_activated`. `save()` is the map update. Two activation requests running at once are not modelled.
- Class-based views `DeleteUserView`, `RegisterUserView`, `RegisterDoneView`, `BBPasswordChangeView`, `ChangeUserInfoView`, `BBLoginView` (main/views.py:67-148): framework views whose only own logic is taking the key of the logged-in user.
- `profile_bb_detail`, `detail` and `profile` (main/views.py:28-40, 165-169): single lookups by key or by author, with no decisions of their own.
- main/urls.py (route table, matched by the framework's resolver) and main/forms.py (form configuration validated by the framework). The one fact used from urls.py is that a page name holds no `/`.
- The reference query reading decodes each `%XY` escape as one character, not as UTF-8 bytes. The corrected suffixes only escape ASCII characters, so this does not affect the findings.
- The reference query reading splits fields on `&` only. Older servers also split on `;`. The corrected suffixes escape `;` too, so they hold no `;` for such a server to split on. The proofs themselves are stated for the `&`-only reading.
