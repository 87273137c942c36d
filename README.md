# Mock article store, modelled in Dafny

The frontend of this repository talks to an article resource at
`http://127.0.0.1:5000/api/articles`. During development a mock backend
stands in for it. The mock keeps an ordered list of articles (each with an
optional numeric `article_id`, a title and a content) and a counter
`nextArticleId`. It answers four requests:

- **GET** returns the list.
- **POST** gives the body the next id, appends it and returns it.
- **PUT** replaces the first article whose id equals the body's id, or answers 404.
- **DELETE** reads the id from the last `/`-segment of the URL with `parseInt`. It then removes the first article with that id, or answers 404 when there is none. A missing URL or an unparsable id gives 400.

The model has three modules:

- `Articles` (`articles.dfy`) holds the article record, the reply type (status code and payload), the `findIndex` search (a loop, `FindIndex`, proved against the function `FirstMatch`), the one-element `splice` (`RemoveAt`) and the id predicates the store keeps.
- `UrlIds` (`url_ids.dfy`) holds `split('/')`, the last segment, `parseInt(s, 10)`, the decimal rendering of `${id}`, and the URL that `deleteArticle(id)` builds. It also proves that the delete handler reads back exactly the id that URL carries.
- `MockStore` (`mock_store.dfy`) holds the class `ArticleStore`. Its fields `articles: seq<Article>` and `nextArticleId: int` are updated in place by `Create`, `Update` and `Delete`. A ghost field `issued` records every id ever handed out. `Valid()` states that stored ids are unique, that each one was issued, and that the counter is above every issued id. Every handler preserves `Valid()`, so an id is never handed out twice (in the source, only while the counter stays below 2^53; see "Left out").

Modelling choices:

- `parseInt` is a decimal-prefix parse. It reads an optional `+` or `-`, then the longest run of digits `0`-`9`, and ignores the rest. With no digit after the sign the result is NaN, written `None`.
- The request body is an already-decoded `Article`. The JSON text is not modelled.
- `config.url` is `Option<string>`. The empty string counts as missing, because `if (config.url)` treats `""` as false.
- `Update` takes the URL as a parameter and ignores it. The handler matches on the body's `article_id` only.

The handlers, not the service's types, decide what happens:

- `addArticle` sends an `Omit<Article, 'article_id'>`, but Create overwrites any id the body carries.
- `updateArticle` puts the id in the path, but Update matches on the body's id.
- A successful delete answers `[200]`, with no payload.

## Model

| member | source | states |
|---|---|---|
| `Articles.FirstMatch` | frontend/src/api/articleService.ts:41-43 | The result is -1 exactly when no article has the id; otherwise it is an index whose article has the id, and no earlier article has it |
| `Articles.FindIndex` | frontend/src/api/articleService.ts:57-59 | The linear search returns the first index whose id equals the searched id, or -1 when none does (equal to `FirstMatch`) |
| `Articles.RemoveAt` | frontend/src/api/articleService.ts:61 | `splice(i, 1)` shortens the list by one, keeps the elements before `i` at their places, shifts those after it down by one, and removes exactly one copy of the element at `i` |
| `Articles.RemoveAtOmitsId` | frontend/src/api/articleService.ts:57-62 | With unique ids, after removing the article at `i` no remaining article has its id, and a later search for that id gives -1 |
| `Articles.RemoveAtKeepsIds` | frontend/src/api/articleService.ts:61 | Removing one article keeps the ids unique and keeps every id in the issued set |
| `UrlIds.Split` | frontend/src/api/articleService.ts:54 | `split('/')` gives at least one part, no part contains `/`, and joining the parts with `/` gives back the URL |
| `UrlIds.LastSegment` | frontend/src/api/articleService.ts:54-55 | `urlParts[urlParts.length - 1]` is a suffix of the URL without `/`; it is the whole URL or a `/` stands right before it |
| `UrlIds.LastSegmentAfter` | frontend/src/api/articleService.ts:54-55 | For any prefix, the last segment of `prefix + "/" + t` is `t` when `t` has no `/` |
| `UrlIds.LeadingDigits` | frontend/src/api/articleService.ts:55 | The digit scan inside `parseInt` takes a prefix of the text made only of digits, and the character after it, if any, is not a digit |
| `UrlIds.ParseIntExamples` | frontend/src/api/articleService.ts:55 | Like `parseInt(s, 10)`: a `+` sign and leading zeros are accepted ("+5" is 5, "007" is 7, "-007" is -7), parsing stops at the first non-digit ("0x10" is 0, "12abc" is 12), and "+-5", "-", "" and "abc" are NaN |
| `UrlIds.IntToDecimal` | frontend/src/api/articleService.ts:88 | `${id}` is all digits for a non-negative id and a `-` followed by digits for a negative one, so it never contains `/` |
| `UrlIds.DeleteUrl` | frontend/src/api/articleService.ts:88 | The delete URL is `API_URL`, then `/`, and its last `/`-segment is exactly `${id}` |
| `UrlIds.NatToDecimal` | frontend/src/api/articleService.ts:88 | The decimal rendering of a non-negative id is non-empty and made of digits only |
| `UrlIds.ParseDigits` | frontend/src/api/articleService.ts:55 | Reading the leading digits gives a value exactly when the text starts with a digit, and that value is non-negative |
| `UrlIds.ParseInt` | frontend/src/api/articleService.ts:55-56 | `parseInt(s, 10)` is NaN exactly when no digit follows the optional sign; a negative result only comes after a leading `-` |
| `UrlIds.DecimalValueOfNumeral` | frontend/src/api/articleService.ts:88 | The digits of `${n}` for `n >= 0` have value `n` |
| `UrlIds.LeadingDigitsOf` | frontend/src/api/articleService.ts:55 | The leading-digit run of `d + rest` is `d` when `d` is all digits and `rest` does not start with a digit |
| `UrlIds.ParseIntOfNumeral` | frontend/src/api/articleService.ts:55 | `${n}` followed by anything that does not start with a digit parses back to `n`, for every integer `n` |
| `UrlIds.ParseIntRoundTrip` | frontend/src/api/articleService.ts:55 | Parsing the rendering `${n}` in base 10 gives `n` for every integer `n` |
| `UrlIds.DeleteTargetId` | frontend/src/api/articleService.ts:53-56 | A missing or empty URL yields no id (the 400 path) |
| `UrlIds.DeleteUrlRoundTrip` | frontend/src/api/articleService.ts:88 | The id the delete handler reads from `${API_URL}/${id}` is `id`, for every integer id |
| `UrlIds.DeleteOfCollectionUrl` | frontend/src/api/articleService.ts:52-56 | A DELETE to the collection URL itself has last segment `articles`, which is NaN, so no id is read |
| `UrlIds.DeleteWithTrailingSlash` | frontend/src/api/articleService.ts:54-56 | With a trailing `/` the last segment is empty and parses to NaN |
| `MockStore.SeedArticles` | frontend/src/api/articleService.ts:15-26 | The store starts with two articles, ids 1 and 2 in that order |
| `MockStore.ArticleStore.constructor` | frontend/src/api/articleService.ts:15-27 | The initial state is the seed list with `nextArticleId = articles.length + 1 = 3`, and it satisfies the store invariant |
| `MockStore.ArticleStore.List` | frontend/src/api/articleService.ts:29 | GET answers 200 with the current list, in insertion order |
| `MockStore.ArticleStore.Create` | frontend/src/api/articleService.ts:31-37 | POST sets the body's id to the counter's old value, whatever id it carried. It appends the article, leaving the earlier ones unchanged, and answers 200 with it. The counter goes up by one. The used id had never been issued, and the invariant is kept |
| `MockStore.ArticleStore.Update` | frontend/src/api/articleService.ts:39-50 | PUT replaces the first article whose id equals the body's id at the same index and answers 200 with the body. With no match it answers 404 and leaves the list unchanged. The counter never changes; the invariant is kept |
| `MockStore.ArticleStore.Delete` | frontend/src/api/articleService.ts:52-69 | DELETE answers 400 with the list unchanged when no id can be read from the URL. An id no article has gives 404 with the list unchanged. Otherwise the first article with the id is removed and the others keep their order. The counter never changes; the invariant is kept |
| `MockStore.DeleteById` | frontend/src/api/articleService.ts:87-88 | Deleting a stored id through the URL `deleteArticle` builds answers 200 and removes exactly one article. Afterwards no stored article has that id |

## Left out

- The HTTP client and the mock adapter are not modelled: registering handlers and matching requests by method and by the `${API_URL}/*` pattern belong to a foreign library. Each handler is a method called directly.
- Decoding the request body with `JSON.parse` is not modelled. The body is a decoded `Article`, so extra JSON fields and ids that are not integers cannot occur.
- The async service functions (`getArticles`, `addArticle`, `updateArticle`) are not modelled. They are thin Promise wrappers, and the PUT handler ignores the URL they build. Only the URL that `deleteArticle` builds is modelled (`DeleteUrl`).
- `UrlIds.ParseInt`: JavaScript's `parseInt` first skips leading Unicode white space and line terminators. The model skips none. Its digits are ASCII `0`-`9` only, as `parseInt` with radix 10 accepts.
- `UrlIds.IntToDecimal`: JavaScript numbers are IEEE doubles. `${n}` switches to exponent notation at magnitude 10^21, and integers above 2^53 lose precision. The model renders every integer in plain decimal, so the round trip is stated for all integers. A non-integer argument to `deleteArticle` does not round-trip: `${1.5}` reads back as 1, and `${NaN}` gives a 400. The store only ever issues integer ids.
- `MockStore.ArticleStore.Create`: the counter is an unbounded integer here, so ids are fresh for ever. In the source `nextArticleId` is a JavaScript number, and from 2^53 on `nextArticleId++` no longer changes it. From then on every POST would hand out the same id, so freshness and uniqueness hold in the source only below 2^53.
- `MockStore.ArticleStore.List`: `reply(200, articles)` registers the live `articles` array itself, not a copy. Whether a caller then sees later changes depends on the mock library's handling of the reply, which is not modelled. The model returns the list's value at the time of the call.
- The Flask/connexion view in `connexion-example/lib/views/view_articles.py` is not part of this model. It is request plumbing over a database session.
