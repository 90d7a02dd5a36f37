# News API backend: cache-and-rank pipeline in Dafny

This project models the core of a small news backend. Four HTTP handlers
answer article searches: the general search, by title, by author and by
keyword. Each handler:

- builds a cache key from its query parameters;
- answers from an in-process cache with a 300-second TTL when the key is live;
- otherwise asks the upstream news search for articles;
- ranks the articles by how many query words occur in one field, or in
  three fields for the keyword search;
- stores the result under the key and answers with it.

Any exception becomes a 500 answer with the exception's message, and
nothing is stored.

The model has seven modules:

- `Wrappers`: `Option` and `Result`.
- `Js`: the JavaScript semantics the ranking relies on:
  - values and truthiness;
  - property access;
  - ASCII `toLowerCase`;
  - `includes`;
  - `split` on a one-character separator;
  - the exceptions a handler catches.
- `ArraySort`: a generic stable descending sort. `InsertionSortDesc` sorts an
  `array` in place and is proved equal to a functional specification,
  `SortDesc`. Lemmas about `SortDesc` prove it is a permutation, sorted and
  stable. They also show that three stable sorts of one sequence order it
  lexicographically. `Array.prototype.sort` must be stable since ECMAScript
  2019, section 22.1.3.27.
- `CommonService`: `SortArticles` and `getNestedValue`.
  - `Rank` is the value-level meaning of one call: the sorted articles, or
    the `TypeError` the comparator throws.
  - The method `SortArticles` sorts the caller's array in place and returns
    that same array.
- `CacheService`: the module-level cache as a class, `TtlCache`, with a map
  of entries. The clock is an explicit `now` argument in seconds.
- `Controller`:
  - the cache keys;
  - the title deduplication of the keyword handler;
  - `Handle`, the function that specifies one handler run;
  - the four handlers as methods on a `TtlCache`, each proved equal to
    `Handle`.
- `RankingExample`: the worked example. The query "go rust" ranks the titles
  "Go news", "Rust update" and "Go and Rust" as "Go and Rust", "Go news",
  "Rust update".

On these edges the code behaves as follows, and the model follows it:

- **Empty query.** `''.split(' ')` is `['']`, and every string includes `''`.
  So every scorable article scores 1, and the order is kept
  (`CommonService.EmptyQueryScoresOne`, `CommonService.EmptyQueryKeepsOrder`).
- **Absent query.** With an absent `q`, `queryWords` is `undefined`. The
  comparator then throws a `TypeError` as soon as there are two articles, so
  the handler answers 500 (`CommonService.RankFails`).
- **Word splitting.** Query words are split on a single space. Two spaces in
  a row give an empty word, which matches every article.
- **Keyword merge.** The three `SortArticles` calls of the keyword handler
  sort one array in place and return it. The three spread operands are
  therefore the same array, in its content-sorted order. The merged answer is
  the title deduplication of that array (`Controller.UniqueByTitleTriple`,
  `Controller.KeywordOrder`).

The model's own choice of expiry: an entry is visible while
`now - insertedAt < 300` and is absent from exactly `insertedAt + 300` on
(see "## Left out" for how node-cache differs at that instant).

## Model

| member | source | states |
|---|---|---|
| Js.Split | src/services/common_service.js:11 | `split` on one character never yields an empty list, and no piece contains the separator |
| Js.JoinSplit | src/services/common_service.js:11 | joining the pieces of a split with the separator gives the original string back |
| Js.SplitJoin | src/services/common_service.js:31 | splitting a join of separator-free pieces gives the pieces back |
| Js.SplitNoSeparator | src/services/common_service.js:31 | a string without the separator splits into itself alone |
| Js.IncludesEmpty | src/services/common_service.js:23-24 | every string, the empty one included, includes the empty word |
| ArraySort.InsertionSortDesc | src/services/common_service.js:15-27 | the in-place sort leaves the array equal to `SortDesc` of its old contents |
| ArraySort.InsertAt | src/services/common_service.js:15-27 | one insertion step: the prefix up to `i` becomes the old prefix with the element inserted after every key at least as large; the rest of the array is unchanged |
| ArraySort.SortDescPermutes | src/services/common_service.js:15-27 | the sort keeps the length and the multiset of elements |
| ArraySort.SortDescSorted | src/services/common_service.js:15-27 | the sort output has non-increasing keys, as the comparator `b - a` asks |
| ArraySort.SortDescStable | src/services/common_service.js:15-27 | elements with equal keys keep their relative order |
| ArraySort.SortDescAllEqual | src/services/common_service.js:15-27 | when all keys are equal the sort changes nothing |
| ArraySort.ThreeSortsLexicographic | src/routes/articles/controller.js:97-99 | three stable sorts by k1, k2, k3: ordered by k3, then k2 within a k3 class, then k1, and equal-on-all elements in input order |
| CommonService.QueryWords | src/services/common_service.js:11 | a present query yields at least one word and no word contains a space |
| CommonService.FieldText | src/services/common_service.js:20-21 | a falsy value reads as '', a string reads lower-cased, and any other truthy value throws |
| CommonService.MatchCount | src/services/common_service.js:23-24 | the match count never exceeds the number of query words |
| CommonService.Score | src/services/common_service.js:17-24 | an article can be scored exactly when reading its field does not throw |
| CommonService.Walk | src/services/common_service.js:31-33 | the `reduce((acc, part) => acc && acc[part], obj)` step by step; `CommonService.WalkFalsy` states that a falsy value is carried to the end |
| CommonService.GetNestedValue | src/services/common_service.js:30-34 | `getNestedValue`: split the path on '.' and walk it; its meaning is stated by `CommonService.NestedLookup`, `CommonService.DirectLookupIsNested` and `CommonService.MissingParentScoresZero` |
| CommonService.FieldValue | src/services/common_service.js:13-18 | the field read by the comparator: nested lookup when the field contains '.', direct property otherwise; `CommonService.DirectLookupIsNested` shows the two agree on dot-free fields and `CommonService.NestedLookup` gives the two-segment case |
| CommonService.Rank | src/services/common_service.js:10-28 | the value-level result of one `SortArticles` call: the stable descending sort by match count, or the `TypeError`; its meaning is stated by `RankPermutes`, `RankOrdered`, `RankStable`, `RankFails`, `RankEqualScores` and `EmptyQueryKeepsOrder`, and `SortArticles` is proved against it |
| CommonService.SortArticles | src/services/common_service.js:10-28 | on success, returns the caller's array, sorted in place to `Rank`'s order; on a `TypeError`, the array is as it was |
| CommonService.MatchCountAppend | src/services/common_service.js:23-24 | match counts add up over concatenated word lists, duplicates counted twice |
| CommonService.MatchCountPermutation | src/services/common_service.js:23-24 | the order of the query words does not change the count |
| CommonService.MatchCountInEmpty | src/services/common_service.js:20-24 | against '' no non-empty word matches |
| CommonService.EmptyQueryScoresOne | src/services/common_service.js:11 | the empty query is one empty word, and every scorable article scores 1 |
| CommonService.WalkFalsy | src/services/common_service.js:30-34 | once the walk reaches a falsy value, the rest of the path leaves it unchanged |
| CommonService.DirectLookupIsNested | src/services/common_service.js:13-18 | for a field without a dot, the direct lookup equals the nested lookup |
| CommonService.NestedLookup | src/services/common_service.js:30-34 | `parent.child` reads `a[parent][child]` when `a[parent]` is truthy, otherwise `a[parent]` itself |
| CommonService.MissingParentScoresZero | src/services/common_service.js:17-24 | a missing or falsy parent of a nested field reads as '', scores 0 against non-empty words, and never throws |
| CommonService.RankPermutes | src/services/common_service.js:15-27 | a successful ranking is a permutation of the input |
| CommonService.RankOrdered | src/services/common_service.js:15-27 | a successful ranking orders the articles by non-increasing match count; every article was scorable |
| CommonService.RankStable | src/services/common_service.js:15-27 | articles with the same match count keep their upstream order |
| CommonService.RankFails | src/services/common_service.js:10-28 | the sort throws exactly when it has two or more articles and the query is absent or some field is truthy but not a string |
| CommonService.RankEqualScores | src/services/common_service.js:15-27 | when every article scores the same (and, with two or more articles, none throws), the order is unchanged |
| CommonService.EmptyQueryKeepsOrder | src/services/common_service.js:11-27 | the empty query keeps the upstream order, for fewer than two articles or when no field throws |
| CacheService.Lookup | src/services/cache_service.js:14-16 | what `cache.get(key)` observes at time `now`; its meaning is stated by `SaveThenFetch`, `NeverSavedIsAbsent`, `SaveIsolated` and `UniformTtl`, and `TtlCache.Fetch` is proved equal to it |
| CacheService.Store | src/services/cache_service.js:18-20 | the entries after `cache.set(key, data)` at time `now`; its meaning is stated by `SaveThenFetch`, `SaveIsolated` and `SaveOverwrites`, and `TtlCache.Save` is proved equal to it |
| CacheService.TtlCache.constructor | src/services/cache_service.js:12 | the cache starts empty |
| CacheService.TtlCache.Fetch | src/services/cache_service.js:14-16 | a read returns the live value for the key and changes nothing |
| CacheService.TtlCache.Save | src/services/cache_service.js:18-20 | a write inserts or overwrites the key's entry, stamped with `now`, and changes no other entry |
| CacheService.SaveThenFetch | src/services/cache_service.js:12-20 | a saved value is read back for 300 seconds and is absent from then on |
| CacheService.NeverSavedIsAbsent | src/services/cache_service.js:14-16 | a key never saved is never found |
| CacheService.SaveIsolated | src/services/cache_service.js:18-20 | saving one key leaves what every other key reads unchanged |
| CacheService.SaveOverwrites | src/services/cache_service.js:18-20 | a second save of a key replaces the first value and restarts its window |
| CacheService.UniformTtl | src/services/cache_service.js:12 | an entry found now stays visible at every later time before its 300 seconds end |
| Controller.FetchArticles | src/services/news_service.js:22-37 | the upstream articles, or an `Error` whose message is always "Error fetching articles", whatever the failure |
| Controller.GeneralRequest | src/routes/articles/controller.js:27 | the upstream request of `getArticles`: the query, and `max` passed through or the default 10 of news_service.js:22; `Controller.GetArticles` is proved to send it |
| Controller.ArticlesKey | src/routes/articles/controller.js:20 | the key `articles_${query}_${max}`; `KeyNamespacesDisjoint` and `ArticlesKeyNotInjective` state its properties |
| Controller.TitleKey | src/routes/articles/controller.js:42 | the key `title_${q}`; `KeyNamespacesDisjoint`, `FieldKeysInjective` and `AbsentQueryKeyCollides` state its properties |
| Controller.AuthorKey | src/routes/articles/controller.js:65 | the key `author_${q}`; `KeyNamespacesDisjoint`, `FieldKeysInjective` and `AbsentQueryKeyCollides` state its properties |
| Controller.KeywordKey | src/routes/articles/controller.js:89 | the key `keyword_${q}`; `KeyNamespacesDisjoint`, `FieldKeysInjective` and `AbsentQueryKeyCollides` state its properties |
| Controller.KeyNamespacesDisjoint | src/routes/articles/controller.js:20-89 | keys of different handlers never collide, whatever the parameters |
| Controller.FieldKeysInjective | src/routes/articles/controller.js:42-89 | distinct present queries get distinct title, author and keyword keys |
| Controller.AbsentQueryKeyCollides | src/routes/articles/controller.js:42 | an absent `q` shares its key with the literal query "undefined" |
| Controller.ArticlesKeyNotInjective | src/routes/articles/controller.js:20 | the general key is not injective: an underscore can move between query and max |
| Controller.Titles | src/routes/articles/controller.js:103 | one title per article, position by position |
| Controller.FirstIndex | src/routes/articles/controller.js:104 | the index of the first article with the title, or the length when there is none |
| Controller.NewDistinct | src/routes/articles/controller.js:103 | `Array.from(new Set(titles))`: each title once, in first-insertion order; `NewDistinctAvoidsSeen` and `UniqueByTitleAsWrittenAgrees` state its meaning |
| Controller.FindByTitle | src/routes/articles/controller.js:104 | `combinedArticles.find(a => a.title === title)`: the article at `FirstIndex`, or none |
| Controller.UniqueByTitleAsWritten | src/routes/articles/controller.js:103-104 | lines 103-104 as written; `UniqueByTitleAsWrittenAgrees` proves it finds an article for every title and equals `UniqueByTitle` |
| Controller.UniqueByTitle | src/routes/articles/controller.js:103-104 | the first article of each distinct title in first-occurrence order, as stated by `UniqueByTitleFacts` and `UniqueByTitleTriple` |
| Controller.UniqueByTitleAsWrittenAgrees | src/routes/articles/controller.js:103-104 | the Set-then-find code finds an article for every distinct title and equals a single first-occurrence pass |
| Controller.UniqueByTitleFacts | src/routes/articles/controller.js:103-104 | deduplicated titles are pairwise distinct; every input title is kept; each kept article is the first with its title, in first-occurrence order |
| Controller.UniqueByTitleTriple | src/routes/articles/controller.js:101-104 | deduplicating one array spread three times equals deduplicating the array once |
| Controller.KeywordSorted | src/routes/articles/controller.js:97-99 | the three `SortArticles` calls on the one array, by title, then description, then content, stopping at the first `TypeError`; `KeywordOrder` states the resulting order |
| Controller.Process | src/routes/articles/controller.js:50-104 | the ranking step of each handler: none for `getArticles`, one `Rank` for title (line 50) and author (line 73), and `KeywordSorted` then title deduplication for keyword (lines 97-104); the handler methods are proved against `Handle`, which uses it |
| Controller.KeywordOrder | src/routes/articles/controller.js:97-99 | whenever the three sorts succeed, the articles are ordered by content score, then description, then title, with full ties in upstream order |
| Controller.Handle | src/routes/articles/controller.js:18-111 | a hit answers the cached value without calling upstream or changing the cache; a miss calls upstream with the handler's request; on a miss a failed fetch answers 500 with `Error fetching articles`, and fetched articles answer the handler's ranking of them (`Process`) or the 500 its `TypeError` gives; a 500 stores nothing; a fetched answer is stored under the key |
| Controller.GeneralMissAnswersUpstream | src/routes/articles/controller.js:27-29 | on a miss, `getArticles` answers the upstream articles exactly as fetched, unranked |
| Controller.RepeatServedFromCache | src/routes/articles/controller.js:21-28 | within 300 seconds of a successful miss, the same request gets the same body from the cache, with no upstream call |
| Controller.FailureRetried | src/routes/articles/controller.js:30-32 | after a 500 the same request calls upstream again |
| Controller.GetArticles | src/routes/articles/controller.js:18-33 | the general handler behaves as `Handle` with key `articles_<query>_<max>`, max passed through or 10, and no ranking |
| Controller.FetchRankedBy | src/routes/articles/controller.js:40-79 | the title and author handlers behave as `Handle` with one in-place `SortArticles` on the fetched array |
| Controller.FetchByTitle | src/routes/articles/controller.js:40-56 | `fetchByTitle` behaves as `Handle` with key `title_<q>`, ranking by `title` |
| Controller.FetchByAuthor | src/routes/articles/controller.js:63-79 | `fetchByAuthor` behaves as `Handle` with key `author_<q>`, ranking by `source.name` |
| Controller.FetchByKeyword | src/routes/articles/controller.js:87-111 | `fetchByKeyword` (three in-place sorts of one array, spread three times, deduplicated by the Set-then-`find` of lines 103-104) behaves as `Handle` with key `keyword_<q>` and the deduplicated three-key ranking |
| RankingExample.GoRustWords | src/services/common_service.js:11 | "go rust" yields the words "go" and "rust" |
| RankingExample.RankThree | src/services/common_service.js:15-27 | three scorable articles of which only the last has the top score: it moves first and the tied two keep their order |
| RankingExample.TitleRankingExample | src/services/common_service.js:10-28 | ranking "Go news", "Rust update", "Go and Rust" by title for "go rust" gives "Go and Rust", "Go news", "Rust update" |

## Left out

- Network access to the upstream search is left out: the HTTP call, its parameters `lang` and `token`, and the API key and base URL. The upstream search is a function parameter. `Fetched` is either an array of articles or a failure.
- An upstream body without an `articles` array is not modelled. With such a body, `getArticles` would cache `undefined`, and the ranking handlers would throw.
- Express routing, the server, environment loading and the `console.error` logging are not part of this model.
- The handlers are modelled as atomic. Interleavings of concurrent requests across the `await` are not modelled.
- The wall clock is an explicit `now` in whole seconds. node-cache measures milliseconds and keeps an entry up to and including its expiry instant. The model expires it at `insertedAt + 300` exactly.
- node-cache's internals are not modelled: value cloning on get and set, the periodic `checkperiod` sweep, statistics and the key limit. Values here are immutable, so cloning is not observable.
- Js.ToLowerCase: lower-cases ASCII letters only. Unicode case mapping is not modelled.
- Js.Value: objects are compared by content. In `a.title === title` and in the `Set` of titles, JavaScript compares object titles by identity and treats `NaN` specially. The model treats equal-looking object titles as one title, and it has no floating-point numbers.
- Query parameters that arrive as arrays (a repeated `q`) are not modelled. A query is absent or a string.
- Js.Get: the model reads no property of a primitive. JavaScript would return a string's characters at index keys, its `length`, and prototype members. The only nested field the handlers read is `source.name`, and `name` is none of these.
- CommonService.NestedLookup: it follows `Js.Get`. It differs from JavaScript when `a[parent]` is a string and the child is an index, `length` or a prototype member.
- Articles are JSON objects. An upstream array holding `null` or a primitive article is not modelled.
- CommonService.SortArticles: on a `TypeError` the model leaves the array as it was. A real engine may have partly reordered it before the comparator threw. No handler reads the array after the exception, so the difference is not observable.
- The text of an engine's `TypeError` message is not modelled, only that a `TypeError` is thrown. `Error(message)` carries the program's own message.
