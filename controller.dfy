/** The article handlers of `src/routes/articles/controller.js`. Each one
    builds a cache key, answers from the cache on a hit, and otherwise asks the
    upstream news search, optionally ranks the result, stores it under the
    key and answers with it; any exception becomes a 500 answer and stores
    nothing. The upstream search is a function parameter, `now` is the
    clock, and the cache is passed in explicitly. */
module Controller {
  import opened Wrappers
  import opened Js
  import opened CommonService
  import opened CacheService
  import ArraySort

  // ---------------------------------------------------------------------
  // Upstream search (src/services/news_service.js)

  /** The `max` sent upstream: the number 10 by default, or the raw query
      parameter of the general search. */
  datatype MaxResults = Count(n: nat) | Raw(text: string)

  /** `fetchArticles(query, maxResults = 10)` */
  const DefaultMax: nat := 10

  /** One request to the upstream search endpoint. */
  datatype SearchRequest = Search(term: Option<string>, max: MaxResults)

  /** What the upstream search does with a request: articles, or a failure of
      any kind (network, status, malformed body). */
  datatype Fetched = Articles(items: seq<Article>) | Failed

  /** The message every upstream failure is rethrown with. */
  const FetchErrorMessage: string := "Error fetching articles"

  /** `NewsService.fetchArticles`: the articles, or an `Error` with the fixed
      message whatever went wrong. */
  function FetchArticles(upstream: SearchRequest -> Fetched, req: SearchRequest): (r: Result<seq<Article>, Exception>)
    ensures r.Err? <==> upstream(req).Failed?
    ensures r.Err? ==> r.error == Error(FetchErrorMessage)
    ensures r.Ok? ==> r.value == upstream(req).items
  {
    match upstream(req)
    case Articles(items) => Ok(items)
    case Failed => Err(Error(FetchErrorMessage))
  }

  /** The request `getArticles` makes: `max` passed through, 10 when absent. */
  function GeneralRequest(query: Option<string>, max: Option<string>): SearchRequest
  {
    Search(query, if max.None? then Count(DefaultMax) else Raw(max.value))
  }

  // ---------------------------------------------------------------------
  // Cache keys

  /** `${v}` for a query parameter: its text, or "undefined" when absent. */
  function Render(v: Option<string>): string
  {
    match v
    case Some(s) => s
    case None => "undefined"
  }

  function ArticlesKey(query: Option<string>, max: Option<string>): string
  {
    "articles_" + Render(query) + "_" + Render(max)
  }

  function TitleKey(q: Option<string>): string { "title_" + Render(q) }

  function AuthorKey(q: Option<string>): string { "author_" + Render(q) }

  function KeywordKey(q: Option<string>): string { "keyword_" + Render(q) }

  /** A key with prefix `p` cannot equal a key with prefix `p'` when the two
      prefixes differ at an index both reach. */
  lemma PrefixesDiffer(p: string, x: string, p': string, y: string, i: nat)
    requires i < |p| && i < |p'| && p[i] != p'[i]
    ensures p + x != p' + y
  {
    assert (p + x)[i] == p[i] && (p' + y)[i] == p'[i];
  }

  /** Keys built by different handlers never collide, whatever the query
      parameters: the four prefixes differ within their common length. */
  lemma KeyNamespacesDisjoint(query: Option<string>, max: Option<string>, q1: Option<string>, q2: Option<string>)
    ensures ArticlesKey(query, max) != TitleKey(q1)
    ensures ArticlesKey(query, max) != AuthorKey(q1)
    ensures ArticlesKey(query, max) != KeywordKey(q1)
    ensures TitleKey(q1) != AuthorKey(q2)
    ensures TitleKey(q1) != KeywordKey(q2)
    ensures AuthorKey(q1) != KeywordKey(q2)
  {
    var rest := Render(query) + "_" + Render(max);
    assert ArticlesKey(query, max) == "articles_" + rest;
    PrefixesDiffer("articles_", rest, "title_", Render(q1), 0);
    PrefixesDiffer("articles_", rest, "author_", Render(q1), 1);
    PrefixesDiffer("articles_", rest, "keyword_", Render(q1), 0);
    PrefixesDiffer("title_", Render(q1), "author_", Render(q2), 0);
    PrefixesDiffer("title_", Render(q1), "keyword_", Render(q2), 0);
    PrefixesDiffer("author_", Render(q1), "keyword_", Render(q2), 0);
  }

  /** Distinct present queries get distinct title, author and keyword keys. */
  lemma {:induction false} FieldKeysInjective(a: string, b: string)
    requires a != b
    ensures TitleKey(Some(a)) != TitleKey(Some(b))
    ensures AuthorKey(Some(a)) != AuthorKey(Some(b))
    ensures KeywordKey(Some(a)) != KeywordKey(Some(b))
  {
    assert TitleKey(Some(a))[|"title_"|..] == a && TitleKey(Some(b))[|"title_"|..] == b;
    assert AuthorKey(Some(a))[|"author_"|..] == a && AuthorKey(Some(b))[|"author_"|..] == b;
    assert KeywordKey(Some(a))[|"keyword_"|..] == a && KeywordKey(Some(b))[|"keyword_"|..] == b;
  }

  /** An absent `q` and the literal query "undefined" share one key. */
  lemma AbsentQueryKeyCollides()
    ensures TitleKey(None) == TitleKey(Some("undefined"))
    ensures AuthorKey(None) == AuthorKey(Some("undefined"))
    ensures KeywordKey(None) == KeywordKey(Some("undefined"))
  {
  }

  /** The general key is a plain concatenation and is not injective: an
      underscore can move between the query and `max`. */
  lemma ArticlesKeyNotInjective()
    ensures ArticlesKey(Some("a_b"), Some("c")) == ArticlesKey(Some("a"), Some("b_c"))
  {
  }

  // ---------------------------------------------------------------------
  // Title deduplication (lines 101-104)

  /** `a.title` */
  function TitleOf(a: Article): Value
  {
    Get(Obj(a), "title")
  }

  /** `articles.map(a => a.title)` */
  function Titles(s: seq<Article>): (r: seq<Value>)
    ensures |r| == |s|
    ensures forall i :: 0 <= i < |s| ==> r[i] == TitleOf(s[i])
  {
    if s == [] then [] else [TitleOf(s[0])] + Titles(s[1..])
  }

  /** `Array.from(new Set(values))` with the values of `seen` already in the
      set: each new value once, in order of first insertion. */
  function NewDistinct(seen: set<Value>, values: seq<Value>): seq<Value>
    decreases values
  {
    if values == [] then []
    else if values[0] in seen then NewDistinct(seen, values[1..])
    else [values[0]] + NewDistinct(seen + {values[0]}, values[1..])
  }

  /** The index of the first article carrying `title`, or `|s|` if none. */
  function FirstIndex(s: seq<Article>, title: Value): (r: nat)
    ensures r <= |s|
    ensures r < |s| ==> TitleOf(s[r]) == title
    ensures forall j :: 0 <= j < r ==> TitleOf(s[j]) != title
  {
    if s == [] then 0
    else if TitleOf(s[0]) == title then 0
    else 1 + FirstIndex(s[1..], title)
  }

  /** `s.find(a => a.title === title)` */
  function FindByTitle(s: seq<Article>, title: Value): Option<Article>
  {
    var i := FirstIndex(s, title);
    if i < |s| then Some(s[i]) else None
  }

  /** `titles.map(title => s.find(a => a.title === title))` */
  function FindAll(s: seq<Article>, titles: seq<Value>): seq<Option<Article>>
  {
    if titles == [] then [] else [FindByTitle(s, titles[0])] + FindAll(s, titles[1..])
  }

  /** Lines 103-104 as written: the distinct titles, each mapped back to the
      first article carrying it. */
  function UniqueByTitleAsWritten(s: seq<Article>): seq<Option<Article>>
  {
    FindAll(s, NewDistinct({}, Titles(s)))
  }

  /** One forward pass that keeps an article when its title has not been seen. */
  function UniqueByTitleFrom(seen: set<Value>, s: seq<Article>): seq<Article>
    decreases s
  {
    if s == [] then []
    else if TitleOf(s[0]) in seen then UniqueByTitleFrom(seen, s[1..])
    else [s[0]] + UniqueByTitleFrom(seen + {TitleOf(s[0])}, s[1..])
  }

  /** The first article of each distinct title, in order of first occurrence. */
  function UniqueByTitle(s: seq<Article>): seq<Article>
  {
    UniqueByTitleFrom({}, s)
  }

  /** Each value wrapped as found. */
  function AllFound(s: seq<Article>): (r: seq<Option<Article>>)
    ensures |r| == |s| && forall i :: 0 <= i < |s| ==> r[i] == Some(s[i])
  {
    if s == [] then [] else [Some(s[0])] + AllFound(s[1..])
  }

  /** The articles of a list of `find` results that all found one. */
  function FoundArticles(found: seq<Option<Article>>): (r: seq<Article>)
    requires forall i :: 0 <= i < |found| ==> found[i].Some?
    ensures |r| == |found| && forall i :: 0 <= i < |r| ==> found[i] == Some(r[i])
  {
    seq(|found|, i requires 0 <= i < |found| => found[i].value)
  }

  lemma FoundArticlesAllFound(u: seq<Article>)
    ensures FoundArticles(AllFound(u)) == u
  {
  }

  lemma {:induction false} FindAllSkipsHead(s: seq<Article>, titles: seq<Value>)
    requires s != []
    requires TitleOf(s[0]) !in titles
    ensures FindAll(s, titles) == FindAll(s[1..], titles)
  {
    if titles != [] {
      assert titles[0] in titles;
      assert forall t :: t in titles[1..] ==> t in titles;
      FindAllSkipsHead(s, titles[1..]);
    }
  }

  lemma {:induction false} NewDistinctAvoidsSeen(seen: set<Value>, values: seq<Value>)
    ensures forall t :: t in NewDistinct(seen, values) ==> t !in seen
    decreases values
  {
    if values != [] {
      NewDistinctAvoidsSeen(seen, values[1..]);
      NewDistinctAvoidsSeen(seen + {values[0]}, values[1..]);
    }
  }

  lemma {:induction false} AsWrittenFrom(seen: set<Value>, s: seq<Article>)
    ensures FindAll(s, NewDistinct(seen, Titles(s))) == AllFound(UniqueByTitleFrom(seen, s))
    decreases s
  {
    if s != [] {
      var x := s[0];
      assert Titles(s) == [TitleOf(x)] + Titles(s[1..]);
      if TitleOf(x) in seen {
        NewDistinctAvoidsSeen(seen, Titles(s[1..]));
        FindAllSkipsHead(s, NewDistinct(seen, Titles(s[1..])));
        AsWrittenFrom(seen, s[1..]);
      } else {
        var seen' := seen + {TitleOf(x)};
        var rest := NewDistinct(seen', Titles(s[1..]));
        NewDistinctAvoidsSeen(seen', Titles(s[1..]));
        FindAllSkipsHead(s, rest);
        AsWrittenFrom(seen', s[1..]);
        assert FindByTitle(s, TitleOf(x)) == Some(x);
        assert AllFound(UniqueByTitleFrom(seen, s)) == [Some(x)] + AllFound(UniqueByTitleFrom(seen', s[1..]));
      }
    }
  }

  /** The set-and-find formulation of lines 103-104 finds an article for
      every title and agrees with the single forward pass. */
  lemma UniqueByTitleAsWrittenAgrees(s: seq<Article>)
    ensures UniqueByTitleAsWritten(s) == AllFound(UniqueByTitle(s))
  {
    AsWrittenFrom({}, s);
  }

  /** No two articles of `u` share a title, and none has a title in `seen`. */
  ghost predicate NewDistinctTitles(u: seq<Article>, seen: set<Value>)
  {
    && (forall i :: 0 <= i < |u| ==> TitleOf(u[i]) !in seen)
    && (forall i, j :: 0 <= i < j < |u| ==> TitleOf(u[i]) != TitleOf(u[j]))
  }

  /** Every title of `s` is in `seen` or carried by some article of `u`. */
  ghost predicate CoversTitles(s: seq<Article>, u: seq<Article>, seen: set<Value>)
  {
    forall i :: 0 <= i < |s| ==> TitleOf(s[i]) in seen || TitleOf(s[i]) in Titles(u)
  }

  /** Each article of `u` is the first of `s` with its title. */
  ghost predicate FirstWithTitle(s: seq<Article>, u: seq<Article>)
  {
    forall i :: 0 <= i < |u| ==> FindByTitle(s, TitleOf(u[i])) == Some(u[i])
  }

  /** `u` follows the order of first occurrence in `s` of its titles. */
  ghost predicate InFirstOccurrenceOrder(s: seq<Article>, u: seq<Article>)
  {
    forall i, j :: 0 <= i < j < |u| ==> FirstIndex(s, TitleOf(u[i])) < FirstIndex(s, TitleOf(u[j]))
  }

  /** Putting an article with a fresh title in front keeps titles distinct. */
  lemma DistinctCons(x: Article, u: seq<Article>, seen: set<Value>)
    requires TitleOf(x) !in seen
    requires NewDistinctTitles(u, seen + {TitleOf(x)})
    ensures NewDistinctTitles([x] + u, seen)
  {
    var v := [x] + u;
    forall i | 0 < i < |v| ensures TitleOf(v[i]) !in seen + {TitleOf(x)} {
      assert v[i] == u[i - 1];
    }
    forall i, j | 0 <= i < j < |v| ensures TitleOf(v[i]) != TitleOf(v[j]) {
      if i > 0 {
        assert v[i] == u[i - 1] && v[j] == u[j - 1];
      }
    }
  }

  lemma {:induction false} UniqueFromDistinct(seen: set<Value>, s: seq<Article>)
    ensures NewDistinctTitles(UniqueByTitleFrom(seen, s), seen)
    decreases s
  {
    if s != [] {
      var t := TitleOf(s[0]);
      if t in seen {
        UniqueFromDistinct(seen, s[1..]);
      } else {
        UniqueFromDistinct(seen + {t}, s[1..]);
        DistinctCons(s[0], UniqueByTitleFrom(seen + {t}, s[1..]), seen);
      }
    }
  }

  lemma {:induction false} UniqueFromCovers(seen: set<Value>, s: seq<Article>)
    ensures CoversTitles(s, UniqueByTitleFrom(seen, s), seen)
    decreases s
  {
    if s != [] {
      var t := TitleOf(s[0]);
      var seen' := if t in seen then seen else seen + {t};
      UniqueFromCovers(seen', s[1..]);
      var u' := UniqueByTitleFrom(seen', s[1..]);
      var u := UniqueByTitleFrom(seen, s);
      if t !in seen {
        assert Titles(u) == [t] + Titles(u');
      }
      forall i | 0 <= i < |s| ensures TitleOf(s[i]) in seen || TitleOf(s[i]) in Titles(u) {
        if i > 0 { assert s[i] == s[1..][i - 1]; }
      }
    }
  }

  /** Past a head with another title, the search moves one place right. */
  lemma FirstIndexTail(s: seq<Article>, title: Value)
    requires s != [] && TitleOf(s[0]) != title
    ensures FirstIndex(s, title) == 1 + FirstIndex(s[1..], title)
    ensures FindByTitle(s, title) == FindByTitle(s[1..], title)
  {
    var k := FirstIndex(s[1..], title);
    if k < |s[1..]| {
      assert s[1 + k] == s[1..][k];
    }
  }

  lemma {:induction false} UniqueFromFirstWithTitle(seen: set<Value>, s: seq<Article>)
    ensures FirstWithTitle(s, UniqueByTitleFrom(seen, s))
    decreases s
  {
    if s != [] {
      var t := TitleOf(s[0]);
      var seen' := if t in seen then seen else seen + {t};
      UniqueFromFirstWithTitle(seen', s[1..]);
      UniqueFromDistinct(seen', s[1..]);
      var u' := UniqueByTitleFrom(seen', s[1..]);
      var u := UniqueByTitleFrom(seen, s);
      assert u == if t in seen then u' else [s[0]] + u';
      forall i | 0 <= i < |u| ensures FindByTitle(s, TitleOf(u[i])) == Some(u[i]) {
        if t in seen || i > 0 {
          var k := if t in seen then i else i - 1;
          assert u[i] == u'[k];
          FirstIndexTail(s, TitleOf(u'[k]));
        }
      }
    }
  }

  /** An order of first occurrence in the tail of `s` is one in `s` too,
      when no title is the head's. */
  lemma FirstOrderShift(s: seq<Article>, u: seq<Article>)
    requires s != []
    requires InFirstOccurrenceOrder(s[1..], u)
    requires forall k :: 0 <= k < |u| ==> TitleOf(u[k]) != TitleOf(s[0])
    ensures InFirstOccurrenceOrder(s, u)
    ensures forall k :: 0 <= k < |u| ==> FirstIndex(s, TitleOf(u[k])) > 0
  {
    forall k | 0 <= k < |u|
      ensures FirstIndex(s, TitleOf(u[k])) == 1 + FirstIndex(s[1..], TitleOf(u[k]))
    {
      FirstIndexTail(s, TitleOf(u[k]));
    }
  }

  lemma {:induction false} UniqueFromFirstOrder(seen: set<Value>, s: seq<Article>)
    ensures InFirstOccurrenceOrder(s, UniqueByTitleFrom(seen, s))
    decreases s
  {
    if s != [] {
      var t := TitleOf(s[0]);
      if t in seen {
        var u := UniqueByTitleFrom(seen, s[1..]);
        UniqueFromFirstOrder(seen, s[1..]);
        UniqueFromDistinct(seen, s[1..]);
        FirstOrderShift(s, u);
      } else {
        var u' := UniqueByTitleFrom(seen + {t}, s[1..]);
        UniqueFromFirstOrder(seen + {t}, s[1..]);
        UniqueFromDistinct(seen + {t}, s[1..]);
        assert forall k :: 0 <= k < |u'| ==> TitleOf(u'[k]) !in seen + {t};
        FirstOrderShift(s, u');
        var u := [s[0]] + u';
        assert UniqueByTitleFrom(seen, s) == u;
        assert FirstIndex(s, t) == 0;
        forall i, j | 0 <= i < j < |u| ensures FirstIndex(s, TitleOf(u[i])) < FirstIndex(s, TitleOf(u[j])) {
          if i > 0 { assert u[i] == u'[i - 1]; }
          assert u[j] == u'[j - 1];
        }
      }
    }
  }

  /** What lines 103-104 produce: titles pairwise distinct; every input title
      present; each output article the first input article with its title;
      output in order of first occurrence. */
  lemma UniqueByTitleFacts(s: seq<Article>)
    ensures NewDistinctTitles(UniqueByTitle(s), {})
    ensures CoversTitles(s, UniqueByTitle(s), {})
    ensures FirstWithTitle(s, UniqueByTitle(s))
    ensures InFirstOccurrenceOrder(s, UniqueByTitle(s))
  {
    UniqueFromDistinct({}, s);
    UniqueFromCovers({}, s);
    UniqueFromFirstWithTitle({}, s);
    UniqueFromFirstOrder({}, s);
  }

  lemma {:induction false} UniqueFromAllSeen(seen: set<Value>, b: seq<Article>)
    requires forall i :: 0 <= i < |b| ==> TitleOf(b[i]) in seen
    ensures UniqueByTitleFrom(seen, b) == []
  {
    if b != [] {
      assert TitleOf(b[0]) in seen;
      UniqueFromAllSeen(seen, b[1..]);
    }
  }

  /** Appending articles whose titles already occurred changes nothing. */
  lemma {:induction false} UniqueFromAppendSeen(seen: set<Value>, a: seq<Article>, b: seq<Article>)
    requires forall i :: 0 <= i < |b| ==> TitleOf(b[i]) in seen || TitleOf(b[i]) in Titles(a)
    ensures UniqueByTitleFrom(seen, a + b) == UniqueByTitleFrom(seen, a)
    decreases a
  {
    if a == [] {
      assert a + b == b;
      UniqueFromAllSeen(seen, b);
    } else {
      var t := TitleOf(a[0]);
      assert (a + b)[0] == a[0] && (a + b)[1..] == a[1..] + b;
      assert Titles(a) == [t] + Titles(a[1..]);
      if t in seen {
        UniqueFromAppendSeen(seen, a[1..], b);
      } else {
        UniqueFromAppendSeen(seen + {t}, a[1..], b);
      }
    }
  }

  /** Deduplicating an array spread three times gives the deduplication of
      the array itself. */
  lemma UniqueByTitleTriple(a: seq<Article>)
    ensures UniqueByTitle(a + a + a) == UniqueByTitle(a)
  {
    forall i | 0 <= i < |a + a| ensures TitleOf((a + a)[i]) in Titles(a) {
      var k := if i < |a| then i else i - |a|;
      assert (a + a)[i] == a[k];
      assert Titles(a)[k] == TitleOf(a[k]);
    }
    assert a + a + a == a + (a + a);
    UniqueFromAppendSeen({}, a, a + a);
  }

  // ---------------------------------------------------------------------
  // Ranking per handler

  /** The three in-place sorts of lines 97-99, all on the one fetched array. */
  function KeywordSorted(s: seq<Article>, q: Option<string>): Result<seq<Article>, Exception>
  {
    match Rank(s, q, "title")
    case Err(e) => Err(e)
    case Ok(r1) =>
      match Rank(r1, q, "description")
      case Err(e) => Err(e)
      case Ok(r2) => Rank(r2, q, "content")
  }

  /** After lines 97-99 the array is ordered by content score; ties by
      description score; remaining ties by title score; and articles equal on
      all three scores stay in upstream order. */
  lemma KeywordOrder(s: seq<Article>, q: string)
    requires KeywordSorted(s, Some(q)).Ok?
    ensures var r := KeywordSorted(s, Some(q)).value;
      var title := ScoreKey(QueryWords(q), "title");
      var description := ScoreKey(QueryWords(q), "description");
      var content := ScoreKey(QueryWords(q), "content");
      && ArraySort.SortedDesc(r, content)
      && (forall c :: ArraySort.SortedDesc(ArraySort.WithKey(r, content, c), description))
      && (forall c, d :: ArraySort.SortedDesc(ArraySort.WithKey(ArraySort.WithKey(r, content, c), description, d), title))
      && (forall c, d, t ::
            (ArraySort.WithKey(ArraySort.WithKey(ArraySort.WithKey(r, content, c), description, d), title, t)
             == ArraySort.WithKey(ArraySort.WithKey(ArraySort.WithKey(s, content, c), description, d), title, t)))
  {
    var words := QueryWords(q);
    if |s| < 2 {
      ArraySort.ThreeSortsLexicographic(s, ScoreKey(words, "title"), ScoreKey(words, "description"), ScoreKey(words, "content"));
      return;
    }
    var r1 := Rank(s, Some(q), "title").value;
    RankPermutes(s, Some(q), "title");
    var r2 := Rank(r1, Some(q), "description").value;
    RankPermutes(r1, Some(q), "description");
    ArraySort.ThreeSortsLexicographic(s, ScoreKey(words, "title"), ScoreKey(words, "description"), ScoreKey(words, "content"));
  }

  /** How a handler post-processes the fetched articles. */
  datatype Ranking = Unranked | ByField(field: string) | ByKeyword

  /** The ranking step of each handler, or the exception it throws. */
  function Process(ranking: Ranking, s: seq<Article>, q: Option<string>): Result<seq<Article>, Exception>
  {
    match ranking
    case Unranked => Ok(s)
    case ByField(field) => Rank(s, q, field)
    case ByKeyword =>
      match KeywordSorted(s, q)
      case Err(e) => Err(e)
      case Ok(r) => Ok(UniqueByTitle(r))
  }

  // ---------------------------------------------------------------------
  // The request pipeline

  /** `res.json(articles)` or `res.status(500).json({ message })`. */
  datatype Response = Json(body: seq<Article>) | ServerError(error: Exception)

  function StatusCode(r: Response): nat
  {
    if r.Json? then 200 else 500
  }

  /** The response, the cache afterwards and the upstream request made, if any. */
  datatype Outcome = Outcome(resp: Response, entries: map<string, Entry<seq<Article>>>, call: Option<SearchRequest>)

  /** One handler run: a live entry is answered as it is (every cached array
      is truthy, the empty one included); otherwise fetch, rank, store what
      is sent. An exception stores nothing. */
  function Handle(entries: map<string, Entry<seq<Article>>>, now: int, key: string, req: SearchRequest,
                  upstream: SearchRequest -> Fetched, ranking: Ranking, q: Option<string>): (r: Outcome)
    ensures Lookup(entries, key, now).Some? ==>
              r == Outcome(Json(Lookup(entries, key, now).value), entries, None)
    ensures Lookup(entries, key, now).None? ==> r.call == Some(req)
    ensures r.resp.ServerError? ==> r.entries == entries && StatusCode(r.resp) == 500
    ensures r.resp.Json? && r.call.Some? ==> r.entries == Store(entries, key, r.resp.body, now)
    ensures Lookup(entries, key, now).None? && upstream(req).Failed? ==>
              r.resp == ServerError(Error(FetchErrorMessage))
    ensures Lookup(entries, key, now).None? && upstream(req).Articles? ==>
              r.resp == (match Process(ranking, upstream(req).items, q)
                         case Ok(v) => Json(v)
                         case Err(e) => ServerError(e))
  {
    match Lookup(entries, key, now)
    case Some(v) => Outcome(Json(v), entries, None)
    case None =>
      match FetchArticles(upstream, req)
      case Err(e) => Outcome(ServerError(e), entries, Some(req))
      case Ok(s) =>
        match Process(ranking, s, q)
        case Err(e) => Outcome(ServerError(e), entries, Some(req))
        case Ok(r) => Outcome(Json(r), Store(entries, key, r, now), Some(req))
  }

  /** `getArticles` does not rank: on a miss it answers the upstream articles
      exactly as they came. */
  lemma GeneralMissAnswersUpstream(entries: map<string, Entry<seq<Article>>>, now: int, query: Option<string>,
                                   max: Option<string>, upstream: SearchRequest -> Fetched)
    requires Lookup(entries, ArticlesKey(query, max), now).None?
    requires upstream(GeneralRequest(query, max)).Articles?
    ensures Handle(entries, now, ArticlesKey(query, max), GeneralRequest(query, max), upstream, Unranked, query).resp
         == Json(upstream(GeneralRequest(query, max)).items)
  {
  }

  /** Read-through: within 300 seconds of a successful miss, the same request
      is answered from the cache with the same body and no upstream call. */
  lemma RepeatServedFromCache(entries: map<string, Entry<seq<Article>>>, now: int, later: int, key: string,
                              req: SearchRequest, upstream: SearchRequest -> Fetched, ranking: Ranking, q: Option<string>)
    requires now <= later < now + StdTtl
    requires Lookup(entries, key, now).None?
    requires Handle(entries, now, key, req, upstream, ranking, q).resp.Json?
    ensures var first := Handle(entries, now, key, req, upstream, ranking, q);
      Handle(first.entries, later, key, req, upstream, ranking, q) == Outcome(first.resp, first.entries, None)
  {
    var first := Handle(entries, now, key, req, upstream, ranking, q);
    SaveThenFetch(entries, key, first.resp.body, now, later);
  }

  /** After a failure the same request fetches again: the cache was not
      touched, so it still misses. */
  lemma FailureRetried(entries: map<string, Entry<seq<Article>>>, now: int, later: int, key: string,
                       req: SearchRequest, upstream: SearchRequest -> Fetched, ranking: Ranking, q: Option<string>)
    requires now <= later
    requires Handle(entries, now, key, req, upstream, ranking, q).resp.ServerError?
    ensures Handle(Handle(entries, now, key, req, upstream, ranking, q).entries, later, key, req, upstream, ranking, q).call == Some(req)
  {
  }

  /** A new array holding `s`, as the upstream response body is. */
  method NewArray(s: seq<Article>) returns (a: array<Article>)
    ensures fresh(a) && a[..] == s
  {
    a := new Article[|s|](i requires 0 <= i < |s| => s[i]);
  }

  /** `getArticles`: general search, no ranking. */
  method GetArticles(cache: TtlCache<seq<Article>>, query: Option<string>, max: Option<string>, now: int,
                     upstream: SearchRequest -> Fetched)
    returns (resp: Response, call: Option<SearchRequest>)
    modifies cache
    ensures Outcome(resp, cache.entries, call)
         == Handle(old(cache.entries), now, ArticlesKey(query, max), GeneralRequest(query, max), upstream, Unranked, query)
  {
    var key := ArticlesKey(query, max);
    var cached := cache.Fetch(key, now);
    if cached.Some? {
      return Json(cached.value), None;
    }
    var req := GeneralRequest(query, max);
    call := Some(req);
    var fetched := FetchArticles(upstream, req);
    if fetched.Err? {
      return ServerError(fetched.error), call;
    }
    cache.Save(key, fetched.value, now);
    resp := Json(fetched.value);
  }

  /** `fetchByTitle` and `fetchByAuthor`: search, then sort the fetched array
      in place by the match count of one field. */
  method FetchRankedBy(cache: TtlCache<seq<Article>>, key: string, q: Option<string>, field: string, now: int,
                       upstream: SearchRequest -> Fetched)
    returns (resp: Response, call: Option<SearchRequest>)
    modifies cache
    ensures Outcome(resp, cache.entries, call)
         == Handle(old(cache.entries), now, key, Search(q, Count(DefaultMax)), upstream, ByField(field), q)
  {
    var cached := cache.Fetch(key, now);
    if cached.Some? {
      return Json(cached.value), None;
    }
    var req := Search(q, Count(DefaultMax));
    call := Some(req);
    var fetched := FetchArticles(upstream, req);
    if fetched.Err? {
      return ServerError(fetched.error), call;
    }
    var articles := NewArray(fetched.value);
    var sorted := SortArticles(articles, q, field);
    if sorted.Err? {
      return ServerError(sorted.error), call;
    }
    var result := sorted.value[..];
    cache.Save(key, result, now);
    resp := Json(result);
  }

  /** `fetchByTitle` */
  method FetchByTitle(cache: TtlCache<seq<Article>>, q: Option<string>, now: int, upstream: SearchRequest -> Fetched)
    returns (resp: Response, call: Option<SearchRequest>)
    modifies cache
    ensures Outcome(resp, cache.entries, call)
         == Handle(old(cache.entries), now, TitleKey(q), Search(q, Count(DefaultMax)), upstream, ByField("title"), q)
  {
    resp, call := FetchRankedBy(cache, TitleKey(q), q, "title", now, upstream);
  }

  /** `fetchByAuthor`: ranked by the nested field `source.name`. */
  method FetchByAuthor(cache: TtlCache<seq<Article>>, q: Option<string>, now: int, upstream: SearchRequest -> Fetched)
    returns (resp: Response, call: Option<SearchRequest>)
    modifies cache
    ensures Outcome(resp, cache.entries, call)
         == Handle(old(cache.entries), now, AuthorKey(q), Search(q, Count(DefaultMax)), upstream, ByField("source.name"), q)
  {
    resp, call := FetchRankedBy(cache, AuthorKey(q), q, "source.name", now, upstream);
  }

  /** `fetchByKeyword`: one fetched array sorted three times in place, spread
      three times, and deduplicated by title. */
  method FetchByKeyword(cache: TtlCache<seq<Article>>, q: Option<string>, now: int, upstream: SearchRequest -> Fetched)
    returns (resp: Response, call: Option<SearchRequest>)
    modifies cache
    ensures Outcome(resp, cache.entries, call)
         == Handle(old(cache.entries), now, KeywordKey(q), Search(q, Count(DefaultMax)), upstream, ByKeyword, q)
  {
    var key := KeywordKey(q);
    var cached := cache.Fetch(key, now);
    if cached.Some? {
      return Json(cached.value), None;
    }
    var req := Search(q, Count(DefaultMax));
    call := Some(req);
    var fetched := FetchArticles(upstream, req);
    if fetched.Err? {
      return ServerError(fetched.error), call;
    }
    var articles := NewArray(fetched.value);
    var byTitle := SortArticles(articles, q, "title");
    if byTitle.Err? {
      return ServerError(byTitle.error), call;
    }
    var byDescription := SortArticles(articles, q, "description");
    if byDescription.Err? {
      return ServerError(byDescription.error), call;
    }
    var byContent := SortArticles(articles, q, "content");
    if byContent.Err? {
      return ServerError(byContent.error), call;
    }
    // the three results are one array, read after the last sort
    var combined := byTitle.value[..] + byDescription.value[..] + byContent.value[..];
    UniqueByTitleTriple(articles[..]);
    var found := UniqueByTitleAsWritten(combined);
    UniqueByTitleAsWrittenAgrees(combined);
    FoundArticlesAllFound(UniqueByTitle(combined));
    var unique := FoundArticles(found);
    cache.Save(key, unique, now);
    resp := Json(unique);
  }
}
