/** The relevance sort of `src/services/common_service.js`: `SortArticles`
    orders the caller's array of articles, in place, by how many words of the
    query occur in one field of each article, most matches first, ties kept
    in their original order. */
module CommonService {
  import opened Wrappers
  import opened Js
  import ArraySort

  /** An article as the upstream search returns it: a JSON object. */
  type Article = map<string, Value>

  /** `query.toLowerCase().split(' ')`: the words of a present query. */
  function QueryWords(query: string): (r: seq<string>)
    ensures |r| >= 1
    ensures forall w :: w in r ==> ' ' !in w
  {
    Split(ToLowerCase(query), ' ')
  }

  /** `parts.reduce((acc, part) => acc && acc[part], acc)`: once a falsy value
      is reached it is carried to the end unchanged. */
  function Walk(acc: Value, parts: seq<string>): Value
    decreases parts
  {
    if parts == [] then acc
    else Walk(if Truthy(acc) then Get(acc, parts[0]) else acc, parts[1..])
  }

  /** `getNestedValue(obj, path)`: the value found by walking the segments of
      the dot-separated `path` from `obj`. */
  function GetNestedValue(obj: Value, path: string): Value
  {
    Walk(obj, Split(path, '.'))
  }

  /** The value `SortArticles` reads from an article: `getNestedValue(a,
      field)` when `field` contains a dot, `a[field]` otherwise. */
  function FieldValue(a: Article, field: string): Value
  {
    if '.' in field then GetNestedValue(Obj(a), field) else Get(Obj(a), field)
  }

  /** `value ? value.toLowerCase() : ''`, or `None` where `toLowerCase` is
      not a function of the value and the call throws a `TypeError`. */
  function FieldText(v: Value): (r: Option<string>)
    ensures !Truthy(v) ==> r == Some("")
    ensures r.Some? && Truthy(v) ==> v.Str? && r.value == ToLowerCase(v.s)
    ensures r.None? <==> Truthy(v) && !v.Str?
  {
    if !Truthy(v) then Some("") else if v.Str? then Some(ToLowerCase(v.s)) else None
  }

  /** `words.filter(word => text.includes(word)).length` */
  function MatchCount(words: seq<string>, text: string): (r: nat)
    ensures r <= |words|
  {
    if words == [] then 0
    else (if Includes(text, words[0]) then 1 else 0) + MatchCount(words[1..], text)
  }

  /** The match count the comparator computes for one article, or `None`
      when reading its field throws. */
  function Score(a: Article, words: seq<string>, field: string): (r: Option<nat>)
    ensures r.Some? <==> FieldText(FieldValue(a, field)).Some?
  {
    match FieldText(FieldValue(a, field))
    case Some(text) => Some(MatchCount(words, text))
    case None => None
  }

  /** The score as a sort key; only consulted when every article can be scored. */
  function ScoreKey(words: seq<string>, field: string): Article -> int
  {
    a => match Score(a, words, field) case Some(n) => n case None => 0
  }

  /** Whether some article's field makes the comparator throw. */
  predicate SomeUnscorable(s: seq<Article>, field: string)
  {
    exists i :: 0 <= i < |s| && FieldText(FieldValue(s[i], field)).None?
  }

  /** What `SortArticles(s, query, field)` leaves in the array, or the
      exception it throws. The comparator runs only when there are at least
      two articles; it then throws when the query is `undefined`
      (`queryWords` is undefined) or a field is truthy but not a string. */
  function Rank(s: seq<Article>, query: Option<string>, field: string): (r: Result<seq<Article>, Exception>)
  {
    if |s| < 2 then Ok(s)
    else if query.None? || SomeUnscorable(s, field) then Err(TypeError)
    else Ok(ArraySort.SortDesc(s, ScoreKey(QueryWords(query.value), field)))
  }

  /** `SortArticles(articles, query, field)`: sorts the caller's array in
      place and returns that same array, or throws with the array as it was. */
  method SortArticles(articles: array<Article>, query: Option<string>, field: string)
    returns (r: Result<array<Article>, Exception>)
    modifies articles
    ensures Rank(old(articles[..]), query, field).Ok? ==>
              r == Ok(articles) && articles[..] == Rank(old(articles[..]), query, field).value
    ensures Rank(old(articles[..]), query, field).Err? ==>
              r == Err(TypeError) && articles[..] == old(articles[..])
  {
    if articles.Length < 2 {
      return Ok(articles);
    }
    if query.None? {
      return Err(TypeError);
    }
    var i := 0;
    while i < articles.Length
      invariant 0 <= i <= articles.Length
      invariant forall k :: 0 <= k < i ==> FieldText(FieldValue(articles[k], field)).Some?
    {
      if FieldText(FieldValue(articles[i], field)).None? {
        return Err(TypeError);
      }
      i := i + 1;
    }
    var words := QueryWords(query.value);
    ArraySort.InsertionSortDesc(articles, ScoreKey(words, field));
    return Ok(articles);
  }

  // ---------------------------------------------------------------------
  // Scoring

  /** Match counts add up over the words: a word given twice is counted twice. */
  lemma {:induction false} MatchCountAppend(u: seq<string>, w: seq<string>, text: string)
    ensures MatchCount(u + w, text) == MatchCount(u, text) + MatchCount(w, text)
  {
    if u == [] {
      assert u + w == w;
    } else {
      assert (u + w)[0] == u[0] && (u + w)[1..] == u[1..] + w;
      MatchCountAppend(u[1..], w, text);
    }
  }

  /** The order of the query words does not matter: any rearrangement of the
      words gives the same count. */
  lemma {:induction false} MatchCountPermutation(u: seq<string>, w: seq<string>, text: string)
    requires multiset(u) == multiset(w)
    ensures MatchCount(u, text) == MatchCount(w, text)
  {
    if u != [] {
      var x := u[0];
      assert x in multiset(w);
      var j :| 0 <= j < |w| && w[j] == x;
      var w' := w[..j] + w[j + 1..];
      assert w == w[..j] + [x] + w[j + 1..];
      assert u == [x] + u[1..];
      assert multiset(w) == multiset(w[..j]) + multiset{x} + multiset(w[j + 1..]);
      assert multiset(w') == multiset(w[..j]) + multiset(w[j + 1..]);
      assert multiset(w') == multiset(w) - multiset{x};
      assert multiset(u) == multiset{x} + multiset(u[1..]);
      assert multiset(u[1..]) == multiset(u) - multiset{x};
      MatchCountPermutation(u[1..], w', text);
      MatchCountAppend(w[..j] + [x], w[j + 1..], text);
      MatchCountAppend(w[..j], [x], text);
      MatchCountAppend(w[..j], w[j + 1..], text);
    }
  }

  /** Against the empty string only empty words match. */
  lemma {:induction false} MatchCountInEmpty(words: seq<string>)
    requires forall w :: w in words ==> w != ""
    ensures MatchCount(words, "") == 0
  {
    if words != [] {
      assert words[0] in words;
      assert forall w :: w in words[1..] ==> w in words;
      MatchCountInEmpty(words[1..]);
    }
  }

  /** The empty query splits into one empty word, which every string
      includes: every article that can be scored scores exactly 1. */
  lemma EmptyQueryScoresOne(a: Article, field: string)
    requires FieldText(FieldValue(a, field)).Some?
    ensures QueryWords("") == [""]
    ensures Score(a, QueryWords(""), field) == Some(1)
  {
    IncludesEmpty(FieldText(FieldValue(a, field)).value);
  }

  // ---------------------------------------------------------------------
  // Field lookup

  /** A falsy value is carried through the rest of the walk unchanged. */
  lemma {:induction false} WalkFalsy(acc: Value, parts: seq<string>)
    requires !Truthy(acc)
    ensures Walk(acc, parts) == acc
    decreases parts
  {
    if parts != [] {
      WalkFalsy(acc, parts[1..]);
    }
  }

  /** For a field without a dot, the nested lookup and the direct lookup
      agree, so reading `a[field]` directly is only a shortcut. */
  lemma DirectLookupIsNested(a: Article, field: string)
    requires '.' !in field
    ensures GetNestedValue(Obj(a), field) == Get(Obj(a), field)
  {
    SplitNoSeparator(field, '.');
    assert [field][1..] == [];
    assert Walk(Obj(a), [field]) == Walk(Get(Obj(a), field), []);
  }

  /** A field `parent.child` resolves through the object at `parent`. */
  lemma NestedLookup(a: Article, parent: string, child: string)
    requires '.' !in parent && '.' !in child
    ensures FieldValue(a, parent + "." + child)
         == (if Truthy(Get(Obj(a), parent)) then Get(Get(Obj(a), parent), child)
             else Get(Obj(a), parent))
  {
    var path := parent + "." + child;
    assert path[|parent|] == '.';
    assert '.' in path;
    SplitJoin([parent, child], '.');
    assert Join([parent, child], '.') == path by {
      assert Join([child], '.') == child;
    }
    assert Split(path, '.') == [parent, child];
    assert [parent, child][1..] == [child] && [child][1..] == [];
    var v := Get(Obj(a), parent);
    assert FieldValue(a, path) == Walk(Obj(a), [parent, child]);
    assert Walk(Obj(a), [parent, child]) == Walk(v, [child]);
    if !Truthy(v) {
      WalkFalsy(v, [child]);
    } else {
      assert Walk(v, [child]) == Walk(Get(v, child), []);
    }
  }

  /** An article whose `parent` is missing or falsy never throws on the field
      `parent.child`: the field reads as '' and scores 0 against a query
      without empty words. */
  lemma MissingParentScoresZero(a: Article, words: seq<string>, parent: string, child: string)
    requires '.' !in parent && '.' !in child
    requires !Truthy(Get(Obj(a), parent))
    requires forall w :: w in words ==> w != ""
    ensures FieldText(FieldValue(a, parent + "." + child)) == Some("")
    ensures Score(a, words, parent + "." + child) == Some(0)
  {
    NestedLookup(a, parent, child);
    MatchCountInEmpty(words);
  }

  // ---------------------------------------------------------------------
  // The sort

  /** A successful sort permutes the articles: same length, same multiset. */
  lemma RankPermutes(s: seq<Article>, query: Option<string>, field: string)
    requires Rank(s, query, field).Ok?
    ensures |Rank(s, query, field).value| == |s|
    ensures multiset(Rank(s, query, field).value) == multiset(s)
  {
    if |s| >= 2 {
      ArraySort.SortDescPermutes(s, ScoreKey(QueryWords(query.value), field));
    }
  }

  /** A successful sort orders the articles by non-increasing match count,
      every article having been scored without error. */
  lemma RankOrdered(s: seq<Article>, query: string, field: string)
    requires Rank(s, Some(query), field).Ok?
    ensures forall a :: a in Rank(s, Some(query), field).value ==>
              Score(a, QueryWords(query), field).Some? || |s| < 2
    ensures ArraySort.SortedDesc(Rank(s, Some(query), field).value, ScoreKey(QueryWords(query), field))
  {
    var r := Rank(s, Some(query), field).value;
    if |s| >= 2 {
      var key := ScoreKey(QueryWords(query), field);
      ArraySort.SortDescSorted(s, key);
      ArraySort.SortDescPermutes(s, key);
      forall a | a in r
        ensures Score(a, QueryWords(query), field).Some?
      {
        assert a in multiset(s);
        var i :| 0 <= i < |s| && s[i] == a;
      }
    }
  }

  /** A successful sort is stable: articles with equal match count keep their
      relative order. */
  lemma RankStable(s: seq<Article>, query: string, field: string)
    requires Rank(s, Some(query), field).Ok?
    ensures ArraySort.SameOrderPerKey(s, Rank(s, Some(query), field).value, ScoreKey(QueryWords(query), field))
  {
    if |s| >= 2 {
      ArraySort.SortDescStable(s, ScoreKey(QueryWords(query), field));
    }
  }

  /** The sort throws exactly when the comparator runs (two or more articles)
      and either the query is `undefined` or some field is truthy but not a
      string; fewer than two articles are returned as they are. */
  lemma RankFails(s: seq<Article>, query: Option<string>, field: string)
    ensures Rank(s, query, field).Err? <==> |s| >= 2 && (query.None? || SomeUnscorable(s, field))
    ensures |s| < 2 ==> Rank(s, query, field) == Ok(s)
  {
  }

  /** When every article has the same match count the order is unchanged. */
  lemma RankEqualScores(s: seq<Article>, query: string, field: string)
    requires |s| < 2 || !SomeUnscorable(s, field)
    requires forall i, j :: 0 <= i < |s| && 0 <= j < |s| ==>
               Score(s[i], QueryWords(query), field) == Score(s[j], QueryWords(query), field)
    ensures Rank(s, Some(query), field) == Ok(s)
  {
    if |s| >= 2 {
      var key := ScoreKey(QueryWords(query), field);
      ArraySort.SortDescAllEqual(s, key);
    }
  }

  /** The empty query leaves the order as it was (every article scores 1),
      unless a field throws. */
  lemma EmptyQueryKeepsOrder(s: seq<Article>, field: string)
    requires |s| < 2 || !SomeUnscorable(s, field)
    ensures Rank(s, Some(""), field) == Ok(s)
  {
    if |s| >= 2 {
      forall i | 0 <= i < |s|
        ensures Score(s[i], QueryWords(""), field) == Some(1)
      {
        EmptyQueryScoresOne(s[i], field);
      }
      RankEqualScores(s, "", field);
    }
  }
}
