/** The worked ranking example of the article search service: the query
    "go rust" ranks the titles "Go news", "Rust update" and "Go and Rust". */

module RankingExample {
  import opened Wrappers
  import opened Js
  import opened CommonService
  import ArraySort

  /** The query words of "go rust". */
  lemma GoRustWords()
    ensures QueryWords("go rust") == ["go", "rust"]
  {
    assert ToLowerCase("go rust") == "go rust";
    assert "go rust" == "go" + [' '] + "rust";
    SplitAfterPiece("go", "rust", ' ');
    SplitNoSeparator("rust", ' ');
  }

  /** Match counts of the lower-cased titles against the query words. */
  lemma GoNewsCount()
    ensures MatchCount(["go", "rust"], "go news") == 1
  {
    assert OccursAt("go news", "go", 0);
    assert !Includes("go news", "rust") by {
      forall i | 0 <= i <= |"go news"| ensures !OccursAt("go news", "rust", i) {
        assert "rust"[0] == 'r';
      }
    }
    assert ["go", "rust"][1..] == ["rust"];
  }

  lemma RustUpdateCount()
    ensures MatchCount(["go", "rust"], "rust update") == 1
  {
    assert OccursAt("rust update", "rust", 0);
    assert !Includes("rust update", "go") by {
      forall i | 0 <= i <= |"rust update"| ensures !OccursAt("rust update", "go", i) {
        assert "go"[1] == 'o';
      }
    }
    assert ["go", "rust"][1..] == ["rust"];
  }

  lemma GoAndRustCount()
    ensures MatchCount(["go", "rust"], "go and rust") == 2
  {
    assert OccursAt("go and rust", "go", 0);
    assert OccursAt("go and rust", "rust", 7);
    assert ["go", "rust"][1..] == ["rust"];
  }

  /** A present, non-empty title is scored on its lower-cased text. */
  lemma TitleScore(t: string, words: seq<string>)
    requires t != ""
    ensures Score(map["title" := Str(t)], words, "title") == Some(MatchCount(words, ToLowerCase(t)))
  {
    assert '.' !in "title";
  }

  /** The title scores of the three example articles. */
  lemma GoNewsScore()
    ensures Score(map["title" := Str("Go news")], ["go", "rust"], "title") == Some(1)
  {
    TitleScore("Go news", ["go", "rust"]);
    assert ToLowerCase("Go news") == "go news";
    GoNewsCount();
  }

  lemma RustUpdateScore()
    ensures Score(map["title" := Str("Rust update")], ["go", "rust"], "title") == Some(1)
  {
    TitleScore("Rust update", ["go", "rust"]);
    assert ToLowerCase("Rust update") == "rust update";
    RustUpdateCount();
  }

  lemma GoAndRustScore()
    ensures Score(map["title" := Str("Go and Rust")], ["go", "rust"], "title") == Some(2)
  {
    TitleScore("Go and Rust", ["go", "rust"]);
    assert ToLowerCase("Go and Rust") == "go and rust";
    GoAndRustCount();
  }

  /** Stable descending sort of three elements where only the last has the top key. */
  lemma SortThree<T>(x: T, y: T, z: T, key: T -> int)
    requires key(x) == key(y) < key(z)
    ensures ArraySort.SortDesc([x, y, z], key) == [z, x, y]
  {
    var s := [x, y, z];
    assert s[..2] == [x, y];
    assert [x, y][..1] == [x];
    assert [x][..0] == [];
    assert ArraySort.SortDesc([x], key) == [x];
    assert ArraySort.SortDesc([x, y], key) == [x, y];
    assert ArraySort.InsertLast([x, y], z, key) == ArraySort.InsertLast([x], z, key) + [y];
    assert ArraySort.InsertLast([x], z, key) == [z, x] by { assert [x][..0] == []; }
  }

  /** Three scorable articles where only the last has the top score:
      it moves to the front and the two ties keep their order. */
  lemma RankThree(x: Article, y: Article, z: Article, query: string, field: string, low: nat, high: nat)
    requires low < high
    requires Score(x, QueryWords(query), field) == Some(low)
    requires Score(y, QueryWords(query), field) == Some(low)
    requires Score(z, QueryWords(query), field) == Some(high)
    ensures Rank([x, y, z], Some(query), field) == Ok([z, x, y])
  {
    var s := [x, y, z];
    assert !SomeUnscorable(s, field) by {
      forall i | 0 <= i < 3 ensures FieldText(FieldValue(s[i], field)).Some? { }
    }
    SortThree(x, y, z, ScoreKey(QueryWords(query), field));
  }

  /** "Go and Rust" (two matches) moves to the front; the one-match titles
      "Go news" and "Rust update" keep their input order. */
  lemma TitleRankingExample()
    ensures Rank([map["title" := Str("Go news")], map["title" := Str("Rust update")], map["title" := Str("Go and Rust")]],
                 Some("go rust"), "title")
         == Ok([map["title" := Str("Go and Rust")], map["title" := Str("Go news")], map["title" := Str("Rust update")]])
  {
    GoRustWords();
    GoNewsScore();
    RustUpdateScore();
    GoAndRustScore();
    RankThree(map["title" := Str("Go news")], map["title" := Str("Rust update")], map["title" := Str("Go and Rust")],
              "go rust", "title", 1, 2);
  }
}
