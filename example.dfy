/**
 The sample session described at the top of the program: four documents,
 fifteen stop words and the query "cheburashka with big ears likes
 -oranges". The documents and the query are given here as their word lists
 after stop-word removal.
 */
module SearchExample {
  import opened Ranking

  const Doc0: seq<string> := ["small", "curly", "guinea", "pig", "grey", "hair", "found"]
  const Doc1: seq<string> := ["young", "50", "year", "old", "crocodile", "wants", "to", "make", "friends"]
  const Doc2: seq<string> := ["strange", "brown", "creature", "seen", "box", "of", "oranges"]
  const Doc3: seq<string> := ["strange", "animal", "big", "ears", "building", "house", "its", "friends"]
  const QueryTokens: seq<string> := ["cheburashka", "big", "ears", "likes", "-oranges"]

  function SampleIndex(): Index
  {
    Indexed(Indexed(Indexed(Indexed(map[], 0, Doc0), 1, Doc1), 2, Doc2), 3, Doc3)
  }

  /** The plus words of the query are among cheburashka, big, ears and likes, and include big. */
  lemma SampleQueryPlusWords()
    ensures forall w :: w in QueryOf(QueryTokens).plusWords ==> w == "cheburashka" || w == "big" || w == "ears" || w == "likes"
    ensures "big" in QueryOf(QueryTokens).plusWords
  {
    var q := QueryOf(QueryTokens);
    assert QueryTokens[1] == "big";
    forall w | w in q.plusWords
      ensures w == "cheburashka" || w == "big" || w == "ears" || w == "likes"
    {
      assert w in QueryTokens && !IsMinus(w);
      var k :| 0 <= k < |QueryTokens| && QueryTokens[k] == w;
      assert k != 4;
    }
  }

  /** The only minus word of the query is oranges. */
  lemma SampleQueryMinusWords()
    ensures QueryOf(QueryTokens).minusWords == {"oranges"}
  {
    var q := QueryOf(QueryTokens);
    assert QueryTokens[4] == "-oranges";
    assert QueryTokens[4][1..] == "oranges";
    forall w | w in q.minusWords ensures w == "oranges" {
      assert ['-'] + w in QueryTokens;
    }
  }

  /** The words of the query that no sample document but the ones named contains. */
  lemma SampleDocumentWords()
    ensures Doc3[2] == "big" && Doc2[6] == "oranges"
    ensures forall w :: w in {"cheburashka", "big", "ears", "likes"} ==> w !in Doc0 && w !in Doc1 && w !in Doc2
    ensures "oranges" !in Doc0 && "oranges" !in Doc1 && "oranges" !in Doc3
  {
  }

  /** Of the query's words, big is indexed under document 3 only, oranges under document 2 only. */
  lemma SampleIndexEntries()
    ensures "big" in SampleIndex() && 3 in SampleIndex()["big"]
    ensures "oranges" in SampleIndex() && 2 in SampleIndex()["oranges"]
    ensures forall d :: "cheburashka" in SampleIndex() && d in SampleIndex()["cheburashka"] ==> d == 3
    ensures forall d :: "big" in SampleIndex() && d in SampleIndex()["big"] ==> d == 3
    ensures forall d :: "ears" in SampleIndex() && d in SampleIndex()["ears"] ==> d == 3
    ensures forall d :: "likes" in SampleIndex() && d in SampleIndex()["likes"] ==> d == 3
    ensures forall d :: "oranges" in SampleIndex() && d in SampleIndex()["oranges"] ==> d == 2
  {
    SampleDocumentWords();
    var i0 := Indexed(map[], 0, Doc0);
    var i1 := Indexed(i0, 1, Doc1);
    var i2 := Indexed(i1, 2, Doc2);
    var index := Indexed(i2, 3, Doc3);
    forall w, d | w in {"cheburashka", "big", "ears", "likes"} && w in index && d in index[w]
      ensures d == 3
    {
      if d != 3 {
        IndexedEntryOrigin(i2, 3, Doc3, w, d);
        IndexedEntryOrigin(i1, 2, Doc2, w, d);
        IndexedEntryOrigin(i0, 1, Doc1, w, d);
        IndexedEntryOrigin(map[], 0, Doc0, w, d);
      }
    }
    forall d | "oranges" in index && d in index["oranges"]
      ensures d == 2
    {
      if d != 2 {
        IndexedEntryOrigin(i2, 3, Doc3, "oranges", d);
        IndexedEntryOrigin(i1, 2, Doc2, "oranges", d);
        IndexedEntryOrigin(i0, 1, Doc1, "oranges", d);
        IndexedEntryOrigin(map[], 0, Doc0, "oranges", d);
      }
    }
  }

  /** Documents 0, 1 and 2 share no plus word with the query. */
  lemma SampleHitsOnlyThree(id: int)
    requires Hit(SampleIndex(), QueryOf(QueryTokens).plusWords, id)
    ensures id == 3
  {
    var index := SampleIndex();
    var q := QueryOf(QueryTokens);
    SampleQueryPlusWords();
    SampleIndexEntries();
    var w :| w in q.plusWords && w in index && id in index[w];
    assert w == "cheburashka" || w == "big" || w == "ears" || w == "likes";
  }

  /** Document 3 has the plus word big. */
  lemma SampleHitsThree()
    ensures Hit(SampleIndex(), QueryOf(QueryTokens).plusWords, 3)
  {
    SampleQueryPlusWords();
    SampleIndexEntries();
  }

  /** Document 3 lacks the minus word oranges. */
  lemma SampleKeepsThree()
    ensures !Excluded(SampleIndex(), QueryOf(QueryTokens).minusWords, 3)
  {
    SampleQueryMinusWords();
    SampleIndexEntries();
  }

  /**
   Document 2 mentions the minus word, documents 0 and 1 share no plus word
   with the query, so document 3 is the only result, whatever the idf.
   */
  lemma SampleQueryMatchesOnlyDocumentThree(idf: (int, int) -> real)
    ensures |AllDocuments(SampleIndex(), 4, QueryOf(QueryTokens), idf)| == 1
    ensures AllDocuments(SampleIndex(), 4, QueryOf(QueryTokens), idf)[0].id == 3
  {
    SampleHitsThree();
    SampleKeepsThree();
    forall id | Hit(SampleIndex(), QueryOf(QueryTokens).plusWords, id) ensures id == 3 {
      SampleHitsOnlyThree(id);
    }
    AllDocumentsSingle(SampleIndex(), 4, QueryOf(QueryTokens), idf, 3);
  }
}
