/**
 The search server: an object owning the stop words, the expected number
 of documents and the inverted index, with the operations that fill the
 index and answer a query. Each method is proved to compute the matching
 function of module `Ranking`.
 */
module SearchEngine {
  import opened Tokenizer
  import opened Ranking

  /**
   Sorts by relevance, most relevant first, in place. The order of
   documents with equal relevance is not specified.
   */
  method SortByRelevance(a: array<Document>)
    modifies a
    ensures SortedByRelevance(a[..])
    ensures multiset(a[..]) == old(multiset(a[..]))
  {
    var i := 0;
    while i < a.Length
      invariant 0 <= i <= a.Length
      invariant SortedByRelevance(a[..i])
      invariant multiset(a[..]) == old(multiset(a[..]))
    {
      SinkInto(a, i);
      i := i + 1;
    }
    assert a[..a.Length] == a[..];
  }

  /** Moves `a[i]` left past every less relevant entry of the sorted prefix `a[..i]`. */
  method SinkInto(a: array<Document>, i: int)
    requires 0 <= i < a.Length
    requires SortedByRelevance(a[..i])
    modifies a
    ensures SortedByRelevance(a[..i + 1])
    ensures multiset(a[..]) == old(multiset(a[..]))
  {
    var j := i;
    while j > 0 && a[j - 1].relevance < a[j].relevance
      invariant 0 <= j <= i
      invariant forall p, r :: 0 <= p < r <= i && p != j && r != j ==> a[p].relevance >= a[r].relevance
      invariant forall r :: j < r <= i ==> a[j].relevance > a[r].relevance
      invariant multiset(a[..]) == old(multiset(a[..]))
    {
      Swap(a, j - 1, j);
      j := j - 1;
    }
  }

  method Swap(a: array<Document>, p: int, r: int)
    requires 0 <= p < r < a.Length
    modifies a
    ensures a[..] == old(a[..])[p := old(a[r])][r := old(a[p])]
    ensures multiset(a[..]) == old(multiset(a[..]))
  {
    a[p], a[r] := a[r], a[p];
  }

  /** Some element of a non-empty id set. */
  /** Sorts tokens, left to right, into plus words and, marker stripped, minus words. */
  method ParseTokens(tokens: seq<string>) returns (q: Query)
    requires forall k :: 0 <= k < |tokens| ==> tokens[k] != []
    ensures q == QueryOf(tokens)
  {
    q := Query({}, {});
    var i := 0;
    while i < |tokens|
      invariant 0 <= i <= |tokens|
      invariant q == QueryOf(tokens[..i])
    {
      var word := tokens[i];
      QueryOfPrefix(tokens, i);
      ghost var next := AddToken(q, word);
      if word[0] == '-' {
        q := q.(minusWords := q.minusWords + {word[1..]});
      } else {
        q := q.(plusWords := q.plusWords + {word});
      }
      assert q == next;
      i := i + 1;
    }
    assert tokens[..|tokens|] == tokens;
  }

  lemma PickId(ids: set<int>) returns (key: int)
    requires ids != {}
    ensures key in ids
  {
    if forall k :: k !in ids {
      assert false;
    }
    key :| key in ids;
  }

  class SearchServer {
    var index: Index
    var stopWords: set<string>
    var documentCount: int

    ghost predicate Valid()
      reads this
    {
      IndexValid(index)
    }

    /** An empty server: no stop words, no documents, a document count of zero. */
    constructor ()
      ensures Valid()
      ensures index == map[] && stopWords == {} && documentCount == 0
    {
      index := map[];
      stopWords := {};
      documentCount := 0;
    }

    method SetDocumentsCount(num: int)
      requires Valid()
      modifies this`documentCount
      ensures Valid()
      ensures GetDocumentsCount() == num
    {
      documentCount := num;
    }

    function GetDocumentsCount(): (n: int)
      reads this
      ensures n == documentCount
    {
      documentCount
    }

    /** Adds every word of `text` to the stop words; the ones already there stay. */
    method SetStopWords(text: string)
      requires Valid()
      modifies this`stopWords
      ensures Valid()
      ensures stopWords == old(stopWords) + Elems(Words(text))
      ensures forall w :: IsStopWord(w) <==> old(IsStopWord(w)) || w in Words(text)
    {
      var words := SplitIntoWords(text);
      var i := 0;
      while i < |words|
        invariant 0 <= i <= |words|
        invariant stopWords == old(stopWords) + Elems(words[..i])
      {
        assert words[..i + 1] == words[..i] + [words[i]];
        stopWords := stopWords + {words[i]};
        i := i + 1;
      }
      assert words[..|words|] == words;
    }

    function IsStopWord(word: string): (b: bool)
      reads this
      ensures b <==> word in stopWords
    {
      word in stopWords
    }

    /** The words of `text` that are not stop words, in order. */
    method SplitIntoWordsNoStop(text: string) returns (words: seq<string>)
      ensures words == WithoutStopWords(Words(text), stopWords)
      ensures forall k :: 0 <= k < |words| ==> IsWord(words[k]) && words[k] !in stopWords
    {
      var all := SplitIntoWords(text);
      words := [];
      var i := 0;
      while i < |all|
        invariant 0 <= i <= |all|
        invariant words == WithoutStopWords(all[..i], stopWords)
      {
        WithoutStopWordsPrefix(all, i, stopWords);
        if !IsStopWord(all[i]) {
          words := words + [all[i]];
        }
        i := i + 1;
      }
      assert all[..|all|] == all;
      WordsAreWords(text);
    }

    /**
     Indexes document `documentId`: each of its non-stop words gets the
     frequency count / length for this id, unless that (word, id) pair is
     already indexed, in which case the old entry stays.
     */
    method AddDocument(documentId: int, document: string)
      requires Valid()
      modifies this`index
      ensures Valid()
      ensures index == Indexed(old(index), documentId, WithoutStopWords(Words(document), stopWords))
    {
      var words := SplitIntoWordsNoStop(document);
      IndexWordsOf(documentId, words);
      IndexedValid(old(index), documentId, words);
    }

    /** The loop of AddDocument: inserts each word of `words` for `documentId`, in order. */
    method IndexWordsOf(documentId: int, words: seq<string>)
      modifies this`index
      ensures index == Indexed(old(index), documentId, words)
    {
      ghost var done: set<string> := {};
      var i := 0;
      while i < |words|
        invariant 0 <= i <= |words|
        invariant done == Elems(words[..i])
        invariant index == IndexWords(old(index), documentId, done, words)
      {
        var word := words[i];
        var wordCount := Count(words, word);
        var tf := wordCount as real / |words| as real;
        InsertEntry(old(index), documentId, done, words, word, tf);
        ElemsPrefix(words, i);
        done := done + {word};
        i := i + 1;
      }
      assert words[..|words|] == words;
    }

    /** One step of the inner loop: the score of `word` joins the sum already held for `id`. */
    method AddWordScore(ghost relevance: map<int, real>, ghost done: set<string>, current: map<int, real>,
                        id: int, word: string, idf: (int, int) -> real)
      returns (next: map<int, real>)
      requires Valid() && id !in relevance && word !in done
      requires current == if Hit(index, done, id) then relevance[id := Score(index, documentCount, idf, id, done)]
                          else relevance
      ensures next == if Hit(index, done + {word}, id)
                      then relevance[id := Score(index, documentCount, idf, id, done + {word})]
                      else relevance
    {
      next := current;
      ScoreStep(index, documentCount, idf, id, done, word);
      if word in index {
        // the document frequency handed to idf is never zero
        ValidIndexDf(index, word);
        var wordIdf := idf(documentCount, |index[word]|);
        if id in index[word] {
          ghost var sum := Score(index, documentCount, idf, id, done + {word});
          assert (if id in next then next[id] else 0.0) + wordIdf * index[word][id] == sum;
          next := next[id := (if id in next then next[id] else 0.0) + wordIdf * index[word][id]];
          assert next == relevance[id := sum];
        }
      }
    }

    /** Records `tf` for (`word`, `documentId`) unless that pair already has an entry. */
    method InsertEntry(ghost base: Index, documentId: int, ghost done: set<string>, words: seq<string>,
                       word: string, tf: real)
      requires forall w :: w in done ==> w in words
      requires word in words && tf == Tf(words, word)
      requires index == IndexWords(base, documentId, done, words)
      modifies this`index
      ensures index == IndexWords(base, documentId, done + {word}, words)
    {
      IndexWordsStep(base, documentId, done, words, word);
      if word !in index {
        index := index[word := map[documentId := tf]];
      } else if documentId !in index[word] {
        index := index[word := index[word][documentId := tf]];
      }
    }

    /** The query `rawQuery` denotes, given the current stop words. */
    ghost function QueryFor(rawQuery: string): Query
      reads this
    {
      QueryOf(WithoutStopWords(Words(rawQuery), stopWords))
    }

    /**
     Sorts the non-stop words of `text` into plus words and, marker
     stripped, minus words.
     */
    method ParseQuery(text: string) returns (q: Query)
      ensures q == QueryFor(text)
      ensures forall w :: w in q.plusWords ==> w !in stopWords
      ensures forall w :: w in q.minusWords ==> ['-'] + w !in stopWords
    {
      var tokens := SplitIntoWordsNoStop(text);
      q := ParseTokens(tokens);
      QueryOfWithoutStopWords(Words(text), stopWords);
    }

    /**
     Scores every id in [0, documentCount) against the plus words, drops
     every id indexed under a minus word, and lists the rest by ascending id.
     */
    method FindAllDocuments(query: Query, idf: (int, int) -> real) returns (matched: seq<Document>)
      requires Valid()
      ensures matched == AllDocuments(index, documentCount, query, idf)
    {
      var relevance := AccumulateRelevance(query.plusWords, idf);
      relevance := EraseMinusWords(relevance, query.minusWords);
      ghost var expected := RelevanceMap(index, documentCount, query, idf);
      assert forall j :: j in relevance <==> j in expected;
      assert relevance == expected;
      matched := [];
      var k := 0;
      while k < documentCount
        invariant 0 <= k
        invariant k <= documentCount || k == 0
        invariant matched == Docs(relevance, k)
      {
        if k in relevance {
          matched := matched + [Document(k, relevance[k])];
        }
        k := k + 1;
      }
      assert documentCount <= 0 ==> Docs(relevance, documentCount) == [];
    }

    /** First phase of a search: the relevance of every id in [0, documentCount) some plus word indexes. */
    method AccumulateRelevance(plus: set<string>, idf: (int, int) -> real) returns (relevance: map<int, real>)
      requires Valid()
      ensures forall j :: j in relevance <==> 0 <= j < documentCount && Hit(index, plus, j)
      ensures forall j :: j in relevance ==> relevance[j] == Score(index, documentCount, idf, j, plus)
    {
      relevance := map[];
      var id := 0;
      while id < documentCount
        invariant 0 <= id
        invariant id <= documentCount || id == 0
        invariant forall j :: j in relevance <==> 0 <= j < id && Hit(index, plus, j)
        invariant forall j :: j in relevance ==> relevance[j] == Score(index, documentCount, idf, j, plus)
      {
        relevance := AddPlusWordScores(relevance, id, plus, idf);
        id := id + 1;
      }
    }

    /** The inner loop of the first phase: `relevance[id] += idf * tf` for each plus word indexed for `id`. */
    method AddPlusWordScores(relevance: map<int, real>, id: int, plus: set<string>, idf: (int, int) -> real)
      returns (updated: map<int, real>)
      requires Valid() && id !in relevance
      ensures updated == if Hit(index, plus, id) then relevance[id := Score(index, documentCount, idf, id, plus)]
                         else relevance
    {
      updated := relevance;
      var remaining := plus;
      ghost var done: set<string> := {};
      while remaining != {}
        invariant done == plus - remaining
        invariant updated == if Hit(index, done, id)
                             then relevance[id := Score(index, documentCount, idf, id, done)]
                             else relevance
        decreases remaining
      {
        var word :| word in remaining;
        updated := AddWordScore(relevance, done, updated, id, word, idf);
        remaining := remaining - {word};
        done := done + {word};
      }
      assert done == plus;
    }

    /** Second phase of a search: erases every id indexed under a minus word. */
    method EraseMinusWords(found: map<int, real>, minus: set<string>) returns (relevance: map<int, real>)
      ensures forall j :: j in relevance <==> j in found && !Excluded(index, minus, j)
      ensures forall j :: j in relevance ==> relevance[j] == found[j]
    {
      relevance := found;
      var remaining := minus;
      while remaining != {}
        invariant remaining <= minus
        invariant forall j :: j in relevance <==> j in found && !Excluded(index, minus - remaining, j)
        invariant forall j :: j in relevance ==> relevance[j] == found[j]
        decreases remaining
      {
        var word :| word in remaining;
        ghost var done := minus - remaining;
        if word in index {
          var ids := index[word].Keys;
          while ids != {}
            invariant ids <= index[word].Keys
            invariant forall j :: j in relevance <==>
                        j in found && !Excluded(index, done, j) && !(j in index[word] && j !in ids)
            invariant forall j :: j in relevance ==> relevance[j] == found[j]
            decreases ids
          {
            ghost var some := PickId(ids);
            var key :| key in ids;
            relevance := relevance - {key};
            ids := ids - {key};
          }
        }
        remaining := remaining - {word};
        assert minus - remaining == done + {word};
      }
    }

    /**
     Answers `rawQuery`: the matched documents sorted by relevance, most
     relevant first, cut to the first MaxResultDocumentCount.
     */
    method FindTopDocuments(rawQuery: string, idf: (int, int) -> real) returns (top: seq<Document>)
      requires Valid()
      ensures IsTop(top, AllDocuments(index, documentCount, QueryFor(rawQuery), idf), MaxResultDocumentCount)
      ensures |top| <= MaxResultDocumentCount && SortedByRelevance(top)
      ensures forall d :: d in top ==>
                && 0 <= d.id < documentCount
                && Hit(index, QueryFor(rawQuery).plusWords, d.id)
                && (forall w :: w in QueryFor(rawQuery).minusWords && w in index ==> d.id !in index[w])
    {
      var query := ParseQuery(rawQuery);
      var matched := FindAllDocuments(query, idf);
      var a := new Document[|matched|](i requires 0 <= i < |matched| => matched[i]);
      assert a[..] == matched;
      SortByRelevance(a);
      PrefixIsTop(a[..], matched, MaxResultDocumentCount);
      if a.Length > MaxResultDocumentCount {
        top := a[..MaxResultDocumentCount];
      } else {
        top := a[..];
      }
      assert top == a[..][..Min(MaxResultDocumentCount, a.Length)];
      TopIsSound(top, index, documentCount, query, idf, MaxResultDocumentCount);
    }
  }
}
