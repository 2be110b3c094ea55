/**
 The value-level specification of the ranking core: query parsing, the
 inverted index a document insertion produces, the relevance of a document,
 the set of matching documents and the top results.

 The methods of `SearchEngine.SearchServer` are proved to compute exactly
 these functions; the lemmas here state what the functions promise.
 */
module Ranking {
  import opened Tokenizer

  /** At most this many results are returned by a query. */
  const MaxResultDocumentCount: nat := 5

  /** One search result. */
  datatype Document = Document(id: int, relevance: real)

  /** A parsed query: words that score, and words that exclude a document. */
  datatype Query = Query(plusWords: set<string>, minusWords: set<string>)

  /** Word -> (document id -> term frequency). */
  type Index = map<string, map<int, real>>

  function Min(a: int, b: int): int
  {
    if a <= b then a else b
  }

  function Elems(ws: seq<string>): set<string>
  {
    set w | w in ws
  }

  lemma ElemsPrefix(ws: seq<string>, i: int)
    requires 0 <= i < |ws|
    ensures Elems(ws[..i + 1]) == Elems(ws[..i]) + {ws[i]}
  {
    assert ws[..i + 1] == ws[..i] + [ws[i]];
  }

  // ---------------------------------------------------------------------
  // Query parsing

  /** A token whose first character is the minus marker. */
  predicate IsMinus(token: string)
  {
    |token| > 0 && token[0] == '-'
  }

  /** Adds one token: a minus token loses its marker and joins the minus words. */
  function AddToken(q: Query, token: string): Query
  {
    if IsMinus(token) then q.(minusWords := q.minusWords + {token[1..]})
    else q.(plusWords := q.plusWords + {token})
  }

  /** The query built from `tokens`, inserted left to right. */
  function QueryOf(tokens: seq<string>): (q: Query)
    ensures forall t :: t in tokens && !IsMinus(t) ==> t in q.plusWords
    ensures forall t :: t in tokens && IsMinus(t) ==> t[1..] in q.minusWords
    ensures forall w :: w in q.plusWords ==> w in tokens && !IsMinus(w)
    ensures forall w :: w in q.minusWords ==> ['-'] + w in tokens
    decreases |tokens|
  {
    if tokens == [] then Query({}, {})
    else
      var last := tokens[|tokens| - 1];
      assert IsMinus(last) ==> ['-'] + last[1..] == last;
      assert forall t :: t in tokens <==> t in tokens[..|tokens| - 1] || t == last;
      AddToken(QueryOf(tokens[..|tokens| - 1]), last)
  }

  lemma QueryOfPrefix(tokens: seq<string>, i: int)
    requires 0 <= i < |tokens|
    ensures QueryOf(tokens[..i + 1]) == AddToken(QueryOf(tokens[..i]), tokens[i])
  {
    assert tokens[..i + 1][..i] == tokens[..i];
  }

  /** Stop words never reach a query: no plus word is one, nor is any minus token. */
  lemma QueryOfWithoutStopWords(ws: seq<string>, stop: set<string>)
    ensures forall w :: w in QueryOf(WithoutStopWords(ws, stop)).plusWords ==> w !in stop
    ensures forall w :: w in QueryOf(WithoutStopWords(ws, stop)).minusWords ==> ['-'] + w !in stop
  {
    var tokens := WithoutStopWords(ws, stop);
    var q := QueryOf(tokens);
    forall w | w in q.minusWords ensures ['-'] + w !in stop {
      assert ['-'] + w in tokens;
    }
  }

  // ---------------------------------------------------------------------
  // Term frequency and document insertion

  /** Number of occurrences of `w` in `ws`. */
  function Count(ws: seq<string>, w: string): (c: nat)
    ensures c == multiset(ws)[w]
    ensures c <= |ws|
    ensures c > 0 <==> w in ws
  {
    if ws == [] then 0
    else
      assert ws == [ws[0]] + ws[1..];
      (if ws[0] == w then 1 else 0) + Count(ws[1..], w)
  }

  /** Term frequency of `w` in the word list `ws` of one document. */
  function Tf(ws: seq<string>, w: string): (tf: real)
    requires w in ws
    ensures 0.0 < tf <= 1.0
  {
    var c := Count(ws, w);
    FractionInUnit(c, |ws|);
    c as real / |ws| as real
  }

  lemma FractionInUnit(c: int, n: int)
    requires 0 < c <= n
    ensures 0.0 < c as real / n as real <= 1.0
  {
    assert c as real / n as real * n as real == c as real;
  }

  /**
   `index` after the words in `done` (all of them words of the document
   `ws`) have been inserted for document `id`: an entry is added only where
   the (word, id) pair has none.
   */
  function IndexWords(index: Index, id: int, done: set<string>, ws: seq<string>): Index
    requires forall w :: w in done ==> w in ws
  {
    map w | w in index.Keys + done ::
      if w in done && (w !in index || id !in index[w]) then
        (if w in index then index[w] else map[])[id := Tf(ws, w)]
      else index[w]
  }

  lemma IndexWordsStepAt(index: Index, id: int, done: set<string>, ws: seq<string>, w: string)
    requires forall v :: v in done ==> v in ws
    requires w in ws
    ensures var cur := IndexWords(index, id, done, ws);
            IndexWords(index, id, done + {w}, ws)[w]
            == if w !in cur then map[id := Tf(ws, w)]
               else if id !in cur[w] then cur[w][id := Tf(ws, w)]
               else cur[w]
  {
    if w in done {
      assert id in IndexWords(index, id, done, ws)[w];
    }
  }

  /**
   Inserting one more word `w` of the document: a new inner map when `w` is
   not indexed, a new entry when `w` has none for `id`, otherwise nothing.
   */
  lemma IndexWordsStep(index: Index, id: int, done: set<string>, ws: seq<string>, w: string)
    requires forall v :: v in done ==> v in ws
    requires w in ws
    ensures var cur := IndexWords(index, id, done, ws);
            IndexWords(index, id, done + {w}, ws)
            == if w !in cur then cur[w := map[id := Tf(ws, w)]]
               else if id !in cur[w] then cur[w := cur[w][id := Tf(ws, w)]]
               else cur
  {
    var cur := IndexWords(index, id, done, ws);
    var nxt := IndexWords(index, id, done + {w}, ws);
    var rhs := if w !in cur then cur[w := map[id := Tf(ws, w)]]
               else if id !in cur[w] then cur[w := cur[w][id := Tf(ws, w)]]
               else cur;
    assert nxt.Keys == rhs.Keys;
    IndexWordsStepAt(index, id, done, ws, w);
    forall v | v in nxt && v != w ensures nxt[v] == rhs[v] {
      assert rhs[v] == cur[v];
      assert (v in done + {w}) == (v in done);
    }
  }

  /** `index` after inserting document `id` whose non-stop words are `ws`. */
  function Indexed(index: Index, id: int, ws: seq<string>): (r: Index)
    ensures r.Keys == index.Keys + Elems(ws)
    ensures forall w, d :: w in index && d in index[w] ==> w in r && d in r[w] && r[w][d] == index[w][d]
    ensures forall w :: w in ws ==> w in r && id in r[w]
    ensures forall w, d :: w in r && d in r[w] ==>
              (w in index && d in index[w]) || (d == id && w in ws && r[w][d] == Tf(ws, w))
  {
    IndexWords(index, id, Elems(ws), ws)
  }

  /** An entry after an insertion that is not the inserted document's own was there before. */
  lemma IndexedEntryOrigin(index: Index, id: int, ws: seq<string>, w: string, d: int)
    requires w in Indexed(index, id, ws) && d in Indexed(index, id, ws)[w]
    requires w !in ws || d != id
    ensures w in index && d in index[w]
  {
  }

  /** Every word of the index has at least one document, and every frequency lies in (0, 1]. */
  ghost predicate IndexValid(index: Index)
  {
    forall w :: w in index ==>
      (exists d :: d in index[w]) && forall d :: d in index[w] ==> 0.0 < index[w][d] <= 1.0
  }

  lemma IndexedValid(index: Index, id: int, ws: seq<string>)
    requires IndexValid(index)
    ensures IndexValid(Indexed(index, id, ws))
  {
    var r := Indexed(index, id, ws);
    forall w | w in r
      ensures (exists d :: d in r[w]) && forall d :: d in r[w] ==> 0.0 < r[w][d] <= 1.0
    {
      IndexedEntryValid(index, id, ws, w);
    }
  }

  lemma IndexedEntryValid(index: Index, id: int, ws: seq<string>, w: string)
    requires IndexValid(index)
    requires w in Indexed(index, id, ws)
    ensures exists d :: d in Indexed(index, id, ws)[w]
    ensures forall d :: d in Indexed(index, id, ws)[w] ==> 0.0 < Indexed(index, id, ws)[w][d] <= 1.0
  {
    var r := Indexed(index, id, ws);
    var e := r[w];
    if w in index {
      var old_e := index[w];
      var d0 :| d0 in old_e;
      assert d0 in e;
    } else {
      assert id in e;
    }
    forall d | d in e ensures 0.0 < e[d] <= 1.0 {
      if w in index && d in index[w] {
        assert e[d] == index[w][d];
      } else {
        assert e[d] == Tf(ws, w);
      }
    }
  }

  /** In a valid index every word is indexed under at least one document. */
  lemma ValidIndexDf(index: Index, w: string)
    requires IndexValid(index) && w in index
    ensures |index[w]| > 0
  {
    var d :| d in index[w];
    assert index[w].Keys == index[w].Keys - {d} + {d};
  }

  /** A document without non-stop words leaves the index unchanged. */
  lemma IndexedEmpty(index: Index, id: int)
    ensures Indexed(index, id, []) == index
  {
    var r := Indexed(index, id, []);
    assert Elems([]) == {};
    assert r.Keys == index.Keys;
    forall w | w in r ensures r[w] == index[w] {
      assert r[w].Keys == index[w].Keys;
    }
  }

  /**
   Adding a document a second time under the same id keeps every frequency
   of the first insertion; with the same words it changes nothing at all.
   */
  lemma IndexedTwice(index: Index, id: int, ws1: seq<string>, ws2: seq<string>)
    ensures forall w :: w in ws1 ==> Indexed(Indexed(index, id, ws1), id, ws2)[w][id] == Indexed(index, id, ws1)[w][id]
    ensures ws1 == ws2 ==> Indexed(Indexed(index, id, ws1), id, ws2) == Indexed(index, id, ws1)
  {
    var r1 := Indexed(index, id, ws1);
    var r2 := Indexed(r1, id, ws2);
    if ws1 == ws2 {
      assert r2.Keys == r1.Keys;
      forall w | w in r2 ensures r2[w] == r1[w] {
        assert r2[w].Keys == r1[w].Keys;
      }
    }
  }

  // ---------------------------------------------------------------------
  // Relevance

  /** What plus word `w` adds to the relevance of document `id`: idf times tf, or nothing. */
  function Contribution(index: Index, count: int, idf: (int, int) -> real, id: int, w: string): real
  {
    if w in index && id in index[w] then idf(count, |index[w]|) * index[w][id] else 0.0
  }

  /** The relevance of document `id` for the plus words `ws`: the sum of their contributions. */
  ghost function Score(index: Index, count: int, idf: (int, int) -> real, id: int, ws: set<string>): real
    decreases ws
  {
    if ws == {} then 0.0
    else
      var w :| w in ws;
      Contribution(index, count, idf, id, w) + Score(index, count, idf, id, ws - {w})
  }

  /** The sum does not depend on the order in which the words are taken. */
  lemma {:induction false} ScoreRemove(index: Index, count: int, idf: (int, int) -> real, id: int, ws: set<string>, w: string)
    requires w in ws
    ensures Score(index, count, idf, id, ws)
         == Contribution(index, count, idf, id, w) + Score(index, count, idf, id, ws - {w})
    decreases ws
  {
    var v :| v in ws && Score(index, count, idf, id, ws)
                        == Contribution(index, count, idf, id, v) + Score(index, count, idf, id, ws - {v});
    if v != w {
      ScoreRemove(index, count, idf, id, ws - {v}, w);
      ScoreRemove(index, count, idf, id, ws - {w}, v);
      assert ws - {v} - {w} == ws - {w} - {v};
    }
  }

  /** Some word of `ws` is indexed for document `id`. */
  ghost predicate Hit(index: Index, ws: set<string>, id: int)
  {
    exists w :: w in ws && w in index && id in index[w]
  }

  /** A document that no word of `ws` indexes scores nothing. */
  lemma {:induction false} ScoreWithoutHit(index: Index, count: int, idf: (int, int) -> real, id: int, ws: set<string>)
    requires !Hit(index, ws, id)
    ensures Score(index, count, idf, id, ws) == 0.0
    decreases ws
  {
    if ws != {} {
      var w :| w in ws;
      ScoreRemove(index, count, idf, id, ws, w);
      ScoreWithoutHit(index, count, idf, id, ws - {w});
    }
  }

  /** Taking one more plus word into account. */
  lemma ScoreStep(index: Index, count: int, idf: (int, int) -> real, id: int, done: set<string>, w: string)
    requires w !in done
    ensures Score(index, count, idf, id, done + {w})
         == Score(index, count, idf, id, done) + Contribution(index, count, idf, id, w)
    ensures Hit(index, done + {w}, id) <==> Hit(index, done, id) || (w in index && id in index[w])
    ensures !Hit(index, done, id) ==> Score(index, count, idf, id, done) == 0.0
  {
    ScoreRemove(index, count, idf, id, done + {w}, w);
    assert done + {w} - {w} == done;
    if !Hit(index, done, id) {
      ScoreWithoutHit(index, count, idf, id, done);
    }
  }

  /** Some minus word is indexed for document `id`, which excludes it from the results. */
  ghost predicate Excluded(index: Index, minus: set<string>, id: int)
  {
    exists w :: w in minus && w in index && id in index[w]
  }

  /**
   Relevance of every document that survives the query: an id in
   [0, count) indexed under some plus word and under no minus word.
   */
  ghost function RelevanceMap(index: Index, count: int, q: Query, idf: (int, int) -> real): map<int, real>
  {
    map id | 0 <= id < count && Hit(index, q.plusWords, id) && !Excluded(index, q.minusWords, id)
      :: Score(index, count, idf, id, q.plusWords)
  }

  /** The entries of `m` with keys below `hi`, in ascending key order. */
  function Docs(m: map<int, real>, hi: int): seq<Document>
    decreases hi
  {
    if hi <= 0 then []
    else Docs(m, hi - 1) + (if hi - 1 in m then [Document(hi - 1, m[hi - 1])] else [])
  }

  /** Every listed document is an entry of `m` with an id below `hi`, carrying its value. */
  lemma {:induction false} DocsOfMapEntries(m: map<int, real>, hi: int)
    ensures forall k :: 0 <= k < |Docs(m, hi)| ==>
              0 <= Docs(m, hi)[k].id < hi && Docs(m, hi)[k].id in m && Docs(m, hi)[k].relevance == m[Docs(m, hi)[k].id]
    decreases hi
  {
    if hi > 0 {
      DocsOfMapEntries(m, hi - 1);
    }
  }

  /** The listed ids strictly ascend. */
  lemma {:induction false} DocsOfMapAscending(m: map<int, real>, hi: int)
    ensures forall p, q :: 0 <= p < q < |Docs(m, hi)| ==> Docs(m, hi)[p].id < Docs(m, hi)[q].id
    decreases hi
  {
    if hi > 0 {
      DocsOfMapAscending(m, hi - 1);
      DocsOfMapEntries(m, hi - 1);
    }
  }

  /** No entry of `m` with an id in [0, hi) is missed. */
  lemma {:induction false} DocsOfMapComplete(m: map<int, real>, hi: int)
    ensures forall id :: 0 <= id < hi && id in m ==> Document(id, m[id]) in Docs(m, hi)
    decreases hi
  {
    if hi > 0 {
      DocsOfMapComplete(m, hi - 1);
    }
  }

  /** The documents a query matches, in ascending id order. */
  ghost function AllDocuments(index: Index, count: int, q: Query, idf: (int, int) -> real): seq<Document>
  {
    Docs(RelevanceMap(index, count, q, idf), count)
  }

  /**
   Every matched document has an id in [0, count), is indexed under some
   plus word and under no minus word, and carries its relevance.
   */
  lemma AllDocumentsSound(index: Index, count: int, q: Query, idf: (int, int) -> real)
    ensures forall d :: d in AllDocuments(index, count, q, idf) ==>
              && 0 <= d.id < count
              && Hit(index, q.plusWords, d.id)
              && (forall w :: w in q.minusWords && w in index ==> d.id !in index[w])
              && d.relevance == Score(index, count, idf, d.id, q.plusWords)
  {
    DocsOfMapEntries(RelevanceMap(index, count, q, idf), count);
  }

  /** Every document that should match does. */
  lemma AllDocumentsComplete(index: Index, count: int, q: Query, idf: (int, int) -> real, id: int)
    requires 0 <= id < count && Hit(index, q.plusWords, id) && !Excluded(index, q.minusWords, id)
    ensures Document(id, Score(index, count, idf, id, q.plusWords)) in AllDocuments(index, count, q, idf)
  {
    var m := RelevanceMap(index, count, q, idf);
    assert id in m && m[id] == Score(index, count, idf, id, q.plusWords);
    DocsOfMapComplete(m, count);
  }

  /** Matched documents are listed once each, in ascending id order. */
  lemma AllDocumentsAscending(index: Index, count: int, q: Query, idf: (int, int) -> real)
    ensures forall p, r :: 0 <= p < r < |AllDocuments(index, count, q, idf)| ==>
              AllDocuments(index, count, q, idf)[p].id < AllDocuments(index, count, q, idf)[r].id
  {
    DocsOfMapAscending(RelevanceMap(index, count, q, idf), count);
  }

  lemma AtMostOneWithId(s: seq<Document>, id: int)
    requires forall p, r :: 0 <= p < r < |s| ==> s[p].id < s[r].id
    requires forall d :: d in s ==> d.id == id
    ensures |s| <= 1
  {
    assert |s| >= 2 ==> s[0].id < s[1].id;
  }

  /** A query that only one document matches lists exactly that document. */
  lemma AllDocumentsSingle(index: Index, count: int, q: Query, idf: (int, int) -> real, target: int)
    requires 0 <= target < count
    requires Hit(index, q.plusWords, target) && !Excluded(index, q.minusWords, target)
    requires forall id :: Hit(index, q.plusWords, id) ==> id == target
    ensures AllDocuments(index, count, q, idf) == [Document(target, Score(index, count, idf, target, q.plusWords))]
  {
    var all := AllDocuments(index, count, q, idf);
    AllDocumentsSound(index, count, q, idf);
    AllDocumentsComplete(index, count, q, idf, target);
    AllDocumentsAscending(index, count, q, idf);
    AtMostOneWithId(all, target);
  }

  lemma {:induction false} DocsWithoutKeys(m: map<int, real>, hi: int)
    requires forall id :: 0 <= id < hi ==> id !in m
    ensures Docs(m, hi) == []
    decreases hi
  {
    if hi > 0 {
      DocsWithoutKeys(m, hi - 1);
    }
  }

  /** Only plus words give a document relevance: a query without them matches nothing. */
  lemma NoPlusWordsNoMatches(index: Index, count: int, q: Query, idf: (int, int) -> real)
    requires q.plusWords == {}
    ensures AllDocuments(index, count, q, idf) == []
  {
    DocsWithoutKeys(RelevanceMap(index, count, q, idf), count);
  }

  // ---------------------------------------------------------------------
  // Top results

  predicate SortedByRelevance(s: seq<Document>)
  {
    forall p, r :: 0 <= p < r < |s| ==> s[p].relevance >= s[r].relevance
  }

  /**
   `top` is a best-`k` selection of `all`: as many as possible up to `k`,
   sorted by relevance, taken from `all`, and no dropped document is more
   relevant than a kept one.
   */
  ghost predicate IsTop(top: seq<Document>, all: seq<Document>, k: nat)
  {
    && |top| == Min(k, |all|)
    && SortedByRelevance(top)
    && multiset(top) <= multiset(all)
    && forall d, t :: d in multiset(all) - multiset(top) && t in top ==> d.relevance <= t.relevance
  }

  /** Cutting a sorted permutation of `all` after `k` entries gives a best-`k` selection. */
  lemma PrefixIsTop(s: seq<Document>, all: seq<Document>, k: nat)
    requires SortedByRelevance(s) && multiset(s) == multiset(all)
    ensures IsTop(s[..Min(k, |s|)], all, k)
  {
    var n := Min(k, |s|);
    assert |s| == |all| by {
      assert |multiset(s)| == |multiset(all)|;
    }
    SplitMultiset(s, n);
    assert multiset(all) - multiset(s[..n]) == multiset(s[n..]);
    SortedTailBelowHead(s, n);
  }

  lemma SplitMultiset(s: seq<Document>, n: nat)
    requires n <= |s|
    ensures multiset(s) == multiset(s[..n]) + multiset(s[n..])
  {
    assert s == s[..n] + s[n..];
  }

  lemma SortedTailBelowHead(s: seq<Document>, n: nat)
    requires n <= |s| && SortedByRelevance(s)
    ensures forall d, t :: d in multiset(s[n..]) && t in s[..n] ==> d.relevance <= t.relevance
  {
    forall d, t | d in multiset(s[n..]) && t in s[..n]
      ensures d.relevance <= t.relevance
    {
      var j :| 0 <= j < |s[n..]| && s[n..][j] == d;
      var i :| 0 <= i < n && s[..n][i] == t;
      assert s[i] == t && s[n + j] == d;
    }
  }

  /** What a best-`k` selection of the matched documents inherits from them. */
  lemma TopIsSound(top: seq<Document>, index: Index, count: int, q: Query, idf: (int, int) -> real, k: nat)
    requires IsTop(top, AllDocuments(index, count, q, idf), k)
    ensures |top| <= k
    ensures forall d :: d in top ==>
              && 0 <= d.id < count
              && Hit(index, q.plusWords, d.id)
              && (forall w :: w in q.minusWords && w in index ==> d.id !in index[w])
              && d.relevance == Score(index, count, idf, d.id, q.plusWords)
  {
    AllDocumentsSound(index, count, q, idf);
    forall d | d in top ensures d in AllDocuments(index, count, q, idf) {
      assert d in multiset(top);
    }
  }
}
