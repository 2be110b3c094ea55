# SimpleSearchEngine ranking core in Dafny

This is a model of the search server in `SimpleSearchEngine/main.cpp`, with proofs about it. The server keeps three things:

- a set of stop words;
- the number of documents it expects;
- an inverted index from each word to the documents that contain it, with the word's term frequency (TF) in each of them.

Documents are added one at a time. A query is answered in four steps:

1. Split the query into plus words and minus words. A minus word is written with a leading `-`.
2. Give a relevance score to every document id in `[0, document count)` that some plus word indexes. The score sums idf × tf over those plus words.
3. Drop every document that a minus word indexes.
4. Return at most five documents, most relevant first.

The project has four modules:

- `Tokenizer` (`tokenizer.dfy`):
  - Splits text into words on the ASCII space, as a character loop (`SplitIntoWords`).
  - Gives the specification of that loop (`Words`).
  - Gives the stop-word filter (`WithoutStopWords`).
  - Proves their laws: the shape of the tokens, that no characters are lost, that filtering distributes over concatenation, and that stop words are transparent.
- `Ranking` (`ranking.dfy`) specifies on values:
  - query parsing (`QueryOf`);
  - term frequency (`Count`, `Tf`);
  - the index after inserting one document (`Indexed`);
  - the relevance of a document (`Score`);
  - the list of matched documents (`AllDocuments`);
  - what a best-five selection is (`IsTop`).

  The lemmas there state what these promise.
- `SearchEngine` (`search_server.dfy`) has the class `SearchServer`, with the source's three fields:
  - `index: map<string, map<int, real>>`
  - `stopWords: set<string>`
  - `documentCount: int`

  Its methods are the source's loops. Each is proved to compute the matching `Ranking` function. The in-place sort that stands for `std::sort` is an insertion sort on an `array<Document>`.
- `SearchExample` (`example.dfy`) covers the sample session described in the comment at the top of the program: four documents and the query `cheburashka with big ears likes -oranges`. It proves that document 3 is the only result, whatever the idf.

The idf is not computed inside the model. Every operation that needs it takes a function `idf(documentCount, df)`, where `df` is the number of documents indexed under the word. The source computes `log(documentCount / df)` in floating point. TF is the exact rational `count / length` as a `real`.

## Model

| member | source | states |
|---|---|---|
| Ranking.MaxResultDocumentCount | SimpleSearchEngine/main.cpp:27 | At most 5 documents are returned: `FindTopDocuments` ensures `\|top\| <= MaxResultDocumentCount`. |
| Ranking.Document | SimpleSearchEngine/main.cpp:63-66 | A result is a document id with its relevance, `real` in place of `double`. |
| Ranking.Query | SimpleSearchEngine/main.cpp:113-116 | A parsed query is a set of plus words and a set of minus words. |
| Ranking.IndexValid | SimpleSearchEngine/main.cpp:118 | The index invariant: every indexed word has at least one document, and every term frequency lies in (0, 1]. `IndexedValid` shows that insertion keeps it. |
| SearchEngine.SearchServer.Valid | SimpleSearchEngine/main.cpp:118-120 | The server's invariant is `IndexValid` of its index. The constructor establishes it, every state-changing method keeps it, and every query method requires it. |
| Tokenizer.SplitIntoWords | SimpleSearchEngine/main.cpp:42-61 | The character loop returns exactly `Words(text)`. A space ends the current word when it is not empty, any other character is appended to it, and a last non-empty word is emitted at the end. |
| Tokenizer.WordsAreWords | SimpleSearchEngine/main.cpp:42-61 | No word of `Words(text)` is empty, and none contains a space. |
| Tokenizer.WordsConcat | SimpleSearchEngine/main.cpp:42-61 | Writing the words one after another gives the input with every space removed, so only spaces are lost. |
| Tokenizer.WordsOfWord | SimpleSearchEngine/main.cpp:42-61 | A non-empty text without spaces is exactly one word, itself. |
| Tokenizer.WordsAppendSpace | SimpleSearchEngine/main.cpp:42-61 | The words of `a + " " + b` are the words of `a` followed by the words of `b`. |
| Tokenizer.WordsAroundWord | SimpleSearchEngine/main.cpp:42-61 | A word between two spaces contributes exactly itself: `Words(a + " " + s + " " + b) == Words(a) + [s] + Words(b)`. |
| Tokenizer.WithoutStopWords | SimpleSearchEngine/main.cpp:126-134 | The filtered list is no longer than the input. A word is in it exactly when it is in the input and is not a stop word. |
| Tokenizer.WithoutStopWordsAppend | SimpleSearchEngine/main.cpp:126-134 | Filtering a concatenation gives the concatenation of the filtered parts, so order is kept. |
| Tokenizer.WithoutStopWordsPrefix | SimpleSearchEngine/main.cpp:128-132 | One more input word adds itself to the filtered list, or nothing when it is a stop word. |
| Tokenizer.WithoutStopWordsCounts | SimpleSearchEngine/main.cpp:126-134 | A non-stop word occurs as often in the filtered list as in the input. A stop word does not occur in it. |
| Tokenizer.StopWordTransparent | SimpleSearchEngine/main.cpp:126-134 | Inserting a stop word between two spaces of a text leaves its non-stop word list unchanged. |
| Ranking.QueryOf | SimpleSearchEngine/main.cpp:136-143 | A token that does not start with `-` is a plus word, and every plus word is such a token. A token that starts with `-` puts its remainder in the minus words, and every minus word comes from such a token. |
| Ranking.QueryOfPrefix | SimpleSearchEngine/main.cpp:138-141 | One more token adds itself to the plus words, or its remainder to the minus words when it starts with `-`. |
| Ranking.QueryOfWithoutStopWords | SimpleSearchEngine/main.cpp:136-143 | After stop-word removal, no plus word is a stop word, and no minus word preceded by `-` is a stop word. |
| Ranking.Count | SimpleSearchEngine/main.cpp:87 | Returns the number of occurrences of `w` in `ws`, the multiplicity in `multiset(ws)`. It is at most the length of `ws`, and it is positive exactly when `w` occurs. |
| Ranking.Tf | SimpleSearchEngine/main.cpp:87-92 | The term frequency of a word of the document lies in (0, 1]. |
| Ranking.IndexWordsStepAt | SimpleSearchEngine/main.cpp:88-93 | Inserting one more word changes that word's entry in one of three ways: a fresh inner map when the word is not indexed, an added entry for the id when the word has none for it, and no change otherwise. |
| Ranking.IndexWordsStep | SimpleSearchEngine/main.cpp:88-93 | The whole index after one more word is the three-way insertion of the loop body applied to the index before it. |
| Ranking.Indexed | SimpleSearchEngine/main.cpp:84-95 | After inserting a document, the words are the old words plus the document's words. Every old entry is kept with its old value. Every word of the document has an entry for the id. Every entry is either old or a new (word, id) entry whose value is `Tf(ws, word)`. |
| Ranking.IndexedEntryOrigin | SimpleSearchEngine/main.cpp:88-93 | An entry after an insertion that is not the inserted document's own was there before. |
| Ranking.IndexedValid | SimpleSearchEngine/main.cpp:84-95 | Insertion preserves index validity: every indexed word has a document, and every frequency lies in (0, 1]. |
| Ranking.IndexedEntryValid | SimpleSearchEngine/main.cpp:88-93 | Every entry of one word after insertion is non-empty and holds frequencies in (0, 1]. |
| Ranking.ValidIndexDf | SimpleSearchEngine/main.cpp:152 | In a valid index every word is indexed under at least one document, so the document frequency used for idf is positive. |
| Ranking.IndexedEmpty | SimpleSearchEngine/main.cpp:84-95 | A document without non-stop words leaves the index unchanged. |
| Ranking.IndexedTwice | SimpleSearchEngine/main.cpp:88-93 | Inserting again under the same id keeps the first insertion's frequencies. With the same words it changes nothing. |
| Ranking.ScoreRemove | SimpleSearchEngine/main.cpp:150-157 | The relevance is the same whichever plus word is added first. |
| Ranking.ScoreWithoutHit | SimpleSearchEngine/main.cpp:153-155 | A document that no plus word indexes has relevance 0. |
| Ranking.ScoreStep | SimpleSearchEngine/main.cpp:150-157 | Taking one more plus word into account adds `idf(count, df) * tf` when the word is indexed for the document, and 0 otherwise. The document is hit afterwards exactly when it was hit before or this word indexes it. |
| Ranking.DocsOfMapEntries | SimpleSearchEngine/main.cpp:166-168 | Every document listed from the relevance map below `hi` is an entry of the map with an id in `[0, hi)`, and carries that entry's relevance. |
| Ranking.DocsOfMapAscending | SimpleSearchEngine/main.cpp:166-168 | The listed ids strictly ascend, so each entry is listed once. |
| Ranking.DocsOfMapComplete | SimpleSearchEngine/main.cpp:166-168 | Every entry of the map with an id in `[0, hi)` is listed. |
| Ranking.DocsWithoutKeys | SimpleSearchEngine/main.cpp:166-168 | A map without keys in `[0, hi)` lists nothing. |
| Ranking.AllDocumentsSound | SimpleSearchEngine/main.cpp:145-170 | Every matched document satisfies four things: its id lies in `[0, documentCount)`, some plus word indexes it, no minus word indexes it, and its relevance is the sum of idf × tf over the plus words. |
| Ranking.AllDocumentsComplete | SimpleSearchEngine/main.cpp:145-170 | Every id in `[0, documentCount)` that some plus word indexes and no minus word indexes is matched, with its relevance. |
| Ranking.AllDocumentsAscending | SimpleSearchEngine/main.cpp:166-168 | The matched documents come in strictly ascending id order, so each appears once. |
| Ranking.AtMostOneWithId | SimpleSearchEngine/main.cpp:166-168 | A strictly ascending list whose ids all equal one id has at most one element. |
| Ranking.AllDocumentsSingle | SimpleSearchEngine/main.cpp:145-170 | When exactly one id is hit and not excluded, the result is that one document with its relevance. |
| Ranking.NoPlusWordsNoMatches | SimpleSearchEngine/main.cpp:149-158 | A query without plus words matches nothing. |
| Ranking.PrefixIsTop | SimpleSearchEngine/main.cpp:101-107 | The first `k` entries of a sorted permutation of the matches are a best-`k` selection. There are `min(k, n)` of them, sorted, taken from the matches, and no dropped match is more relevant than a kept one. |
| Ranking.SplitMultiset | SimpleSearchEngine/main.cpp:105-107 | Cutting a list in two splits its multiset into the multisets of the two parts. |
| Ranking.SortedTailBelowHead | SimpleSearchEngine/main.cpp:105-107 | In a list sorted by relevance, nothing after the cut is more relevant than anything before it. |
| Ranking.TopIsSound | SimpleSearchEngine/main.cpp:97-109 | A best-`k` selection of the matches has at most `k` entries. Each entry keeps the guarantees of a match: id in range, hit by a plus word, not excluded by a minus word, relevance equal to the sum. |
| SearchEngine.SortByRelevance | SimpleSearchEngine/main.cpp:101-104 | Sorts the array in place so that relevance never increases, and the result is a permutation of the input. |
| SearchEngine.SinkInto | SimpleSearchEngine/main.cpp:101-104 | One insertion step extends the sorted prefix by one element and keeps the multiset. |
| SearchEngine.Swap | SimpleSearchEngine/main.cpp:101-104 | Exchanges two entries in place and keeps the multiset. |
| SearchEngine.SearchServer.constructor | SimpleSearchEngine/main.cpp:118-120 | A new server has an empty index, no stop words and a document count of 0. |
| SearchEngine.SearchServer.SetDocumentsCount | SimpleSearchEngine/main.cpp:70-72 | Afterwards `GetDocumentsCount()` returns `num`. Nothing else changes, so index validity is kept. |
| SearchEngine.SearchServer.GetDocumentsCount | SimpleSearchEngine/main.cpp:74-76 | Returns the stored document count. |
| SearchEngine.SearchServer.SetStopWords | SimpleSearchEngine/main.cpp:78-82 | The stop words become the old ones plus every word of `text`. A word is a stop word afterwards exactly when it was one before or is a word of `text`. The index is untouched, so index validity is kept. |
| SearchEngine.SearchServer.IsStopWord | SimpleSearchEngine/main.cpp:122-124 | True exactly when the word is in the stop-word set. |
| SearchEngine.SearchServer.SplitIntoWordsNoStop | SimpleSearchEngine/main.cpp:126-134 | Returns exactly the non-stop words of `text`, in order. Each is a non-empty, space-free word that is not a stop word. |
| SearchEngine.SearchServer.AddDocument | SimpleSearchEngine/main.cpp:84-95 | The new index is `Indexed(old index, id, non-stop words of the document)`, and index validity is preserved. |
| SearchEngine.SearchServer.IndexWordsOf | SimpleSearchEngine/main.cpp:86-94 | The loop over the document's words computes `Indexed(old index, id, words)`. |
| SearchEngine.SearchServer.InsertEntry | SimpleSearchEngine/main.cpp:87-93 | One iteration adds the word to the words already inserted: a (word, id) entry is created only when absent. |
| SearchEngine.ParseTokens | SimpleSearchEngine/main.cpp:137-142 | The loop over the tokens returns exactly `QueryOf(tokens)`: a token starting with `-` adds its remainder to the minus words, any other token adds itself to the plus words. |
| SearchEngine.SearchServer.ParseQuery | SimpleSearchEngine/main.cpp:136-143 | Returns `QueryOf` of the query's non-stop words. No plus word is a stop word, and no minus word preceded by `-` is a stop word. |
| SearchEngine.SearchServer.FindAllDocuments | SimpleSearchEngine/main.cpp:145-170 | The scoring, erasing and listing loops return exactly `AllDocuments(index, documentCount, query, idf)`. |
| SearchEngine.SearchServer.AccumulateRelevance | SimpleSearchEngine/main.cpp:149-158 | The first phase holds exactly the ids in `[0, documentCount)` that some plus word indexes, each with its summed relevance. |
| SearchEngine.SearchServer.AddPlusWordScores | SimpleSearchEngine/main.cpp:150-157 | For one id, the plus-word loop adds the id with its summed relevance when some plus word indexes it, and leaves the map unchanged otherwise. |
| SearchEngine.SearchServer.AddWordScore | SimpleSearchEngine/main.cpp:151-156 | One plus word adds `idf(documentCount, df) * tf` to the id's relevance when the word indexes the id, and nothing otherwise. The `df` handed to idf is positive, by `ValidIndexDf`. |
| SearchEngine.SearchServer.EraseMinusWords | SimpleSearchEngine/main.cpp:159-165 | The second phase keeps exactly the ids that no minus word indexes, with their relevance unchanged. |
| SearchEngine.SearchServer.FindTopDocuments | SimpleSearchEngine/main.cpp:97-109 | Returns a best-five selection of `AllDocuments` for the parsed query: at most 5 documents, relevance non-increasing. Each result is in range, hit by a plus word and not indexed by a minus word. |
| SearchExample.SampleQueryPlusWords | SimpleSearchEngine/main.cpp:24 | Every plus word of the sample query is cheburashka, big, ears or likes, and big is among them. |
| SearchExample.SampleQueryMinusWords | SimpleSearchEngine/main.cpp:24 | The only minus word of the sample query is oranges. |
| SearchExample.SampleDocumentWords | SimpleSearchEngine/main.cpp:19-22 | Documents 0 to 2 contain no plus word of the query. Documents 0, 1 and 3 do not contain oranges. |
| SearchExample.SampleIndexEntries | SimpleSearchEngine/main.cpp:19-22 | In the sample index the plus words are indexed under document 3 only, and oranges under document 2 only. |
| SearchExample.SampleHitsOnlyThree | SimpleSearchEngine/main.cpp:12-25 | Document 3 is the only one that a plus word of the sample query indexes. |
| SearchExample.SampleHitsThree | SimpleSearchEngine/main.cpp:12-25 | A plus word of the sample query, big, indexes document 3. |
| SearchExample.SampleKeepsThree | SimpleSearchEngine/main.cpp:12-25 | No minus word of the sample query indexes document 3. |
| SearchExample.SampleQueryMatchesOnlyDocumentThree | SimpleSearchEngine/main.cpp:12-25 | For any idf, the sample query on the four sample documents matches exactly one document, document 3. |

## Left out

- Console input and output are not modelled, because they are I/O: `ReadLine`, `ReadLineWithNumber`, `CreateSearchServer` and `main` (main.cpp:29-40, 173-192).
- The idf is a parameter `idf(documentCount, df)` instead of `log((double)documentCount / df)`, because floating-point logarithms are not available. `ValidIndexDf` shows that `df` is positive wherever idf is called. When the document count is 0 or negative, the scoring loop (main.cpp:149) runs no iteration, so the source never divides; the model then returns no documents (`DocsWithoutKeys`).
- Relevance and term frequency are exact reals, not `double`. Rounding is not modelled, nor the order in which the `double` additions happen. That order is the lexicographic order of `std::set`; the model adds in any order and proves that the sum does not depend on it (`ScoreRemove`).
- SortByRelevance: the relative order of documents with equal relevance is not specified, as for the unstable `std::sort`. The method is an insertion sort, and its contract says only "sorted, and a permutation".
- SearchEngine.SearchServer.constructor: `document_count_` is left uninitialised in the source. The model starts it at 0.
- FindAllDocuments: the last loop of the source walks the relevance map in key order. The model instead walks the ids `0 .. documentCount - 1` and keeps those present in the map. This gives the same list, because every key of that map lies in that range.
- FindTopDocuments copies the matched list into an array, sorts the array in place and returns its first five entries. The source sorts the vector in place and then shrinks it with `resize`.
- SearchExample: the documents and the query are given as their word lists after stop-word removal, not as raw lines. The exact relevance of document 3 (about 0.650 with the natural logarithm) is not computed, because it depends on floating point.
- Strings: the source's `std::string` is a sequence of bytes, while the model's `string` is a sequence of Unicode characters. Splitting on `' '`, the test `word[0] == '-'` and `substr(1)` give the same tokens on valid UTF-8, because the bytes of a space and of `-` never occur inside a multi-byte character. Input that is not valid UTF-8 is not modelled.
- C++ `int` overflow of document ids and counts is not modelled. Ids and counts are unbounded integers.
