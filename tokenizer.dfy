/**
 Splitting raw text into words, and removing stop words from a word list.

 Only the ASCII space separates words; every other character (tabs and
 newlines included) is part of a word. Words are never empty.
 */
module Tokenizer {

  /** The word being built, as the list of words it contributes when it is flushed. */
  function Flush(word: string): seq<string>
  {
    if word == [] then [] else [word]
  }

  /** Words still to come when `word` has been read so far and `rest` is unread. */
  function SplitFrom(rest: string, word: string): seq<string>
    decreases |rest|
  {
    if rest == [] then Flush(word)
    else if rest[0] == ' ' then Flush(word) + SplitFrom(rest[1..], [])
    else SplitFrom(rest[1..], word + [rest[0]])
  }

  /** The words of `text`, left to right. */
  function Words(text: string): seq<string>
  {
    SplitFrom(text, [])
  }

  /** The characters of `text` other than the space, in order. */
  function RemoveSpaces(text: string): string
  {
    if text == [] then []
    else (if text[0] == ' ' then [] else [text[0]]) + RemoveSpaces(text[1..])
  }

  /** The words of `ws` written one after another. */
  function Concat(ws: seq<string>): string
  {
    if ws == [] then [] else ws[0] + Concat(ws[1..])
  }

  /** A word as the tokenizer produces it: not empty, no space inside. */
  predicate IsWord(w: string)
  {
    w != [] && ' ' !in w
  }

  /**
   Reads `text` one character at a time: a space flushes the word built so
   far (if any), any other character is appended to it; the last word is
   flushed at the end.
   */
  method SplitIntoWords(text: string) returns (words: seq<string>)
    ensures words == Words(text)
  {
    words := [];
    var word: string := [];
    var i := 0;
    while i < |text|
      invariant 0 <= i <= |text|
      invariant words + SplitFrom(text[i..], word) == Words(text)
    {
      var c := text[i];
      assert text[i..][1..] == text[i + 1..];
      if c == ' ' {
        if word != [] {
          words := words + [word];
          word := [];
        }
      } else {
        word := word + [c];
      }
      i := i + 1;
    }
    if word != [] {
      words := words + [word];
    }
  }

  lemma {:induction false} SplitFromShape(rest: string, word: string)
    requires ' ' !in word
    ensures forall k :: 0 <= k < |SplitFrom(rest, word)| ==> IsWord(SplitFrom(rest, word)[k])
    decreases |rest|
  {
    if rest == [] {
    } else if rest[0] == ' ' {
      SplitFromShape(rest[1..], []);
    } else {
      SplitFromShape(rest[1..], word + [rest[0]]);
    }
  }

  /** No word is empty and no word contains a space. */
  lemma WordsAreWords(text: string)
    ensures forall w :: w in Words(text) ==> IsWord(w)
  {
    SplitFromShape(text, []);
  }

  lemma {:induction false} ConcatAppend(a: seq<string>, b: seq<string>)
    ensures Concat(a + b) == Concat(a) + Concat(b)
    decreases |a|
  {
    if a == [] {
      assert a + b == b;
    } else {
      assert (a + b)[1..] == a[1..] + b;
      ConcatAppend(a[1..], b);
    }
  }

  lemma {:induction false} SplitFromConcat(rest: string, word: string)
    ensures Concat(SplitFrom(rest, word)) == word + RemoveSpaces(rest)
    decreases |rest|
  {
    if rest == [] {
    } else if rest[0] == ' ' {
      SplitFromConcat(rest[1..], []);
      ConcatAppend(Flush(word), SplitFrom(rest[1..], []));
    } else {
      SplitFromConcat(rest[1..], word + [rest[0]]);
    }
  }

  /** Writing the words one after another gives the text with its spaces removed. */
  lemma WordsConcat(text: string)
    ensures Concat(Words(text)) == RemoveSpaces(text)
  {
    SplitFromConcat(text, []);
  }

  lemma {:induction false} SplitFromSpaceFree(rest: string, word: string)
    requires ' ' !in rest && word + rest != []
    ensures SplitFrom(rest, word) == [word + rest]
    decreases |rest|
  {
    if rest == [] {
      assert word + rest == word;
    } else {
      assert word + rest == (word + [rest[0]]) + rest[1..];
      SplitFromSpaceFree(rest[1..], word + [rest[0]]);
    }
  }

  /** A non-empty text without spaces is a single word. */
  lemma WordsOfWord(w: string)
    requires IsWord(w)
    ensures Words(w) == [w]
  {
    assert [] + w == w;
    SplitFromSpaceFree(w, []);
  }

  lemma {:induction false} SplitFromAppendSpace(a: string, b: string, word: string)
    ensures SplitFrom(a + [' '] + b, word) == SplitFrom(a, word) + SplitFrom(b, [])
    decreases |a|
  {
    if a == [] {
      assert a + [' '] + b == [' '] + b;
      assert ([' '] + b)[1..] == b;
    } else {
      assert (a + [' '] + b)[0] == a[0];
      assert (a + [' '] + b)[1..] == a[1..] + [' '] + b;
      if a[0] == ' ' {
        SplitFromAppendSpace(a[1..], b, []);
      } else {
        SplitFromAppendSpace(a[1..], b, word + [a[0]]);
      }
    }
  }

  /** A space separates: the words of `a + " " + b` are those of `a` followed by those of `b`. */
  lemma WordsAppendSpace(a: string, b: string)
    ensures Words(a + [' '] + b) == Words(a) + Words(b)
  {
    SplitFromAppendSpace(a, b, []);
  }

  /** The words of `ws` that are not stop words, in their original order. */
  function WithoutStopWords(ws: seq<string>, stop: set<string>): (r: seq<string>)
    ensures |r| <= |ws|
    ensures forall w :: w in r <==> w in ws && w !in stop
  {
    if ws == [] then []
    else (if ws[0] in stop then [] else [ws[0]]) + WithoutStopWords(ws[1..], stop)
  }

  lemma {:induction false} WithoutStopWordsAppend(a: seq<string>, b: seq<string>, stop: set<string>)
    ensures WithoutStopWords(a + b, stop) == WithoutStopWords(a, stop) + WithoutStopWords(b, stop)
    decreases |a|
  {
    if a == [] {
      assert a + b == b;
    } else {
      assert (a + b)[0] == a[0];
      assert (a + b)[1..] == a[1..] + b;
      WithoutStopWordsAppend(a[1..], b, stop);
    }
  }

  lemma WithoutStopWordsPrefix(ws: seq<string>, i: int, stop: set<string>)
    requires 0 <= i < |ws|
    ensures WithoutStopWords(ws[..i + 1], stop)
         == WithoutStopWords(ws[..i], stop) + (if ws[i] in stop then [] else [ws[i]])
  {
    assert ws[..i + 1] == ws[..i] + [ws[i]];
    WithoutStopWordsAppend(ws[..i], [ws[i]], stop);
    assert [ws[i]][1..] == [];
  }

  /** Every non-stop word keeps its number of occurrences; stop words have none. */
  lemma {:induction false} WithoutStopWordsCounts(ws: seq<string>, stop: set<string>)
    ensures forall w :: multiset(WithoutStopWords(ws, stop))[w] == if w in stop then 0 else multiset(ws)[w]
    decreases |ws|
  {
    if ws != [] {
      WithoutStopWordsCounts(ws[1..], stop);
      assert ws == [ws[0]] + ws[1..];
    }
  }

  /** A word between two spaces contributes exactly itself. */
  lemma WordsAroundWord(a: string, s: string, b: string)
    requires IsWord(s)
    ensures Words(a + [' '] + s + [' '] + b) == Words(a) + [s] + Words(b)
  {
    assert a + [' '] + s + [' '] + b == a + [' '] + (s + [' '] + b);
    WordsAppendSpace(a, s + [' '] + b);
    WordsAppendSpace(s, b);
    WordsOfWord(s);
    assert Words(a) + ([s] + Words(b)) == Words(a) + [s] + Words(b);
  }

  /**
   Stop words are transparent: a stop word inserted between two words of a
   text leaves the filtered word list unchanged.
   */
  lemma StopWordTransparent(a: string, s: string, b: string, stop: set<string>)
    requires IsWord(s) && s in stop
    ensures WithoutStopWords(Words(a + [' '] + s + [' '] + b), stop)
         == WithoutStopWords(Words(a + [' '] + b), stop)
  {
    WordsAroundWord(a, s, b);
    WordsAppendSpace(a, b);
    WithoutStopWordsAppend(Words(a) + [s], Words(b), stop);
    WithoutStopWordsAppend(Words(a), [s], stop);
    WithoutStopWordsAppend(Words(a), Words(b), stop);
  }
}
