/**
 The byte-scan tokenizer and counter of `frequencyDictMmap`: one pass over a
 buffer, letters lowercased into an accumulator, the accumulator counted and
 cleared at each non-letter that follows a letter, and flushed after the last
 byte.

 The reference meaning is `CountWords`: split the buffer into maximal runs
 of letters, lowercase each run, count the runs. The loop of the source is
 the method `FrequencyDictMmap`, proved to compute exactly that.
 */
module Scan {
  import opened Ascii
  import opened Counts

  /** Length of the run of letters that starts the buffer: it stops at the first non-letter. */
  function LetterRun(s: string): (n: nat)
    ensures n <= |s|
    ensures forall i :: 0 <= i < n ==> IsAlpha(s[i])
    ensures n < |s| ==> !IsAlpha(s[n])
  {
    if s == [] || !IsAlpha(s[0]) then 0 else 1 + LetterRun(s[1..])
  }

  /** The words of a buffer: its maximal letter runs, lowercased, in order. */
  function Words(s: string): (r: seq<string>)
    ensures forall i :: 0 <= i < |r| ==> IsWord(r[i])
    decreases |s|
  {
    if s == [] then []
    else if !IsAlpha(s[0]) then Words(s[1..])
    else
      var n := LetterRun(s);
      [Lower(s[..n])] + Words(s[n..])
  }

  /** The count map the scan is meant to produce: each word with its number of occurrences. */
  function CountWords(s: string): (r: Dict)
    ensures forall w :: w in r <==> w in Words(s)
  {
    AddAllSpec(map[], Words(s));
    Histogram(Words(s))
  }

  /** Position `i` holds the last letter of a maximal letter run. */
  predicate EndsRun(s: string, i: nat)
    requires i < |s|
  {
    IsAlpha(s[i]) && (i + 1 == |s| || !IsAlpha(s[i + 1]))
  }

  /** Number of maximal letter runs in the buffer, counted by their last letters. */
  function RunCount(s: string): nat
    decreases |s|
  {
    if s == [] then 0 else (if EndsRun(s, 0) then 1 else 0) + RunCount(s[1..])
  }

  /** A leading letter run contributes exactly one run. */
  lemma {:induction false} RunCountLeadingRun(s: string, n: nat)
    requires 0 < n <= |s|
    requires forall i :: 0 <= i < n ==> IsAlpha(s[i])
    requires n < |s| ==> !IsAlpha(s[n])
    ensures RunCount(s) == 1 + RunCount(s[n..])
    decreases n
  {
    if n > 1 {
      RunCountLeadingRun(s[1..], n - 1);
      assert s[1..][n - 1..] == s[n..];
    }
  }

  /** The tokenizer yields one word per maximal letter run. */
  lemma {:induction false} WordsCountRuns(s: string)
    ensures |Words(s)| == RunCount(s)
    decreases |s|
  {
    if s != [] {
      if !IsAlpha(s[0]) {
        WordsCountRuns(s[1..]);
      } else {
        var n := LetterRun(s);
        RunCountLeadingRun(s, n);
        WordsCountRuns(s[n..]);
      }
    }
  }

  /** A buffer yields no word exactly when it holds no letter. */
  lemma {:induction false} WordsEmptyIffNoLetters(s: string)
    ensures Words(s) == [] <==> forall i :: 0 <= i < |s| ==> !IsAlpha(s[i])
    decreases |s|
  {
    if s != [] && !IsAlpha(s[0]) {
      WordsEmptyIffNoLetters(s[1..]);
      assert forall i :: 1 <= i < |s| ==> s[i] == s[1..][i - 1];
    }
  }

  /** Two buffers that differ only in letter case. */
  predicate SameUpToCase(a: string, b: string) {
    |a| == |b| && forall i :: 0 <= i < |a| ==> ToLower(a[i]) == ToLower(b[i])
  }

  /** Letter runs have the same length in buffers that differ only in case. */
  lemma {:induction false} LetterRunCaseInsensitive(a: string, b: string)
    requires SameUpToCase(a, b)
    ensures LetterRun(a) == LetterRun(b)
    decreases |a|
  {
  }

  /** The tokenizer is case-insensitive: buffers that differ only in case yield the same words. */
  lemma {:induction false} WordsCaseInsensitive(a: string, b: string)
    requires SameUpToCase(a, b)
    ensures Words(a) == Words(b)
    decreases |a|
  {
    if a != [] {
      SameLowerSameClass(a[0], b[0]);
      if !IsAlpha(a[0]) {
        WordsCaseInsensitive(a[1..], b[1..]);
      } else {
        LetterRunCaseInsensitive(a, b);
        var n := LetterRun(a);
        assert Lower(a[..n]) == Lower(b[..n]);
        WordsCaseInsensitive(a[n..], b[n..]);
      }
    }
  }

  /**
   The words still to be counted when the accumulator holds `word` and `s` is
   the rest of the buffer: the accumulator continues into the letter run that
   starts `s`.
   */
  function Pending(word: string, s: string): seq<string> {
    if word == [] then Words(s)
    else
      var n := LetterRun(s);
      [word + Lower(s[..n])] + Words(s[n..])
  }

  /** A letter extends the accumulator without changing the words still to come. */
  lemma PendingLetter(word: string, s: string)
    requires s != [] && IsAlpha(s[0])
    ensures Pending(word + [ToLower(s[0])], s[1..]) == Pending(word, s)
  {
    var m := LetterRun(s[1..]);
    var l := ToLower(s[0]);
    assert LetterRun(s) == 1 + m;
    assert Lower(s[..1 + m]) == [l] + Lower(s[1..][..m]);
    assert s[1 + m..] == s[1..][m..];
    assert Words(s) == [Lower(s[..1 + m])] + Words(s[1 + m..]);
    assert (word + [l]) + Lower(s[1..][..m]) == word + Lower(s[..1 + m]);
    assert Pending(word + [l], s[1..]) == [(word + [l]) + Lower(s[1..][..m])] + Words(s[1..][m..]);
    if word == [] {
      assert word + [l] == [l];
      assert [] + Lower(s[..1 + m]) == Lower(s[..1 + m]);
      assert Pending(word, s) == Words(s);
    } else {
      assert Pending(word, s) == [word + Lower(s[..1 + m])] + Words(s[1 + m..]);
    }
  }

  /** A non-letter after a non-empty accumulator completes the accumulated word. */
  lemma PendingSeparator(word: string, s: string)
    requires s != [] && !IsAlpha(s[0])
    ensures word != [] ==> Pending(word, s) == [word] + Pending([], s[1..])
    ensures word == [] ==> Pending(word, s) == Pending([], s[1..])
  {
    assert LetterRun(s) == 0;
    assert s[..0] == [] && s[0..] == s;
    assert Lower([]) == [];
    assert word + [] == word;
  }

  /**
   The scan loop of `frequencyDictMmap`, with the buffer given as a sequence
   instead of a mapped file. Its result is exactly `CountWords(data)`: every
   key a word, every count the number of occurrences of that word, and the
   counts summing to the number of maximal letter runs.
   */
  method FrequencyDictMmap(data: string) returns (dict: Dict)
    ensures dict == CountWords(data)
    ensures forall w :: w in dict ==> IsWord(w) && dict[w] > 0
    ensures Total(dict) == RunCount(data)
  {
    var word: string := [];
    dict := map[];
    var i: nat := 0;
    while i < |data|
      invariant i <= |data|
      invariant AddAll(dict, Pending(word, data[i..])) == CountWords(data)
    {
      if IsAlpha(data[i]) {
        PendingLetter(word, data[i..]);
        assert data[i..][1..] == data[i + 1..];
        word := word + [ToLower(data[i])];
      } else {
        PendingSeparator(word, data[i..]);
        assert data[i..][1..] == data[i + 1..];
        if word != [] {
          dict := Inc(dict, word);
          word := [];
        }
      }
      i := i + 1;
    }
    assert data[i..] == [] && Lower([]) == [] && word + [] == word;
    assert Pending(word, []) == (if word == [] then [] else [word]);
    if word != [] {
      dict := Inc(dict, word);
    }
    CountWordsSpec(data);
  }

  /**
   What the scan promises: its keys are words (non-empty, lowercase letters),
   each occurring word is a key with its number of occurrences, and the counts
   sum to the number of maximal letter runs.
   */
  lemma CountWordsSpec(s: string)
    ensures forall w :: w in CountWords(s) ==> IsWord(w) && CountWords(s)[w] > 0
    ensures forall w :: Get(CountWords(s), w) == multiset(Words(s))[w]
    ensures Total(CountWords(s)) == RunCount(s)
  {
    HistogramSpec(Words(s));
    WordsCountRuns(s);
    forall w | w in CountWords(s)
      ensures IsWord(w)
    {
      var i :| 0 <= i < |Words(s)| && Words(s)[i] == w;
    }
  }

  /** Buffers that differ only in letter case produce the same count map. */
  lemma CountWordsCaseInsensitive(a: string, b: string)
    requires SameUpToCase(a, b)
    ensures CountWords(a) == CountWords(b)
  {
    WordsCaseInsensitive(a, b);
  }

  /** The count map is empty exactly when the buffer holds no letter (the empty buffer included). */
  lemma CountWordsEmpty(s: string)
    ensures CountWords(s) == map[] <==> forall i :: 0 <= i < |s| ==> !IsAlpha(s[i])
  {
    WordsEmptyIffNoLetters(s);
    HistogramSpec(Words(s));
    if Words(s) != [] {
      assert Words(s)[0] in CountWords(s);
    }
  }

  /** A buffer that ends in a letter still has its last word counted. */
  lemma CountWordsFinalFlush()
    ensures CountWords("end") == map["end" := 1]
    ensures CountWords("x end") == map["x" := 1, "end" := 1]
  {
    OneWord("end");
    var s := "x end";
    assert LetterRun(s) == 1;
    assert s[..1] == "x" && s[1..] == " end";
    LowerProperties("x");
    assert Words(" end") == Words("end");
    assert Words(s) == ["x", "end"];
    HistogramIs(["end"], map["end" := 1]);
    HistogramIs(["x", "end"], map["x" := 1, "end" := 1]);
  }

  /** A buffer made of one lowercase word yields just that word. */
  lemma OneWord(w: string)
    requires IsWord(w)
    ensures Words(w) == [w]
  {
    assert LetterRun(w) == |w|;
    assert w[..|w|] == w && w[|w|..] == [];
    LowerProperties(w);
  }

  /** Runs of separators never produce empty words: "a,,,b" and "a b" yield the same two words. */
  lemma WordsSeparatorRuns()
    ensures Words("a,,,b") == ["a", "b"]
    ensures Words("a b") == ["a", "b"]
  {
    OneWord("a");
    OneWord("b");
    LeadingWord("a", ",,,b");
    LeadingWord("a", " b");
    SkipSeparator(",,b");
    SkipSeparator(",b");
    SkipSeparator("b");
    assert ",,,b" == [','] + ",,b" && ",,b" == [','] + ",b" && ",b" == [','] + "b";
    assert " b" == [' '] + "b";
    assert "a,,,b" == "a" + ",,,b" && "a b" == "a" + " b";
  }

  /** A separator in front of a buffer adds no word. */
  lemma SkipSeparator(s: string)
    ensures Words([','] + s) == Words(s)
    ensures Words([' '] + s) == Words(s)
  {
    assert ([','] + s)[1..] == s;
    assert ([' '] + s)[1..] == s;
  }

  /** A word followed by a separator comes first, then the words of the rest. */
  lemma LeadingWord(w: string, rest: string)
    requires IsWord(w)
    requires rest != [] && !IsAlpha(rest[0])
    ensures Words(w + rest) == [w] + Words(rest)
  {
    var s := w + rest;
    assert LetterRun(s) == |w| by {
      assert forall i :: 0 <= i < |w| ==> s[i] == w[i];
      assert s[|w|] == rest[0];
    }
    assert s[..|w|] == w && s[|w|..] == rest;
    LowerProperties(w);
  }

  /** Upper case and lower case spell the same word. */
  lemma WordsUpperCase()
    ensures Words("HELLO") == ["hello"]
  {
    WordsCaseInsensitive("HELLO", "hello");
    OneWord("hello");
  }
}
