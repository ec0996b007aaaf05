/**
 The token-stream counter of `frequencyDictStream`: tokens already split by
 the stream's `>>` are lowercased character by character and each is counted
 once. There is no letter filter: a token keeps its punctuation and digits.
 */
module Stream {
  import opened Ascii
  import opened Counts

  /** Every token lowercased, in order. */
  function LowerAll(tokens: seq<string>): (r: seq<string>)
    ensures |r| == |tokens|
    ensures forall i :: 0 <= i < |tokens| ==> r[i] == Lower(tokens[i])
  {
    seq(|tokens|, i requires 0 <= i < |tokens| => Lower(tokens[i]))
  }

  /**
   The count map of a token sequence: its keys are exactly the lowercase
   images of the tokens, each already in lowercase form; each key maps to
   the number of tokens with that image; and the counts sum to the number of
   tokens.
   */
  function FrequencyDictStream(tokens: seq<string>): (dict: Dict)
    ensures forall k :: k in dict <==> exists i :: 0 <= i < |tokens| && Lower(tokens[i]) == k
    ensures forall k :: k in dict ==> Lower(k) == k && dict[k] > 0
    ensures forall k :: Get(dict, k) == multiset(LowerAll(tokens))[k]
    ensures Total(dict) == |tokens|
  {
    var ws := LowerAll(tokens);
    HistogramSpec(ws);
    assert forall k :: k in ws ==> Lower(k) == k by {
      forall k | k in ws
        ensures Lower(k) == k
      {
        var i :| 0 <= i < |ws| && ws[i] == k;
        LowerProperties(tokens[i]);
      }
    }
    Histogram(ws)
  }

  /** Tokens keep their non-letters: "Don't" and "don't" are one key, apostrophe included. */
  lemma StreamKeepsPunctuation()
    ensures FrequencyDictStream(["Don't", "don't"]) == map["don't" := 2]
  {
    assert Lower("Don't") == "don't";
    assert Lower("don't") == "don't";
    assert LowerAll(["Don't", "don't"]) == ["don't", "don't"];
    HistogramIs(["don't", "don't"], map["don't" := 2]);
  }
}
