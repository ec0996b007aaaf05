/**
 The hash-based frequency store: `std::unordered_map<std::string, size_t>`
 seen as a finite map from words to counts, grown only by `++dict[word]`.
 */
module Counts {

  type Dict = map<string, nat>

  /** The count of `w`: what `dict[w]` reads, zero for an absent key. */
  function Get(d: Dict, w: string): nat {
    if w in d then d[w] else 0
  }

  /** `++dict[w]`: `operator[]` inserts a zero count for a missing key, then it is incremented. */
  function Inc(d: Dict, w: string): (r: Dict)
    ensures r.Keys == d.Keys + {w}
    ensures Get(r, w) == Get(d, w) + 1
    ensures forall v :: v != w ==> Get(r, v) == Get(d, v)
  {
    d[w := Get(d, w) + 1]
  }

  /** Apply `++dict[w]` to each word of `ws`, left to right. */
  function AddAll(d: Dict, ws: seq<string>): (r: Dict)
    ensures r.Keys == d.Keys + (set w | w in ws)
    ensures forall w :: Get(d, w) <= Get(r, w)
    decreases |ws|
  {
    if ws == [] then d else AddAll(Inc(d, ws[0]), ws[1..])
  }

  /** The store a fresh map ends with after counting `ws`. */
  function Histogram(ws: seq<string>): (r: Dict)
    ensures forall w :: Get(r, w) == multiset(ws)[w]
  {
    AddAllSpec(map[], ws);
    AddAll(map[], ws)
  }

  /** Sum of all counts in the store. */
  ghost function Total(d: Dict): nat
    decreases d.Keys
  {
    if d.Keys == {} then 0
    else
      var k :| k in d.Keys;
      d[k] + Total(d - {k})
  }

  /** The sum does not depend on which key is taken out first. */
  lemma {:induction false} TotalRemove(d: Dict, k: string)
    requires k in d
    ensures Total(d) == d[k] + Total(d - {k})
    decreases d.Keys
  {
    var j :| j in d.Keys && Total(d) == d[j] + Total(d - {j});
    if j != k {
      var dj := d - {j};
      var dk := d - {k};
      TotalRemove(dj, k);
      TotalRemove(dk, j);
      assert dj - {k} == dk - {j};
    }
  }

  /** One `++dict[w]` raises the sum of counts by exactly one. */
  lemma TotalInc(d: Dict, w: string)
    ensures Total(Inc(d, w)) == Total(d) + 1
  {
    var r := Inc(d, w);
    TotalRemove(r, w);
    if w in d {
      TotalRemove(d, w);
      assert r - {w} == d - {w};
    } else {
      assert r - {w} == d;
    }
  }

  /**
   Counting `ws` into `d`: every count grows by the number of occurrences of
   its word in `ws`, the keys grow by the words of `ws`, and the sum of counts
   grows by `|ws|`.
   */
  lemma {:induction false} AddAllSpec(d: Dict, ws: seq<string>)
    ensures forall w :: Get(AddAll(d, ws), w) == Get(d, w) + multiset(ws)[w]
    ensures forall w :: w in AddAll(d, ws) <==> w in d || w in ws
    ensures Total(AddAll(d, ws)) == Total(d) + |ws|
    ensures (forall w :: w in d ==> d[w] > 0) ==> forall w :: w in AddAll(d, ws) ==> AddAll(d, ws)[w] > 0
    decreases |ws|
  {
    if ws != [] {
      AddAllSpec(Inc(d, ws[0]), ws[1..]);
      TotalInc(d, ws[0]);
      assert ws == [ws[0]] + ws[1..];
      assert multiset(ws) == multiset{ws[0]} + multiset(ws[1..]);
    }
  }

  /**
   The store after counting `ws` holds, for each word, exactly its number of
   occurrences; its keys are exactly the words that occur; every stored count
   is positive; and the counts sum to the number of words counted.
   */
  lemma HistogramSpec(ws: seq<string>)
    ensures forall w :: Get(Histogram(ws), w) == multiset(ws)[w]
    ensures forall w :: w in Histogram(ws) <==> w in ws
    ensures forall w :: w in Histogram(ws) ==> Histogram(ws)[w] > 0
    ensures Total(Histogram(ws)) == |ws|
  {
    AddAllSpec(map[], ws);
  }

  /** The store after counting `ws` is any map that has the words of `ws` as keys and their multiplicities as counts. */
  lemma HistogramIs(ws: seq<string>, m: Dict)
    requires forall w :: w in m <==> w in ws
    requires forall w :: w in m ==> m[w] == multiset(ws)[w]
    ensures Histogram(ws) == m
  {
    HistogramSpec(ws);
    assert Histogram(ws).Keys == m.Keys;
  }
}
