/**
 The trie-based frequency store: `TrieNode` with 26 child slots indexed by
 `ch - 'a'`, an `isWord` flag and a `count`, and the fold of `insert` over a
 token stream in `frequencyDictStreamTrie`.

 The tree is an immutable value: a missing child (`nullptr`) is `Null`, an
 owned child is `Ptr(node)`. `insert` walks from the receiver, creating
 missing children, marks the node it ends on as a word, and increments the
 RECEIVER's count (line 43 increments the member `count` of `this`, not of
 the node reached). `Insert` models exactly that. `InsertCounted` is the
 evidently intended variant that counts at the node reached; it is the one
 whose counts agree with the hash-based store.
 */
module Trie {
  import opened Ascii
  import opened Counts
  import Stream

  /** Number of child slots per node, one per lowercase letter. */
  const AlphabetSize: nat := 26

  /** A child slot: empty (`nullptr`) or owning a node. */
  datatype Slot = Null | Ptr(node: Node)

  /** One trie node: its child slots, its occurrence counter and its end-of-word flag. */
  datatype Node = Node(children: seq<Slot>, count: nat, isWord: bool)

  /** A fresh node as the constructor makes it: all slots empty, count zero, not a word. */
  function Empty(): (t: Node)
    ensures |t.children| == AlphabetSize
    ensures forall i :: 0 <= i < |t.children| ==> t.children[i] == Null
    ensures t.count == 0 && !t.isWord
  {
    Node(seq(AlphabetSize, _ => Null), 0, false)
  }

  /** Every node of the tree has exactly 26 slots. */
  predicate Valid(t: Node)
    decreases t
  {
    && |t.children| == AlphabetSize
    && forall i :: 0 <= i < |t.children| ==> t.children[i].Ptr? ==> Valid(t.children[i].node)
  }

  /** The slot index of a character: `ch - 'a'`. */
  function Index(c: char): (i: int)
    ensures 0 <= i < AlphabetSize <==> IsLowerLetter(c)
    ensures IsLowerLetter(c) ==> c == (i + 'a' as int) as char
  {
    c as int - 'a' as int
  }

  /** The slot reached by following the letters of `p` from `t`; `Null` when the path leaves the tree. */
  function Find(t: Node, p: string): Slot
    decreases |p|
  {
    if p == [] then Ptr(t)
    else
      var i := Index(p[0]);
      if 0 <= i < |t.children| && t.children[i].Ptr? then Find(t.children[i].node, p[1..]) else Null
  }

  /** The counter of the node in a slot, zero for an empty slot. */
  function SlotCount(s: Slot): nat {
    if s.Ptr? then s.node.count else 0
  }

  /** The word flag of the node in a slot, false for an empty slot. */
  predicate SlotIsWord(s: Slot) {
    s.Ptr? && s.node.isWord
  }

  /** A fresh node has only itself: no path below it, no count, no word. */
  lemma FindEmpty(p: string)
    ensures Valid(Empty())
    ensures SlotCount(Find(Empty(), p)) == 0
    ensures !SlotIsWord(Find(Empty(), p))
    ensures Find(Empty(), p).Ptr? <==> p == []
  {
  }

  /**
   The walk of `insert` from node `t` along `key`: missing children are
   created, existing ones are followed, and the node reached is marked as a
   word and its counter raised by `bump`.
   */
  function InsertPath(t: Node, key: string, bump: nat): (r: Node)
    requires Valid(t) && IsLowerWord(key)
    ensures Valid(r)
    ensures r.count == t.count + (if key == [] then bump else 0)
    ensures r.isWord == (key == [] || t.isWord)
    ensures key != [] ==> r.children[Index(key[0])].Ptr?
    decreases |key|
  {
    if key == [] then t.(isWord := true, count := t.count + bump)
    else
      var i := Index(key[0]);
      var child := if t.children[i].Ptr? then t.children[i].node else Empty();
      t.(children := t.children[i := Ptr(InsertPath(child, key[1..], bump))])
  }

  /** `p <= key` and `key` start with the same letter: the prefix relation moves one letter down. */
  lemma PrefixStep(p: string, key: string)
    requires p != [] && key != [] && p[0] == key[0]
    ensures p <= key <==> p[1..] <= key[1..]
  {
  }

  /**
   The walk creates or reuses a node for every prefix of `key`, marks the node
   at `key` as a word, adds `bump` to that node's count only, and leaves every
   path that is not a prefix of `key` (the other subtrees, and everything below
   the node at `key`) exactly as it was.
   */
  lemma {:induction false} InsertPathSpec(t: Node, key: string, bump: nat)
    requires Valid(t) && IsLowerWord(key)
    ensures forall p :: !(p <= key) ==> Find(InsertPath(t, key, bump), p) == Find(t, p)
    ensures forall p :: p <= key ==>
      && Find(InsertPath(t, key, bump), p).Ptr?
      && Find(InsertPath(t, key, bump), p).node.count == SlotCount(Find(t, p)) + (if p == key then bump else 0)
      && Find(InsertPath(t, key, bump), p).node.isWord == (p == key || SlotIsWord(Find(t, p)))
    decreases |key|
  {
    var r := InsertPath(t, key, bump);
    if key == [] {
      forall p | p != []
        ensures Find(r, p) == Find(t, p)
      {
      }
    } else {
      var i := Index(key[0]);
      var child := if t.children[i].Ptr? then t.children[i].node else Empty();
      var rest := key[1..];
      assert IsLowerWord(rest);
      var nc := InsertPath(child, rest, bump);
      InsertPathSpec(child, rest, bump);
      assert r.children == t.children[i := Ptr(nc)];
      forall p | p != []
        ensures !(p <= key) ==> Find(r, p) == Find(t, p)
        ensures p <= key ==>
          && Find(r, p).Ptr?
          && Find(r, p).node.count == SlotCount(Find(t, p)) + (if p == key then bump else 0)
          && Find(r, p).node.isWord == (p == key || SlotIsWord(Find(t, p)))
      {
        if p[0] != key[0] {
          assert !(p <= key);
          var j := Index(p[0]);
          assert j != i;
        } else {
          PrefixStep(p, key);
          var q := p[1..];
          assert Find(r, p) == Find(nc, q);
          assert p == key <==> q == rest;
          if t.children[i].Ptr? {
            assert Find(t, p) == Find(child, q);
          } else {
            assert Find(t, p) == Null;
            FindEmpty(q);
          }
        }
      }
    }
  }

  /**
   `TrieNode::insert` as written: requires every character of `key` to be a
   lowercase letter (so that `ch - 'a'` is a slot index). Afterwards every
   prefix of `key` has a node, the node at `key` is a word, existing nodes
   are reused with their counts and flags, every other path is unchanged,
   and only the receiver's count grows, by one.
   */
  function Insert(t: Node, key: string): (r: Node)
    requires Valid(t) && IsLowerWord(key)
    ensures Valid(r)
    ensures r.count == t.count + 1
    ensures SlotIsWord(Find(r, key))
    ensures forall p :: !(p <= key) ==> Find(r, p) == Find(t, p)
    ensures forall p :: p <= key ==>
      && Find(r, p).Ptr?
      && Find(r, p).node.isWord == (p == key || SlotIsWord(Find(t, p)))
    ensures forall p :: p <= key && p != [] ==> Find(r, p).node.count == SlotCount(Find(t, p))
  {
    var w := InsertPath(t, key, 0);
    InsertPathSpec(t, key, 0);
    var r := w.(count := w.count + 1);
    assert forall p :: p != [] ==> Find(r, p) == Find(w, p);
    r
  }

  /**
   The evidently intended insert: the same walk, but the count of the node
   reached at `key` is incremented, so each node counts the words ending at it.
   */
  function InsertCounted(t: Node, key: string): (r: Node)
    requires Valid(t) && IsLowerWord(key)
    ensures Valid(r)
    ensures forall p :: SlotCount(Find(r, p)) == SlotCount(Find(t, p)) + (if p == key then 1 else 0)
    ensures forall p :: SlotIsWord(Find(r, p)) <==> p == key || SlotIsWord(Find(t, p))
    ensures forall p :: Find(r, p).Ptr? <==> Find(t, p).Ptr? || p <= key
  {
    InsertPathSpec(t, key, 1);
    InsertPath(t, key, 1)
  }

  /** Every word of `ws` is a valid trie key. */
  predicate AllLowerWords(ws: seq<string>) {
    forall i :: 0 <= i < |ws| ==> IsLowerWord(ws[i])
  }

  /** Insert the words of `ws` into `t` with `TrieNode::insert`, first word first. */
  function InsertAll(t: Node, ws: seq<string>): (r: Node)
    requires Valid(t) && AllLowerWords(ws)
    ensures Valid(r)
    ensures r.count == t.count + |ws|
    decreases |ws|
  {
    if ws == [] then t
    else Insert(InsertAll(t, ws[..|ws| - 1]), ws[|ws| - 1])
  }

  /**
   After inserting `ws` with `TrieNode::insert`: no node below the receiver
   changes its count, the word nodes are the old ones plus exactly the words
   of `ws`, and the nodes are the old ones plus exactly the prefixes of the
   words of `ws`.
   */
  lemma {:induction false} InsertAllSpec(t: Node, ws: seq<string>)
    requires Valid(t) && AllLowerWords(ws)
    ensures forall p :: p != [] ==> SlotCount(Find(InsertAll(t, ws), p)) == SlotCount(Find(t, p))
    ensures forall p :: SlotIsWord(Find(InsertAll(t, ws), p)) <==> SlotIsWord(Find(t, p)) || p in ws
    ensures forall p :: Find(InsertAll(t, ws), p).Ptr? <==>
      Find(t, p).Ptr? || exists j :: 0 <= j < |ws| && p <= ws[j]
    decreases |ws|
  {
    if ws != [] {
      var n := |ws| - 1;
      var front := ws[..n];
      InsertAllSpec(t, front);
      var u := InsertAll(t, front);
      var r := Insert(u, ws[n]);
      assert ws == front + [ws[n]];
      forall p
        ensures p != [] ==> SlotCount(Find(r, p)) == SlotCount(Find(t, p))
        ensures SlotIsWord(Find(r, p)) <==> SlotIsWord(Find(t, p)) || p in ws
        ensures Find(r, p).Ptr? <==> Find(t, p).Ptr? || exists j :: 0 <= j < |ws| && p <= ws[j]
      {
        assert p in ws <==> p in front || p == ws[n];
        if p <= ws[n] {
          assert 0 <= n < |ws| && p <= ws[n];
        } else {
          assert (exists j :: 0 <= j < |ws| && p <= ws[j]) <==> (exists j :: 0 <= j < |front| && p <= front[j]) by {
            if exists j :: 0 <= j < |ws| && p <= ws[j] {
              var j :| 0 <= j < |ws| && p <= ws[j];
              assert j < n && front[j] == ws[j];
            }
          }
        }
      }
    }
  }

  /**
   `frequencyDictStreamTrie`: lowercase each token and insert it into a fresh
   root. Every token must consist of ASCII letters, or `ch - 'a'` leaves the
   26 slots. The root's count is the number of tokens.
   */
  function FrequencyDictStreamTrie(tokens: seq<string>): (t: Node)
    requires forall i :: 0 <= i < |tokens| ==> IsLetters(tokens[i])
    ensures Valid(t)
    ensures t.count == |tokens|
  {
    var ws := Stream.LowerAll(tokens);
    assert AllLowerWords(ws) by {
      forall i | 0 <= i < |ws|
        ensures IsLowerWord(ws[i])
      {
        LowerProperties(tokens[i]);
      }
    }
    InsertAll(Empty(), ws)
  }

  /**
   The trie built from a token stream: the root counts every token, no other
   node counts anything, the word nodes are exactly the lowercased tokens, and
   the nodes are exactly the root and the prefixes of the lowercased tokens.
   */
  lemma FrequencyDictStreamTrieSpec(tokens: seq<string>)
    requires forall i :: 0 <= i < |tokens| ==> IsLetters(tokens[i])
    ensures FrequencyDictStreamTrie(tokens).count == |tokens|
    ensures forall p :: p != [] ==> SlotCount(Find(FrequencyDictStreamTrie(tokens), p)) == 0
    ensures forall p :: SlotIsWord(Find(FrequencyDictStreamTrie(tokens), p)) <==> p in Stream.LowerAll(tokens)
    ensures forall p :: Find(FrequencyDictStreamTrie(tokens), p).Ptr? <==>
      p == [] || exists j :: 0 <= j < |tokens| && p <= Lower(tokens[j])
  {
    var ws := Stream.LowerAll(tokens);
    forall i | 0 <= i < |ws|
      ensures IsLowerWord(ws[i])
    {
      LowerProperties(tokens[i]);
    }
    InsertAllSpec(Empty(), ws);
    forall p
      ensures SlotCount(Find(Empty(), p)) == 0
      ensures !SlotIsWord(Find(Empty(), p))
      ensures Find(Empty(), p).Ptr? <==> p == []
    {
      FindEmpty(p);
    }
  }

  /** Insert the words of `ws` into `t` with the counting insert, first word first. */
  function InsertAllCounted(t: Node, ws: seq<string>): (r: Node)
    requires Valid(t) && AllLowerWords(ws)
    ensures Valid(r)
    decreases |ws|
  {
    if ws == [] then t
    else InsertCounted(InsertAllCounted(t, ws[..|ws| - 1]), ws[|ws| - 1])
  }

  /** With the counting insert, every node's count grows by the occurrences of its word in `ws`. */
  lemma {:induction false} InsertAllCountedSpec(t: Node, ws: seq<string>)
    requires Valid(t) && AllLowerWords(ws)
    ensures forall p :: SlotCount(Find(InsertAllCounted(t, ws), p)) == SlotCount(Find(t, p)) + multiset(ws)[p]
    decreases |ws|
  {
    if ws != [] {
      var n := |ws| - 1;
      InsertAllCountedSpec(t, ws[..n]);
      assert ws == ws[..n] + [ws[n]];
      assert multiset(ws) == multiset(ws[..n]) + multiset{ws[n]};
    }
  }

  /** `frequencyDictStreamTrie` with the counting insert. */
  function FrequencyDictStreamTrieCounted(tokens: seq<string>): (t: Node)
    requires forall i :: 0 <= i < |tokens| ==> IsLetters(tokens[i])
    ensures Valid(t)
  {
    var ws := Stream.LowerAll(tokens);
    assert AllLowerWords(ws) by {
      forall i | 0 <= i < |ws|
        ensures IsLowerWord(ws[i])
      {
        LowerProperties(tokens[i]);
      }
    }
    InsertAllCounted(Empty(), ws)
  }

  /**
   Store equivalence for the counting trie: for every word, the count at its
   node (zero when there is none) equals its count in the hash-based store
   built from the same tokens.
   */
  lemma StoresAgree(tokens: seq<string>)
    requires forall i :: 0 <= i < |tokens| ==> IsLetters(tokens[i])
    ensures forall p :: SlotCount(Find(FrequencyDictStreamTrieCounted(tokens), p)) == Get(Stream.FrequencyDictStream(tokens), p)
  {
    var ws := Stream.LowerAll(tokens);
    forall i | 0 <= i < |ws|
      ensures IsLowerWord(ws[i])
    {
      LowerProperties(tokens[i]);
    }
    InsertAllCountedSpec(Empty(), ws);
    forall p
      ensures SlotCount(Find(Empty(), p)) == 0
    {
      FindEmpty(p);
    }
  }

  /**
   The trie as written loses per-word counts: after the token "a" the hash
   store counts "a" once, while the node for "a" counts zero (the count went
   to the root).
   */
  lemma RootCountLosesWordCounts()
    ensures SlotCount(Find(FrequencyDictStreamTrie(["a"]), "a")) == 0
    ensures Get(Stream.FrequencyDictStream(["a"]), "a") == 1
    ensures SlotCount(Find(FrequencyDictStreamTrieCounted(["a"]), "a")) == 1
  {
  }
}
