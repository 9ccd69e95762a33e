/** The archiver's coder: it compresses one file into an archive entry (frequency count,
    Huffman tree, canonical codes, header, coded name and contents) and reads such an
    entry back. The coder object has no state of its own, so its operations are methods
    of this module over the reader, writer and bit register they are handed. */
module HuffmanCoding {
  import opened Bits
  import opened BitHandler
  import opened PriorityQueue
  import opened Trie
  import opened Canonical
  import opened Format

  /** The count stored for `s`, or 0 when there is none (what `operator[]` reads). */
  function Get(m: map<int, nat>, s: int): nat
  {
    if s in m then m[s] else 0
  }

  /** The frequency map after adding one occurrence of each of `syms`, in order, to `m`. */
  function Tally(m: map<int, nat>, syms: seq<int>): map<int, nat>
  {
    if syms == [] then m
    else
      var r := Tally(m, syms[..|syms| - 1]);
      r[syms[|syms| - 1] := Get(r, syms[|syms| - 1]) + 1]
  }

  /** Tallying adds to each symbol's count the number of times it occurs, and keys exactly
      the symbols counted before or seen now. */
  lemma {:induction false} TallyCounts(m: map<int, nat>, syms: seq<int>)
    ensures forall s :: s in Tally(m, syms) <==> s in m || s in syms
    ensures forall s :: Get(Tally(m, syms), s) == Get(m, s) + multiset(syms)[s]
  {
    if syms != [] {
      var init := syms[..|syms| - 1];
      TallyCounts(m, init);
      assert syms == init + [syms[|syms| - 1]];
    }
  }

  /** Tallying one more symbol adds one to its count. */
  lemma {:induction false} TallySnoc(m: map<int, nat>, syms: seq<int>, x: int)
    ensures Tally(m, syms + [x]) == Tally(m, syms)[x := Get(Tally(m, syms), x) + 1]
  {
    assert (syms + [x])[..|syms|] == syms;
  }

  /** Counts every byte from the reader's position to the end of the file into
      `symbolFrequency`. */
  method CountFrequencies(reader: BitReader, symbolFrequency: map<int, nat>) returns (result: map<int, nat>)
    requires reader.Valid() && reader.consumed <= |reader.source|
    modifies reader, reader.buffer
    ensures reader.Valid() && reader.buffer == old(reader.buffer)
    ensures reader.consumed == |reader.source|
    ensures result == Tally(symbolFrequency, old(reader.Remaining()))
  {
    ghost var start := reader.consumed;
    ghost var seen: seq<byte> := [];
    result := symbolFrequency;
    while !reader.Empty()
      invariant reader.Valid() && reader.buffer == old(reader.buffer)
      invariant start <= reader.consumed <= |reader.source|
      invariant seen == reader.source[start..reader.consumed]
      invariant result == Tally(symbolFrequency, seen)
      decreases |reader.source| - reader.consumed
    {
      result, seen := CountByte(reader, symbolFrequency, result, start, seen);
    }
    assert reader.source[start..reader.consumed] == old(reader.Remaining());
  }

  /** One round of the counting loop: the next byte of the file is counted. */
  method CountByte(reader: BitReader, symbolFrequency: map<int, nat>, result: map<int, nat>,
                   ghost start: nat, ghost seen: seq<byte>) returns (result': map<int, nat>, ghost seen': seq<byte>)
    requires reader.Valid() && start <= reader.consumed < |reader.source|
    requires seen == reader.source[start..reader.consumed] && result == Tally(symbolFrequency, seen)
    modifies reader, reader.buffer
    ensures reader.Valid() && reader.buffer == old(reader.buffer) && reader.consumed == old(reader.consumed) + 1
    ensures seen' == reader.source[start..reader.consumed] && result' == Tally(symbolFrequency, seen')
  {
    ghost var at := reader.consumed;
    var symbol := reader.ReadNext();
    SliceSnoc(reader.source, start, at);
    TallySnoc(symbolFrequency, seen, symbol);
    seen' := seen + [symbol];
    result' := result[symbol := Get(result, symbol) + 1];
  }

  /** Every tree of the forest has its inner nodes' fields right. */
  ghost predicate WellFormedForest(h: seq<TrieNode>)
  {
    forall x :: x in multiset(h) ==> WellFormed(x)
  }

  /** Adding a new leaf to the forest adds its symbol to the forest's leaves. */
  lemma {:induction false} LeafAdded(before: seq<TrieNode>, after: seq<TrieNode>, syms: seq<int>, s: int, f: nat)
    requires WellFormedForest(before) && ForestLeaves(before) == multiset(syms)
    requires multiset(after) == multiset(before) + multiset{Leaf(s, f)}
    ensures WellFormedForest(after) && ForestLeaves(after) == multiset(syms + [s])
  {
    ForestInsert(before, after, Leaf(s, f));
  }

  /** Replacing the two trees taken out by their merge keeps the forest's leaves. */
  lemma {:induction false} MergeKeepsForest(h0: seq<TrieNode>, h1: seq<TrieNode>, h2: seq<TrieNode>, h3: seq<TrieNode>,
                         a: TrieNode, b: TrieNode)
    requires WellFormedForest(h0)
    requires a in multiset(h0) && multiset(h1) == multiset(h0) - multiset{a}
    requires b in multiset(h1) && multiset(h2) == multiset(h1) - multiset{b}
    requires multiset(h3) == multiset(h2) + multiset{MergeTries(a, b)}
    ensures WellFormedForest(h3) && ForestLeaves(h3) == ForestLeaves(h0)
  {
    MergeWellFormed(h0, h1, h2, h3, a, b);
    ForestExtract(h0, h1, a);
    ForestExtract(h1, h2, b);
    ForestInsert(h2, h3, MergeTries(a, b));
  }

  /** The merge of two well-formed trees of the forest, put back in their place, leaves
      every tree well formed. */
  lemma {:induction false} MergeWellFormed(h0: seq<TrieNode>, h1: seq<TrieNode>, h2: seq<TrieNode>, h3: seq<TrieNode>,
                                           a: TrieNode, b: TrieNode)
    requires WellFormedForest(h0)
    requires a in multiset(h0) && multiset(h1) == multiset(h0) - multiset{a}
    requires b in multiset(h1) && multiset(h2) == multiset(h1) - multiset{b}
    requires multiset(h3) == multiset(h2) + multiset{MergeTries(a, b)}
    ensures WellFormedForest(h3)
  {
    assert b in multiset(h0);
    var m := MergeTries(a, b);
    forall x | x in multiset(h3)
      ensures WellFormed(x)
    {
      if x != m {
        assert x in multiset(h2) && x in multiset(h1) && x in multiset(h0);
      }
    }
  }

  /** When one tree is left it holds all the leaves; with two leaves or more it is not a leaf. */
  lemma {:induction false} LastTree(h: seq<TrieNode>, syms: seq<int>)
    requires |h| == 1 && WellFormedForest(h) && ForestLeaves(h) == multiset(syms)
    ensures WellFormed(h[0]) && LeafSymbols(h[0]) == multiset(syms)
    ensures |syms| > 1 ==> h[0].Inner?
  {
    assert h[1..] == [];
    assert h[0] in multiset(h);
    assert |multiset(syms)| == |syms|;
  }

  /** The leaves of the map's symbols not in `keys`, each carrying its frequency. */
  ghost function PlantedExcept(symbolFrequency: map<int, nat>, keys: set<int>): multiset<TrieNode>
  {
    multiset(set s | s in symbolFrequency && s !in keys :: Leaf(s, symbolFrequency[s]))
  }

  /** The forest SetCodeLengths starts from: one leaf per symbol, carrying its frequency. */
  ghost function Planted(symbolFrequency: map<int, nat>): (r: multiset<TrieNode>)
    ensures forall s :: s in symbolFrequency ==> Leaf(s, symbolFrequency[s]) in r
    ensures |symbolFrequency| > 0 ==> |r| > 0
  {
    PlantedLeaves(symbolFrequency);
    PlantedExcept(symbolFrequency, {})
  }

  lemma {:induction false} PlantedLeaves(m: map<int, nat>)
    ensures forall s :: s in m ==> Leaf(s, m[s]) in PlantedExcept(m, {})
    ensures |m| > 0 ==> |PlantedExcept(m, {})| > 0
  {
    var a := set t | t in m && t !in {} :: Leaf(t, m[t]);
    forall s | s in m
      ensures Leaf(s, m[s]) in PlantedExcept(m, {})
    {
      assert Leaf(s, m[s]) in a;
    }
    if |m| > 0 {
      assert m.Keys != {};
      var k :| k in m;
      assert Leaf(k, m[k]) in PlantedExcept(m, {});
    }
  }

  /** Planting one more symbol adds exactly its leaf to the forest. */
  lemma {:induction false} PlantedStep(m: map<int, nat>, keys: set<int>, s: int)
    requires s in keys && keys <= m.Keys
    ensures PlantedExcept(m, keys - {s}) == PlantedExcept(m, keys) + multiset{Leaf(s, m[s])}
  {
    var a := set t | t in m && t !in keys :: Leaf(t, m[t]);
    var b := set t | t in m && t !in keys - {s} :: Leaf(t, m[t]);
    assert b == a + {Leaf(s, m[s])};
    assert Leaf(s, m[s]) !in a;
  }

  /** `a` is a tree of the forest that no tree of it precedes in the heap order. */
  ghost predicate IsLeast(a: TrieNode, f: multiset<TrieNode>)
  {
    a in f && forall x :: x in f ==> !TrieNodeLess(x, a)
  }

  /** Every non-empty forest has a least tree. */
  lemma {:induction false} LeastExists(f: multiset<TrieNode>)
    requires |f| > 0
    ensures exists a :: IsLeast(a, f)
    decreases |f|
  {
    var y :| y in f;
    var rest := f - multiset{y};
    if |rest| == 0 {
      assert f == rest + multiset{y} && rest == multiset{};
      assert IsLeast(y, f);
    } else {
      LeastExists(rest);
      var m :| IsLeast(m, rest);
      if TrieNodeLess(y, m) {
        forall x | x in f
          ensures !TrieNodeLess(x, y)
        {
          if x != y {
            assert x in rest;
          }
        }
        assert IsLeast(y, f);
      } else {
        forall x | x in f
          ensures !TrieNodeLess(x, m)
        {
          if x != y {
            assert x in rest;
          }
        }
        assert IsLeast(m, f);
      }
    }
  }

  /** A least tree of a non-empty forest. */
  ghost function Least(f: multiset<TrieNode>): (a: TrieNode)
    requires |f| > 0
    ensures IsLeast(a, f)
  {
    LeastExists(f);
    var a :| IsLeast(a, f);
    a
  }

  /** The greedy Huffman construction: while two trees or more are left, the least and
      then the least of the others are replaced by their merge. */
  ghost function Greedy(f: multiset<TrieNode>): TrieNode
    requires |f| > 0
    decreases |f|
  {
    var a := Least(f);
    if |f| == 1 then a
    else
      var rest := f - multiset{a};
      var b := Least(rest);
      Greedy(rest - multiset{b} + multiset{MergeTries(a, b)})
  }

  /** A single tree is the end of the merging. */
  lemma {:induction false} GreedyOne(x: TrieNode)
    ensures Greedy(multiset{x}) == x
  {
    assert Least(multiset{x}) in multiset{x};
  }

  /** Trees of the forest with the same symbol are the same tree. */
  ghost predicate Apart(f: multiset<TrieNode>)
  {
    forall x, y :: x in f && y in f && x.symbol == y.symbol ==> x == y
  }

  /** In a forest whose trees have distinct symbols, the least tree is unique. */
  lemma {:induction false} LeastUnique(f: multiset<TrieNode>, a: TrieNode)
    requires Apart(f) && IsLeast(a, f)
    ensures Least(f) == a
  {
    var l := Least(f);
    assert !TrieNodeLess(l, a) && !TrieNodeLess(a, l);
    assert l.symbol == a.symbol;
  }

  /** Merging the least tree with the least of the others is the greedy construction's
      first step, whatever positions the two trees held. */
  lemma {:induction false} GreedyStep(f: multiset<TrieNode>, a: TrieNode, b: TrieNode)
    requires Apart(f) && |f| >= 2 && IsLeast(a, f) && IsLeast(b, f - multiset{a})
    ensures Greedy(f) == Greedy(f - multiset{a} - multiset{b} + multiset{MergeTries(a, b)})
  {
    LeastUnique(f, a);
    var rest := f - multiset{a};
    assert Apart(rest) by {
      forall x, y | x in rest && y in rest && x.symbol == y.symbol
        ensures x == y
      {
        assert x in f && y in f;
      }
    }
    LeastUnique(rest, b);
  }

  /** A well-formed tree's symbol is one of its leaves. */
  lemma {:induction false} SymbolIsLeaf(t: TrieNode)
    requires WellFormed(t)
    ensures t.symbol in LeafSymbols(t)
  {
    MinLeafIn(t);
  }

  lemma {:induction false} MinLeafIn(t: TrieNode)
    ensures MinLeafSymbol(t) in LeafSymbols(t)
  {
    if t.Inner? {
      MinLeafIn(t.left);
      MinLeafIn(t.right);
    }
  }

  /** In a forest of well-formed trees whose leaves are distinct symbols, two trees with
      the same symbol are the same tree. */
  lemma {:induction false} ForestApart(h: seq<TrieNode>, syms: seq<int>)
    requires WellFormedForest(h) && ForestLeaves(h) == multiset(syms) && Distinct(syms)
    ensures Apart(multiset(h))
  {
    forall x, y | x in multiset(h) && y in multiset(h) && x.symbol == y.symbol
      ensures x == y
    {
      if x != y {
        var i :| 0 <= i < |h| && h[i] == x;
        var rest := ForestRemove(h, i);
        assert y in multiset(rest);
        var j :| 0 <= j < |rest| && rest[j] == y;
        var rest2 := ForestRemove(rest, j);
        SymbolIsLeaf(x);
        SymbolIsLeaf(y);
        assert ForestLeaves(h)[x.symbol] >= 2;
        DistinctCount(syms, x.symbol);
        assert false;
      }
    }
  }

  /** The first half of building the tree: one leaf per symbol of the map, each with its
      frequency, goes into the queue; `trieNodes` lists their symbols in the order taken. */
  method PlantLeaves(priorityQueue: PriorityQueue<TrieNode>, symbolFrequency: map<int, nat>)
    returns (trieNodes: seq<int>)
    requires priorityQueue.Valid() && priorityQueue.heap == []
    modifies priorityQueue
    ensures priorityQueue.Valid()
    ensures WellFormedForest(priorityQueue.heap) && ForestLeaves(priorityQueue.heap) == multiset(trieNodes)
    ensures |priorityQueue.heap| == |trieNodes| == |symbolFrequency| && Distinct(trieNodes)
    ensures forall s :: s in trieNodes <==> s in symbolFrequency
    ensures multiset(priorityQueue.heap) == Planted(symbolFrequency)
  {
    trieNodes := [];
    var keys := symbolFrequency.Keys;
    assert (set s | s in symbolFrequency && s !in keys :: Leaf(s, symbolFrequency[s])) == {};
    while keys != {}
      invariant priorityQueue.Valid()
      invariant Planting(priorityQueue.heap, symbolFrequency, keys, trieNodes)
      decreases |keys|
    {
      ghost var some := Member(keys);
      var symbol :| symbol in keys;
      var newNode := Leaf(symbol, symbolFrequency[symbol]);
      ghost var before := priorityQueue.heap;
      priorityQueue.Insert(newNode);
      PlantingStep(before, priorityQueue.heap, symbolFrequency, keys, trieNodes, symbol);
      trieNodes := trieNodes + [symbol];
      keys := keys - {symbol};
    }
  }

  /** PlantLeaves part way: the leaves of the symbols outside `keys` are queued, and
      `trieNodes` lists those symbols once each. */
  ghost predicate Planting(h: seq<TrieNode>, symbolFrequency: map<int, nat>, keys: set<int>, trieNodes: seq<int>)
  {
    && keys <= symbolFrequency.Keys
    && multiset(h) == PlantedExcept(symbolFrequency, keys)
    && WellFormedForest(h) && ForestLeaves(h) == multiset(trieNodes)
    && |h| == |trieNodes| && |trieNodes| + |keys| == |symbolFrequency|
    && Distinct(trieNodes)
    && forall s :: s in trieNodes <==> s in symbolFrequency && s !in keys
  }

  /** Queueing the leaf of one more symbol of `keys` keeps PlantLeaves' record. */
  lemma {:induction false} PlantingStep(before: seq<TrieNode>, after: seq<TrieNode>, symbolFrequency: map<int, nat>,
                                        keys: set<int>, trieNodes: seq<int>, s: int)
    requires Planting(before, symbolFrequency, keys, trieNodes) && s in keys
    requires multiset(after) == multiset(before) + multiset{Leaf(s, symbolFrequency[s])}
    ensures Planting(after, symbolFrequency, keys - {s}, trieNodes + [s])
  {
    LeafAdded(before, after, trieNodes, s, symbolFrequency[s]);
    PlantedStep(symbolFrequency, keys, s);
    assert |after| == |multiset(after)| == |before| + 1;
    var t := trieNodes + [s];
    forall i, j | 0 <= i < j < |t|
      ensures t[i] != t[j]
    {
      if j == |t| - 1 {
        assert t[i] in trieNodes;
      }
    }
  }

  /** The second half of building the tree: while two trees or more are queued, the two
      least are taken out and their merge is put back; the leaves of the forest stay the same. */
  method MergeLeast(priorityQueue: PriorityQueue<TrieNode>, ghost syms: seq<int>)
    requires priorityQueue.Valid() && priorityQueue.less == TrieNodeLess && |priorityQueue.heap| >= 1
    requires WellFormedForest(priorityQueue.heap) && ForestLeaves(priorityQueue.heap) == multiset(syms)
    requires Distinct(syms)
    modifies priorityQueue
    ensures priorityQueue.Valid() && priorityQueue.less == TrieNodeLess && |priorityQueue.heap| == 1
    ensures WellFormedForest(priorityQueue.heap) && ForestLeaves(priorityQueue.heap) == multiset(syms)
    ensures priorityQueue.heap == [Greedy(old(multiset(priorityQueue.heap)))]
  {
    ghost var tree := Greedy(multiset(priorityQueue.heap));
    var size := priorityQueue.Size();
    while size > 1
      invariant priorityQueue.Valid() && priorityQueue.less == TrieNodeLess
      invariant size == |priorityQueue.heap| && Merging(priorityQueue.heap, syms, tree)
      decreases size
    {
      MergeRound(priorityQueue, syms, tree);
      size := priorityQueue.Size();
    }
    assert priorityQueue.heap == [priorityQueue.heap[0]];
    GreedyOne(priorityQueue.heap[0]);
  }

  /** MergeLeast part way: a non-empty queue of well-formed trees over the symbols, whose
      merging ends in `tree`. */
  ghost predicate Merging(h: seq<TrieNode>, syms: seq<int>, tree: TrieNode)
  {
    |h| >= 1 && WellFormedForest(h) && ForestLeaves(h) == multiset(syms) && Greedy(multiset(h)) == tree
  }

  /** One round of MergeLeast: the two least trees are taken out and their merge is put
      back, one tree fewer, the same leaves, and the same tree at the end of the merging. */
  method MergeRound(priorityQueue: PriorityQueue<TrieNode>, ghost syms: seq<int>, ghost tree: TrieNode)
    requires priorityQueue.Valid() && priorityQueue.less == TrieNodeLess && |priorityQueue.heap| >= 2
    requires Merging(priorityQueue.heap, syms, tree) && Distinct(syms)
    modifies priorityQueue
    ensures priorityQueue.Valid() && priorityQueue.less == TrieNodeLess
    ensures |priorityQueue.heap| == old(|priorityQueue.heap|) - 1
    ensures Merging(priorityQueue.heap, syms, tree)
  {
    ForestApart(priorityQueue.heap, syms);
    ghost var h0 := priorityQueue.heap;
    var firstMinNode := priorityQueue.ExtractRoot();
    ghost var h1 := priorityQueue.heap;
    var secondMinNode := priorityQueue.ExtractRoot();
    var mergedNode := MergeTries(firstMinNode, secondMinNode);
    ghost var h2 := priorityQueue.heap;
    priorityQueue.Insert(mergedNode);
    MergeKeepsForest(h0, h1, h2, priorityQueue.heap, firstMinNode, secondMinNode);
    GreedyStep(multiset(h0), firstMinNode, secondMinNode);
  }

  /** With distinct leaf symbols, DFS records a depth for exactly the leaves' symbols. */
  lemma {:induction false} DepthKeys(t: TrieNode, syms: seq<int>)
    requires LeafSymbols(t) == multiset(syms) && Distinct(syms)
    ensures forall s :: s in Depths(t, 0) <==> s in syms
  {
    forall s
      ensures LeafSymbols(t)[s] <= 1
    {
      DistinctCount(syms, s);
    }
    DepthsOfEntries(t, 0);
  }

  /** Adding a map to the empty map gives that map back. */
  lemma EmptyUnion(m: map<int, int>)
    ensures map[] + m == m
  {
  }

  /** Builds the Huffman tree of the symbols' frequencies: one leaf per symbol, then
      repeatedly merges the two least trees (by frequency, then least symbol) until one is
      left, and records the depth of every leaf. `trieNodes` lists the leaves' symbols in
      the order they were created. */
  method SetCodeLengths(symbolFrequency: map<int, nat>)
    returns (codeLength: map<int, int>, trieNodes: seq<int>, ghost tree: TrieNode)
    requires |symbolFrequency| > 0
    ensures WellFormed(tree) && codeLength == Depths(tree, 0)
    ensures LeafSymbols(tree) == multiset(trieNodes) && Distinct(trieNodes)
    ensures |trieNodes| == |symbolFrequency| && forall s :: s in trieNodes <==> s in symbolFrequency
    ensures forall s :: s in codeLength <==> s in trieNodes
    ensures |symbolFrequency| > 1 ==> tree.Inner?
    ensures tree == Greedy(Planted(symbolFrequency))
    ensures codeLength == Depths(Greedy(Planted(symbolFrequency)), 0)
  {
    TrieNodeLessOrder();
    var priorityQueue := new PriorityQueue<TrieNode>(TrieNodeLess);
    assert |priorityQueue.heap| == |priorityQueue.Contents()| == 0;
    trieNodes := PlantLeaves(priorityQueue, symbolFrequency);
    ghost var planted := multiset(priorityQueue.heap);
    assert planted == Planted(symbolFrequency);
    MergeLeast(priorityQueue, trieNodes);
    assert priorityQueue.heap == [Greedy(planted)];
    var root := priorityQueue.GetRoot();
    assert root == Greedy(planted);
    LastTree(priorityQueue.heap, trieNodes);
    codeLength := DFS(0, root, map[]);
    EmptyUnion(Depths(root, 0));
    tree := root;
    DepthKeys(tree, trieNodes);
  }

  /** Gives each entry, taken in canonical order, the next canonical code: the previous
      code plus one, shifted left by the growth in length. */
  method CanonicalWalk(symbolsAndLengths: seq<Entry>) returns (code: map<int, int>)
    requires LengthsFrom(symbolsAndLengths, 0) && DistinctSymbols(symbolsAndLengths)
    ensures forall i :: 0 <= i < |symbolsAndLengths| ==>
              symbolsAndLengths[i].symbol in code && code[symbolsAndLengths[i].symbol] == CanonicalCodes(symbolsAndLengths)[i]
    ensures forall s :: s in code ==> exists i :: 0 <= i < |symbolsAndLengths| && symbolsAndLengths[i].symbol == s
  {
    var es := symbolsAndLengths;
    var currentCode: nat := 0;
    var currentLength := 0;
    code := map[];
    for i := 0 to |es|
      invariant i == 0 ==> currentCode == 0 && currentLength == 0
      invariant i > 0 ==> currentCode == CanonicalCodes(es)[i - 1] + 1 && currentLength == es[i - 1].length
      invariant forall j :: 0 <= j < i ==> es[j].symbol in code && code[es[j].symbol] == CanonicalCodes(es)[j]
      invariant forall s :: s in code ==> exists j :: 0 <= j < i && es[j].symbol == s
    {
      CanonicalStep(es, i);
      currentCode := currentCode * Pow2(es[i].length - currentLength);
      currentLength := es[i].length;
      code := code[es[i].symbol := currentCode];
      currentCode := currentCode + 1;
    }
  }

  /** Puts the leaves in canonical order (by code length, then symbol) and gives each its
      canonical code. */
  method SetCodes(codeLength: map<int, int>, trieNodes: seq<int>)
    returns (sortedNodes: seq<Entry>, code: map<int, int>)
    requires Distinct(trieNodes)
    requires forall i :: 0 <= i < |trieNodes| ==> trieNodes[i] in codeLength && codeLength[trieNodes[i]] >= 0
    ensures sortedNodes == SortEntries(LeafTable(trieNodes, codeLength))
    ensures LengthsFrom(sortedNodes, 0) && DistinctSymbols(sortedNodes)
    ensures forall i :: 0 <= i < |sortedNodes| ==>
              sortedNodes[i].symbol in code && code[sortedNodes[i].symbol] == CanonicalCodes(sortedNodes)[i]
    ensures forall i :: 0 <= i < |sortedNodes| ==>
              sortedNodes[i].symbol in codeLength && codeLength[sortedNodes[i].symbol] == sortedNodes[i].length
    ensures forall s :: s in trieNodes <==> exists i :: 0 <= i < |sortedNodes| && sortedNodes[i].symbol == s
    ensures forall s :: s in code <==> s in trieNodes
  {
    var table := LeafTable(trieNodes, codeLength);
    sortedNodes := SortEntries(table);
    assert DistinctSymbols(table);
    PermutationDistinctSymbols(sortedNodes, table);
    forall i | 0 <= i < |sortedNodes|
      ensures 0 <= sortedNodes[i].length && sortedNodes[i].symbol in trieNodes
      ensures sortedNodes[i].symbol in codeLength && codeLength[sortedNodes[i].symbol] == sortedNodes[i].length
    {
      assert sortedNodes[i] in multiset(table);
    }
    code := CanonicalWalk(sortedNodes);
    forall s | s in trieNodes
      ensures s in code && exists i :: 0 <= i < |sortedNodes| && sortedNodes[i].symbol == s
    {
      var k :| 0 <= k < |trieNodes| && trieNodes[k] == s;
      assert table[k] in multiset(sortedNodes);
      var i :| 0 <= i < |sortedNodes| && sortedNodes[i] == table[k];
    }
  }

  /** Everything the coder has produced so far, as bits: the bytes written plus the bits
      still pending in the register. */
  ghost function Output(writer: BitWriter, bs: BitString): seq<bool>
    reads writer, bs
    requires bs.Valid()
  {
    ByteBits(writer.Written()) + bs.Pending()
  }

  /** Writes one 9-bit header field. */
  method PutField(writer: BitWriter, bs: BitString, value: int)
    requires writer.Valid() && writer.Aligned() && bs.Valid() && 0 <= value < 512
    modifies writer, writer.buffer, bs
    ensures writer.Valid() && writer.Aligned() && writer.buffer == old(writer.buffer) && bs.Valid()
    ensures Output(writer, bs) == old(Output(writer, bs)) + ToBits(ArchivedByte, value)
  {
    bs.Update(writer, ArchivedByte, value);
  }

  /** Writes each entry's symbol as a 9-bit field, in table order. */
  method WriteSymbols(writer: BitWriter, bs: BitString, sortedNodes: seq<Entry>)
    requires writer.Valid() && writer.Aligned() && bs.Valid()
    requires forall i :: 0 <= i < |sortedNodes| ==> 0 <= sortedNodes[i].symbol < 512
    modifies writer, writer.buffer, bs
    ensures writer.Valid() && writer.Aligned() && writer.buffer == old(writer.buffer) && bs.Valid()
    ensures Output(writer, bs) == old(Output(writer, bs)) + SymbolFields(sortedNodes)
  {
    assert sortedNodes[0..] == sortedNodes;
    ghost var goal := Output(writer, bs) + SymbolFields(sortedNodes);
    for i := 0 to |sortedNodes|
      invariant writer.Valid() && writer.Aligned() && writer.buffer == old(writer.buffer) && bs.Valid()
      invariant Output(writer, bs) + SymbolFields(sortedNodes[i..]) == goal
    {
      assert sortedNodes[i..][1..] == sortedNodes[i + 1..];
      ghost var out := Output(writer, bs);
      PutField(writer, bs, sortedNodes[i].symbol);
      Regroup(out, ToBits(ArchivedByte, sortedNodes[i].symbol), SymbolFields(sortedNodes[i + 1..]),
              SymbolFields(sortedNodes[i..]), goal);
    }
  }

  /** The longest code length among the table's symbols. */
  method LongestCode(codeLength: map<int, int>, sortedNodes: seq<Entry>) returns (maxSymbolCodeSize: int)
    requires forall i :: 0 <= i < |sortedNodes| ==>
               sortedNodes[i].symbol in codeLength && codeLength[sortedNodes[i].symbol] == sortedNodes[i].length
    ensures maxSymbolCodeSize == MaxLength(sortedNodes)
  {
    maxSymbolCodeSize := 0;
    for i := 0 to |sortedNodes|
      invariant 0 <= maxSymbolCodeSize
      invariant forall j :: 0 <= j < i ==> sortedNodes[j].length <= maxSymbolCodeSize
      invariant maxSymbolCodeSize == 0 || exists j :: 0 <= j < i && sortedNodes[j].length == maxSymbolCodeSize
    {
      var length := codeLength[sortedNodes[i].symbol];
      if length > maxSymbolCodeSize {
        maxSymbolCodeSize := length;
      }
    }
  }

  /** Counts, for every length up to the longest, the symbols coded with that length, going
      through the code-length map in whatever order it yields its keys. */
  method CountLengths(codeLength: map<int, int>, maxSymbolCodeSize: nat, ghost sortedNodes: seq<Entry>)
    returns (countOfLength: array<int>)
    requires DistinctSymbols(sortedNodes)
    requires forall i :: 0 <= i < |sortedNodes| ==>
               sortedNodes[i].symbol in codeLength && codeLength[sortedNodes[i].symbol] == sortedNodes[i].length
    requires forall s :: s in codeLength ==> exists i :: 0 <= i < |sortedNodes| && sortedNodes[i].symbol == s
    requires forall i :: 0 <= i < |sortedNodes| ==> 0 <= sortedNodes[i].length <= maxSymbolCodeSize
    ensures fresh(countOfLength) && countOfLength.Length == maxSymbolCodeSize + 1
    ensures forall l :: 0 <= l <= maxSymbolCodeSize ==> countOfLength[l] == LengthCount(sortedNodes, l)
  {
    countOfLength := new int[maxSymbolCodeSize + 1](_ => 0);
    var keys := codeLength.Keys;
    ghost var visited: seq<Entry> := [];
    while keys != {}
      invariant keys <= codeLength.Keys
      invariant forall x :: x in visited <==> x.symbol in codeLength && x.symbol !in keys && x.length == codeLength[x.symbol]
      invariant Distinct(visited)
      invariant forall l :: 0 <= l <= maxSymbolCodeSize ==> countOfLength[l] == LengthCount(visited, l)
      decreases |keys|
    {
      ghost var some := Member(keys);
      var symbol :| symbol in keys;
      var length := codeLength[symbol];
      ghost var k :| 0 <= k < |sortedNodes| && sortedNodes[k].symbol == symbol;
      countOfLength[length] := countOfLength[length] + 1;
      ghost var x := Entry(symbol, length);
      forall l | 0 <= l <= maxSymbolCodeSize
        ensures LengthCount(visited + [x], l) == LengthCount(visited, l) + (if length == l then 1 else 0)
      {
        LengthCountAppend(visited, [x], l);
      }
      visited := visited + [x];
      keys := keys - {symbol};
    }
    PermutationDistinctSymbols(sortedNodes, sortedNodes);
    forall x
      ensures x in visited <==> x in sortedNodes
    {
      if x in sortedNodes {
        var k :| 0 <= k < |sortedNodes| && sortedNodes[k] == x;
      }
    }
    DistinctMultiset(visited, sortedNodes);
    forall l | 0 <= l <= maxSymbolCodeSize
      ensures countOfLength[l] == LengthCount(sortedNodes, l)
    {
      LengthCountPermutation(visited, sortedNodes, l);
    }
  }

  /** Writes the count of each code length from 1 to the longest as a 9-bit field. */
  method WriteCounts(writer: BitWriter, bs: BitString, countOfLength: array<int>, maxSymbolCodeSize: nat,
                     ghost sortedNodes: seq<Entry>)
    requires writer.Valid() && writer.Aligned() && bs.Valid() && |sortedNodes| < 512
    requires countOfLength.Length == maxSymbolCodeSize + 1
    requires forall l :: 0 <= l <= maxSymbolCodeSize ==> countOfLength[l] == LengthCount(sortedNodes, l)
    modifies writer, writer.buffer, bs
    ensures writer.Valid() && writer.Aligned() && writer.buffer == old(writer.buffer) && bs.Valid()
    ensures Output(writer, bs) == old(Output(writer, bs)) + CountFields(sortedNodes, 1, maxSymbolCodeSize)
  {
    ghost var goal := Output(writer, bs) + CountFields(sortedNodes, 1, maxSymbolCodeSize);
    for i := 1 to maxSymbolCodeSize + 1
      invariant writer.Valid() && writer.Aligned() && writer.buffer == old(writer.buffer) && bs.Valid()
      invariant Output(writer, bs) + CountFields(sortedNodes, i, maxSymbolCodeSize) == goal
    {
      ghost var out0 := Output(writer, bs);
      CountFieldsStep(sortedNodes, i, maxSymbolCodeSize);
      PutField(writer, bs, countOfLength[i]);
      Regroup(out0, ToBits(ArchivedByte, countOfLength[i]), CountFields(sortedNodes, i + 1, maxSymbolCodeSize),
              CountFields(sortedNodes, i, maxSymbolCodeSize), goal);
    }
  }

  /** Writes the code word of one symbol: its `codeLength[symbol]` low bits of `code[symbol]`. */
  method PutCode(writer: BitWriter, bs: BitString, codeLength: map<int, int>, code: map<int, int>,
                 ghost book: map<int, seq<bool>>, symbol: int)
    requires writer.Valid() && writer.Aligned() && bs.Valid()
    requires Emits(book, codeLength, code) && symbol in book
    modifies writer, writer.buffer, bs
    ensures writer.Valid() && writer.Aligned() && writer.buffer == old(writer.buffer) && bs.Valid()
    ensures bs.length < 8
    ensures Output(writer, bs) == old(Output(writer, bs)) + book[symbol]
  {
    bs.Update(writer, codeLength[symbol], code[symbol]);
  }

  /** Writes the code word of each character of the file name. */
  method WriteName(writer: BitWriter, bs: BitString, codeLength: map<int, int>, code: map<int, int>,
                   ghost book: map<int, seq<bool>>, filename: seq<char>)
    requires writer.Valid() && writer.Aligned() && bs.Valid()
    requires Emits(book, codeLength, code)
    requires forall i :: 0 <= i < |filename| ==> filename[i] as int in book
    modifies writer, writer.buffer, bs
    ensures writer.Valid() && writer.Aligned() && writer.buffer == old(writer.buffer) && bs.Valid()
    ensures Output(writer, bs) == old(Output(writer, bs)) + EncodeSymbols(book, NameSymbols(filename))
  {
    ghost var name := NameSymbols(filename);
    assert name[0..] == name;
    ghost var goal := Output(writer, bs) + EncodeSymbols(book, name);
    for i := 0 to |filename|
      invariant writer.Valid() && writer.Aligned() && writer.buffer == old(writer.buffer) && bs.Valid()
      invariant Output(writer, bs) + EncodeSymbols(book, name[i..]) == goal
    {
      var symbol := filename[i] as int;
      EncodeSymbolsFrom(book, name, i);
      ghost var out := Output(writer, bs);
      PutCode(writer, bs, codeLength, code, book, symbol);
      Regroup(out, book[symbol], EncodeSymbols(book, name[i + 1..]), EncodeSymbols(book, name[i..]), goal);
    }
  }

  /** Reads the file again from the reader's position and writes the code word of each byte. */
  method WriteContent(reader: BitReader, writer: BitWriter, bs: BitString, codeLength: map<int, int>,
                      code: map<int, int>, ghost book: map<int, seq<bool>>)
    requires reader.Valid() && reader.consumed <= |reader.source|
    requires writer.Valid() && writer.Aligned() && bs.Valid()
    requires Emits(book, codeLength, code)
    requires forall i :: 0 <= i < |reader.Remaining()| ==> reader.Remaining()[i] in book
    modifies reader, reader.buffer, writer, writer.buffer, bs
    ensures reader.Valid() && reader.buffer == old(reader.buffer) && reader.consumed == |reader.source|
    ensures writer.Valid() && writer.Aligned() && writer.buffer == old(writer.buffer) && bs.Valid()
    ensures Output(writer, bs) == old(Output(writer, bs)) + EncodeSymbols(book, old(reader.Remaining()))
  {
    ghost var goal := Output(writer, bs) + EncodeSymbols(book, reader.Remaining());
    while !reader.Empty()
      invariant reader.Valid() && reader.buffer == old(reader.buffer) && reader.consumed <= |reader.source|
      invariant writer.Valid() && writer.Aligned() && writer.buffer == old(writer.buffer) && bs.Valid()
      invariant forall i :: 0 <= i < |reader.Remaining()| ==> reader.Remaining()[i] in book
      invariant Output(writer, bs) + EncodeSymbols(book, reader.Remaining()) == goal
      decreases |reader.source| - reader.consumed
    {
      WriteByte(reader, writer, bs, codeLength, code, book, goal);
    }
  }

  /** One round of WriteContent: the next byte of the file, coded. */
  method WriteByte(reader: BitReader, writer: BitWriter, bs: BitString, codeLength: map<int, int>,
                   code: map<int, int>, ghost book: map<int, seq<bool>>, ghost goal: seq<bool>)
    requires reader.Valid() && reader.consumed < |reader.source|
    requires writer.Valid() && writer.Aligned() && bs.Valid()
    requires Emits(book, codeLength, code)
    requires forall i :: 0 <= i < |reader.Remaining()| ==> reader.Remaining()[i] in book
    requires Output(writer, bs) + EncodeSymbols(book, reader.Remaining()) == goal
    modifies reader, reader.buffer, writer, writer.buffer, bs
    ensures reader.Valid() && reader.buffer == old(reader.buffer) && reader.consumed == old(reader.consumed) + 1
    ensures writer.Valid() && writer.Aligned() && writer.buffer == old(writer.buffer) && bs.Valid()
    ensures forall i :: 0 <= i < |reader.Remaining()| ==> reader.Remaining()[i] in book
    ensures Output(writer, bs) + EncodeSymbols(book, reader.Remaining()) == goal
  {
    ghost var rest := reader.Remaining();
    var symbol := reader.ReadNext();
    assert rest[0] == symbol && rest[1..] == reader.Remaining();
    EncodeSymbolsFrom(book, rest, 0);
    assert rest[0..] == rest;
    ghost var out := Output(writer, bs);
    label Read:
    PutCode(writer, bs, codeLength, code, book, symbol);
    assert unchanged@Read(reader, reader.buffer);
    Regroup(out, book[symbol], EncodeSymbols(book, rest[1..]), EncodeSymbols(book, rest), goal);
  }

  /** The three markers, each counted once. */
  function Markers(m: map<int, nat>): map<int, nat>
  {
    m[FilenameEnd := 1][OneMoreFile := 1][ArchiveEnd := 1]
  }

  /** The frequencies the coder counts for an entry: the bytes, one each of the three
      markers, then the name's characters. */
  function EntryFrequencies(filename: seq<char>, content: seq<byte>): map<int, nat>
  {
    Tally(Markers(Tally(map[], content)), NameSymbols(filename))
  }

  /** The table of a file's entry: the Huffman table of the entry's frequencies. */
  ghost function EntryTable(filename: seq<char>, content: seq<byte>): seq<Entry>
  {
    EntryKeys(filename, content);
    assert FilenameEnd in Alphabet(filename, content);
    HuffmanTable(EntryFrequencies(filename, content))
  }

  /** Tallying the bytes, setting the markers to one and tallying the name's characters
      keys exactly the entry's alphabet. */
  lemma {:induction false} EntryKeys(filename: seq<char>, content: seq<byte>)
    ensures EntryFrequencies(filename, content).Keys == Alphabet(filename, content)
  {
    var name := NameSymbols(filename);
    var bytes := Tally(map[], content);
    var f := Tally(Markers(bytes), name);
    TallyCounts(map[], content);
    TallyCounts(Markers(bytes), name);
    var chars := set c | c in filename :: c as int;
    var octets := set b | b in content :: b as int;
    assert Alphabet(filename, content) == chars + octets + {FilenameEnd, OneMoreFile, ArchiveEnd};
    forall s
      ensures s in f <==> s in Alphabet(filename, content)
    {
      assert s in f <==> s in Markers(bytes) || s in name;
      assert s in bytes <==> s in content;
      assert s in content <==> s in octets;
      if s in name {
        var i :| 0 <= i < |name| && name[i] == s;
        assert filename[i] in filename;
      }
      if s in chars {
        var c :| c in filename && c as int == s;
        var i :| 0 <= i < |filename| && filename[i] == c;
        assert name[i] == s;
      }
    }
  }

  /** Each marker is counted once and every other symbol as often as it occurs in the
      bytes and the 7-bit name. */
  lemma {:induction false} EntryCounts(filename: seq<char>, content: seq<byte>, s: int)
    requires forall i :: 0 <= i < |filename| ==> filename[i] as int < 128
    ensures Get(EntryFrequencies(filename, content), s) ==
              if FilenameEnd <= s <= ArchiveEnd then 1 else multiset(content)[s] + multiset(NameSymbols(filename))[s]
  {
    var name := NameSymbols(filename);
    TallyCounts(map[], content);
    TallyCounts(Markers(Tally(map[], content)), name);
    if FilenameEnd <= s <= ArchiveEnd {
      assert forall i :: 0 <= i < |name| ==> name[i] != s;
    }
  }

  /** Adds one occurrence of each character of the name to the frequencies. */
  method CountName(symbolFrequency: map<int, nat>, filename: seq<char>) returns (result: map<int, nat>)
    ensures result == Tally(symbolFrequency, NameSymbols(filename))
  {
    ghost var name := NameSymbols(filename);
    result := symbolFrequency;
    for i := 0 to |filename|
      invariant result == Tally(symbolFrequency, name[..i])
    {
      var symbol := filename[i] as int;
      assert name[i] == symbol;
      SliceSnoc(name, 0, i);
      TallySnoc(symbolFrequency, name[..i], symbol);
      result := result[symbol := Get(result, symbol) + 1];
    }
    assert name[..|filename|] == name;
  }

  /** The frequencies of an entry's symbols: the file's bytes, one each of the three
      markers, and the name's characters. */
  method CountSymbols(reader: BitReader, filename: seq<char>) returns (symbolFrequency: map<int, nat>)
    requires reader.Valid() && reader.consumed <= |reader.source|
    modifies reader, reader.buffer
    ensures reader.Valid() && reader.buffer == old(reader.buffer) && reader.consumed == |reader.source|
    ensures symbolFrequency == EntryFrequencies(filename, old(reader.Remaining()))
  {
    symbolFrequency := CountFrequencies(reader, map[]);
    symbolFrequency := symbolFrequency[FilenameEnd := 1];
    symbolFrequency := symbolFrequency[OneMoreFile := 1];
    symbolFrequency := symbolFrequency[ArchiveEnd := 1];
    symbolFrequency := CountName(symbolFrequency, filename);
  }

  /** Writes the table's header: its size, its symbols and the count of each code length. */
  method WriteHeader(writer: BitWriter, bs: BitString, codeLength: map<int, int>, table: seq<Entry>)
    requires writer.Valid() && writer.Aligned() && bs.Valid()
    requires ValidTable(table)
    requires forall i :: 0 <= i < |table| ==> table[i].symbol in codeLength && codeLength[table[i].symbol] == table[i].length
    requires codeLength.Keys <= CodeBook(table).Keys
    modifies writer, writer.buffer, bs
    ensures writer.Valid() && writer.Aligned() && writer.buffer == old(writer.buffer) && bs.Valid()
    ensures Output(writer, bs) == old(Output(writer, bs)) + HeaderBits(table)
  {
    ghost var out0 := Output(writer, bs);
    PutField(writer, bs, |table|);
    ghost var out1 := Output(writer, bs);
    WriteSymbols(writer, bs, table);
    ghost var out2 := Output(writer, bs);
    var maxSymbolCodeSize := LongestCode(codeLength, table);
    CodeBookEntries(table);
    var countOfLength := CountLengths(codeLength, maxSymbolCodeSize, table);
    WriteCounts(writer, bs, countOfLength, maxSymbolCodeSize, table);
    Chain3(out0, ToBits(ArchivedByte, |table|), out1, SymbolFields(table), out2,
           CountFields(table, 1, maxSymbolCodeSize), Output(writer, bs));
  }

  /** Writes the code words of the name, FILENAME_END, every byte of the file and the
      terminator. */
  method WriteFileSymbols(reader: BitReader, writer: BitWriter, bs: BitString, codeLength: map<int, int>,
                          code: map<int, int>, ghost book: map<int, seq<bool>>, filename: seq<char>, isFileLast: bool)
    requires reader.Valid() && reader.consumed <= |reader.source|
    requires writer.Valid() && writer.Aligned() && bs.Valid()
    requires Emits(book, codeLength, code)
    requires forall i :: 0 <= i < |FileSymbols(filename, reader.Remaining(), isFileLast)| ==>
               FileSymbols(filename, reader.Remaining(), isFileLast)[i] in book
    modifies reader, reader.buffer, writer, writer.buffer, bs
    ensures reader.Valid() && reader.buffer == old(reader.buffer) && reader.consumed == |reader.source|
    ensures writer.Valid() && writer.Aligned() && writer.buffer == old(writer.buffer) && bs.Valid()
    ensures bs.length < 8
    ensures Output(writer, bs)
         == old(Output(writer, bs)) + EncodeSymbols(book, FileSymbols(filename, old(reader.Remaining()), isFileLast))
  {
    ghost var content := reader.Remaining();
    EncodeFileSymbols(book, filename, content, isFileLast);
    ghost var out0 := Output(writer, bs);
    WriteName(writer, bs, codeLength, code, book, filename);
    ghost var out1 := Output(writer, bs);
    PutCode(writer, bs, codeLength, code, book, FilenameEnd);
    ghost var out2 := Output(writer, bs);
    WriteContent(reader, writer, bs, codeLength, code, book);
    ghost var out3 := Output(writer, bs);
    if isFileLast {
      PutCode(writer, bs, codeLength, code, book, ArchiveEnd);
    } else {
      PutCode(writer, bs, codeLength, code, book, OneMoreFile);
    }
    Chain4(out0, EncodeSymbols(book, NameSymbols(filename)), out1, book[FilenameEnd], out2,
           EncodeSymbols(book, content), out3, book[Terminator(isFileLast)], Output(writer, bs));
  }

  /** Pads the last entry with zeros to a whole byte, which may be a whole zero byte, and
      hands every staged byte to the sink. */
  method FlushLast(writer: BitWriter, bs: BitString)
    requires writer.Valid() && writer.Aligned() && bs.Valid() && bs.length < 8
    modifies writer, writer.buffer, bs
    ensures writer.Valid() && bs.Valid() && bs.Pending() == []
    ensures writer.stream == writer.Written()
    ensures ByteBits(writer.stream) == old(Output(writer, bs)) + Zeros(8 - |old(Output(writer, bs))| % 8)
  {
    ghost var pending := bs.Pending();
    ghost var written := writer.Written();
    assert Output(writer, bs) == ByteBits(written) + pending;
    var last := PadByte(bs);
    label Padded:
    writer.WriteNext(last);
    writer.OutBuffer();
    assert unchanged@Padded(bs);
    assert writer.stream == written + [last];
    PadLast(written, pending, last);
  }

  /** Pads the pending bits with zeros to a whole byte and takes that byte out. */
  method PadByte(bs: BitString) returns (last: byte)
    requires bs.Valid() && bs.length < 8
    modifies bs
    ensures bs.Valid() && bs.Pending() == []
    ensures |old(bs.Pending())| < 8 && ToBits(8, last) == old(bs.Pending()) + Zeros(8 - |old(bs.Pending())|)
  {
    ghost var pending := bs.Pending();
    var pad := Byte - bs.GetLength();
    ZeroBits(pad);
    bs.AddBits(pad, 0);
    ghost var padded := bs.Pending();
    var bits := bs.GetBits(Byte);
    assert padded[..Byte] == padded == pending + Zeros(pad);
    ToFromBits(padded);
    last := bits;
  }

  /** The padded last byte completes the output to a whole number of bytes. */
  lemma {:induction false} PadLast(written: seq<byte>, pending: seq<bool>, last: byte)
    requires |pending| < 8 && ToBits(8, last) == pending + Zeros(8 - |pending|)
    ensures ByteBits(written + [last]) == ByteBits(written) + pending + Zeros(8 - |ByteBits(written) + pending| % 8)
  {
    ByteBitsSnoc(written, last);
    assert |ByteBits(written) + pending| == 8 * |written| + |pending|;
  }

  /** Ends an entry: the archive's last entry is padded and handed to the sink; any other
      entry leaves its bits pending for the next one. */
  method FinishEntry(writer: BitWriter, bs: BitString, isFileLast: bool)
    requires writer.Valid() && writer.Aligned() && bs.Valid() && bs.length < 8
    modifies writer, writer.buffer, bs
    ensures writer.Valid() && bs.Valid()
    ensures !isFileLast ==> writer.Aligned() && writer.buffer == old(writer.buffer)
    ensures !isFileLast ==> Output(writer, bs) == old(Output(writer, bs))
    ensures isFileLast ==> bs.Pending() == [] && writer.stream == writer.Written()
    ensures isFileLast ==>
              ByteBits(writer.stream) == old(Output(writer, bs)) + Zeros(8 - |old(Output(writer, bs))| % 8)
  {
    if isFileLast {
      FlushLast(writer, bs);
    }
  }

  /** The encoder's code: a valid canonical table, `codeLength` holding exactly the
      table's lengths, and the two maps emitting the table's code book. */
  ghost predicate CodeReady(table: seq<Entry>, codeLength: map<int, int>, code: map<int, int>)
  {
    && ValidTable(table)
    && (forall i :: 0 <= i < |table| ==> table[i].symbol in codeLength && codeLength[table[i].symbol] == table[i].length)
    && codeLength.Keys <= CodeBook(table).Keys
    && Emits(CodeBook(table), codeLength, code)
  }

  /** The code book of a table holds exactly the symbols the table lists. */
  lemma {:induction false} BookSymbols(table: seq<Entry>, symbols: seq<int>)
    requires ValidTable(table)
    requires forall s :: s in symbols <==> exists i :: 0 <= i < |table| && table[i].symbol == s
    ensures forall s :: s in symbols <==> s in CodeBook(table)
  {
    CodeBookEntries(table);
    forall s
      ensures s in symbols <==> s in CodeBook(table)
    {
      if s in symbols {
        var i :| 0 <= i < |table| && table[i].symbol == s;
      }
    }
  }

  /** A valid table with lengths from `codeLength` and codes from the canonical walk is a
      ready code whose book holds exactly the given symbols. */
  lemma {:induction false} TableCoded(table: seq<Entry>, codeLength: map<int, int>, code: map<int, int>, symbols: seq<int>)
    requires ValidTable(table) && LengthsFrom(table, 0)
    requires forall i :: 0 <= i < |table| ==> table[i].symbol in code && code[table[i].symbol] == CanonicalCodes(table)[i]
    requires forall i :: 0 <= i < |table| ==> table[i].symbol in codeLength && codeLength[table[i].symbol] == table[i].length
    requires forall s :: s in symbols <==> exists i :: 0 <= i < |table| && table[i].symbol == s
    requires forall s :: s in codeLength <==> s in symbols
    ensures CodeReady(table, codeLength, code)
    ensures forall s :: s in symbols <==> s in CodeBook(table)
  {
    BookEmitted(table, codeLength, code);
    BookSymbols(table, symbols);
    forall s | s in codeLength.Keys
      ensures s in CodeBook(table).Keys
    {
      assert s in symbols;
    }
  }

  /** Puts the leaves of a Huffman tree in canonical order and codes them: the table is
      valid and fills the Kraft sum exactly, its code book's symbols are the leaves, and the
      two maps emit the book. */
  method CanonicalTable(codeLength: map<int, int>, trieNodes: seq<int>, ghost tree: TrieNode)
    returns (table: seq<Entry>, code: map<int, int>)
    requires tree.Inner? && codeLength == Depths(tree, 0) && LeafSymbols(tree) == multiset(trieNodes)
    requires Distinct(trieNodes) && |trieNodes| < 512 && forall i :: 0 <= i < |trieNodes| ==> 0 <= trieNodes[i] < 512
    requires forall s :: s in codeLength <==> s in trieNodes
    ensures CodeReady(table, codeLength, code)
    ensures KraftSum(table, MaxLength(table)) == Pow2(MaxLength(table))
    ensures forall s :: s in trieNodes <==> s in CodeBook(table)
    ensures table == SortEntries(LeafEntries(tree, 0))
  {
    DepthsAtLeast(tree, 0);
    table, code := SetCodes(codeLength, trieNodes);
    TreeTable(tree, trieNodes);
    TableCoded(table, codeLength, code, trieNodes);
    LeafTablePermutation(tree, trieNodes);
    SortPermutation(LeafTable(trieNodes, codeLength), LeafEntries(tree, 0));
  }

  /** The table the coder builds for the frequencies: the leaves of their Huffman tree,
      each with its depth, in canonical order. It depends on the frequencies alone, not on
      the order in which their symbols are visited. */
  ghost function HuffmanTable(symbolFrequency: map<int, nat>): seq<Entry>
    requires |symbolFrequency| > 0
  {
    SortEntries(LeafEntries(Greedy(Planted(symbolFrequency)), 0))
  }

  /** Builds the Huffman code of the frequencies (lengths from the tree, codes from the
      canonical walk). */
  method BuildCodes(symbolFrequency: map<int, nat>)
    returns (codeLength: map<int, int>, code: map<int, int>, table: seq<Entry>)
    requires 2 <= |symbolFrequency| < 512 && forall s :: s in symbolFrequency ==> 0 <= s < 512
    ensures CodeReady(table, codeLength, code)
    ensures KraftSum(table, MaxLength(table)) == Pow2(MaxLength(table))
    ensures forall s :: s in symbolFrequency <==> s in CodeBook(table)
    ensures table == HuffmanTable(symbolFrequency)
  {
    var trieNodes;
    ghost var tree;
    codeLength, trieNodes, tree := SetCodeLengths(symbolFrequency);
    forall i | 0 <= i < |trieNodes|
      ensures 0 <= trieNodes[i] < 512
    {
      assert trieNodes[i] in trieNodes;
    }
    table, code := CanonicalTable(codeLength, trieNodes, tree);
  }

  /** Every symbol of the entry is in the code book when the book's symbols are the alphabet. */
  lemma {:induction false} AlphabetCovered(table: seq<Entry>, filename: seq<char>, content: seq<byte>, last: bool)
    requires ValidTable(table)
    requires forall s :: s in Alphabet(filename, content) <==> s in CodeBook(table)
    ensures Covers(table, filename, content, last)
  {
    FileSymbolsInAlphabet(filename, content, last);
  }

  /** Counts the entry's symbols and builds their code. */
  method PrepareCodes(reader: BitReader, filename: seq<char>)
    returns (codeLength: map<int, int>, code: map<int, int>, table: seq<Entry>)
    requires reader.Valid() && reader.consumed <= |reader.source|
    requires forall i :: 0 <= i < |filename| ==> filename[i] as int < 128
    modifies reader, reader.buffer
    ensures reader.Valid() && reader.buffer == old(reader.buffer)
    ensures CodeReady(table, codeLength, code)
    ensures KraftSum(table, MaxLength(table)) == Pow2(MaxLength(table))
    ensures forall s :: s in Alphabet(filename, old(reader.Remaining())) <==> s in CodeBook(table)
    ensures table == EntryTable(filename, old(reader.Remaining()))
  {
    ghost var content := reader.Remaining();
    var symbolFrequency := CountSymbols(reader, filename);
    EntryKeys(filename, content);
    AlphabetBound(filename, content);
    codeLength, code, table := BuildCodes(symbolFrequency);
  }

  /** Writes a file's entry with a code already built: the header, then the code words of
      the name, FILENAME_END, the bytes read again from the start and the terminator. */
  method WriteEntry(reader: BitReader, writer: BitWriter, bs: BitString, codeLength: map<int, int>,
                    code: map<int, int>, table: seq<Entry>, filename: seq<char>, isFileLast: bool)
    requires reader.Valid() && writer.Valid() && writer.Aligned() && bs.Valid()
    requires CodeReady(table, codeLength, code) && Covers(table, filename, reader.source, isFileLast)
    modifies reader, reader.buffer, writer, writer.buffer, bs
    ensures writer.Valid() && writer.Aligned() && writer.buffer == old(writer.buffer)
    ensures bs.Valid() && bs.length < 8
    ensures Output(writer, bs) == old(Output(writer, bs)) + EntryBits(table, filename, reader.source, isFileLast)
  {
    reader.Reset();
    ghost var book := CodeBook(table);
    ghost var out0 := Output(writer, bs);
    WriteHeader(writer, bs, codeLength, table);
    ghost var out1 := Output(writer, bs);
    WriteFileSymbols(reader, writer, bs, codeLength, code, book, filename, isFileLast);
    Chain2(out0, HeaderBits(table), out1, EncodeSymbols(book, FileSymbols(filename, reader.source, isFileLast)),
           Output(writer, bs));
  }

  /** Writes a file's entry with a code already built and ends it as the archive's last
      entry or not. */
  method WriteCoded(reader: BitReader, writer: BitWriter, bs: BitString, codeLength: map<int, int>,
                    code: map<int, int>, table: seq<Entry>, filename: seq<char>, isFileLast: bool)
    requires reader.Valid() && writer.Valid() && writer.Aligned() && bs.Valid()
    requires CodeReady(table, codeLength, code) && Covers(table, filename, reader.source, isFileLast)
    modifies reader, reader.buffer, writer, writer.buffer, bs
    ensures writer.Valid() && bs.Valid()
    ensures !isFileLast ==> writer.Aligned() && writer.buffer == old(writer.buffer)
    ensures !isFileLast ==>
              Output(writer, bs) == old(Output(writer, bs)) + EntryBits(table, filename, reader.source, false)
    ensures isFileLast ==> bs.Pending() == [] && writer.stream == writer.Written()
    ensures isFileLast ==>
              var bits := old(Output(writer, bs)) + EntryBits(table, filename, reader.source, true);
              ByteBits(writer.stream) == bits + Zeros(8 - |bits| % 8)
  {
    WriteEntry(reader, writer, bs, codeLength, code, table, filename, isFileLast);
    FinishEntry(writer, bs, isFileLast);
  }

  /** Compresses one file into an archive entry: counts its symbols, builds the Huffman
      tree and the canonical codes, then writes the entry. `table` is the entry's table
      (symbol and code length, in canonical order). */
  method EncodeFile(reader: BitReader, writer: BitWriter, bs: BitString, filename: seq<char>, isFileLast: bool)
    returns (table: seq<Entry>)
    requires reader.Valid() && reader.consumed == 0
    requires writer.Valid() && writer.Aligned() && bs.Valid()
    requires forall i :: 0 <= i < |filename| ==> filename[i] as int < 128
    modifies reader, reader.buffer, writer, writer.buffer, bs
    ensures writer.Valid() && bs.Valid()
    ensures ValidTable(table) && KraftSum(table, MaxLength(table)) == Pow2(MaxLength(table))
    ensures forall s :: s in Alphabet(filename, reader.source) <==> s in CodeBook(table)
    ensures Covers(table, filename, reader.source, isFileLast)
    ensures table == EntryTable(filename, reader.source)
    ensures !isFileLast ==> writer.Aligned() && writer.buffer == old(writer.buffer)
    ensures !isFileLast ==>
              Output(writer, bs) == old(Output(writer, bs)) + EntryBits(table, filename, reader.source, false)
    ensures isFileLast ==> bs.Pending() == [] && writer.stream == writer.Written()
    ensures isFileLast ==>
              var bits := old(Output(writer, bs)) + EntryBits(table, filename, reader.source, true);
              ByteBits(writer.stream) == bits + Zeros(8 - |bits| % 8)
  {
    assert reader.Remaining() == reader.source;
    var codeLength, code;
    codeLength, code, table := PrepareCodes(reader, filename);
    AlphabetCovered(table, filename, reader.source, isFileLast);
    WriteCoded(reader, writer, bs, codeLength, code, table, filename, isFileLast);
  }
  // ----- Decoding -----

  /** The bits the decoder can still see: those pending in the register, then the bytes
      the reader has not yet returned. */
  ghost function Avail(reader: BitReader, bs: BitString): seq<bool>
    reads reader, bs
    requires bs.Valid()
  {
    bs.Pending() + ByteBits(reader.Remaining())
  }

  lemma {:induction false} AvailSplit(reader: BitReader, bs: BitString)
    requires bs.Valid()
    ensures Avail(reader, bs) == bs.Pending() + ByteBits(reader.Remaining())
  { }

  /** Reads one byte into the register. Bits expected ahead stay ahead, also when the
      read runs past the end of the file. */
  method Feed(reader: BitReader, bs: BitString, ghost ahead: seq<bool>)
    requires reader.Valid() && bs.Valid() && ahead <= Avail(reader, bs)
    modifies reader, reader.buffer, bs
    ensures reader.Valid() && reader.buffer == old(reader.buffer) && bs.Valid()
    ensures bs.length == old(bs.length) + Byte
    ensures ahead <= Avail(reader, bs)
  {
    ghost var p, rem := bs.Pending(), reader.Remaining();
    var b := reader.ReadNext();
    bs.AddBits(Byte, b);
    FeedStep(p, rem, b, reader.Remaining());
    PrefixTrans(ahead, p + ByteBits(rem), Avail(reader, bs));
  }

  /** Reads one 9-bit header field: one byte, and one more when the register then holds
      fewer than nine bits. */
  method ReadField(reader: BitReader, bs: BitString, ghost ahead: seq<bool>) returns (field: int)
    requires reader.Valid() && bs.Valid() && ahead <= Avail(reader, bs) && |ahead| >= ArchivedByte
    modifies reader, reader.buffer, bs
    ensures reader.Valid() && reader.buffer == old(reader.buffer) && bs.Valid()
    ensures 0 <= field < Pow2(ArchivedByte) && ToBits(ArchivedByte, field) == ahead[..ArchivedByte]
    ensures ahead[ArchivedByte..] <= Avail(reader, bs)
  {
    Feed(reader, bs, ahead);
    if !bs.IsResidueFull(ArchivedByte) {
      Feed(reader, bs, ahead);
    }
    field := Take(bs, ArchivedByte, ahead, ByteBits(reader.Remaining()));
  }

  /** Takes the `n` oldest pending bits, with which the bits expected ahead begin. */
  method Take(bs: BitString, n: int, ghost ahead: seq<bool>, ghost more: seq<bool>) returns (bits: int)
    requires bs.Valid() && 0 <= n <= bs.length && n <= |ahead| && ahead <= bs.Pending() + more
    modifies bs
    ensures bs.Valid() && bs.length == old(bs.length) - n
    ensures 0 <= bits < Pow2(n) && ToBits(n, bits) == ahead[..n]
    ensures ahead[n..] <= bs.Pending() + more
  {
    TakeBits(ahead, bs.Pending(), more, n);
    bits := bs.GetBits(n);
    ToFromBits(ahead[..n]);
  }

  /** Reads a 9-bit field expected to hold `value`. */
  method ReadValue(reader: BitReader, bs: BitString, ghost value: nat, ghost tail: seq<bool>) returns (field: int)
    requires reader.Valid() && bs.Valid() && value < Pow2(ArchivedByte)
    requires ToBits(ArchivedByte, value) + tail <= Avail(reader, bs)
    modifies reader, reader.buffer, bs
    ensures reader.Valid() && reader.buffer == old(reader.buffer) && bs.Valid()
    ensures field == value && tail <= Avail(reader, bs)
  {
    ghost var head := ToBits(ArchivedByte, value);
    assert (head + tail)[..ArchivedByte] == head && (head + tail)[ArchivedByte..] == tail;
    field := ReadField(reader, bs, head + tail);
    ToBitsInjective(ArchivedByte, field, value);
  }

  /** Reads the table's `symbolsCount` symbols in order; each pair's length is left unset (-1). */
  method ReadSymbols(reader: BitReader, bs: BitString, symbolsCount: int, ghost es: seq<Entry>,
                     ghost rest: seq<bool>) returns (symbolsAndLengths: seq<Entry>)
    requires reader.Valid() && bs.Valid()
    requires symbolsCount == |es| && forall i :: 0 <= i < |es| ==> 0 <= es[i].symbol < Pow2(ArchivedByte)
    requires SymbolFields(es) + rest <= Avail(reader, bs)
    modifies reader, reader.buffer, bs
    ensures reader.Valid() && reader.buffer == old(reader.buffer) && bs.Valid()
    ensures |symbolsAndLengths| == |es|
    ensures forall i :: 0 <= i < |es| ==> symbolsAndLengths[i] == Entry(es[i].symbol, -1)
    ensures rest <= Avail(reader, bs)
  {
    symbolsAndLengths := seq(symbolsCount, _ => Entry(0, 0));
    assert es[0..] == es;
    for i := 0 to symbolsCount
      invariant reader.Valid() && reader.buffer == old(reader.buffer) && bs.Valid()
      invariant |symbolsAndLengths| == symbolsCount
      invariant forall j :: 0 <= j < i ==> symbolsAndLengths[j] == Entry(es[j].symbol, -1)
      invariant SymbolFields(es[i..]) + rest <= Avail(reader, bs)
    {
      var symbol := ReadSymbol(reader, bs, es, i, rest);
      symbolsAndLengths := symbolsAndLengths[i := Entry(symbol, -1)];
    }
    assert SymbolFields(es[symbolsCount..]) + rest == rest;
  }

  /** Reads the `i`-th symbol field of the table. */
  method ReadSymbol(reader: BitReader, bs: BitString, ghost es: seq<Entry>, i: nat, ghost rest: seq<bool>)
    returns (symbol: int)
    requires reader.Valid() && bs.Valid()
    requires i < |es| && forall j :: 0 <= j < |es| ==> 0 <= es[j].symbol < Pow2(ArchivedByte)
    requires SymbolFields(es[i..]) + rest <= Avail(reader, bs)
    modifies reader, reader.buffer, bs
    ensures reader.Valid() && reader.buffer == old(reader.buffer) && bs.Valid()
    ensures symbol == es[i].symbol && SymbolFields(es[i + 1..]) + rest <= Avail(reader, bs)
  {
    SymbolFieldsFrom(es, i, rest);
    symbol := ReadValue(reader, bs, es[i].symbol, SymbolFields(es[i + 1..]) + rest);
  }

  lemma {:induction false} SymbolFieldsFrom(es: seq<Entry>, i: nat, rest: seq<bool>)
    requires i < |es| && forall j :: 0 <= j < |es| ==> 0 <= es[j].symbol
    ensures SymbolFields(es[i..]) + rest == ToBits(ArchivedByte, es[i].symbol) + (SymbolFields(es[i + 1..]) + rest)
  {
    assert es[i..][1..] == es[i + 1..];
  }

  lemma {:induction false} CountFieldsFrom(es: seq<Entry>, from: nat, to: nat, rest: seq<bool>)
    requires from <= to
    ensures CountFields(es, from, to) + rest
         == ToBits(ArchivedByte, LengthCount(es, from)) + (CountFields(es, from + 1, to) + rest)
  {
    CountFieldsStep(es, from, to);
    AppendAssoc(ToBits(ArchivedByte, LengthCount(es, from)), CountFields(es, from + 1, to), rest);
  }

  /** `r` holds the symbols of `es` in order, and the lengths of its first `count` entries. */
  ghost predicate LengthsReadUpTo(r: seq<Entry>, es: seq<Entry>, count: int)
  {
    && |r| == |es|
    && (forall i :: 0 <= i < |es| ==> r[i].symbol == es[i].symbol)
    && (forall i :: 0 <= i < |es| && i < count ==> r[i].length == es[i].length)
  }

  /** Gives the `count` pairs from `from` on the code length `length`. */
  method SetLengths(symbolsAndLengths: seq<Entry>, from: nat, count: int, length: int) returns (r: seq<Entry>)
    requires 0 <= count && from + count <= |symbolsAndLengths|
    ensures |r| == |symbolsAndLengths|
    ensures forall i :: 0 <= i < |r| ==> r[i].symbol == symbolsAndLengths[i].symbol
    ensures forall i :: 0 <= i < |r| ==>
              r[i].length == if from <= i < from + count then length else symbolsAndLengths[i].length
  {
    r := symbolsAndLengths;
    for j := 0 to count
      invariant |r| == |symbolsAndLengths|
      invariant forall i :: 0 <= i < |r| ==> r[i].symbol == symbolsAndLengths[i].symbol
      invariant forall i :: 0 <= i < |r| ==>
                  r[i].length == if from <= i < from + j then length else symbolsAndLengths[i].length
    {
      r := r[from + j := r[from + j].(length := length)];
    }
  }

  /** In a table ordered by length, the symbols of length `l` are the run that starts
      after the Below(es, l) shorter ones and has LengthCount(es, l) members. */
  lemma {:induction false} LengthRun(es: seq<Entry>, l: int)
    requires LengthsFrom(es, 0)
    ensures Below(es, l + 1) == Below(es, l) + LengthCount(es, l)
    ensures forall i :: 0 <= i < |es| ==> (Below(es, l) <= i < Below(es, l + 1) <==> es[i].length == l)
    ensures forall i :: 0 <= i < |es| ==> (i < Below(es, l) <==> es[i].length < l)
  {
    BelowStep(es, l);
    SortedBelow(es, l);
    SortedBelow(es, l + 1);
  }

  /** Reads the 9-bit count of the symbols of code length `l`. */
  method ReadCount(reader: BitReader, bs: BitString, ghost es: seq<Entry>, l: int, ghost maxLength: nat,
                   ghost rest: seq<bool>, ghost ahead: seq<bool>) returns (lengthCount: int, ghost ahead': seq<bool>)
    requires reader.Valid() && bs.Valid() && |es| < Pow2(ArchivedByte)
    requires 1 <= l <= maxLength && ahead == CountFields(es, l, maxLength) + rest && ahead <= Avail(reader, bs)
    modifies reader, reader.buffer, bs
    ensures reader.Valid() && reader.buffer == old(reader.buffer) && bs.Valid()
    ensures lengthCount == LengthCount(es, l)
    ensures ahead' == CountFields(es, l + 1, maxLength) + rest && ahead' <= Avail(reader, bs)
  {
    ahead' := CountFields(es, l + 1, maxLength) + rest;
    CountFieldsFrom(es, l, maxLength, rest);
    lengthCount := ReadValue(reader, bs, LengthCount(es, l), CountFields(es, l + 1, maxLength) + rest);
  }

  /** Gives code length `currentLength` to the run of `lengthCount` pairs starting at
      `currentIndex`, and moves on to the next length. */
  method SetRun(symbolsAndLengths: seq<Entry>, currentIndex: int, currentLength: int, lengthCount: int,
                ghost es: seq<Entry>) returns (r: seq<Entry>, nextIndex: int, nextLength: int)
    requires LengthsFrom(es, 0) && currentIndex == Below(es, currentLength)
    requires lengthCount == LengthCount(es, currentLength)
    requires LengthsReadUpTo(symbolsAndLengths, es, currentIndex)
    ensures nextLength == currentLength + 1 && nextIndex == Below(es, nextLength)
    ensures LengthsReadUpTo(r, es, nextIndex)
  {
    BelowStep(es, currentLength);
    r := SetLengths(symbolsAndLengths, currentIndex, lengthCount, currentLength);
    nextIndex := currentIndex + lengthCount;
    nextLength := currentLength + 1;
    RunSet(es, symbolsAndLengths, r, currentIndex, currentLength, lengthCount);
  }

  /** Giving length `l` to the run of LengthCount(es, l) pairs after the shorter ones
      extends the prefix of pairs whose lengths are right to the next length. */
  lemma {:induction false} RunSet(es: seq<Entry>, before: seq<Entry>, r: seq<Entry>, from: nat, l: int, count: int)
    requires LengthsFrom(es, 0) && from == Below(es, l) && count == LengthCount(es, l)
    requires LengthsReadUpTo(before, es, from) && |r| == |before|
    requires forall i :: 0 <= i < |r| ==> r[i].symbol == before[i].symbol
    requires forall i :: 0 <= i < |r| ==> r[i].length == if from <= i < from + count then l else before[i].length
    ensures from + count == Below(es, l + 1) && LengthsReadUpTo(r, es, from + count)
  {
    LengthRun(es, l);
  }

  /** Reads the count of each code length from 1 on, until every symbol has its length;
      the symbols being in canonical order, each count covers the next run of them. */
  method ReadLengths(reader: BitReader, bs: BitString, symbolsAndLengths: seq<Entry>, ghost es: seq<Entry>,
                     ghost rest: seq<bool>) returns (r: seq<Entry>)
    requires reader.Valid() && bs.Valid() && |es| < Pow2(ArchivedByte)
    requires LengthsFrom(es, 0) && forall i :: 0 <= i < |es| ==> 1 <= es[i].length
    requires |symbolsAndLengths| == |es| && forall i :: 0 <= i < |es| ==> symbolsAndLengths[i].symbol == es[i].symbol
    requires CountFields(es, 1, MaxLength(es)) + rest <= Avail(reader, bs)
    modifies reader, reader.buffer, bs
    ensures reader.Valid() && reader.buffer == old(reader.buffer) && bs.Valid()
    ensures r == es
    ensures rest <= Avail(reader, bs)
  {
    BelowFirst(es);
    var currentLength;
    r, currentLength := ReadRuns(reader, bs, symbolsAndLengths, es, rest);
    LengthsDone(es, currentLength, rest);
    SameEntries(r, es);
  }

  /** The loop of ReadLengths: one run of lengths per round, until every pair has its length. */
  method ReadRuns(reader: BitReader, bs: BitString, symbolsAndLengths: seq<Entry>, ghost es: seq<Entry>,
                  ghost rest: seq<bool>) returns (r: seq<Entry>, currentLength: int)
    requires reader.Valid() && bs.Valid() && |es| < Pow2(ArchivedByte)
    requires LengthsFrom(es, 0) && Below(es, 1) == 0 && LengthsReadUpTo(symbolsAndLengths, es, 0)
    requires CountFields(es, 1, MaxLength(es)) + rest <= Avail(reader, bs)
    modifies reader, reader.buffer, bs
    ensures reader.Valid() && reader.buffer == old(reader.buffer) && bs.Valid()
    ensures 1 <= currentLength <= MaxLength(es) + 1 && Below(es, currentLength) == |es|
    ensures LengthsReadUpTo(r, es, |es|)
    ensures CountFields(es, currentLength, MaxLength(es)) + rest <= Avail(reader, bs)
  {
    ghost var maxLength := MaxLength(es);
    r := symbolsAndLengths;
    var currentIndex := 0;
    currentLength := 1;
    ghost var ahead := CountFields(es, 1, maxLength) + rest;
    while currentIndex < |r|
      invariant reader.Valid() && reader.buffer == old(reader.buffer) && bs.Valid()
      invariant 1 <= currentLength <= maxLength + 1 && currentIndex == Below(es, currentLength)
      invariant LengthsReadUpTo(r, es, currentIndex)
      invariant ahead == CountFields(es, currentLength, maxLength) + rest && ahead <= Avail(reader, bs)
      decreases maxLength + 1 - currentLength
    {
      LengthsLeft(es, currentLength);
      var lengthCount;
      lengthCount, ahead := ReadCount(reader, bs, es, currentLength, maxLength, rest, ahead);
      r, currentIndex, currentLength := SetRun(r, currentIndex, currentLength, lengthCount, es);
    }
  }

  /** No code is shorter than one bit. */
  lemma {:induction false} BelowFirst(es: seq<Entry>)
    requires forall i :: 0 <= i < |es| ==> 1 <= es[i].length
    ensures Below(es, 1) == 0
  {
    if es != [] {
      BelowFirst(es[1..]);
    }
  }

  /** While some entry is not shorter than `l`, lengths up to `l` are still to come. */
  lemma {:induction false} LengthsLeft(es: seq<Entry>, l: int)
    requires 1 <= l <= MaxLength(es) + 1 && Below(es, l) < |es|
    ensures l <= MaxLength(es)
  {
    if l == MaxLength(es) + 1 {
      BelowAll(es, l);
    }
  }

  /** Entries agreeing on both fields at every position are the same table. */
  lemma {:induction false} SameEntries(r: seq<Entry>, es: seq<Entry>)
    requires |r| == |es|
    requires forall i :: 0 <= i < |es| ==> r[i].symbol == es[i].symbol
    requires forall i :: 0 <= i < |es| ==> r[i].length == es[i].length
    ensures r == es
  {
    assert forall i :: 0 <= i < |es| ==> r[i] == es[i];
  }

  /** Once every entry is shorter than `l`, no length count is left to read. */
  lemma {:induction false} LengthsDone(es: seq<Entry>, l: int, rest: seq<bool>)
    requires LengthsFrom(es, 0) && 1 <= l <= MaxLength(es) + 1 && Below(es, l) == |es|
    ensures l == MaxLength(es) + 1 && CountFields(es, l, MaxLength(es)) + rest == rest
  {
    LengthRun(es, l);
    assert CountFields(es, l, MaxLength(es)) == [];
  }

  /** The header of a valid table splits into its three parts, and its fields fit. */
  lemma {:induction false} HeaderFields(es: seq<Entry>, rest: seq<bool>)
    requires ValidTable(es)
    ensures LengthsFrom(es, 0) && |es| < Pow2(ArchivedByte)
    ensures forall i :: 0 <= i < |es| ==> 0 <= es[i].symbol < Pow2(ArchivedByte) && 1 <= es[i].length
    ensures HeaderBits(es) + rest
         == ToBits(ArchivedByte, |es|) + (SymbolFields(es) + (CountFields(es, 1, MaxLength(es)) + rest))
  {
    StrictlySortedLengths(es);
    Regroup3(ToBits(ArchivedByte, |es|), SymbolFields(es), CountFields(es, 1, MaxLength(es)), rest);
    assert Pow2(ArchivedByte) == 512;
  }

  /** Reads an entry's header back into its table, in the order it was written. */
  method ReadHeader(reader: BitReader, bs: BitString, ghost es: seq<Entry>, ghost rest: seq<bool>)
    returns (symbolsAndLengths: seq<Entry>)
    requires reader.Valid() && bs.Valid() && ValidTable(es)
    requires HeaderBits(es) + rest <= Avail(reader, bs)
    modifies reader, reader.buffer, bs
    ensures reader.Valid() && reader.buffer == old(reader.buffer) && bs.Valid()
    ensures symbolsAndLengths == es
    ensures rest <= Avail(reader, bs)
  {
    HeaderFields(es, rest);
    ghost var counts := CountFields(es, 1, MaxLength(es));
    var symbolsCount := ReadValue(reader, bs, |es|, SymbolFields(es) + (counts + rest));
    symbolsAndLengths := ReadSymbols(reader, bs, symbolsCount, es, counts + rest);
    symbolsAndLengths := ReadLengths(reader, bs, symbolsAndLengths, es, rest);
  }
  /** The decoder's trie holds exactly the code words of the table, with their symbols. */
  ghost predicate Decodes(trie: CodeTrie, es: seq<Entry>)
    reads trie
  {
    trie.Valid() && ValidTable(es) && LengthsFrom(es, 0) && trie.codes == WordMap(es, |es|)
  }

  /** Adds the path of each entry's canonical code, in canonical order, to a fresh trie. */
  method BuildTrie(symbolsAndLengths: seq<Entry>, code: map<int, int>) returns (root: CodeTrie)
    requires ValidTable(symbolsAndLengths)
    requires forall i :: 0 <= i < |symbolsAndLengths| ==>
               symbolsAndLengths[i].symbol in code && code[symbolsAndLengths[i].symbol] == CanonicalCodes(symbolsAndLengths)[i]
    ensures fresh(root) && Decodes(root, symbolsAndLengths)
  {
    var es := symbolsAndLengths;
    CanonicalCodesFit(es);
    root := new CodeTrie();
    for i := 0 to |es|
      invariant root.Valid() && fresh(root) && root.codes == WordMap(es, i)
    {
      root.AddPath(es[i].length, code[es[i].symbol], es[i].symbol);
    }
  }

  /** Takes the oldest pending bit and moves from `node` to its child along it. On a
      code word of the trie the child exists, so the trie is left as it was. */
  method StepBit(trie: CodeTrie, bs: BitString, node: nat, ghost w: seq<bool>, ghost n: nat,
                 ghost ahead: seq<bool>, ghost more: seq<bool>) returns (child: nat)
    requires trie.Valid() && PrefixFree(trie.codes) && w in trie.codes && n < |w|
    requires node < |trie.nodes| && Walk(trie.nodes, 0, w[..n]) == Some(node)
    requires bs.Valid() && bs.length >= 1 && ahead <= bs.Pending() + more && ahead != [] && ahead[0] == w[n]
    modifies trie, bs
    ensures trie.Valid() && trie.codes == old(trie.codes) && trie.nodes == old(trie.nodes)
    ensures bs.Valid() && bs.length == old(bs.length) - 1 && ahead[1..] <= bs.Pending() + more
    ensures child < |trie.nodes| && Walk(trie.nodes, 0, w[..n + 1]) == Some(child)
    ensures trie.nodes[child].terminal <==> n + 1 == |w|
    ensures n + 1 == |w| ==> trie.nodes[child].symbol == trie.codes[w]
  {
    CodeStep(trie.nodes, trie.paths, trie.codes, w, n, node);
    var bit := Take(bs, Bit, ahead, more);
    assert ToBits(1, bit) == [bit % 2 == 1];
    assert ahead[..1] == [w[n]];
    var edge := if bit != 0 then Right else Left;
    assert (edge == Right) == w[n];
    child := trie.Next(node, edge);
  }

  /** The trie's codes read back every word of `book` as its symbol, and no code is a
      prefix of another. */
  ghost predicate ReadsBook(codes: map<seq<bool>, int>, book: map<int, seq<bool>>)
  {
    && PrefixFree(codes)
    && forall s :: s in book ==> |book[s]| >= 1 && book[s] in codes && codes[book[s]] == s
  }

  /** What ReadsBook says about one symbol of the book. */
  lemma {:induction false} BookWord(codes: map<seq<bool>, int>, book: map<int, seq<bool>>, s: int)
    requires ReadsBook(codes, book) && s in book
    ensures |book[s]| >= 1 && book[s] in codes && codes[book[s]] == s
  { }

  /** The trie built from a valid table reads back the table's code book. */
  lemma {:induction false} TableReadsBook(es: seq<Entry>)
    requires ValidTable(es)
    ensures LengthsFrom(es, 0) && ReadsBook(WordMap(es, |es|), CodeBook(es))
  {
    WordMapPrefixFree(es, |es|);
    forall s | s in CodeBook(es)
      ensures |CodeBook(es)[s]| >= 1 && CodeBook(es)[s] in WordMap(es, |es|)
      ensures WordMap(es, |es|)[CodeBook(es)[s]] == s
    {
      BookInWordMap(es, s);
    }
  }

  /** The decoder is `n` bits into the code word of syms[k], at `node` of the trie, and
      the bits it still expects are the rest of that word, the words after it and `rest`. */
  ghost predicate DecoderAt(trie: CodeTrie, book: map<int, seq<bool>>, syms: seq<int>, rest: seq<bool>,
                            k: nat, n: nat, node: nat, ahead: seq<bool>)
    reads trie
  {
    && trie.Valid() && ReadsBook(trie.codes, book)
    && (forall i :: 0 <= i < |syms| ==> syms[i] in book)
    && k < |syms| && n < |book[syms[k]]|
    && ahead == Ahead(book, syms, k, n, rest)
    && node < |trie.nodes| && Walk(trie.nodes, 0, book[syms[k]][..n]) == Some(node)
  }

  /** The decoder at the start of the first code word of `syms`. */
  lemma {:induction false} DecoderStart(trie: CodeTrie, book: map<int, seq<bool>>, syms: seq<int>, rest: seq<bool>)
    requires trie.Valid() && ReadsBook(trie.codes, book) && syms != []
    requires forall i :: 0 <= i < |syms| ==> syms[i] in book
    ensures DecoderAt(trie, book, syms, rest, 0, 0, 0, EncodeSymbols(book, syms) + rest)
  {
    BookWord(trie.codes, book, syms[0]);
    AheadStart(book, syms, 0, rest);
    assert syms[0..] == syms;
  }

  /** One bit of the current code word: the child reached is terminal exactly at the end
      of the word, where it carries the word's symbol; the decoder then stands at the
      start of the next word, or has nothing but `rest` left after the last one. */
  method DecodeBit(trie: CodeTrie, bs: BitString, node: nat, ghost book: map<int, seq<bool>>, ghost syms: seq<int>,
                   ghost rest: seq<bool>, ghost k: nat, ghost n: nat, ghost ahead: seq<bool>, ghost more: seq<bool>)
    returns (child: nat)
    requires DecoderAt(trie, book, syms, rest, k, n, node, ahead)
    requires bs.Valid() && bs.length >= 1 && ahead <= bs.Pending() + more
    modifies trie, bs
    ensures trie.Valid() && trie.codes == old(trie.codes) && trie.nodes == old(trie.nodes)
    ensures bs.Valid() && bs.length == old(bs.length) - 1 && ahead[1..] <= bs.Pending() + more
    ensures child < |trie.nodes|
    ensures !trie.nodes[child].terminal ==> DecoderAt(trie, book, syms, rest, k, n + 1, child, ahead[1..])
    ensures trie.nodes[child].terminal ==> trie.nodes[child].symbol == syms[k]
    ensures trie.nodes[child].terminal && k + 1 < |syms| ==> DecoderAt(trie, book, syms, rest, k + 1, 0, 0, ahead[1..])
    ensures trie.nodes[child].terminal && k + 1 == |syms| ==> ahead[1..] == rest
  {
    BookWord(trie.codes, book, syms[k]);
    if k + 1 < |syms| {
      BookWord(trie.codes, book, syms[k + 1]);
    }
    AheadAdvance(book, syms, k, n, rest);
    child := StepBit(trie, bs, node, book[syms[k]], n, ahead, more);
  }

  /** The symbols of a file name followed by FILENAME_END. */
  function NameCode(name: seq<char>): (r: seq<int>)
    ensures |r| == |name| + 1 && r[|name|] == FilenameEnd
    ensures forall i :: 0 <= i < |name| ==> r[i] == name[i] as int
  {
    NameSymbols(name) + [FilenameEnd]
  }

  /** Handling a decoded symbol of the name: FILENAME_END comes exactly after the whole
      name, and any other symbol is the name's next character. */
  lemma {:induction false} NameStep(name: seq<char>, k: nat, symbol: int, filename: seq<char>)
    requires forall i :: 0 <= i < |name| ==> name[i] as int < 128
    requires k <= |name| && filename == name[..k] && symbol == NameCode(name)[k]
    ensures symbol == FilenameEnd <==> k == |name|
    ensures symbol == FilenameEnd ==> filename == name
    ensures symbol != FilenameEnd ==> filename + [(symbol % 256) as char] == name[..k + 1]
  {
    if k < |name| {
      assert name[..k + 1] == name[..k] + [name[k]];
    }
  }

  /** One bit of the name: when it ends a code, the decoded symbol either ends the name
      (FILENAME_END) or is appended to it as a character. */
  method NameBit(trie: CodeTrie, bs: BitString, node: nat, filename: seq<char>,
                 ghost book: map<int, seq<bool>>, ghost name: seq<char>, ghost rest: seq<bool>,
                 ghost k: nat, ghost n: nat, ghost ahead: seq<bool>, ghost more: seq<bool>)
    returns (node': nat, filename': seq<char>, found: bool, ghost k': nat, ghost n': nat)
    requires forall i :: 0 <= i < |name| ==> name[i] as int < 128
    requires k <= |name| && filename == name[..k] && DecoderAt(trie, book, NameCode(name), rest, k, n, node, ahead)
    requires bs.Valid() && bs.length >= 1 && ahead <= bs.Pending() + more
    modifies trie, bs
    ensures trie.Valid() && trie.codes == old(trie.codes) && bs.Valid() && ahead[1..] <= bs.Pending() + more
    ensures bs.length == old(bs.length) - 1
    ensures found ==> filename' == name && ahead[1..] == rest
    ensures !found ==> k' <= |name| && filename' == name[..k'] && DecoderAt(trie, book, NameCode(name), rest, k', n', node', ahead[1..])
  {
    node' := DecodeBit(trie, bs, node, book, NameCode(name), rest, k, n, ahead, more);
    filename', found := filename, false;
    if trie.nodes[node'].terminal {
      var symbol := trie.nodes[node'].symbol;
      NameStep(name, k, symbol, filename);
      if symbol == FilenameEnd {
        found := true;
      } else {
        filename' := filename + [(symbol % 256) as char];
      }
      node' := 0;
      k', n' := k + 1, 0;
    } else {
      k', n' := k, n + 1;
    }
  }

  /** Decodes the name's bits while the register holds any: each bit moves one step down
      the trie, and a terminal node appends its character to the name or, for
      FILENAME_END, ends the name. */
  method NameBits(trie: CodeTrie, bs: BitString, node: nat, filename: seq<char>,
                  ghost book: map<int, seq<bool>>, ghost name: seq<char>, ghost rest: seq<bool>,
                  ghost k: nat, ghost n: nat, ghost ahead: seq<bool>, ghost more: seq<bool>)
    returns (node': nat, filename': seq<char>, found: bool, ghost k': nat, ghost n': nat, ghost ahead': seq<bool>)
    requires forall i :: 0 <= i < |name| ==> name[i] as int < 128
    requires k <= |name| && filename == name[..k] && DecoderAt(trie, book, NameCode(name), rest, k, n, node, ahead)
    requires bs.Valid() && bs.length >= 1 && ahead <= bs.Pending() + more
    modifies trie, bs
    ensures trie.Valid() && trie.codes == old(trie.codes) && bs.Valid() && ahead' <= bs.Pending() + more
    ensures |ahead'| < |ahead|
    ensures found ==> filename' == name && ahead' == rest
    ensures !found ==> k' <= |name| && filename' == name[..k'] && DecoderAt(trie, book, NameCode(name), rest, k', n', node', ahead')
  {
    ghost var syms := NameCode(name);
    node', filename', found := node, filename, false;
    k', n', ahead' := k, n, ahead;
    while !found && bs.IsResidueFull(Bit)
      invariant trie.Valid() && trie.codes == old(trie.codes) && bs.Valid() && ahead' <= bs.Pending() + more
      invariant found ==> filename' == name && ahead' == rest
      invariant !found ==> k' <= |name| && filename' == name[..k'] && DecoderAt(trie, book, syms, rest, k', n', node', ahead')
      invariant |ahead'| <= |ahead| && (|ahead'| == |ahead| ==> !found && bs.length >= 1)
      decreases |ahead'|
    {
      node', filename', found, k', n' := NameBit(trie, bs, node', filename', book, name, rest, k', n', ahead', more);
      ahead' := ahead'[1..];
    }
  }

  /** One round of the name loop: a byte into the register, then its bits. */
  method NameRound(trie: CodeTrie, reader: BitReader, bs: BitString, node: nat, filename: seq<char>,
                   ghost book: map<int, seq<bool>>, ghost name: seq<char>, ghost rest: seq<bool>,
                   ghost k: nat, ghost n: nat, ghost ahead: seq<bool>)
    returns (node': nat, filename': seq<char>, found: bool, ghost k': nat, ghost n': nat, ghost ahead': seq<bool>)
    requires forall i :: 0 <= i < |name| ==> name[i] as int < 128
    requires k <= |name| && filename == name[..k] && DecoderAt(trie, book, NameCode(name), rest, k, n, node, ahead)
    requires reader.Valid() && bs.Valid() && ahead <= Avail(reader, bs)
    modifies trie, reader, reader.buffer, bs
    ensures trie.Valid() && trie.codes == old(trie.codes)
    ensures reader.Valid() && reader.buffer == old(reader.buffer) && bs.Valid()
    ensures ahead' <= Avail(reader, bs) && |ahead'| < |ahead|
    ensures found ==> filename' == name && ahead' == rest
    ensures !found ==> k' <= |name| && filename' == name[..k'] && DecoderAt(trie, book, NameCode(name), rest, k', n', node', ahead')
  {
    Feed(reader, bs, ahead);
    ghost var more := ByteBits(reader.Remaining());
    AvailSplit(reader, bs);
    label Fed:
    node', filename', found, k', n', ahead' := NameBits(trie, bs, node, filename, book, name, rest, k, n, ahead, more);
    assert unchanged@Fed(reader, reader.buffer);
    AvailSplit(reader, bs);
  }

  /** Decodes the file name: the symbols up to FILENAME_END, one bit at a time, reading a
      byte whenever the register runs empty. */
  method GetFilename(trie: CodeTrie, reader: BitReader, bs: BitString,
                     ghost book: map<int, seq<bool>>, ghost name: seq<char>, ghost rest: seq<bool>)
    returns (filename: seq<char>)
    requires trie.Valid() && ReadsBook(trie.codes, book) && reader.Valid() && bs.Valid()
    requires forall i :: 0 <= i < |name| ==> name[i] as int < 128
    requires forall i :: 0 <= i < |NameCode(name)| ==> NameCode(name)[i] in book
    requires EncodeSymbols(book, NameCode(name)) + rest <= Avail(reader, bs)
    modifies trie, reader, reader.buffer, bs
    ensures trie.Valid() && trie.codes == old(trie.codes)
    ensures reader.Valid() && reader.buffer == old(reader.buffer) && bs.Valid()
    ensures filename == name && rest <= Avail(reader, bs)
  {
    ghost var syms := NameCode(name);
    DecoderStart(trie, book, syms, rest);
    var currentNode: nat := 0;
    filename := [];
    ghost var k: nat, n: nat := 0, 0;
    ghost var ahead := EncodeSymbols(book, syms) + rest;
    var found := false;
    while !found
      invariant trie.Valid() && trie.codes == old(trie.codes)
      invariant reader.Valid() && reader.buffer == old(reader.buffer) && bs.Valid()
      invariant ahead <= Avail(reader, bs)
      invariant found ==> filename == name && ahead == rest
      invariant !found ==> k <= |name| && filename == name[..k] && DecoderAt(trie, book, syms, rest, k, n, currentNode, ahead)
      decreases |ahead|
    {
      currentNode, filename, found, k, n, ahead := NameRound(trie, reader, bs, currentNode, filename, book, name, rest, k, n, ahead);
    }
  }

  /** The symbols of a file's bytes followed by its terminator. */
  function ContentCode(content: seq<byte>, last: bool): (r: seq<int>)
    ensures |r| == |content| + 1 && r[|content|] == Terminator(last)
    ensures forall i :: 0 <= i < |content| ==> r[i] == content[i]
  {
    content + [Terminator(last)]
  }

  /** Handling a decoded symbol of the payload: ARCHIVE_END and ONE_MORE_FILE come exactly
      after the whole content, ARCHIVE_END only in the last entry; any other symbol is the
      content's next byte. */
  lemma {:induction false} ContentStep(content: seq<byte>, last: bool, k: nat, symbol: int)
    requires k <= |content| && symbol == ContentCode(content, last)[k]
    ensures symbol == ArchiveEnd <==> k == |content| && last
    ensures symbol == OneMoreFile <==> k == |content| && !last
    ensures symbol != ArchiveEnd && symbol != OneMoreFile ==>
              k < |content| && 0 <= symbol < 256 && content[..k] + [(symbol % 256) as byte] == content[..k + 1]
  {
    if k < |content| {
      assert content[..k + 1] == content[..k] + [content[k]];
    }
  }

  /** Acts on a decoded payload symbol: ARCHIVE_END ends the file and the archive,
      ONE_MORE_FILE ends the file, and any other symbol is written out as a byte. */
  method Emit(writer: BitWriter, symbol: int, ghost content: seq<byte>, ghost last: bool,
              ghost written: seq<byte>, ghost k: nat)
    returns (endOfFile: bool, endOfArchive: bool)
    requires k <= |content| && symbol == ContentCode(content, last)[k]
    requires writer.Valid() && writer.Aligned() && writer.Written() == written + content[..k]
    modifies writer, writer.buffer
    ensures writer.Valid() && writer.Aligned() && writer.buffer == old(writer.buffer)
    ensures endOfFile <==> k == |content|
    ensures endOfFile ==> endOfArchive == last && writer.Written() == written + content
    ensures !endOfFile ==> writer.Written() == written + content[..k + 1]
  {
    ContentStep(content, last, k, symbol);
    endOfFile, endOfArchive := false, false;
    if symbol == ArchiveEnd {
      endOfFile := true;
      endOfArchive := true;
      assert content[..k] == content;
    } else if symbol == OneMoreFile {
      endOfFile := true;
      assert content[..k] == content;
    } else {
      writer.WriteNext((symbol % 256) as byte);
      assert writer.Written() == written + content[..k + 1];
    }
  }

  /** One bit of the payload, and the decoded symbol's effect when the bit ends a code. */
  method ContentBit(trie: CodeTrie, bs: BitString, writer: BitWriter, node: nat,
                    ghost book: map<int, seq<bool>>, ghost content: seq<byte>, ghost last: bool, ghost rest: seq<bool>,
                    ghost written: seq<byte>, ghost k: nat, ghost n: nat, ghost ahead: seq<bool>, ghost more: seq<bool>)
    returns (node': nat, endOfFile: bool, endOfArchive: bool, ghost k': nat, ghost n': nat)
    requires k <= |content| && DecoderAt(trie, book, ContentCode(content, last), rest, k, n, node, ahead)
    requires writer.Valid() && writer.Aligned() && writer.Written() == written + content[..k]
    requires bs.Valid() && bs.length >= 1 && ahead <= bs.Pending() + more
    modifies trie, bs, writer, writer.buffer
    ensures trie.Valid() && trie.codes == old(trie.codes) && bs.Valid() && ahead[1..] <= bs.Pending() + more
    ensures bs.length == old(bs.length) - 1
    ensures writer.Valid() && writer.Aligned() && writer.buffer == old(writer.buffer)
    ensures endOfFile ==> endOfArchive == last && writer.Written() == written + content && ahead[1..] == rest
    ensures !endOfFile ==>
              && k' <= |content| && writer.Written() == written + content[..k']
              && DecoderAt(trie, book, ContentCode(content, last), rest, k', n', node', ahead[1..])
  {
    node' := DecodeBit(trie, bs, node, book, ContentCode(content, last), rest, k, n, ahead, more);
    endOfFile, endOfArchive := false, false;
    if trie.nodes[node'].terminal {
      endOfFile, endOfArchive := Emit(writer, trie.nodes[node'].symbol, content, last, written, k);
      node' := 0;
      k', n' := k + 1, 0;
    } else {
      k', n' := k, n + 1;
    }
  }

  /** Decodes the payload's bits while the register holds any, writing each decoded byte
      and stopping at the entry's terminator. */
  method ContentBits(trie: CodeTrie, bs: BitString, writer: BitWriter, node: nat,
                     ghost book: map<int, seq<bool>>, ghost content: seq<byte>, ghost last: bool, ghost rest: seq<bool>,
                     ghost written: seq<byte>, ghost k: nat, ghost n: nat, ghost ahead: seq<bool>, ghost more: seq<bool>)
    returns (node': nat, endOfFile: bool, endOfArchive: bool, ghost k': nat, ghost n': nat, ghost ahead': seq<bool>)
    requires k <= |content| && DecoderAt(trie, book, ContentCode(content, last), rest, k, n, node, ahead)
    requires writer.Valid() && writer.Aligned() && writer.Written() == written + content[..k]
    requires bs.Valid() && bs.length >= 1 && ahead <= bs.Pending() + more
    modifies trie, bs, writer, writer.buffer
    ensures trie.Valid() && trie.codes == old(trie.codes) && bs.Valid() && ahead' <= bs.Pending() + more
    ensures writer.Valid() && writer.Aligned() && writer.buffer == old(writer.buffer)
    ensures |ahead'| < |ahead|
    ensures endOfFile ==> endOfArchive == last && writer.Written() == written + content && ahead' == rest
    ensures !endOfFile ==>
              && k' <= |content| && writer.Written() == written + content[..k']
              && DecoderAt(trie, book, ContentCode(content, last), rest, k', n', node', ahead')
  {
    ghost var syms := ContentCode(content, last);
    node', endOfFile, endOfArchive := node, false, false;
    k', n', ahead' := k, n, ahead;
    while !endOfFile && bs.IsResidueFull(Bit)
      invariant trie.Valid() && trie.codes == old(trie.codes) && bs.Valid() && ahead' <= bs.Pending() + more
      invariant writer.Valid() && writer.Aligned() && writer.buffer == old(writer.buffer)
      invariant endOfFile ==> endOfArchive == last && writer.Written() == written + content && ahead' == rest
      invariant !endOfFile ==>
                  && k' <= |content| && writer.Written() == written + content[..k']
                  && DecoderAt(trie, book, syms, rest, k', n', node', ahead')
      invariant |ahead'| <= |ahead| && (|ahead'| == |ahead| ==> !endOfFile && bs.length >= 1)
      decreases |ahead'|
    {
      node', endOfFile, endOfArchive, k', n' :=
        ContentBit(trie, bs, writer, node', book, content, last, rest, written, k', n', ahead', more);
      ahead' := ahead'[1..];
    }
  }

  /** One round of the payload loop: a byte into the register, then its bits. */
  method ContentRound(trie: CodeTrie, reader: BitReader, bs: BitString, writer: BitWriter, node: nat,
                      ghost book: map<int, seq<bool>>, ghost content: seq<byte>, ghost last: bool, ghost rest: seq<bool>,
                      ghost written: seq<byte>, ghost k: nat, ghost n: nat, ghost ahead: seq<bool>)
    returns (node': nat, endOfFile: bool, endOfArchive: bool, ghost k': nat, ghost n': nat, ghost ahead': seq<bool>)
    requires k <= |content| && DecoderAt(trie, book, ContentCode(content, last), rest, k, n, node, ahead)
    requires writer.Valid() && writer.Aligned() && writer.Written() == written + content[..k]
    requires reader.Valid() && bs.Valid() && ahead <= Avail(reader, bs)
    modifies trie, reader, reader.buffer, bs, writer, writer.buffer
    ensures trie.Valid() && trie.codes == old(trie.codes)
    ensures reader.Valid() && reader.buffer == old(reader.buffer) && bs.Valid()
    ensures ahead' <= Avail(reader, bs) && |ahead'| < |ahead|
    ensures writer.Valid() && writer.Aligned() && writer.buffer == old(writer.buffer)
    ensures endOfFile ==> endOfArchive == last && writer.Written() == written + content && ahead' == rest
    ensures !endOfFile ==>
              && k' <= |content| && writer.Written() == written + content[..k']
              && DecoderAt(trie, book, ContentCode(content, last), rest, k', n', node', ahead')
  {
    Feed(reader, bs, ahead);
    ghost var more := ByteBits(reader.Remaining());
    AvailSplit(reader, bs);
    label Fed:
    node', endOfFile, endOfArchive, k', n', ahead' :=
      ContentBits(trie, bs, writer, node, book, content, last, rest, written, k, n, ahead, more);
    assert unchanged@Fed(reader, reader.buffer);
    AvailSplit(reader, bs);
  }

  /** The payload loop: decodes codes into `writer` until the entry's terminator. */
  method ContentLoop(trie: CodeTrie, reader: BitReader, bs: BitString, writer: BitWriter,
                     ghost book: map<int, seq<bool>>, ghost content: seq<byte>, ghost last: bool, ghost rest: seq<bool>)
    returns (endOfArchive: bool)
    requires trie.Valid() && ReadsBook(trie.codes, book) && reader.Valid() && bs.Valid()
    requires writer.Valid() && writer.Aligned()
    requires forall i :: 0 <= i < |ContentCode(content, last)| ==> ContentCode(content, last)[i] in book
    requires EncodeSymbols(book, ContentCode(content, last)) + rest <= Avail(reader, bs)
    modifies trie, reader, reader.buffer, bs, writer, writer.buffer
    ensures reader.Valid() && reader.buffer == old(reader.buffer) && bs.Valid()
    ensures writer.Valid() && writer.Aligned() && writer.buffer == old(writer.buffer)
    ensures endOfArchive == last && writer.Written() == old(writer.Written()) + content
    ensures rest <= Avail(reader, bs)
  {
    ghost var syms := ContentCode(content, last);
    ghost var written := writer.Written();
    DecoderStart(trie, book, syms, rest);
    var currentNode: nat := 0;
    ghost var k: nat, n: nat := 0, 0;
    ghost var ahead := EncodeSymbols(book, syms) + rest;
    var endOfFile := false;
    endOfArchive := false;
    while !endOfFile
      invariant trie.Valid() && trie.codes == old(trie.codes)
      invariant reader.Valid() && reader.buffer == old(reader.buffer) && bs.Valid()
      invariant writer.Valid() && writer.Aligned() && writer.buffer == old(writer.buffer)
      invariant ahead <= Avail(reader, bs)
      invariant endOfFile ==> endOfArchive == last && writer.Written() == written + content && ahead == rest
      invariant !endOfFile ==>
                  && k <= |content| && writer.Written() == written + content[..k]
                  && DecoderAt(trie, book, syms, rest, k, n, currentNode, ahead)
      decreases |ahead|
    {
      currentNode, endOfFile, endOfArchive, k, n, ahead :=
        ContentRound(trie, reader, bs, writer, currentNode, book, content, last, rest, written, k, n, ahead);
    }
  }

  /** Decodes the payload of an entry into `writer`, reading a byte whenever the register
      runs empty, and hands the bytes to the sink; reports whether the entry was the archive's last. */
  method DecodeContents(trie: CodeTrie, reader: BitReader, bs: BitString, writer: BitWriter,
                        ghost book: map<int, seq<bool>>, ghost content: seq<byte>, ghost last: bool, ghost rest: seq<bool>)
    returns (endOfArchive: bool)
    requires trie.Valid() && ReadsBook(trie.codes, book) && reader.Valid() && bs.Valid()
    requires writer.Valid() && writer.Aligned()
    requires forall i :: 0 <= i < |ContentCode(content, last)| ==> ContentCode(content, last)[i] in book
    requires EncodeSymbols(book, ContentCode(content, last)) + rest <= Avail(reader, bs)
    modifies trie, reader, reader.buffer, bs, writer, writer.buffer
    ensures reader.Valid() && reader.buffer == old(reader.buffer) && bs.Valid()
    ensures writer.Valid() && writer.buffer == old(writer.buffer)
    ensures endOfArchive == last && writer.stream == writer.Written() == old(writer.Written()) + content
    ensures rest <= Avail(reader, bs)
  {
    endOfArchive := ContentLoop(trie, reader, bs, writer, book, content, last, rest);
    label Decoded:
    writer.OutBuffer();
    assert unchanged@Decoded(reader, reader.buffer, bs);
  }

  /** An entry's bits are its header, then the name's codes up to FILENAME_END, then the
      content's codes up to the terminator. */
  lemma {:induction false} EntrySplit(es: seq<Entry>, name: seq<char>, content: seq<byte>, last: bool, rest: seq<bool>)
    requires ValidTable(es) && Covers(es, name, content, last)
    ensures forall i :: 0 <= i < |NameCode(name)| ==> NameCode(name)[i] in CodeBook(es)
    ensures forall i :: 0 <= i < |ContentCode(content, last)| ==> ContentCode(content, last)[i] in CodeBook(es)
    ensures EntryBits(es, name, content, last) + rest
         == HeaderBits(es) + (EncodeSymbols(CodeBook(es), NameCode(name))
                              + (EncodeSymbols(CodeBook(es), ContentCode(content, last)) + rest))
  {
    SymbolsSplit(CodeBook(es), HeaderBits(es), name, content, last, rest);
  }

  /** The coded symbols of an entry split at FILENAME_END. */
  lemma {:induction false} SymbolsSplit(book: map<int, seq<bool>>, header: seq<bool>, name: seq<char>,
                                        content: seq<byte>, last: bool, rest: seq<bool>)
    requires forall i :: 0 <= i < |FileSymbols(name, content, last)| ==> FileSymbols(name, content, last)[i] in book
    ensures forall i :: 0 <= i < |NameCode(name)| ==> NameCode(name)[i] in book
    ensures forall i :: 0 <= i < |ContentCode(content, last)| ==> ContentCode(content, last)[i] in book
    ensures header + EncodeSymbols(book, FileSymbols(name, content, last)) + rest
         == header + (EncodeSymbols(book, NameCode(name)) + (EncodeSymbols(book, ContentCode(content, last)) + rest))
  {
    var fs := FileSymbols(name, content, last);
    var nc, cc := NameCode(name), ContentCode(content, last);
    assert fs == nc + cc;
    forall i | 0 <= i < |nc|
      ensures nc[i] in book
    {
      assert fs[i] == nc[i];
    }
    forall i | 0 <= i < |cc|
      ensures cc[i] in book
    {
      assert fs[|nc| + i] == cc[i];
    }
    EncodeSymbolsAppend(book, nc, cc);
    var x, y := EncodeSymbols(book, nc), EncodeSymbols(book, cc);
    assert header + (x + y) + rest == header + (x + (y + rest));
  }

  /** Reads an entry's header and builds the decoding trie: the table is sorted into
      canonical order, each entry gets its canonical code, and the codes' paths go into a
      fresh trie that then reads back the table's code book. */
  method DecodeTrie(reader: BitReader, bs: BitString, ghost es: seq<Entry>, ghost rest: seq<bool>)
    returns (trie: CodeTrie)
    requires reader.Valid() && bs.Valid() && ValidTable(es)
    requires HeaderBits(es) + rest <= Avail(reader, bs)
    modifies reader, reader.buffer, bs
    ensures reader.Valid() && reader.buffer == old(reader.buffer) && bs.Valid()
    ensures fresh(trie) && trie.Valid() && ReadsBook(trie.codes, CodeBook(es))
    ensures rest <= Avail(reader, bs)
  {
    var symbolsAndLengths := ReadHeader(reader, bs, es, rest);
    symbolsAndLengths := SortEntries(symbolsAndLengths);
    SortSorted(es);
    label Read:
    trie := TableTrie(symbolsAndLengths);
    assert unchanged@Read(reader, reader.buffer, bs);
  }

  /** The decoding trie of a table in canonical order: each entry gets its canonical code
      and the codes' paths go into a fresh trie, which then reads back the code book. */
  method TableTrie(symbolsAndLengths: seq<Entry>) returns (trie: CodeTrie)
    requires ValidTable(symbolsAndLengths)
    ensures fresh(trie) && trie.Valid() && ReadsBook(trie.codes, CodeBook(symbolsAndLengths))
  {
    StrictlySortedLengths(symbolsAndLengths);
    var code := CanonicalWalk(symbolsAndLengths);
    trie := BuildTrie(symbolsAndLengths, code);
    TableReadsBook(symbolsAndLengths);
  }

  /** Decodes an entry's payload into a fresh writer and hands its bytes to the sink. */
  method DecodePayload(trie: CodeTrie, reader: BitReader, bs: BitString,
                       ghost book: map<int, seq<bool>>, ghost content: seq<byte>, ghost last: bool, ghost rest: seq<bool>)
    returns (endOfArchive: bool, contents: seq<byte>)
    requires trie.Valid() && ReadsBook(trie.codes, book) && reader.Valid() && bs.Valid()
    requires forall i :: 0 <= i < |ContentCode(content, last)| ==> ContentCode(content, last)[i] in book
    requires EncodeSymbols(book, ContentCode(content, last)) + rest <= Avail(reader, bs)
    modifies trie, reader, reader.buffer, bs
    ensures reader.Valid() && reader.buffer == old(reader.buffer) && bs.Valid()
    ensures endOfArchive == last && contents == content
    ensures rest <= Avail(reader, bs)
  {
    var writer := new BitWriter();
    endOfArchive := DecodeContents(trie, reader, bs, writer, book, content, last, rest);
    contents := writer.stream;
  }

  /** Decodes one entry of the archive: the header and trie, then the name and the
      content. On the bits the coder produced for an entry, it gives back the entry's
      name, content and whether it was the last one, and leaves the bits after the entry
      for the next call. */
  method DecodeFile(reader: BitReader, bs: BitString, ghost es: seq<Entry>, ghost name: seq<char>,
                    ghost content: seq<byte>, ghost last: bool, ghost rest: seq<bool>)
    returns (endOfArchive: bool, filename: seq<char>, contents: seq<byte>)
    requires reader.Valid() && bs.Valid() && ValidTable(es) && Covers(es, name, content, last)
    requires forall i :: 0 <= i < |name| ==> name[i] as int < 128
    requires EntryBits(es, name, content, last) + rest <= Avail(reader, bs)
    modifies reader, reader.buffer, bs
    ensures reader.Valid() && reader.buffer == old(reader.buffer) && bs.Valid()
    ensures endOfArchive == last && filename == name && contents == content
    ensures rest <= Avail(reader, bs)
  {
    ghost var book := CodeBook(es);
    EntrySplit(es, name, content, last, rest);
    ghost var payload := EncodeSymbols(book, ContentCode(content, last)) + rest;
    var trie := DecodeTrie(reader, bs, es, EncodeSymbols(book, NameCode(name)) + payload);
    filename := GetFilename(trie, reader, bs, book, name, payload);
    endOfArchive, contents := DecodePayload(trie, reader, bs, book, content, last, rest);
  }
}
