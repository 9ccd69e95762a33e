/** The code tree. On the encoding side it is built bottom-up from leaves by MergeTries
    and never changed afterwards, so it is a datatype here; on the decoding side it is
    grown top-down by AddPath and walked by Next, so class CodeTrie holds its nodes in an
    arena whose child links are indices. */
module Trie {
  import opened Bits
  import PriorityQueue

  datatype Edge = Left | Right

  /** Right exactly when bit `bit` (counted from the least significant end) of `path` is 1. */
  function GetEdge(path: nat, bit: nat): Edge
  {
    if (path / Pow2(bit)) % 2 == 1 then Right else Left
  }

  /** Reading an `n`-bit code from its most significant bit down, GetEdge(path, i) is the
      code's bit at position `n - 1 - i` of ToBits. */
  lemma {:induction false} GetEdgeIsBit(n: nat, path: nat, i: nat)
    requires i < n && path < Pow2(n)
    ensures GetEdge(path, i) == Right <==> ToBits(n, path)[n - 1 - i]
  {
    ToBitsAt(n, path, n - 1 - i);
  }

  /** A node of the encoder's tree: a leaf carries a symbol and its frequency; an inner
      node carries the least symbol and the total frequency below it. */
  datatype TrieNode =
    | Leaf(symbol: int, frequency: nat)
    | Inner(symbol: int, frequency: nat, left: TrieNode, right: TrieNode)

  function Min(a: int, b: int): int
  {
    if a < b then a else b
  }

  function LeafSymbols(t: TrieNode): multiset<int>
  {
    match t
    case Leaf(s, _) => multiset{s}
    case Inner(_, _, l, r) => LeafSymbols(l) + LeafSymbols(r)
  }

  function MinLeafSymbol(t: TrieNode): int
  {
    match t
    case Leaf(s, _) => s
    case Inner(_, _, l, r) => Min(MinLeafSymbol(l), MinLeafSymbol(r))
  }

  function TotalFrequency(t: TrieNode): nat
  {
    match t
    case Leaf(_, f) => f
    case Inner(_, _, l, r) => TotalFrequency(l) + TotalFrequency(r)
  }

  /** Every inner node carries the least symbol and the total frequency of its leaves. */
  ghost predicate WellFormed(t: TrieNode)
  {
    match t
    case Leaf(_, _) => true
    case Inner(s, f, l, r) =>
      WellFormed(l) && WellFormed(r) && s == MinLeafSymbol(t) && f == TotalFrequency(t)
  }

  function Height(t: TrieNode): nat
  {
    match t
    case Leaf(_, _) => 0
    case Inner(_, _, l, r) => 1 + (if Height(l) < Height(r) then Height(r) else Height(l))
  }

  /** The new root owns the two trees: left the first, right the second. */
  function MergeTries(firstRoot: TrieNode, secondRoot: TrieNode): (r: TrieNode)
    ensures r.Inner? && r.left == firstRoot && r.right == secondRoot
    ensures WellFormed(firstRoot) && WellFormed(secondRoot) ==> WellFormed(r)
    ensures LeafSymbols(r) == LeafSymbols(firstRoot) + LeafSymbols(secondRoot)
    ensures TotalFrequency(r) == TotalFrequency(firstRoot) + TotalFrequency(secondRoot)
  {
    Inner(Min(firstRoot.symbol, secondRoot.symbol), firstRoot.frequency + secondRoot.frequency,
          firstRoot, secondRoot)
  }

  lemma {:induction false} WellFormedFields(t: TrieNode)
    requires WellFormed(t)
    ensures t.symbol == MinLeafSymbol(t) && t.frequency == TotalFrequency(t)
  {
  }

  /** The heap order: by frequency, ties broken by the smaller symbol. */
  predicate TrieNodeLess(firstNode: TrieNode, secondNode: TrieNode)
  {
    if firstNode.frequency == secondNode.frequency then firstNode.symbol < secondNode.symbol
    else firstNode.frequency < secondNode.frequency
  }

  /** TrieNodeLess is the lexicographic order on (frequency, symbol): a strict weak order,
      and total on nodes whose (frequency, symbol) pairs differ. */
  lemma {:induction false} TrieNodeLessOrder()
    ensures PriorityQueue.StrictWeakOrder(TrieNodeLess)
    ensures forall a: TrieNode, b: TrieNode :: (a.frequency, a.symbol) != (b.frequency, b.symbol) ==>
              TrieNodeLess(a, b) || TrieNodeLess(b, a)
  {
  }

  /** A terminal node seen with the code length DFS gave it. */
  datatype Entry = Entry(symbol: int, length: int)

  /** Despite its name, the ascending order on (code length, symbol): canonical order. */
  predicate TrieNodeGreater(firstNode: Entry, secondNode: Entry)
  {
    if firstNode.length == secondNode.length then firstNode.symbol < secondNode.symbol
    else firstNode.length < secondNode.length
  }

  lemma {:induction false} TrieNodeGreaterOrder()
    ensures PriorityQueue.StrictWeakOrder(TrieNodeGreater)
    ensures forall a: Entry, b: Entry :: a != b ==> TrieNodeGreater(a, b) || TrieNodeGreater(b, a)
  {
  }

  /** The depth of every leaf, by symbol. */
  function Depths(t: TrieNode, d: nat): map<int, int>
  {
    match t
    case Leaf(s, _) => map[s := d]
    case Inner(_, _, l, r) => Depths(l, d + 1) + Depths(r, d + 1)
  }

  /** Every leaf lies at least as deep as the tree's root. */
  lemma {:induction false} DepthsAtLeast(t: TrieNode, d: nat)
    ensures forall s :: s in Depths(t, d) ==> Depths(t, d)[s] >= d
  {
    match t
    case Leaf(_, _) =>
    case Inner(_, _, l, r) => DepthsAtLeast(l, d + 1); DepthsAtLeast(r, d + 1);
  }

  /** The leaves from left to right, each with its depth. */
  function LeafEntries(t: TrieNode, d: nat): seq<Entry>
  {
    match t
    case Leaf(s, _) => [Entry(s, d)]
    case Inner(_, _, l, r) => LeafEntries(l, d + 1) + LeafEntries(r, d + 1)
  }

  /** Records the depth of every terminal node below `currentNode`, which sits at
      `distanceToRoot`; a leaf's missing children add nothing. */
  method DFS(distanceToRoot: nat, currentNode: TrieNode, codeLength: map<int, int>)
    returns (result: map<int, int>)
    ensures result == codeLength + Depths(currentNode, distanceToRoot)
    decreases currentNode
  {
    result := codeLength;
    if currentNode.Leaf? {
      result := result[currentNode.symbol := distanceToRoot];
    }
    if currentNode.Inner? {
      result := DFS(distanceToRoot + 1, currentNode.left, result);
      result := DFS(distanceToRoot + 1, currentNode.right, result);
    }
  }

  /** Sum of 2^(L - length) over the entries: at most 2^L exactly when the lengths
      satisfy Kraft's inequality. */
  function KraftSum(es: seq<Entry>, L: nat): nat
    requires forall i :: 0 <= i < |es| ==> 0 <= es[i].length <= L
  {
    if es == [] then 0 else Pow2(L - es[0].length) + KraftSum(es[1..], L)
  }

  lemma {:induction false} KraftSumAppend(a: seq<Entry>, b: seq<Entry>, L: nat)
    requires forall i :: 0 <= i < |a| ==> 0 <= a[i].length <= L
    requires forall i :: 0 <= i < |b| ==> 0 <= b[i].length <= L
    ensures KraftSum(a + b, L) == KraftSum(a, L) + KraftSum(b, L)
  {
    if a == [] {
      assert a + b == b;
    } else {
      assert (a + b)[1..] == a[1..] + b;
      KraftSumAppend(a[1..], b, L);
    }
  }

  /** Leaves sit between depth `d` and `d + Height(t)`; below an inner node, deeper than `d`. */
  lemma {:induction false} LeafEntriesDepth(t: TrieNode, d: nat)
    ensures forall i :: 0 <= i < |LeafEntries(t, d)| ==>
              d <= LeafEntries(t, d)[i].length <= d + Height(t)
    ensures t.Inner? ==> forall i :: 0 <= i < |LeafEntries(t, d)| ==> LeafEntries(t, d)[i].length > d
  {
    if t.Inner? {
      LeafEntriesDepth(t.left, d + 1);
      LeafEntriesDepth(t.right, d + 1);
      var a: seq<Entry>, b: seq<Entry> := LeafEntries(t.left, d + 1), LeafEntries(t.right, d + 1);
      forall i | 0 <= i < |a + b|
        ensures d < (a + b)[i].length <= d + Height(t)
      {
        if i >= |a| { assert (a + b)[i] == b[i - |a|]; }
      }
    }
  }

  /** The leaf entries list each leaf symbol once per occurrence. */
  lemma {:induction false} LeafEntriesSymbols(t: TrieNode, d: nat)
    ensures multiset(SymbolsOf(LeafEntries(t, d))) == LeafSymbols(t)
  {
    if t.Inner? {
      LeafEntriesSymbols(t.left, d + 1);
      LeafEntriesSymbols(t.right, d + 1);
      SymbolsOfAppend(LeafEntries(t.left, d + 1), LeafEntries(t.right, d + 1));
    }
  }

  function SymbolsOf(es: seq<Entry>): (r: seq<int>)
    ensures |r| == |es| && forall i :: 0 <= i < |es| ==> r[i] == es[i].symbol
  {
    if es == [] then [] else [es[0].symbol] + SymbolsOf(es[1..])
  }

  lemma {:induction false} SymbolsOfAppend(a: seq<Entry>, b: seq<Entry>)
    ensures SymbolsOf(a + b) == SymbolsOf(a) + SymbolsOf(b)
  {
  }

  /** Kraft's equality for a full binary tree: the leaves' weights 2^(L - depth) sum to 2^(L - d). */
  lemma {:induction false} TreeKraft(t: TrieNode, d: nat, L: nat)
    requires d + Height(t) <= L
    ensures forall i :: 0 <= i < |LeafEntries(t, d)| ==> 0 <= LeafEntries(t, d)[i].length <= L
    ensures KraftSum(LeafEntries(t, d), L) == Pow2(L - d)
  {
    LeafEntriesDepth(t, d);
    match t
    case Leaf(s, _) =>
      assert LeafEntries(t, d)[1..] == [];
    case Inner(_, _, l, r) =>
      TreeKraft(l, d + 1, L);
      TreeKraft(r, d + 1, L);
      KraftSumAppend(LeafEntries(l, d + 1), LeafEntries(r, d + 1), L);
      assert Pow2(L - d) == 2 * Pow2(L - (d + 1));
  }

  /** DFS records a depth for exactly the tree's leaf symbols. */
  lemma {:induction false} DepthsKeys(t: TrieNode, d: nat)
    ensures forall s :: s in Depths(t, d) <==> s in LeafSymbols(t)
  {
    if t.Inner? {
      DepthsKeys(t.left, d + 1);
      DepthsKeys(t.right, d + 1);
      forall s
        ensures s in Depths(t, d) <==> s in LeafSymbols(t)
      {
        assert s in Depths(t, d) <==> s in Depths(t.left, d + 1) || s in Depths(t.right, d + 1);
        assert s in LeafSymbols(t) <==> s in LeafSymbols(t.left) || s in LeafSymbols(t.right);
      }
    }
  }

  /** With distinct leaf symbols, the depth DFS records for a symbol is the depth of its leaf. */
  lemma {:induction false} DepthsOfEntries(t: TrieNode, d: nat)
    requires forall s :: LeafSymbols(t)[s] <= 1
    ensures Depths(t, d).Keys == set s | s in LeafSymbols(t)
    ensures forall i :: 0 <= i < |LeafEntries(t, d)| ==>
              LeafEntries(t, d)[i].symbol in Depths(t, d) &&
              Depths(t, d)[LeafEntries(t, d)[i].symbol] == LeafEntries(t, d)[i].length
  {
    DepthsKeys(t, d);
    if t.Inner? {
      var l, r := t.left, t.right;
      LeftNotRight(t, d + 1);
      DepthsOfEntries(l, d + 1);
      DepthsOfEntries(r, d + 1);
      JoinDepths(LeafEntries(l, d + 1), LeafEntries(r, d + 1), Depths(l, d + 1), Depths(r, d + 1));
    }
  }

  /** In a tree whose leaf symbols are distinct, both subtrees' leaf symbols are distinct,
      and no symbol of the left subtree has a depth in the right one (both at depth `d`). */
  lemma {:induction false} LeftNotRight(t: TrieNode, d: nat)
    requires t.Inner? && forall s :: LeafSymbols(t)[s] <= 1
    ensures forall s :: LeafSymbols(t.left)[s] <= 1 && LeafSymbols(t.right)[s] <= 1
    ensures forall i :: 0 <= i < |LeafEntries(t.left, d)| ==>
              LeafEntries(t.left, d)[i].symbol !in Depths(t.right, d)
  {
    var l, r := t.left, t.right;
    forall s ensures LeafSymbols(l)[s] <= 1 && LeafSymbols(r)[s] <= 1 {
      assert LeafSymbols(t)[s] == LeafSymbols(l)[s] + LeafSymbols(r)[s];
    }
    DepthsKeys(r, d);
    LeafEntriesSymbols(l, d);
    var a := LeafEntries(l, d);
    forall i | 0 <= i < |a|
      ensures a[i].symbol !in Depths(r, d)
    {
      var s := a[i].symbol;
      assert SymbolsOf(a)[i] == s;
      assert s in LeafSymbols(l);
      assert LeafSymbols(t)[s] == LeafSymbols(l)[s] + LeafSymbols(r)[s];
    }
  }

  /** Entries found in two depth maps, the first's symbols absent from the second, are
      found in the maps' union. */
  lemma {:induction false} JoinDepths(a: seq<Entry>, b: seq<Entry>, ma: map<int, int>, mb: map<int, int>)
    requires forall i :: 0 <= i < |a| ==> a[i].symbol in ma && ma[a[i].symbol] == a[i].length && a[i].symbol !in mb
    requires forall i :: 0 <= i < |b| ==> b[i].symbol in mb && mb[b[i].symbol] == b[i].length
    ensures forall i :: 0 <= i < |a + b| ==>
              (a + b)[i].symbol in ma + mb && (ma + mb)[(a + b)[i].symbol] == (a + b)[i].length
  {
    forall i | 0 <= i < |a + b|
      ensures (a + b)[i].symbol in ma + mb && (ma + mb)[(a + b)[i].symbol] == (a + b)[i].length
    {
      if i < |a| {
        assert (a + b)[i] == a[i];
      } else {
        assert (a + b)[i] == b[i - |a|];
      }
    }
  }

  /** The leaf symbols of a forest of trees. */
  function ForestLeaves(f: seq<TrieNode>): multiset<int>
  {
    if f == [] then multiset{} else LeafSymbols(f[0]) + ForestLeaves(f[1..])
  }

  lemma {:induction false} ForestAppend(a: seq<TrieNode>, b: seq<TrieNode>)
    ensures ForestLeaves(a + b) == ForestLeaves(a) + ForestLeaves(b)
  {
    if a == [] {
      assert a + b == b;
    } else {
      assert (a + b)[1..] == a[1..] + b;
      ForestAppend(a[1..], b);
    }
  }

  /** Taking out the tree at `j` takes its leaves out of the forest's. */
  lemma {:induction false} ForestRemove(f: seq<TrieNode>, j: nat) returns (rest: seq<TrieNode>)
    requires j < |f|
    ensures ForestLeaves(f) == LeafSymbols(f[j]) + ForestLeaves(rest)
    ensures multiset(rest) == multiset(f) - multiset{f[j]}
  {
    var front, back := f[..j], f[j + 1..];
    rest := front + back;
    var tail := [f[j]] + back;
    assert f == front + tail;
    assert tail[1..] == back;
    ForestAppend(front, tail);
    assert ForestLeaves(tail) == LeafSymbols(f[j]) + ForestLeaves(back);
    ForestAppend(front, back);
    UnionShuffle(ForestLeaves(front), LeafSymbols(f[j]), ForestLeaves(back));
    MultisetRemove(f, j);
  }

  lemma {:induction false} UnionShuffle(x: multiset<int>, y: multiset<int>, z: multiset<int>)
    ensures x + (y + z) == y + (x + z)
  {
  }

  /** The leaves of a forest do not depend on the order of its trees. */
  lemma {:induction false} ForestPermutation(a: seq<TrieNode>, b: seq<TrieNode>)
    requires multiset(a) == multiset(b)
    ensures ForestLeaves(a) == ForestLeaves(b)
  {
    if a == [] {
      assert |b| == |multiset(b)| == 0;
      assert b == [];
    } else {
      assert a[0] in multiset(b);
      var j :| 0 <= j < |b| && b[j] == a[0];
      var rest := ForestRemove(b, j);
      assert a == [a[0]] + a[1..];
      assert multiset(a[1..]) == multiset(a) - multiset{a[0]};
      ForestPermutation(a[1..], rest);
      assert ForestLeaves(a) == LeafSymbols(a[0]) + ForestLeaves(a[1..]);
    }
  }

  /** A forest that lost tree `x` lost exactly the leaves of `x`. */
  lemma {:induction false} ForestExtract(before: seq<TrieNode>, after: seq<TrieNode>, x: TrieNode)
    requires x in multiset(before) && multiset(after) == multiset(before) - multiset{x}
    ensures ForestLeaves(before) == LeafSymbols(x) + ForestLeaves(after)
  {
    var j :| 0 <= j < |before| && before[j] == x;
    var rest := ForestRemove(before, j);
    ForestPermutation(after, rest);
  }

  /** A forest that gained tree `x` gained exactly the leaves of `x`. */
  lemma {:induction false} ForestInsert(before: seq<TrieNode>, after: seq<TrieNode>, x: TrieNode)
    requires multiset(after) == multiset(before) + multiset{x}
    ensures ForestLeaves(after) == ForestLeaves(before) + LeafSymbols(x)
  {
    ForestPermutation(after, before + [x]);
    ForestAppend(before, [x]);
    assert ForestLeaves([x]) == LeafSymbols(x) + ForestLeaves([]);
  }

  /** A node of the decoder's trie. A node created by Next is not terminal and its
      symbol is unset (0 here); children are arena indices. */
  datatype Slot = Slot(terminal: bool, symbol: int, left: Option<nat>, right: Option<nat>)

  const FreshSlot := Slot(false, 0, None, None)

  function Child(s: Slot, bit: bool): Option<nat>
  {
    if bit then s.right else s.left
  }

  function WithChild(s: Slot, bit: bool, j: nat): (r: Slot)
    ensures Child(r, bit) == Some(j) && Child(r, !bit) == Child(s, !bit)
    ensures r.terminal == s.terminal && r.symbol == s.symbol
  {
    if bit then s.(right := Some(j)) else s.(left := Some(j))
  }

  /** Every child link points into the arena. */
  ghost predicate Linked(nodes: seq<Slot>)
  {
    forall i, bit :: 0 <= i < |nodes| && Child(nodes[i], bit).Some? ==> Child(nodes[i], bit).value < |nodes|
  }

  /** The node reached from node `i` by following `bits` (true = right), if every link exists. */
  function Walk(nodes: seq<Slot>, i: nat, bits: seq<bool>): (r: Option<nat>)
    requires Linked(nodes) && i < |nodes|
    ensures r.Some? ==> r.value < |nodes|
    decreases |bits|
  {
    if bits == [] then Some(i)
    else match Child(nodes[i], bits[0])
      case None => None
      case Some(j) => Walk(nodes, j, bits[1..])
  }

  lemma {:induction false} WalkAppend(nodes: seq<Slot>, i: nat, a: seq<bool>, b: seq<bool>)
    requires Linked(nodes) && i < |nodes|
    ensures Walk(nodes, i, a + b) ==
              match Walk(nodes, i, a) case None => None case Some(n) => Walk(nodes, n, b)
    decreases |a|
  {
    if a == [] {
      assert a + b == b;
    } else {
      assert (a + b)[0] == a[0] && (a + b)[1..] == a[1..] + b;
      match Child(nodes[i], a[0])
      case None =>
      case Some(j) => WalkAppend(nodes, j, a[1..], b);
    }
  }

  /** Each node's recorded path extends its parent's by the edge taken. */
  ghost predicate ChildPaths(nodes: seq<Slot>, paths: seq<seq<bool>>)
  {
    && Linked(nodes) && |paths| == |nodes|
    && forall i, bit :: 0 <= i < |nodes| && Child(nodes[i], bit).Some? ==>
         paths[Child(nodes[i], bit).value] == paths[i] + [bit]
  }

  lemma {:induction false} WalkPath(nodes: seq<Slot>, paths: seq<seq<bool>>, i: nat, p: seq<bool>)
    requires ChildPaths(nodes, paths) && i < |nodes| && Walk(nodes, i, p).Some?
    ensures paths[Walk(nodes, i, p).value] == paths[i] + p
    decreases |p|
  {
    if p != [] {
      var j := Child(nodes[i], p[0]).value;
      WalkPath(nodes, paths, j, p[1..]);
      assert p == [p[0]] + p[1..];
    }
  }

  /** Adding a missing child and a fresh node leaves every existing walk where it was. */
  lemma {:induction false} GrowKeepsWalk(before: seq<Slot>, after: seq<Slot>, n: nat, bit: bool, i: nat, p: seq<bool>)
    requires Linked(before) && n < |before| && Child(before[n], bit).None?
    requires after == before[n := WithChild(before[n], bit, |before|)] + [FreshSlot]
    requires i < |before| && Walk(before, i, p).Some?
    ensures Linked(after) && Walk(after, i, p) == Walk(before, i, p)
    decreases |p|
  {
    GrowLinked(before, after, n, bit);
    if p != [] {
      assert Child(after[i], p[0]) == Child(before[i], p[0]);
      GrowKeepsWalk(before, after, n, bit, Child(before[i], p[0]).value, p[1..]);
    }
  }

  lemma {:induction false} GrowLinked(before: seq<Slot>, after: seq<Slot>, n: nat, bit: bool)
    requires Linked(before) && n < |before| && Child(before[n], bit).None?
    requires after == before[n := WithChild(before[n], bit, |before|)] + [FreshSlot]
    ensures Linked(after)
    ensures forall i, b :: 0 <= i < |before| && Child(before[i], b).Some? ==> Child(after[i], b) == Child(before[i], b)
  {
    forall i, b | 0 <= i < |before| && Child(before[i], b).Some?
      ensures Child(after[i], b) == Child(before[i], b)
    {
      if i == n {
        assert b != bit;
        assert b == !bit;
      }
    }
    forall i, b | 0 <= i < |after| && Child(after[i], b).Some?
      ensures Child(after[i], b).value < |after|
    {
      if i < |before| && i != n {
        assert after[i] == before[i];
      }
    }
  }

  /** Changing only the marks of nodes, not their links, leaves every walk where it was. */
  lemma {:induction false} SameLinksSameWalk(before: seq<Slot>, after: seq<Slot>, i: nat, p: seq<bool>)
    requires Linked(before) && |after| == |before| && i < |before|
    requires forall k, b :: 0 <= k < |before| ==> Child(after[k], b) == Child(before[k], b)
    ensures Linked(after) && Walk(after, i, p) == Walk(before, i, p)
    decreases |p|
  {
    if p != [] {
      match Child(before[i], p[0])
      case None =>
      case Some(j) => SameLinksSameWalk(before, after, j, p[1..]);
    }
  }

  /** No code is a prefix of another. */
  ghost predicate PrefixFree(codes: map<seq<bool>, int>)
  {
    forall p, q :: p in codes && q in codes && p != q ==> !(p <= q)
  }

  /** The arena is linked and rooted at node 0; every node is reached from the root by
      its recorded path; the terminal nodes are exactly where the codes end, carrying
      their symbols. */
  ghost predicate TrieInvariant(nodes: seq<Slot>, paths: seq<seq<bool>>, codes: map<seq<bool>, int>)
  {
    && |nodes| > 0 && |paths| == |nodes| && ChildPaths(nodes, paths) && paths[0] == []
    && (forall i :: 0 <= i < |nodes| ==> Walk(nodes, 0, paths[i]) == Some(i))
    && (forall i :: 0 <= i < |nodes| && nodes[i].terminal ==>
          paths[i] in codes && codes[paths[i]] == nodes[i].symbol)
    && (forall p :: p in codes ==> Walk(nodes, 0, p).Some? && nodes[Walk(nodes, 0, p).value].terminal)
  }

  lemma {:induction false} GrowChildPaths(before: seq<Slot>, after: seq<Slot>, oldPaths: seq<seq<bool>>,
                       newPaths: seq<seq<bool>>, n: nat, bit: bool)
    requires ChildPaths(before, oldPaths) && n < |before| && Child(before[n], bit).None?
    requires after == before[n := WithChild(before[n], bit, |before|)] + [FreshSlot]
    requires newPaths == oldPaths + [oldPaths[n] + [bit]]
    ensures ChildPaths(after, newPaths)
  {
    GrowLinked(before, after, n, bit);
    forall i, b | 0 <= i < |after| && Child(after[i], b).Some?
      ensures newPaths[Child(after[i], b).value] == newPaths[i] + [b]
    {
      if i == n && b == bit {
      } else if i < |before| {
        assert Child(after[i], b) == Child(before[i], b);
      }
    }
  }

  /** Next's growth step keeps the invariant. */
  lemma {:induction false} GrowKeepsInvariant(before: seq<Slot>, after: seq<Slot>, oldPaths: seq<seq<bool>>,
                           newPaths: seq<seq<bool>>, codes: map<seq<bool>, int>, n: nat, bit: bool)
    requires TrieInvariant(before, oldPaths, codes) && n < |before| && Child(before[n], bit).None?
    requires after == before[n := WithChild(before[n], bit, |before|)] + [FreshSlot]
    requires newPaths == oldPaths + [oldPaths[n] + [bit]]
    ensures TrieInvariant(after, newPaths, codes)
  {
    GrowChildPaths(before, after, oldPaths, newPaths, n, bit);
    forall i | 0 <= i < |after|
      ensures Walk(after, 0, newPaths[i]) == Some(i)
    {
      if i < |before| {
        GrowKeepsWalk(before, after, n, bit, 0, oldPaths[i]);
      } else {
        GrowKeepsWalk(before, after, n, bit, 0, oldPaths[n]);
        WalkAppend(after, 0, oldPaths[n], [bit]);
      }
    }
    forall p | p in codes
      ensures Walk(after, 0, p).Some? && after[Walk(after, 0, p).value].terminal
    {
      GrowKeepsWalk(before, after, n, bit, 0, p);
    }
  }

  /** AddPath's final step, marking the node at the end of `code`, keeps the invariant. */
  lemma {:induction false} MarkKeepsInvariant(before: seq<Slot>, after: seq<Slot>, paths: seq<seq<bool>>,
                           oldCodes: map<seq<bool>, int>, c: nat, code: seq<bool>, symbol: int)
    requires TrieInvariant(before, paths, oldCodes) && c < |before| && paths[c] == code
    requires after == before[c := before[c].(terminal := true, symbol := symbol)]
    ensures TrieInvariant(after, paths, oldCodes[code := symbol])
    ensures Walk(after, 0, code) == Some(c)
  {
    var codes := oldCodes[code := symbol];
    forall i, b | 0 <= i < |before|
      ensures Child(after[i], b) == Child(before[i], b)
    {
    }
    forall i | 0 <= i < |after|
      ensures Walk(after, 0, paths[i]) == Some(i)
    {
      SameLinksSameWalk(before, after, 0, paths[i]);
    }
    forall p | p in codes
      ensures Walk(after, 0, p).Some? && after[Walk(after, 0, p).value].terminal
    {
      SameLinksSameWalk(before, after, 0, p);
    }
    forall i | 0 <= i < |after| && after[i].terminal
      ensures paths[i] in codes && codes[paths[i]] == after[i].symbol
    {
      if i != c {
        assert Walk(before, 0, paths[i]) != Walk(before, 0, paths[c]);
      }
    }
  }

  /** Following a code word of a prefix-free trie one bit at a time: the next child
      exists, and it is terminal exactly at the word's end, where it carries the word's symbol. */
  lemma {:induction false} CodeStep(nodes: seq<Slot>, paths: seq<seq<bool>>, codes: map<seq<bool>, int>,
                 w: seq<bool>, n: nat, node: nat)
    requires TrieInvariant(nodes, paths, codes) && PrefixFree(codes)
    requires w in codes && n < |w| && Walk(nodes, 0, w[..n]) == Some(node)
    ensures Child(nodes[node], w[n]).Some?
    ensures Walk(nodes, 0, w[..n + 1]) == Child(nodes[node], w[n])
    ensures nodes[Child(nodes[node], w[n]).value].terminal <==> n + 1 == |w|
    ensures n + 1 == |w| ==> nodes[Child(nodes[node], w[n]).value].symbol == codes[w]
  {
    assert w == w[..n] + w[n..];
    WalkAppend(nodes, 0, w[..n], w[n..]);
    assert w[n..][0] == w[n];
    var j := Child(nodes[node], w[n]).value;
    assert w[..n + 1] == w[..n] + [w[n]];
    WalkAppend(nodes, 0, w[..n], [w[n]]);
    assert Walk(nodes, j, []) == Some(j);
    WalkPath(nodes, paths, 0, w[..n + 1]);
    assert paths[j] == w[..n + 1];
    if nodes[j].terminal {
      assert w[..n + 1] <= w;
    }
    if n + 1 == |w| {
      assert w[..n + 1] == w;
    }
  }

  /** The decoder's trie: node 0 is the root. */
  class CodeTrie {
    var nodes: seq<Slot>
    /** The path from the root to each node. */
    ghost var paths: seq<seq<bool>>
    /** The codes added by AddPath, with their symbols. */
    ghost var codes: map<seq<bool>, int>

    ghost predicate Valid()
      reads this
    {
      |nodes| > 0 && |paths| == |nodes| && TrieInvariant(nodes, paths, codes)
    }

    constructor ()
      ensures Valid() && codes == map[] && nodes == [FreshSlot]
    {
      nodes := [FreshSlot];
      paths := [[]];
      codes := map[];
    }

    /** The child of `node` along `edge`, created (fresh, not terminal) when missing. */
    method Next(node: nat, edge: Edge) returns (child: nat)
      requires Valid() && node < |nodes|
      modifies this
      ensures Valid() && codes == old(codes)
      ensures node < |nodes| && child < |nodes| && paths[child] == paths[node] + [edge == Right]
      ensures old(Child(nodes[node], edge == Right)).Some? ==>
                child == old(Child(nodes[node], edge == Right)).value &&
                nodes == old(nodes) && paths == old(paths)
      ensures old(Child(nodes[node], edge == Right)).None? ==>
                child == old(|nodes|) &&
                nodes == old(nodes[node := WithChild(nodes[node], edge == Right, |nodes|)]) + [FreshSlot] &&
                paths == old(paths) + [old(paths[node]) + [edge == Right]]
    {
      var bit := edge == Right;
      if Child(nodes[node], bit).None? {
        ghost var before, oldPaths := nodes, paths;
        nodes := nodes[node := WithChild(nodes[node], bit, |nodes|)] + [FreshSlot];
        paths := paths + [paths[node] + [bit]];
        GrowKeepsInvariant(before, nodes, oldPaths, paths, codes, node, bit);
      }
      child := Child(nodes[node], bit).value;
    }

    /** Inserts the `pathLen`-bit code `path`, most significant bit first, and marks the
        node it ends at as terminal with `symbol`. */
    method AddPath(pathLen: nat, path: nat, symbol: int)
      requires Valid() && path < Pow2(pathLen)
      modifies this
      ensures Valid() && codes == old(codes)[ToBits(pathLen, path) := symbol]
      ensures Walk(nodes, 0, ToBits(pathLen, path)).Some?
      ensures nodes[Walk(nodes, 0, ToBits(pathLen, path)).value].terminal
      ensures nodes[Walk(nodes, 0, ToBits(pathLen, path)).value].symbol == symbol
    {
      ghost var code := ToBits(pathLen, path);
      var currentNode: nat := 0;
      var i: int := pathLen - 1;
      while i >= 0
        invariant -1 <= i < pathLen
        invariant Valid() && codes == old(codes)
        invariant currentNode < |nodes| && paths[currentNode] == code[..pathLen - 1 - i]
      {
        GetEdgeIsBit(pathLen, path, i);
        assert code[..pathLen - 1 - i] + [code[pathLen - 1 - i]] == code[..pathLen - i];
        currentNode := Next(currentNode, GetEdge(path, i));
        i := i - 1;
      }
      assert code[..pathLen] == code;
      ghost var before := nodes;
      nodes := nodes[currentNode := nodes[currentNode].(terminal := true, symbol := symbol)];
      MarkKeepsInvariant(before, nodes, paths, codes, currentNode, code, symbol);
      codes := codes[code := symbol];
    }
  }
}
