/** Canonical Huffman codes in the scheme of RFC 1951, section 3.2.2: the table is ordered
    by (code length, symbol); the first code is 0 and each next code is the previous one
    plus one, shifted left by the growth in length. */
module Canonical {
  import opened Bits
  import opened Trie

  /** Ascending in the TrieNodeGreater order, equal neighbours allowed. */
  ghost predicate Sorted(es: seq<Entry>)
  {
    forall i, j :: 0 <= i < j < |es| ==> !TrieNodeGreater(es[j], es[i])
  }

  /** Strictly ascending by (length, symbol). */
  ghost predicate StrictlySorted(es: seq<Entry>)
  {
    forall i, j :: 0 <= i < j < |es| ==> TrieNodeGreater(es[i], es[j])
  }

  function InsertSorted(x: Entry, s: seq<Entry>): (r: seq<Entry>)
    requires Sorted(s)
    ensures Sorted(r) && multiset(r) == multiset(s) + multiset{x}
  {
    if s == [] || !TrieNodeGreater(s[0], x) then
      HeadFirst(x, s);
      [x] + s
    else
      var t := InsertSorted(x, s[1..]);
      assert s == [s[0]] + s[1..];
      HeadStaysFirst(x, s, t);
      ConsSorted(s[0], t);
      [s[0]] + t
  }

  /** An entry that does not go after the head of a sorted sequence can head it. */
  lemma {:induction false} HeadFirst(x: Entry, s: seq<Entry>)
    requires Sorted(s) && (s == [] || !TrieNodeGreater(s[0], x))
    ensures Sorted([x] + s) && multiset([x] + s) == multiset(s) + multiset{x}
  {
    forall k | 0 <= k < |s|
      ensures !TrieNodeGreater(s[k], x)
    {
      if k > 0 {
        assert !TrieNodeGreater(s[k], s[0]);
      }
    }
    ConsSorted(x, s);
  }

  /** An entry that no entry of a sorted sequence goes before can head it. */
  lemma {:induction false} ConsSorted(h: Entry, t: seq<Entry>)
    requires Sorted(t) && forall k :: 0 <= k < |t| ==> !TrieNodeGreater(t[k], h)
    ensures Sorted([h] + t)
  {
    var r := [h] + t;
    forall i, j | 0 <= i < j < |r|
      ensures !TrieNodeGreater(r[j], r[i])
    {
      assert r[j] == t[j - 1];
      if i > 0 {
        assert r[i] == t[i - 1];
      }
    }
  }

  /** Inserting `x`, which goes after the head of `s`, into the tail of `s` gives no
      entry that goes before that head. */
  lemma {:induction false} HeadStaysFirst(x: Entry, s: seq<Entry>, t: seq<Entry>)
    requires Sorted(s) && s != [] && TrieNodeGreater(s[0], x)
    requires multiset(t) == multiset(s[1..]) + multiset{x}
    ensures forall k :: 0 <= k < |t| ==> !TrieNodeGreater(t[k], s[0])
  {
    forall k | 0 <= k < |t|
      ensures !TrieNodeGreater(t[k], s[0])
    {
      assert t[k] in multiset(t);
      if t[k] != x {
        assert t[k] in multiset(s[1..]);
        var m :| 0 <= m < |s[1..]| && s[1..][m] == t[k];
        assert s[m + 1] == t[k];
      }
    }
  }

  /** The order std::sort leaves a sequence in under TrieNodeGreater (or under the
      (length, symbol) pair order, which is the same). */
  function SortEntries(s: seq<Entry>): (r: seq<Entry>)
    ensures Sorted(r) && multiset(r) == multiset(s)
  {
    if s == [] then []
    else
      assert s == [s[0]] + s[1..];
      InsertSorted(s[0], SortEntries(s[1..]))
  }

  /** Two sorted arrangements of the same entries are the same sequence. */
  lemma {:induction false} SortedUnique(a: seq<Entry>, b: seq<Entry>)
    requires Sorted(a) && Sorted(b) && multiset(a) == multiset(b)
    ensures a == b
  {
    if a != [] {
      SortedHeads(a, b);
      TailMultiset(a);
      TailMultiset(b);
      SortedUnique(a[1..], b[1..]);
      assert a == [a[0]] + a[1..] && b == [b[0]] + b[1..];
    }
  }

  lemma {:induction false} SortedHeads(a: seq<Entry>, b: seq<Entry>)
    requires Sorted(a) && Sorted(b) && multiset(a) == multiset(b) && a != []
    ensures b != [] && a[0] == b[0]
  {
    assert a[0] in multiset(b);
    assert b[0] in multiset(a);
    var i :| 0 <= i < |b| && b[i] == a[0];
    var j :| 0 <= j < |a| && a[j] == b[0];
    if i > 0 { assert !TrieNodeGreater(b[i], b[0]); }
    if j > 0 { assert !TrieNodeGreater(a[j], a[0]); }
  }

  lemma {:induction false} TailMultiset(a: seq<Entry>)
    requires a != []
    ensures multiset(a[1..]) == multiset(a) - multiset{a[0]}
  {
    assert a == [a[0]] + a[1..];
  }

  /** Sorting a sequence that is already sorted changes nothing. */
  lemma {:induction false} SortSorted(s: seq<Entry>)
    requires Sorted(s)
    ensures SortEntries(s) == s
  {
    SortedUnique(SortEntries(s), s);
  }

  /** Sorting depends only on which entries there are, not on the order they come in. */
  lemma {:induction false} SortPermutation(a: seq<Entry>, b: seq<Entry>)
    requires multiset(a) == multiset(b)
    ensures SortEntries(a) == SortEntries(b)
  {
    SortedUnique(SortEntries(a), SortEntries(b));
  }

  /** Without repeated entries, sorted is strictly sorted. */
  lemma {:induction false} SortedDistinct(s: seq<Entry>)
    requires Sorted(s) && forall i, j :: 0 <= i < j < |s| ==> s[i] != s[j]
    ensures StrictlySorted(s)
  {
    TrieNodeGreaterOrder();
  }

  /** The lengths never decrease and none is below `len`. */
  ghost predicate LengthsFrom(es: seq<Entry>, len: int)
  {
    && (forall i :: 0 <= i < |es| ==> len <= es[i].length)
    && (forall i, j :: 0 <= i < j < |es| ==> es[i].length <= es[j].length)
  }

  /** The codes the canonical walk gives the entries, starting from code `next` of length `len`. */
  function CodesFrom(es: seq<Entry>, next: nat, len: int): (r: seq<nat>)
    requires LengthsFrom(es, len)
    ensures |r| == |es|
  {
    if es == [] then []
    else
      var c := next * Pow2(es[0].length - len);
      [c] + CodesFrom(es[1..], c + 1, es[0].length)
  }

  function CanonicalCodes(es: seq<Entry>): (r: seq<nat>)
    requires LengthsFrom(es, 0)
    ensures |r| == |es|
  {
    CodesFrom(es, 0, 0)
  }

  lemma {:induction false} StrictlySortedLengths(es: seq<Entry>)
    requires StrictlySorted(es) && forall i :: 0 <= i < |es| ==> 0 <= es[i].length
    ensures LengthsFrom(es, 0)
  {
  }

  /** The walk from position `i` on is the walk over the suffix, resumed after code `i - 1`. */
  lemma {:induction false} CodesFromSuffix(es: seq<Entry>, next: nat, len: int, i: nat)
    requires LengthsFrom(es, len) && i < |es|
    ensures LengthsFrom(es[i + 1..], es[i].length)
    ensures CodesFrom(es, next, len)[i + 1..] ==
              CodesFrom(es[i + 1..], CodesFrom(es, next, len)[i] + 1, es[i].length)
  {
    var c := next * Pow2(es[0].length - len);
    if i > 0 {
      CodesFromSuffix(es[1..], c + 1, es[0].length, i - 1);
      assert es[1..][i - 1 + 1..] == es[i + 1..];
    }
  }

  lemma {:induction false} MulMonotone(a: nat, b: nat, p: nat)
    requires a <= b
    ensures a * p <= b * p
  {
  }

  /** Scaling a shifted code by a further shift is one shift by the sum. */
  lemma {:induction false} ScaleShift(next: nat, p: nat, q: nat, c: nat)
    requires c == next * p
    ensures c * q == next * (p * q) && (c + 1) * q == c * q + q
  {
  }

  /** Every code of the walk is at least `next` shifted to its length. */
  lemma {:induction false} CodesFromLowerBound(es: seq<Entry>, next: nat, len: int, k: nat)
    requires LengthsFrom(es, len) && k < |es|
    ensures CodesFrom(es, next, len)[k] >= next * Pow2(es[k].length - len)
  {
    var l0 := es[0].length;
    var p := Pow2(l0 - len);
    var c := next * p;
    if k > 0 {
      CodesFromLowerBound(es[1..], c + 1, l0, k - 1);
      var lk := es[k].length;
      var q := Pow2(lk - l0);
      var ck := CodesFrom(es, next, len)[k];
      assert ck == CodesFrom(es[1..], c + 1, l0)[k - 1];
      assert ck >= (c + 1) * q;
      MulMonotone(c, c + 1, q);
      ScaleShift(next, p, q, c);
      Pow2Add(l0 - len, lk - l0);
      assert Pow2(lk - len) == p * q;
    }
  }

  /** Sum of 2^(L - length) over the entries, for entries not longer than L. */
  ghost predicate FitsIn(es: seq<Entry>, L: nat)
  {
    forall i :: 0 <= i < |es| ==> 0 <= es[i].length <= L
  }

  lemma {:induction false} MulLeCancel(x: nat, y: nat, p: nat)
    requires p > 0 && x * p <= y * p
    ensures x <= y
  {
  }

  /** Under Kraft's inequality every code fits in its length. */
  lemma {:induction false} CodesFromBound(es: seq<Entry>, next: nat, len: nat, L: nat, k: nat)
    requires LengthsFrom(es, len) && FitsIn(es, L) && len <= L && k < |es|
    requires next * Pow2(L - len) + KraftSum(es, L) <= Pow2(L)
    ensures CodesFrom(es, next, len)[k] < Pow2(es[k].length)
  {
    var l0 := es[0].length;
    var c := next * Pow2(l0 - len);
    KraftHead(es, next, len, L);
    assert CodesFrom(es, next, len) == [c] + CodesFrom(es[1..], c + 1, l0);
    if k > 0 {
      CodesFromBound(es[1..], c + 1, l0, L, k - 1);
      assert es[1..][k - 1] == es[k];
    }
  }

  /** Kraft's inequality, one code at a time: the first code fits in its length and the
      rest of the walk starts within the bound. */
  lemma {:induction false} KraftHead(es: seq<Entry>, next: nat, len: nat, L: nat)
    requires LengthsFrom(es, len) && FitsIn(es, L) && len <= L && |es| > 0
    requires next * Pow2(L - len) + KraftSum(es, L) <= Pow2(L)
    ensures var c := next * Pow2(es[0].length - len);
            c < Pow2(es[0].length) && (c + 1) * Pow2(L - es[0].length) + KraftSum(es[1..], L) <= Pow2(L)
  {
    var l0 := es[0].length;
    var q := Pow2(L - l0);
    var c := next * Pow2(l0 - len);
    KraftRest(es, next, len, L);
    Pow2Add(l0, L - l0);
    assert (c + 1) * q <= Pow2(l0) * q;
    MulLeCancel(c + 1, Pow2(l0), q);
  }

  /** The walk past the first code starts within Kraft's bound. */
  lemma {:induction false} KraftRest(es: seq<Entry>, next: nat, len: nat, L: nat)
    requires LengthsFrom(es, len) && FitsIn(es, L) && len <= L && |es| > 0
    requires next * Pow2(L - len) + KraftSum(es, L) <= Pow2(L)
    ensures var c := next * Pow2(es[0].length - len);
            (c + 1) * Pow2(L - es[0].length) + KraftSum(es[1..], L) <= Pow2(L)
  {
    var l0 := es[0].length;
    var p, q := Pow2(l0 - len), Pow2(L - l0);
    var c := next * p;
    Pow2Add(l0 - len, L - l0);
    assert Pow2(L - len) == p * q;
    ScaleShift(next, p, q, c);
    assert KraftSum(es, L) == q + KraftSum(es[1..], L);
  }

  /** The longest code length in the table, and 0 when there is none longer. */
  function MaxLength(es: seq<Entry>): (m: nat)
    ensures forall i :: 0 <= i < |es| ==> es[i].length <= m
    ensures m == 0 || exists i :: 0 <= i < |es| && es[i].length == m
  {
    if es == [] then 0
    else
      var m := MaxLength(es[1..]);
      if es[0].length > m then es[0].length
      else
        assert m != 0 ==> exists i :: 1 <= i < |es| && es[i].length == m by {
          if m != 0 {
            var k :| 0 <= k < |es[1..]| && es[1..][k].length == m;
            assert es[k + 1].length == m;
          }
        }
        m
  }

  /** A table as the header carries it: strictly in canonical order, one entry per symbol,
      symbols and the entry count fitting a 9-bit field, every length at least 1 and the
      lengths satisfying Kraft's inequality. */
  ghost predicate ValidTable(es: seq<Entry>)
  {
    && StrictlySorted(es)
    && (forall i :: 0 <= i < |es| ==> 1 <= es[i].length && 0 <= es[i].symbol < 512)
    && (forall i, j :: 0 <= i < j < |es| ==> es[i].symbol != es[j].symbol)
    && |es| < 512
    && KraftSum(es, MaxLength(es)) <= Pow2(MaxLength(es))
  }

  /** The code word of each entry. */
  function CodeWords(es: seq<Entry>): (r: seq<seq<bool>>)
    requires LengthsFrom(es, 0)
    ensures |r| == |es|
    ensures forall i :: 0 <= i < |es| ==> r[i] == ToBits(es[i].length, CanonicalCodes(es)[i])
  {
    var codes := CanonicalCodes(es);
    seq(|es|, i requires 0 <= i < |es| => ToBits(es[i].length, codes[i]))
  }

  lemma {:induction false} DivLowerBound(x: nat, m: nat, p: nat)
    requires p > 0 && x >= m * p
    ensures x / p >= m
  {
    var q := x / p;
    assert x == q * p + x % p;
    if q < m {
      MulMonotone(q + 1, m, p);
    }
  }

  /** A later code, cut to the length of an earlier one, lies above the earlier code. */
  lemma {:induction false} LaterCodeAbove(es: seq<Entry>, i: nat, j: nat)
    requires LengthsFrom(es, 0) && i < j < |es|
    ensures CanonicalCodes(es)[j] >= (CanonicalCodes(es)[i] + 1) * Pow2(es[j].length - es[i].length)
  {
    var codes := CanonicalCodes(es);
    CodesFromSuffix(es, 0, 0, i);
    CodesFromLowerBound(es[i + 1..], codes[i] + 1, es[i].length, j - i - 1);
    assert codes[j] == codes[i + 1..][j - i - 1];
  }

  /** The walk's recurrence: the first code is 0, and each next code is the previous one
      plus one, shifted left by the growth in length. */
  lemma {:induction false} CanonicalStep(es: seq<Entry>, i: nat)
    requires LengthsFrom(es, 0) && i < |es|
    ensures i == 0 ==> CanonicalCodes(es)[0] == 0
    ensures i > 0 ==>
              CanonicalCodes(es)[i] == (CanonicalCodes(es)[i - 1] + 1) * Pow2(es[i].length - es[i - 1].length)
  {
    if i > 0 {
      CodesFromSuffix(es, 0, 0, i - 1);
      var codes := CanonicalCodes(es);
      assert codes[i] == codes[i..][0];
      assert es[i..][0] == es[i];
    }
  }

  /** Every canonical code fits in its length. */
  lemma {:induction false} CanonicalCodesFit(es: seq<Entry>)
    requires ValidTable(es)
    ensures LengthsFrom(es, 0)
    ensures forall i :: 0 <= i < |es| ==> CanonicalCodes(es)[i] < Pow2(es[i].length)
  {
    forall i | 0 <= i < |es|
      ensures CanonicalCodes(es)[i] < Pow2(es[i].length)
    {
      CodesFromBound(es, 0, 0, MaxLength(es), i);
    }
  }

  /** No canonical code word is a prefix of another one. */
  lemma {:induction false} CanonicalPrefixFree(es: seq<Entry>)
    requires ValidTable(es)
    ensures LengthsFrom(es, 0)
    ensures forall i, j :: 0 <= i < |es| && 0 <= j < |es| && i != j ==> !(CodeWords(es)[i] <= CodeWords(es)[j])
  {
    CanonicalCodesFit(es);
    forall i, j | 0 <= i < |es| && 0 <= j < |es| && i != j
      ensures !(CodeWords(es)[i] <= CodeWords(es)[j])
    {
      NotPrefix(es, i, j);
    }
  }

  lemma {:induction false} NotPrefix(es: seq<Entry>, i: nat, j: nat)
    requires ValidTable(es) && LengthsFrom(es, 0) && i < |es| && j < |es| && i != j
    requires forall k :: 0 <= k < |es| ==> CanonicalCodes(es)[k] < Pow2(es[k].length)
    ensures !(CodeWords(es)[i] <= CodeWords(es)[j])
  {
    var codes := CanonicalCodes(es);
    var li, lj := es[i].length, es[j].length;
    if i < j {
      LaterCodeAbove(es, i, j);
      DivLowerBound(codes[j], codes[i] + 1, Pow2(lj - li));
      PrefixIffShift(li, codes[i], lj, codes[j]);
    } else {
      LaterCodeAbove(es, j, i);
      if CodeWords(es)[i] <= CodeWords(es)[j] {
        assert li == lj;
        assert CodeWords(es)[i] == CodeWords(es)[j];
        ToBitsInjective(li, codes[i], codes[j]);
        assert false;
      }
    }
  }

  /** Kraft sums do not depend on the order of the entries. */
  lemma {:induction false} KraftSumPermutation(a: seq<Entry>, b: seq<Entry>, L: nat)
    requires FitsIn(a, L) && FitsIn(b, L) && multiset(a) == multiset(b)
    ensures KraftSum(a, L) == KraftSum(b, L)
  {
    if a == [] {
      assert |b| == |multiset(b)| == 0;
      assert b == [];
    } else {
      assert a[0] in multiset(b);
      var j :| 0 <= j < |b| && b[j] == a[0];
      var rest := KraftSumRemove(b, j, L);
      TailMultiset(a);
      assert multiset(a[1..]) == multiset(rest);
      assert FitsIn(a[1..], L);
      KraftSumPermutation(a[1..], rest, L);
      assert KraftSum(a, L) == Pow2(L - a[0].length) + KraftSum(a[1..], L);
      assert KraftSum(a, L) == KraftSum(b, L);
    }
  }

  /** Taking out the entry at `j` takes its weight out of the sum. */
  lemma {:induction false} KraftSumRemove(b: seq<Entry>, j: nat, L: nat) returns (rest: seq<Entry>)
    requires FitsIn(b, L) && j < |b|
    ensures |rest| == |b| - 1 && FitsIn(rest, L)
    ensures multiset(rest) == multiset(b) - multiset{b[j]}
    ensures KraftSum(b, L) == Pow2(L - b[j].length) + KraftSum(rest, L)
  {
    var front, back := b[..j], b[j + 1..];
    rest := front + back;
    var tail := [b[j]] + back;
    assert b == front + tail;
    assert FitsIn(front, L) && FitsIn(back, L) && FitsIn(tail, L) && FitsIn(rest, L);
    assert tail[1..] == back;
    assert KraftSum(tail, L) == Pow2(L - b[j].length) + KraftSum(back, L);
    KraftSumAppend(front, tail, L);
    KraftSumAppend(front, back, L);
    MultisetRemove(b, j);
  }

  lemma {:induction false} Distribute(p: nat, x: nat, t: nat)
    ensures p * (x + t) == p * x + p * t
  {
  }

  /** Measuring against a longer maximum scales the Kraft sum by the power of two between. */
  lemma {:induction false} KraftSumScale(es: seq<Entry>, M: nat, d: nat)
    requires FitsIn(es, M)
    ensures FitsIn(es, M + d) && KraftSum(es, M + d) == Pow2(d) * KraftSum(es, M)
  {
    if es != [] {
      var l0 := es[0].length;
      assert FitsIn(es[1..], M);
      KraftSumScale(es[1..], M, d);
      Pow2Add(d, M - l0);
      assert M + d - l0 == d + (M - l0);
      assert KraftSum(es, M + d) == Pow2(M + d - l0) + KraftSum(es[1..], M + d);
      assert KraftSum(es, M) == Pow2(M - l0) + KraftSum(es[1..], M);
      Distribute(Pow2(d), Pow2(M - l0), KraftSum(es[1..], M));
    }
  }

  /** The leaves as SetCodes sees them: each symbol with the code length DFS recorded for it. */
  function LeafTable(syms: seq<int>, codeLength: map<int, int>): (r: seq<Entry>)
    requires forall i :: 0 <= i < |syms| ==> syms[i] in codeLength
    ensures |r| == |syms|
    ensures forall i :: 0 <= i < |syms| ==> r[i] == Entry(syms[i], codeLength[syms[i]])
  {
    seq(|syms|, i requires 0 <= i < |syms| => Entry(syms[i], codeLength[syms[i]]))
  }

  ghost predicate DistinctSymbols(es: seq<Entry>)
  {
    forall i, j :: 0 <= i < j < |es| ==> es[i].symbol != es[j].symbol
  }

  /** Reordering a table whose symbols are distinct keeps them distinct. */
  lemma {:induction false} PermutationDistinctSymbols(a: seq<Entry>, b: seq<Entry>)
    requires multiset(a) == multiset(b) && DistinctSymbols(b)
    ensures DistinctSymbols(a) && Distinct(a)
  {
    assert Distinct(b);
    forall x
      ensures multiset(a)[x] <= 1
    {
      DistinctCount(b, x);
    }
    CountsDistinct(a);
    forall i, j | 0 <= i < j < |a|
      ensures a[i].symbol != a[j].symbol
    {
      assert a[i] in multiset(b) && a[j] in multiset(b);
      var p :| 0 <= p < |b| && b[p] == a[i];
      var q :| 0 <= q < |b| && b[q] == a[j];
      assert a[i] != a[j];
    }
  }

  /** Entries whose symbols occur once each are themselves distinct. */
  lemma {:induction false} EntriesDistinct(syms: seq<int>, leaves: seq<Entry>)
    requires Distinct(syms) && multiset(syms) == multiset(SymbolsOf(leaves))
    ensures Distinct(leaves)
  {
    var ss := SymbolsOf(leaves);
    forall x
      ensures multiset(ss)[x] <= 1
    {
      DistinctCount(syms, x);
    }
    CountsDistinct(ss);
    forall i, j | 0 <= i < j < |leaves|
      ensures leaves[i] != leaves[j]
    {
      assert ss[i] != ss[j];
    }
  }

  /** Every tagged symbol is one of the entries. */
  lemma {:induction false} LeafTableIncluded(syms: seq<int>, d: map<int, int>, leaves: seq<Entry>)
    requires forall i :: 0 <= i < |syms| ==> syms[i] in d
    requires forall k :: 0 <= k < |leaves| ==> leaves[k].symbol in d && d[leaves[k].symbol] == leaves[k].length
    requires multiset(syms) == multiset(SymbolsOf(leaves))
    ensures forall x :: x in LeafTable(syms, d) <==> x in leaves
  {
    var table := LeafTable(syms, d);
    var ss := SymbolsOf(leaves);
    forall x | x in table
      ensures x in leaves
    {
      var i :| 0 <= i < |table| && table[i] == x;
      assert syms[i] in multiset(ss);
      var k :| 0 <= k < |ss| && ss[k] == syms[i];
      assert leaves[k] == x;
    }
    forall x | x in leaves
      ensures x in table
    {
      var k :| 0 <= k < |leaves| && leaves[k] == x;
      assert ss[k] in multiset(syms);
      var i :| 0 <= i < |syms| && syms[i] == ss[k];
      assert table[i] == x;
    }
  }

  /** Tagging distinct symbols with their lengths gives the entries `leaves`, up to order,
      when `leaves` lists the same symbols each with that length. */
  lemma {:induction false} LeafTableMatches(syms: seq<int>, d: map<int, int>, leaves: seq<Entry>)
    requires Distinct(syms) && forall i :: 0 <= i < |syms| ==> syms[i] in d
    requires forall k :: 0 <= k < |leaves| ==> leaves[k].symbol in d && d[leaves[k].symbol] == leaves[k].length
    requires multiset(syms) == multiset(SymbolsOf(leaves))
    ensures multiset(LeafTable(syms, d)) == multiset(leaves)
    ensures DistinctSymbols(LeafTable(syms, d))
  {
    var table := LeafTable(syms, d);
    EntriesDistinct(syms, leaves);
    LeafTableIncluded(syms, d, leaves);
    assert Distinct(table);
    DistinctMultiset(table, leaves);
  }

  /** Listing a tree's (distinct) leaf symbols in any order and tagging each with its depth
      gives the tree's leaf entries, up to order. */
  lemma {:induction false} LeafTablePermutation(t: TrieNode, syms: seq<int>)
    requires multiset(syms) == LeafSymbols(t) && Distinct(syms)
    ensures forall i :: 0 <= i < |syms| ==> syms[i] in Depths(t, 0)
    ensures multiset(LeafTable(syms, Depths(t, 0))) == multiset(LeafEntries(t, 0))
    ensures DistinctSymbols(LeafTable(syms, Depths(t, 0)))
  {
    var d := Depths(t, 0);
    forall s
      ensures LeafSymbols(t)[s] <= 1
    {
      DistinctCount(syms, s);
    }
    DepthsOfEntries(t, 0);
    LeafEntriesSymbols(t, 0);
    forall i | 0 <= i < |syms|
      ensures syms[i] in d
    {
      assert syms[i] in multiset(syms);
    }
    LeafTableMatches(syms, d, LeafEntries(t, 0));
  }

  /** A reordering of entries whose Kraft sum at `h` is exactly full has an exactly full
      Kraft sum at its own longest length. */
  lemma {:induction false} KraftFull(es: seq<Entry>, leaves: seq<Entry>, h: nat)
    requires FitsIn(leaves, h) && multiset(es) == multiset(leaves)
    requires KraftSum(leaves, h) == Pow2(h)
    ensures FitsIn(es, h) && FitsIn(es, MaxLength(es))
    ensures KraftSum(es, MaxLength(es)) == Pow2(MaxLength(es))
  {
    forall i | 0 <= i < |es|
      ensures 0 <= es[i].length <= h
    {
      assert es[i] in multiset(leaves);
    }
    KraftSumPermutation(es, leaves, h);
    var m := MaxLength(es);
    assert m <= h;
    KraftSumScale(es, m, h - m);
    Pow2Add(h - m, m);
    assert m + (h - m) == h && h - m + m == h;
    MulCancel(Pow2(h - m), KraftSum(es, m), Pow2(m), Pow2(h));
  }

  /** Cancelling a positive factor from both sides of a product equation. */
  lemma {:induction false} MulCancel(p: nat, x: nat, y: nat, z: nat)
    requires p > 0 && z == p * x && z == p * y
    ensures x == y
  {
    MulLeCancel(x, y, p);
    MulLeCancel(y, x, p);
  }

  /** A table with distinct symbols that reorders entries with an exactly full Kraft sum,
      once sorted, is valid and exactly full. */
  lemma {:induction false} SortedTableValid(table: seq<Entry>, leaves: seq<Entry>, h: nat)
    requires multiset(table) == multiset(leaves) && DistinctSymbols(table) && |table| < 512
    requires forall k :: 0 <= k < |leaves| ==> 1 <= leaves[k].length <= h
    requires forall i :: 0 <= i < |table| ==> 0 <= table[i].symbol < 512
    requires KraftSum(leaves, h) == Pow2(h)
    ensures ValidTable(SortEntries(table))
    ensures KraftSum(SortEntries(table), MaxLength(SortEntries(table))) == Pow2(MaxLength(SortEntries(table)))
  {
    var es := SortEntries(table);
    PermutationDistinctSymbols(es, table);
    SortedDistinct(es);
    SortedBounds(table, leaves, h);
    KraftFull(es, leaves, h);
  }

  /** Sorting keeps the table's size and the bounds on its lengths and symbols. */
  lemma {:induction false} SortedBounds(table: seq<Entry>, leaves: seq<Entry>, h: nat)
    requires multiset(table) == multiset(leaves)
    requires forall k :: 0 <= k < |leaves| ==> 1 <= leaves[k].length <= h
    requires forall i :: 0 <= i < |table| ==> 0 <= table[i].symbol < 512
    ensures var es := SortEntries(table);
            && |es| == |table|
            && forall i :: 0 <= i < |es| ==> 1 <= es[i].length && 0 <= es[i].symbol < 512
  {
    var es := SortEntries(table);
    forall i | 0 <= i < |es|
      ensures 1 <= es[i].length && 0 <= es[i].symbol < 512
    {
      assert es[i] in multiset(leaves);
      assert es[i] in multiset(table);
    }
    assert |es| == |multiset(es)| == |multiset(table)| == |table|;
  }

  /** The code lengths DFS gives the leaves of a tree with two or more distinct leaves,
      put in canonical order, form a valid table whose Kraft sum is exactly full. */
  lemma {:induction false} TreeTable(t: TrieNode, syms: seq<int>)
    requires t.Inner? && multiset(syms) == LeafSymbols(t) && Distinct(syms)
    requires |syms| < 512 && forall i :: 0 <= i < |syms| ==> 0 <= syms[i] < 512
    ensures forall i :: 0 <= i < |syms| ==> syms[i] in Depths(t, 0)
    ensures ValidTable(SortEntries(LeafTable(syms, Depths(t, 0))))
    ensures var es := SortEntries(LeafTable(syms, Depths(t, 0)));
            KraftSum(es, MaxLength(es)) == Pow2(MaxLength(es))
  {
    LeafTablePermutation(t, syms);
    var h := Height(t);
    LeafEntriesDepth(t, 0);
    TreeKraft(t, 0, h);
    SortedTableValid(LeafTable(syms, Depths(t, 0)), LeafEntries(t, 0), h);
  }
}
