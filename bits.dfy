/** Bit sequences and their integer values.
    A run of bits is a `seq<bool>` with `true` for 1, most significant bit first:
    this is the order in which the archive's bit register emits and consumes bits. */
module Bits {

  type byte = b: int | 0 <= b < 256

  datatype Option<T> = None | Some(value: T)

  function Pow2(n: nat): (r: nat)
    ensures r >= 1
  {
    if n == 0 then 1 else 2 * Pow2(n - 1)
  }

  lemma {:induction false} Pow2Add(a: nat, b: nat)
    ensures Pow2(a + b) == Pow2(a) * Pow2(b)
  {
    if a > 0 {
      Pow2Add(a - 1, b);
      assert Pow2(a + b) == 2 * Pow2(a - 1 + b);
    }
  }

  lemma {:induction false} Pow2Monotone(a: nat, b: nat)
    requires a <= b
    ensures Pow2(a) <= Pow2(b)
  {
    if a < b { Pow2Monotone(a, b - 1); }
  }

  /** The `n` low bits of `v`, most significant first. */
  function ToBits(n: nat, v: nat): (r: seq<bool>)
    ensures |r| == n
  {
    if n == 0 then [] else ToBits(n - 1, v / 2) + [v % 2 == 1]
  }

  /** The value of a run of bits read as an unsigned binary number. */
  function FromBits(bs: seq<bool>): nat
  {
    if |bs| == 0 then 0 else 2 * FromBits(bs[..|bs| - 1]) + (if bs[|bs| - 1] then 1 else 0)
  }

  /** The bits of a byte sequence, each byte most significant bit first. */
  function ByteBits(bytes: seq<byte>): (r: seq<bool>)
    ensures |r| == 8 * |bytes|
  {
    if bytes == [] then [] else ToBits(8, bytes[0]) + ByteBits(bytes[1..])
  }

  function Zeros(n: nat): (r: seq<bool>)
    ensures |r| == n && forall i :: 0 <= i < n ==> !r[i]
  {
    if n == 0 then [] else Zeros(n - 1) + [false]
  }

  /** The `n` low bits of zero are `n` zero bits. */
  lemma {:induction false} ZeroBits(n: nat)
    ensures ToBits(n, 0) == Zeros(n)
  {
    if n > 0 {
      ZeroBits(n - 1);
    }
  }

  /** Moving the head `field` of what is still to come onto what has been produced. */
  lemma {:induction false} Regroup(out: seq<bool>, field: seq<bool>, tail: seq<bool>, whole: seq<bool>, goal: seq<bool>)
    requires whole == field + tail && out + whole == goal
    ensures (out + field) + tail == goal
  {
  }

  /** Concatenation regrouped. */
  lemma AppendAssoc(a: seq<bool>, b: seq<bool>, c: seq<bool>)
    ensures a + b + c == a + (b + c)
  {
  }

  /** Two pieces written one after another, seen as one. */
  lemma {:induction false} Chain2(o0: seq<bool>, a: seq<bool>, o1: seq<bool>, b: seq<bool>, o2: seq<bool>)
    requires o1 == o0 + a && o2 == o1 + b
    ensures o2 == o0 + (a + b)
  {
  }

  /** Three pieces written one after another, seen as one. */
  lemma {:induction false} Chain3(o0: seq<bool>, a: seq<bool>, o1: seq<bool>, b: seq<bool>, o2: seq<bool>, c: seq<bool>, o3: seq<bool>)
    requires o1 == o0 + a && o2 == o1 + b && o3 == o2 + c
    ensures o3 == o0 + (a + b + c)
  {
  }

  /** Four pieces written one after another, seen as one. */
  lemma {:induction false} Chain4(o0: seq<bool>, a: seq<bool>, o1: seq<bool>, b: seq<bool>, o2: seq<bool>, c: seq<bool>, o3: seq<bool>,
               d: seq<bool>, o4: seq<bool>)
    requires o1 == o0 + a && o2 == o1 + b && o3 == o2 + c && o4 == o3 + d
    ensures o4 == o0 + (a + b + c + d)
  {
  }

  /** A set of integers drawn from [0, n) has at most n members. */
  lemma {:induction false} RangeCard(s: set<int>, n: nat)
    requires forall x :: x in s ==> 0 <= x < n
    ensures |s| <= n
  {
    if n == 0 {
      if s != {} {
        var x := Member(s);
        assert false;
      }
    } else {
      var smaller := s - {n - 1};
      RangeCard(smaller, n - 1);
    }
  }

  lemma {:induction false} FromBitsBound(bs: seq<bool>)
    ensures FromBits(bs) < Pow2(|bs|)
  {
    if |bs| > 0 { FromBitsBound(bs[..|bs| - 1]); }
  }

  lemma {:induction false} FromToBits(n: nat, v: nat)
    requires v < Pow2(n)
    ensures FromBits(ToBits(n, v)) == v
  {
    if n > 0 {
      var r := ToBits(n, v);
      assert r[..n - 1] == ToBits(n - 1, v / 2);
      FromToBits(n - 1, v / 2);
    }
  }

  lemma {:induction false} ToFromBits(bs: seq<bool>)
    ensures ToBits(|bs|, FromBits(bs)) == bs
  {
    if |bs| > 0 {
      var init := bs[..|bs| - 1];
      var v := FromBits(bs);
      assert v / 2 == FromBits(init);
      assert (v % 2 == 1) == bs[|bs| - 1];
      ToFromBits(init);
      assert bs == init + [bs[|bs| - 1]];
    }
  }

  lemma {:induction false} FromBitsAppend(a: seq<bool>, b: seq<bool>)
    ensures FromBits(a + b) == FromBits(a) * Pow2(|b|) + FromBits(b)
    decreases |b|
  {
    if |b| > 0 {
      var b' := b[..|b| - 1];
      assert (a + b)[..|a + b| - 1] == a + b';
      assert (a + b)[|a + b| - 1] == b[|b| - 1];
      FromBitsAppend(a, b');
      var last := if b[|b| - 1] then 1 else 0;
      ShiftAppend(FromBits(a + b), FromBits(a + b'), FromBits(a), Pow2(|b'|), FromBits(b'), FromBits(b), last);
    } else {
      assert a + b == a;
    }
  }

  /** The arithmetic of appending one bit: shifting `a * p + y` left by one and adding
      the bit is `a` shifted by one more place, plus `y` extended by the bit. */
  lemma ShiftAppend(whole: int, prefix: int, a: int, p: int, y: int, y': int, last: int)
    requires whole == 2 * prefix + last && prefix == a * p + y && y' == 2 * y + last
    ensures whole == a * (2 * p) + y'
  {
    assert a * (2 * p) == 2 * (a * p);
  }

  /** Two fields written one after the other are the bits of the shifted-and-or'ed value. */
  lemma {:induction false} ToBitsAppend(n: nat, m: nat, x: nat, y: nat)
    requires x < Pow2(n) && y < Pow2(m)
    ensures ToBits(n + m, x * Pow2(m) + y) == ToBits(n, x) + ToBits(m, y)
  {
    var s := ToBits(n, x) + ToBits(m, y);
    var v := x * Pow2(m) + y;
    FromBitsAppend(ToBits(n, x), ToBits(m, y));
    FromToBits(n, x);
    FromToBits(m, y);
    assert FromBits(s) == v;
    ToFromBits(s);
    assert |s| == n + m;
    assert ToBits(n + m, v) == ToBits(|s|, FromBits(s));
  }

  /** Euclidean division of `v` by `p` when `v` has fewer than `a * p` as bound. */
  lemma {:induction false} SplitValue(v: nat, a: nat, p: nat)
    requires p > 0 && v < a * p
    ensures v / p < a && v % p < p && v == (v / p) * p + v % p
  {
    var q := v / p;
    assert q * p <= v;
    MulLessCancel(q, a, p);
  }

  lemma {:induction false} MulLessCancel(x: nat, y: nat, p: nat)
    requires p > 0 && x * p < y * p
    ensures x < y
  {
  }

  /** The first `k` bits of an `n`-bit field are its value shifted right by `n - k`;
      the remaining bits are its value masked to `n - k` bits. */
  lemma {:induction false} ToBitsSplit(k: nat, n: nat, v: nat)
    requires k <= n && v < Pow2(n)
    ensures ToBits(n, v)[..k] == ToBits(k, v / Pow2(n - k))
    ensures ToBits(n, v)[k..] == ToBits(n - k, v % Pow2(n - k))
  {
    var m := n - k;
    var p := Pow2(m);
    Pow2Add(k, m);
    SplitValue(v, Pow2(k), p);
    ToBitsAppend(k, m, v / p, v % p);
  }

  /** Bit `j` (counted from the most significant end) of an `n`-bit field. */
  lemma {:induction false} ToBitsAt(n: nat, v: nat, j: nat)
    requires j < n && v < Pow2(n)
    ensures ToBits(n, v)[j] == ((v / Pow2(n - 1 - j)) % 2 == 1)
  {
    ToBitsSplit(j + 1, n, v);
    assert ToBits(n, v)[j] == ToBits(n, v)[..j + 1][j];
  }

  lemma {:induction false} ToBitsInjective(n: nat, x: nat, y: nat)
    requires x < Pow2(n) && y < Pow2(n) && ToBits(n, x) == ToBits(n, y)
    ensures x == y
  {
    FromToBits(n, x);
    FromToBits(n, y);
  }

  /** An `a`-bit code is a prefix of a `b`-bit code exactly when the longer code,
      shifted right by the difference of the lengths, equals the shorter one. */
  lemma {:induction false} PrefixIffShift(a: nat, x: nat, b: nat, y: nat)
    requires a <= b && x < Pow2(a) && y < Pow2(b)
    ensures ToBits(a, x) <= ToBits(b, y) <==> y / Pow2(b - a) == x
  {
    var q := QuotientBound(a, b, y);
    ToBitsSplit(a, b, y);
    assert ToBits(a, x) <= ToBits(b, y) <==> ToBits(a, x) == ToBits(a, q);
    if ToBits(a, x) == ToBits(a, q) {
      ToBitsInjective(a, x, q);
    }
  }

  lemma {:induction false} QuotientBound(a: nat, b: nat, y: nat) returns (q: nat)
    requires a <= b && y < Pow2(b)
    ensures q == y / Pow2(b - a) && q < Pow2(a)
  {
    q := y / Pow2(b - a);
    Pow2Add(a, b - a);
    SplitValue(y, Pow2(a), Pow2(b - a));
  }

  lemma {:induction false} ByteBitsAppend(a: seq<byte>, b: seq<byte>)
    ensures ByteBits(a + b) == ByteBits(a) + ByteBits(b)
  {
    if a != [] {
      assert (a + b)[0] == a[0];
      assert (a + b)[1..] == a[1..] + b;
      ByteBitsAppend(a[1..], b);
      calc {
        ByteBits(a + b);
        ToBits(8, a[0]) + ByteBits(a[1..] + b);
        ToBits(8, a[0]) + (ByteBits(a[1..]) + ByteBits(b));
        (ToBits(8, a[0]) + ByteBits(a[1..])) + ByteBits(b);
        ByteBits(a) + ByteBits(b);
      }
    } else {
      assert a + b == b;
    }
  }

  lemma {:induction false} ByteBitsCons(x: byte, rest: seq<byte>)
    ensures ByteBits([x] + rest) == ToBits(8, x) + ByteBits(rest)
  {
    assert ([x] + rest)[1..] == rest;
  }

  lemma {:induction false} ByteBitsSnoc(a: seq<byte>, x: byte)
    ensures ByteBits(a + [x]) == ByteBits(a) + ToBits(8, x)
  {
    ByteBitsAppend(a, [x]);
    assert ByteBits([x]) == ToBits(8, x) + ByteBits([]);
  }

  /** A slice grown by the element that follows it. */
  lemma SliceSnoc<T>(s: seq<T>, i: nat, j: nat)
    requires i <= j < |s|
    ensures s[i..j + 1] == s[i..j] + [s[j]]
  {
  }

  /** Removing position `j` removes one occurrence of its element. */
  lemma {:induction false} MultisetRemove<T>(b: seq<T>, j: nat)
    requires j < |b|
    ensures multiset(b[..j] + b[j + 1..]) == multiset(b) - multiset{b[j]}
  {
    assert b == b[..j] + [b[j]] + b[j + 1..];
  }

  /** Some member of a non-empty set. */
  lemma {:induction false} Member<T>(s: set<T>) returns (x: T)
    requires s != {}
    ensures x in s
  {
    x :| x in s;
  }

  /** No element occurs twice. */
  ghost predicate Distinct<T>(s: seq<T>)
  {
    forall i, j :: 0 <= i < j < |s| ==> s[i] != s[j]
  }

  /** In a sequence without repetitions every element occurs once. */
  lemma {:induction false} DistinctCount<T>(s: seq<T>, x: T)
    requires Distinct(s)
    ensures multiset(s)[x] == if x in s then 1 else 0
  {
    if s != [] {
      assert s == [s[0]] + s[1..];
      assert Distinct(s[1..]);
      DistinctCount(s[1..], x);
      assert s[0] !in s[1..];
    }
  }

  /** Two sequences without repetitions that hold the same elements are permutations. */
  lemma {:induction false} DistinctMultiset<T>(a: seq<T>, b: seq<T>)
    requires Distinct(a) && Distinct(b) && forall x :: x in a <==> x in b
    ensures multiset(a) == multiset(b)
  {
    forall x
      ensures multiset(a)[x] == multiset(b)[x]
    {
      DistinctCount(a, x);
      DistinctCount(b, x);
    }
  }

  /** A sequence in which nothing occurs twice has no repetitions. */
  lemma {:induction false} CountsDistinct<T>(s: seq<T>)
    requires forall x :: multiset(s)[x] <= 1
    ensures Distinct(s)
  {
    forall i, j | 0 <= i < j < |s|
      ensures s[i] != s[j]
    {
      assert s == s[..j] + [s[j]] + s[j + 1..];
      assert s[i] in multiset(s[..j]);
      assert multiset(s)[s[i]] == multiset(s[..j])[s[i]] + multiset([s[j]])[s[i]] + multiset(s[j + 1..])[s[i]];
    }
  }

  /** Moving the next byte of `rem` behind the pending bits `p` keeps the bits still to
      read; past the end of `rem` an arbitrary byte only adds bits after them. */
  lemma {:induction false} FeedStep(p: seq<bool>, rem: seq<byte>, b: byte, rem': seq<byte>)
    requires rem != [] ==> b == rem[0] && rem' == rem[1..]
    requires rem == [] ==> rem' == []
    ensures p + ByteBits(rem) <= p + ToBits(8, b) + ByteBits(rem')
  {
    if rem != [] {
      assert rem == [rem[0]] + rem[1..];
      ByteBitsCons(rem[0], rem[1..]);
    }
  }

  /** Bits expected at the head of `p + r` agree with the pending bits `p` as far as
      those reach, and the rest of them is expected after. */
  lemma {:induction false} TakeBits(e: seq<bool>, p: seq<bool>, r: seq<bool>, n: nat)
    requires e <= p + r && n <= |p| && n <= |e|
    ensures e[..n] == p[..n] && e[n..] <= p[n..] + r
  {
    assert (p + r)[..n] == p[..n];
    assert (p + r)[n..] == p[n..] + r;
  }
  /** Splitting `a + b + c` after its head `a`. */
  lemma {:induction false} HeadTail(a: seq<bool>, b: seq<bool>, c: seq<bool>)
    ensures (a + b + c)[..|a|] == a && (a + b + c)[|a|..] == b + c
  {
    assert (a + b + c)[|a|..] == (a + (b + c))[|a|..];
  }

  lemma {:induction false} Regroup3(a: seq<bool>, b: seq<bool>, c: seq<bool>, r: seq<bool>)
    ensures a + b + c + r == a + (b + (c + r))
  {
  }

  /** Being a prefix is transitive. */
  lemma {:induction false} PrefixTrans(a: seq<bool>, b: seq<bool>, c: seq<bool>)
    requires a <= b && b <= c
    ensures a <= c
  {
  }
}
