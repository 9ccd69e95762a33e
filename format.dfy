/** The layout of one file's entry in an archive, as a run of bits (most significant first):
      - a 9-bit count K of the table's symbols;
      - the K symbols, 9 bits each, in canonical order;
      - for each code length from 1 to the longest, a 9-bit count of the symbols of that length;
      - the code words of the file name's characters, then of FILENAME_END;
      - the code words of the file's bytes, then of ARCHIVE_END for the last file of the
        archive or ONE_MORE_FILE otherwise.
    The archive is the entries one after another, zero-padded to whole bytes at the end. */
module Format {
  import opened Bits
  import opened Trie
  import opened Canonical

  const FilenameEnd: int := 256
  const OneMoreFile: int := 257
  const ArchiveEnd: int := 258
  const Bit: int := 1
  const Byte: int := 8
  const ArchivedByte: int := 9

  /** The symbols of the table, one 9-bit field each. */
  function SymbolFields(es: seq<Entry>): (r: seq<bool>)
    requires forall i :: 0 <= i < |es| ==> 0 <= es[i].symbol
    ensures |r| == ArchivedByte * |es|
  {
    if es == [] then [] else ToBits(ArchivedByte, es[0].symbol) + SymbolFields(es[1..])
  }

  /** How many entries have code length `l`. */
  function LengthCount(es: seq<Entry>, l: int): (n: nat)
    ensures n <= |es|
  {
    if es == [] then 0 else (if es[0].length == l then 1 else 0) + LengthCount(es[1..], l)
  }

  /** How many entries have a code shorter than `l`. */
  function Below(es: seq<Entry>, l: int): (n: nat)
    ensures n <= |es|
  {
    if es == [] then 0 else (if es[0].length < l then 1 else 0) + Below(es[1..], l)
  }

  /** The counts for lengths `from` up to `to`, one 9-bit field each. */
  function CountFields(es: seq<Entry>, from: nat, to: nat): seq<bool>
    decreases to + 1 - from
  {
    if from > to then [] else ToBits(ArchivedByte, LengthCount(es, from)) + CountFields(es, from + 1, to)
  }

  lemma {:induction false} CountFieldsStep(es: seq<Entry>, from: nat, to: nat)
    requires from <= to
    ensures CountFields(es, from, to) == ToBits(ArchivedByte, LengthCount(es, from)) + CountFields(es, from + 1, to)
  {
  }

  function HeaderBits(es: seq<Entry>): seq<bool>
    requires forall i :: 0 <= i < |es| ==> 0 <= es[i].symbol
  {
    ToBits(ArchivedByte, |es|) + SymbolFields(es) + CountFields(es, 1, MaxLength(es))
  }

  /** The code word of every symbol of a valid table. */
  function CodeBook(es: seq<Entry>): (book: map<int, seq<bool>>)
    requires ValidTable(es)
    ensures LengthsFrom(es, 0)
  {
    StrictlySortedLengths(es);
    BookOf(es, CodeWords(es))
  }

  /** The map from each entry's symbol to the word at the same position, later entries
      written over earlier ones. */
  function BookOf(es: seq<Entry>, words: seq<seq<bool>>): map<int, seq<bool>>
    requires |words| == |es|
  {
    if es == [] then map[] else BookOf(es[..|es| - 1], words[..|es| - 1])[es[|es| - 1].symbol := words[|es| - 1]]
  }

  /** With distinct symbols, the map holds exactly the entries' symbols, each with its own word. */
  lemma {:induction false} BookOfEntries(es: seq<Entry>, words: seq<seq<bool>>)
    requires |words| == |es| && forall i, j :: 0 <= i < j < |es| ==> es[i].symbol != es[j].symbol
    ensures forall i :: 0 <= i < |es| ==> es[i].symbol in BookOf(es, words) && BookOf(es, words)[es[i].symbol] == words[i]
    ensures forall s :: s in BookOf(es, words) ==> exists i :: 0 <= i < |es| && es[i].symbol == s
  {
    if es != [] {
      var n := |es| - 1;
      BookOfEntries(es[..n], words[..n]);
      forall s | s in BookOf(es, words)
        ensures exists i :: 0 <= i < |es| && es[i].symbol == s
      {
        if s != es[n].symbol {
          var i :| 0 <= i < n && es[..n][i].symbol == s;
          assert es[i].symbol == s;
        }
      }
    }
  }

  /** The book holds exactly the table's symbols, each with the code word of its entry. */
  lemma {:induction false} CodeBookEntries(es: seq<Entry>)
    requires ValidTable(es)
    ensures forall i :: 0 <= i < |es| ==> es[i].symbol in CodeBook(es) && CodeBook(es)[es[i].symbol] == CodeWords(es)[i]
    ensures forall s :: s in CodeBook(es) ==> exists i :: 0 <= i < |es| && es[i].symbol == s
  {
    StrictlySortedLengths(es);
    BookOfEntries(es, CodeWords(es));
  }

  /** The symbols of the first `k` entries, keyed by their code words: what the decoder's
      trie holds after `k` calls of AddPath. */
  function WordMap(es: seq<Entry>, k: nat): (m: map<seq<bool>, int>)
    requires LengthsFrom(es, 0) && k <= |es|
  {
    if k == 0 then map[] else WordMap(es, k - 1)[CodeWords(es)[k - 1] := es[k - 1].symbol]
  }

  /** The word map sends each code word of the first `k` entries back to its symbol. */
  lemma {:induction false} WordMapLookup(es: seq<Entry>, k: nat)
    requires ValidTable(es) && LengthsFrom(es, 0) && k <= |es|
    ensures forall i :: 0 <= i < k ==>
              (CodeWords(es)[i] in WordMap(es, k) && WordMap(es, k)[CodeWords(es)[i]] == es[i].symbol)
  {
    if k > 0 {
      WordMapLookup(es, k - 1);
      var words := CodeWords(es);
      forall i | 0 <= i < k - 1
        ensures words[i] != words[k - 1]
      {
        WordsDistinct(es, i, k - 1);
      }
    }
  }

  /** The words of the word map are exactly the first `k` code words. */
  lemma {:induction false} WordMapKeys(es: seq<Entry>, k: nat)
    requires LengthsFrom(es, 0) && k <= |es|
    ensures forall w :: w in WordMap(es, k) ==> exists i :: 0 <= i < k && CodeWords(es)[i] == w
  {
    if k > 0 {
      WordMapKeys(es, k - 1);
    }
  }

  lemma {:induction false} WordsDistinct(es: seq<Entry>, i: nat, j: nat)
    requires ValidTable(es) && LengthsFrom(es, 0) && i < |es| && j < |es| && i != j
    ensures CodeWords(es)[i] != CodeWords(es)[j]
  {
    CanonicalCodesFit(es);
    NotPrefix(es, i, j);
  }

  /** No word of the map is a prefix of another. */
  lemma {:induction false} WordMapPrefixFree(es: seq<Entry>, k: nat)
    requires ValidTable(es) && LengthsFrom(es, 0) && k <= |es|
    ensures PrefixFree(WordMap(es, k))
  {
    WordMapKeys(es, k);
    CanonicalCodesFit(es);
    forall p, q | p in WordMap(es, k) && q in WordMap(es, k) && p != q
      ensures !(p <= q)
    {
      var i :| 0 <= i < k && CodeWords(es)[i] == p;
      var j :| 0 <= j < k && CodeWords(es)[j] == q;
      NotPrefix(es, i, j);
    }
  }

  /** The full word map reads every code word of the book back as its symbol. */
  lemma {:induction false} BookInWordMap(es: seq<Entry>, s: int)
    requires ValidTable(es) && s in CodeBook(es)
    ensures CodeBook(es)[s] in WordMap(es, |es|) && WordMap(es, |es|)[CodeBook(es)[s]] == s
    ensures |CodeBook(es)[s]| >= 1
  {
    CodeBookEntries(es);
    WordMapLookup(es, |es|);
    var i :| 0 <= i < |es| && es[i].symbol == s;
    assert CodeBook(es)[s] == CodeWords(es)[i];
  }

  /** The code words of `syms`, one after another. */
  function EncodeSymbols(book: map<int, seq<bool>>, syms: seq<int>): seq<bool>
    requires forall i :: 0 <= i < |syms| ==> syms[i] in book
  {
    if syms == [] then [] else book[syms[0]] + EncodeSymbols(book, syms[1..])
  }

  /** The codes from position `i` on are the code of syms[i] followed by the codes after it. */
  lemma {:induction false} EncodeSymbolsFrom(book: map<int, seq<bool>>, syms: seq<int>, i: nat)
    requires forall k :: 0 <= k < |syms| ==> syms[k] in book
    requires i < |syms|
    ensures EncodeSymbols(book, syms[i..]) == book[syms[i]] + EncodeSymbols(book, syms[i + 1..])
  {
    assert syms[i..][0] == syms[i] && syms[i..][1..] == syms[i + 1..];
  }

  lemma {:induction false} EncodeSymbolsAppend(book: map<int, seq<bool>>, a: seq<int>, b: seq<int>)
    requires forall i :: 0 <= i < |a| ==> a[i] in book
    requires forall i :: 0 <= i < |b| ==> b[i] in book
    ensures EncodeSymbols(book, a + b) == EncodeSymbols(book, a) + EncodeSymbols(book, b)
  {
    if a == [] {
      assert a + b == b;
    } else {
      assert (a + b)[1..] == a[1..] + b;
      EncodeSymbolsAppend(book, a[1..], b);
    }
  }

  /** The symbol each character of a 7-bit file name stands for. */
  function NameSymbols(name: seq<char>): (r: seq<int>)
    ensures |r| == |name| && forall i :: 0 <= i < |name| ==> r[i] == name[i] as int
  {
    if name == [] then [] else [name[0] as int] + NameSymbols(name[1..])
  }

  function Terminator(last: bool): int
  {
    if last then ArchiveEnd else OneMoreFile
  }

  /** The symbols coded after the header: the name, FILENAME_END, the bytes, the terminator. */
  function FileSymbols(name: seq<char>, content: seq<byte>, last: bool): (r: seq<int>)
    ensures |r| == |name| + |content| + 2
  {
    NameSymbols(name) + [FilenameEnd] + content + [Terminator(last)]
  }

  /** The symbols an entry's table holds: the name's characters, the file's bytes and the
      three markers. */
  ghost function Alphabet(name: seq<char>, content: seq<byte>): set<int>
  {
    (set c | c in name :: c as int) + (set b | b in content :: b as int) + {FilenameEnd, OneMoreFile, ArchiveEnd}
  }

  /** Every symbol coded after the header belongs to the entry's alphabet. */
  lemma {:induction false} FileSymbolsInAlphabet(name: seq<char>, content: seq<byte>, last: bool)
    ensures forall i :: 0 <= i < |FileSymbols(name, content, last)| ==>
              FileSymbols(name, content, last)[i] in Alphabet(name, content)
  {
    var ns := NameSymbols(name);
    var fs := FileSymbols(name, content, last);
    forall i | 0 <= i < |fs|
      ensures fs[i] in Alphabet(name, content)
    {
      if i < |ns| {
        assert fs[i] == name[i] as int && name[i] in name;
      } else if |ns| < i < |ns| + 1 + |content| {
        var j := i - |ns| - 1;
        assert fs[i] == content[j] as int && content[j] in content;
      }
    }
  }

  /** The alphabet of a 7-bit name has at most 259 symbols, each below 259. */
  lemma {:induction false} AlphabetBound(name: seq<char>, content: seq<byte>)
    requires forall i :: 0 <= i < |name| ==> name[i] as int < 128
    ensures forall s :: s in Alphabet(name, content) ==> 0 <= s < 259
    ensures 3 <= |Alphabet(name, content)| <= 259
  {
    var a := Alphabet(name, content);
    forall s | s in a
      ensures 0 <= s < 259
    {
      if s in (set c | c in name :: c as int) {
        var c :| c in name && c as int == s;
        var i :| 0 <= i < |name| && name[i] == c;
      }
    }
    RangeCard(a, 259);
    var markers := {FilenameEnd, OneMoreFile, ArchiveEnd};
    assert markers <= a;
    assert |markers| == 3;
  }

  /** Every symbol of the entry has a code word. */
  ghost predicate Covers(es: seq<Entry>, name: seq<char>, content: seq<byte>, last: bool)
    requires ValidTable(es)
  {
    forall i :: 0 <= i < |FileSymbols(name, content, last)| ==> FileSymbols(name, content, last)[i] in CodeBook(es)
  }

  /** The bits of one file's entry. */
  function EntryBits(es: seq<Entry>, name: seq<char>, content: seq<byte>, last: bool): seq<bool>
    requires ValidTable(es) && Covers(es, name, content, last)
  {
    HeaderBits(es) + EncodeSymbols(CodeBook(es), FileSymbols(name, content, last))
  }

  /** The coded symbols split into the name's codes, FILENAME_END's, the bytes' codes and
      the terminator's. */
  lemma {:induction false} EncodeFileSymbols(book: map<int, seq<bool>>, name: seq<char>, content: seq<byte>, last: bool)
    requires forall i :: 0 <= i < |FileSymbols(name, content, last)| ==> FileSymbols(name, content, last)[i] in book
    ensures NameSymbols(name) + [FilenameEnd] + content + [Terminator(last)] == FileSymbols(name, content, last)
    ensures forall i :: 0 <= i < |NameSymbols(name)| ==> NameSymbols(name)[i] in book
    ensures forall i :: 0 <= i < |content| ==> content[i] in book
    ensures FilenameEnd in book && Terminator(last) in book
    ensures EncodeSymbols(book, FileSymbols(name, content, last))
         == EncodeSymbols(book, NameSymbols(name)) + book[FilenameEnd]
            + EncodeSymbols(book, content) + book[Terminator(last)]
  {
    var ns := NameSymbols(name);
    var fs := FileSymbols(name, content, last);
    forall i | 0 <= i < |ns|
      ensures ns[i] in book
    {
      assert fs[i] == ns[i];
    }
    forall i | 0 <= i < |content|
      ensures content[i] in book
    {
      assert fs[|ns| + 1 + i] == content[i];
    }
    assert fs[|ns|] == FilenameEnd && fs[|fs| - 1] == Terminator(last);
    var a: seq<int> := ns + [FilenameEnd];
    var b: seq<int> := content + [Terminator(last)];
    assert fs == a + b;
    EncodeSymbolsAppend(book, a, b);
    EncodeSymbolsAppend(book, ns, [FilenameEnd]);
    EncodeSymbolsAppend(book, content, [Terminator(last)]);
    assert EncodeSymbols(book, [FilenameEnd]) == book[FilenameEnd] + EncodeSymbols(book, []);
    assert EncodeSymbols(book, [Terminator(last)]) == book[Terminator(last)] + EncodeSymbols(book, []);
  }

  lemma {:induction false} BelowStep(es: seq<Entry>, l: int)
    ensures Below(es, l + 1) == Below(es, l) + LengthCount(es, l)
  {
    if es != [] { BelowStep(es[1..], l); }
  }

  /** In a table ordered by length, the entries shorter than `l` are exactly the first
      Below(es, l) ones. */
  lemma {:induction false} SortedBelow(es: seq<Entry>, l: int)
    requires LengthsFrom(es, 0)
    ensures forall i :: 0 <= i < |es| ==> (es[i].length < l <==> i < Below(es, l))
  {
    if es != [] {
      assert LengthsFrom(es[1..], 0);
      SortedBelow(es[1..], l);
      forall i | 0 <= i < |es|
        ensures es[i].length < l <==> i < Below(es, l)
      {
        if i > 0 { assert es[1..][i - 1] == es[i]; }
      }
    }
  }

  /** Every entry is shorter than a length beyond the longest. */
  lemma {:induction false} BelowAll(es: seq<Entry>, l: int)
    requires forall i :: 0 <= i < |es| ==> es[i].length < l
    ensures Below(es, l) == |es|
  {
    if es != [] { BelowAll(es[1..], l); }
  }

  lemma {:induction false} LengthCountAppend(a: seq<Entry>, b: seq<Entry>, l: int)
    ensures LengthCount(a + b, l) == LengthCount(a, l) + LengthCount(b, l)
  {
    if a == [] {
      assert a + b == b;
    } else {
      assert (a + b)[1..] == a[1..] + b;
      LengthCountAppend(a[1..], b, l);
    }
  }

  lemma {:induction false} LengthCountRemove(b: seq<Entry>, j: nat, l: int)
    requires j < |b|
    ensures LengthCount(b, l) == (if b[j].length == l then 1 else 0) + LengthCount(b[..j] + b[j + 1..], l)
  {
    var front, back := b[..j], b[j + 1..];
    var tail := [b[j]] + back;
    assert b == front + tail;
    assert tail[1..] == back;
    LengthCountAppend(front, tail, l);
    LengthCountAppend(front, back, l);
  }

  /** How many entries have a given length does not depend on their order. */
  lemma {:induction false} LengthCountPermutation(a: seq<Entry>, b: seq<Entry>, l: int)
    requires multiset(a) == multiset(b)
    ensures LengthCount(a, l) == LengthCount(b, l)
  {
    if a == [] {
      assert |b| == |multiset(b)| == 0;
    } else {
      assert a[0] in multiset(b);
      var j :| 0 <= j < |b| && b[j] == a[0];
      LengthCountRemove(b, j, l);
      MultisetRemove(b, j);
      TailMultiset(a);
      LengthCountPermutation(a[1..], b[..j] + b[j + 1..], l);
    }
  }

  /** The encoder's two maps emit the code book: for each symbol of the book, the
      `codeLength[s]` low bits of `code[s]` are its code word. */
  ghost predicate Emits(book: map<int, seq<bool>>, codeLength: map<int, int>, code: map<int, int>)
  {
    forall s :: s in book ==>
      && s in codeLength && s in code
      && 0 <= codeLength[s] && 0 <= code[s] < Pow2(codeLength[s])
      && ToBits(codeLength[s], code[s]) == book[s]
  }

  /** Lengths taken from the table and codes from the canonical walk emit the code book. */
  lemma {:induction false} BookEmitted(es: seq<Entry>, codeLength: map<int, int>, code: map<int, int>)
    requires ValidTable(es) && LengthsFrom(es, 0)
    requires forall i :: 0 <= i < |es| ==> es[i].symbol in codeLength && codeLength[es[i].symbol] == es[i].length
    requires forall i :: 0 <= i < |es| ==> es[i].symbol in code && code[es[i].symbol] == CanonicalCodes(es)[i]
    ensures Emits(CodeBook(es), codeLength, code)
  {
    CanonicalCodesFit(es);
    CodeBookEntries(es);
    forall s | s in CodeBook(es)
      ensures s in codeLength && s in code && 0 <= codeLength[s] && 0 <= code[s] < Pow2(codeLength[s])
      ensures ToBits(codeLength[s], code[s]) == CodeBook(es)[s]
    {
      var i :| 0 <= i < |es| && es[i].symbol == s;
      assert CodeBook(es)[s] == CodeWords(es)[i];
    }
  }

  /** The bits still to come while decoding `syms` followed by `rest`, once `n` bits of
      the code word of syms[k] have been read. */
  ghost function Ahead(book: map<int, seq<bool>>, syms: seq<int>, k: nat, n: nat, rest: seq<bool>): seq<bool>
    requires forall i :: 0 <= i < |syms| ==> syms[i] in book
    requires k < |syms| && n <= |book[syms[k]]|
  {
    book[syms[k]][n..] + EncodeSymbols(book, syms[k + 1..]) + rest
  }

  lemma {:induction false} AheadStart(book: map<int, seq<bool>>, syms: seq<int>, k: nat, rest: seq<bool>)
    requires forall i :: 0 <= i < |syms| ==> syms[i] in book
    requires k < |syms|
    ensures EncodeSymbols(book, syms[k..]) + rest == Ahead(book, syms, k, 0, rest)
  {
    assert syms[k..][0] == syms[k] && syms[k..][1..] == syms[k + 1..];
    assert book[syms[k]][0..] == book[syms[k]];
  }

  /** Reading one more bit of the current code word. */
  lemma {:induction false} AheadStep(book: map<int, seq<bool>>, syms: seq<int>, k: nat, n: nat, rest: seq<bool>)
    requires forall i :: 0 <= i < |syms| ==> syms[i] in book
    requires k < |syms| && n < |book[syms[k]]|
    ensures Ahead(book, syms, k, n, rest) != []
    ensures Ahead(book, syms, k, n, rest)[0] == book[syms[k]][n]
    ensures Ahead(book, syms, k, n, rest)[1..] == Ahead(book, syms, k, n + 1, rest)
  {
    var w := book[syms[k]];
    assert w[n..] == [w[n]] + w[n + 1..];
  }

  /** After the last code word only `rest` is left. */
  lemma {:induction false} AheadEnd(book: map<int, seq<bool>>, syms: seq<int>, rest: seq<bool>)
    requires forall i :: 0 <= i < |syms| ==> syms[i] in book
    requires |syms| > 0
    ensures Ahead(book, syms, |syms| - 1, |book[syms[|syms| - 1]]|, rest) == rest
  {
    assert syms[|syms|..] == [];
  }
  /** After a whole code word that is not the last one, the next word starts. */
  lemma {:induction false} AheadNext(book: map<int, seq<bool>>, syms: seq<int>, k: nat, rest: seq<bool>)
    requires forall i :: 0 <= i < |syms| ==> syms[i] in book
    requires k + 1 < |syms|
    ensures Ahead(book, syms, k, |book[syms[k]]|, rest) == Ahead(book, syms, k + 1, 0, rest)
  {
    AheadStart(book, syms, k + 1, rest);
    assert book[syms[k]][|book[syms[k]]|..] == [];
  }
  /** One bit further into the code words: the bit read is the next bit of the current
      word; after it come the rest of the word, else the next word, else `rest`. */
  lemma {:induction false} AheadAdvance(book: map<int, seq<bool>>, syms: seq<int>, k: nat, n: nat, rest: seq<bool>)
    requires forall i :: 0 <= i < |syms| ==> syms[i] in book
    requires k < |syms| && n < |book[syms[k]]|
    ensures Ahead(book, syms, k, n, rest) != []
    ensures Ahead(book, syms, k, n, rest)[0] == book[syms[k]][n]
    ensures n + 1 < |book[syms[k]]| ==> Ahead(book, syms, k, n, rest)[1..] == Ahead(book, syms, k, n + 1, rest)
    ensures n + 1 == |book[syms[k]]| && k + 1 < |syms| ==>
              Ahead(book, syms, k, n, rest)[1..] == Ahead(book, syms, k + 1, 0, rest)
    ensures n + 1 == |book[syms[k]]| && k + 1 == |syms| ==> Ahead(book, syms, k, n, rest)[1..] == rest
  {
    AheadStep(book, syms, k, n, rest);
    if n + 1 == |book[syms[k]]| {
      if k + 1 < |syms| {
        AheadNext(book, syms, k, rest);
      } else {
        AheadEnd(book, syms, rest);
      }
    }
  }
}
