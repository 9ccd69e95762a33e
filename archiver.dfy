/** The archive as a whole: the entries of several files one after another in a single
    bit stream, sharing one writer and one bit register, and the decoding loop that reads
    entries back until the one marked as last. */
module Archiver {
  import opened Bits
  import opened BitHandler
  import opened Trie
  import opened Canonical
  import opened Format
  import opened HuffmanCoding

  /** A file handed to the archiver: its name and its bytes. */
  datatype InputFile = InputFile(name: seq<char>, content: seq<byte>)

  /** A file as the archive holds it: its entry's table, its name and its bytes. */
  datatype Archived = Archived(table: seq<Entry>, name: seq<char>, content: seq<byte>)

  /** A 7-bit name. */
  ghost predicate NameFits(name: seq<char>)
  {
    forall i :: 0 <= i < |name| ==> name[i] as int < 128
  }

  /** The entry can be coded: its table is valid and codes every symbol the entry needs. */
  ghost predicate Coded(e: Archived, last: bool)
  {
    ValidTable(e.table) && Covers(e.table, e.name, e.content, last) && NameFits(e.name)
  }

  /** Every entry is codable, the final one marked last exactly when `last` holds. */
  ghost predicate AllCoded(es: seq<Archived>, last: bool)
  {
    forall i :: 0 <= i < |es| ==> Coded(es[i], last && i == |es| - 1)
  }

  /** The bits of one entry, or nothing for an entry that cannot be coded. */
  ghost function Piece(e: Archived, last: bool): seq<bool>
  {
    if Coded(e, last) then EntryBits(e.table, e.name, e.content, last) else []
  }

  /** The bits of the entries one after another, the final one ending with ARCHIVE_END
      when `last` holds and every other one with ONE_MORE_FILE. */
  ghost function ChainBits(es: seq<Archived>, last: bool): seq<bool>
    decreases |es|
  {
    if es == [] then [] else Piece(es[0], last && |es| == 1) + ChainBits(es[1..], last)
  }

  /** The bits padded with zeros to whole bytes, as the last entry leaves them. */
  ghost function Padded(bits: seq<bool>): seq<bool>
  {
    bits + Zeros(8 - |bits| % 8)
  }

  /** The files an archive's entries stand for. */
  function FilesOf(es: seq<Archived>): (r: seq<InputFile>)
    ensures |r| == |es|
    ensures forall i :: 0 <= i < |es| ==> r[i] == InputFile(es[i].name, es[i].content)
  {
    if es == [] then [] else [InputFile(es[0].name, es[0].content)] + FilesOf(es[1..])
  }

  /** Appending an entry after entries that are not last appends its bits. */
  lemma {:induction false} ChainAppend(es: seq<Archived>, e: Archived, last: bool)
    ensures ChainBits(es + [e], last) == ChainBits(es, false) + Piece(e, last)
    decreases |es|
  {
    var s := es + [e];
    if es == [] {
      assert s == [e];
      assert s[1..] == [];
    } else {
      assert s[0] == es[0] && s[1..] == es[1..] + [e];
      ChainAppend(es[1..], e, last);
      AppendAssoc(Piece(es[0], false), ChainBits(es[1..], false), Piece(e, last));
    }
  }

  /** The entries from position `i` on: entry `i`'s bits, then those after it. */
  lemma {:induction false} ChainFrom(es: seq<Archived>, i: nat)
    requires i < |es|
    ensures ChainBits(es[i..], true) == Piece(es[i], i == |es| - 1) + ChainBits(es[i + 1..], true)
  {
    assert es[i..][0] == es[i] && es[i..][1..] == es[i + 1..];
  }

  /** The archive's record of the files: each file with the table the coder builds from
      that file's own symbol counts. */
  ghost function ArchivedOf(files: seq<InputFile>): seq<Archived>
  {
    seq(|files|, i requires 0 <= i < |files| => ArchivedFile(files[i]))
  }

  /** A file with the table the coder builds from its own symbol counts. */
  ghost function ArchivedFile(file: InputFile): Archived
  {
    Archived(EntryTable(file.name, file.content), file.name, file.content)
  }

  /** Compresses the files, in order, into one archive: every file gets its own entry,
      coded with the Huffman table of its own symbol counts; the last one ends the archive
      and pads it to whole bytes. No files give an empty archive. */
  method EncodeArchive(files: seq<InputFile>) returns (archive: seq<byte>)
    requires forall i :: 0 <= i < |files| ==> NameFits(files[i].name)
    ensures AllCoded(ArchivedOf(files), true)
    ensures |files| == 0 ==> archive == []
    ensures |files| > 0 ==> ByteBits(archive) == Padded(ChainBits(ArchivedOf(files), true))
  {
    var writer := new BitWriter();
    var globalBitString := new BitString(0, 0);
    ghost var entries := [];
    var i := 0;
    while i < |files|
      invariant 0 <= i <= |files| && |entries| == i
      invariant fresh(writer) && fresh(globalBitString)
      invariant writer.Valid() && globalBitString.Valid()
      invariant forall j :: 0 <= j < i ==> entries[j] == ArchivedFile(files[j])
      invariant forall j :: 0 <= j < i ==> Coded(entries[j], j == |files| - 1)
      invariant i < |files| ==> fresh(writer.buffer) && writer.Aligned()
      invariant i < |files| ==> Output(writer, globalBitString) == ChainBits(entries, false)
      invariant |files| == 0 ==> writer.stream == []
      invariant 0 < i == |files| ==> writer.stream == writer.Written()
      invariant 0 < i == |files| ==> ByteBits(writer.stream) == Padded(ChainBits(entries, true))
    {
      var isFileLast := i + 1 == |files|;
      ghost var e := EncodeOne(writer, globalBitString, files[i], isFileLast);
      ChainAppend(entries, e, isFileLast);
      Grown(entries, e, files);
      entries := entries + [e];
      i := i + 1;
    }
    archive := writer.stream;
    Recorded(entries, files);
  }

  /** One round of EncodeArchive: a fresh reader over the file, and its entry appended to
      the archive's bits. */
  method EncodeOne(writer: BitWriter, bs: BitString, file: InputFile, isFileLast: bool)
    returns (ghost e: Archived)
    requires writer.Valid() && writer.Aligned() && bs.Valid() && NameFits(file.name)
    modifies writer, writer.buffer, bs
    ensures writer.Valid() && bs.Valid() && e == ArchivedFile(file)
    ensures ValidTable(e.table) && Covers(e.table, e.name, e.content, isFileLast)
    ensures !isFileLast ==> writer.Aligned() && writer.buffer == old(writer.buffer)
    ensures !isFileLast ==>
              Output(writer, bs) == old(Output(writer, bs)) + EntryBits(e.table, e.name, e.content, false)
    ensures isFileLast ==> writer.stream == writer.Written()
    ensures isFileLast ==>
              ByteBits(writer.stream) == Padded(old(Output(writer, bs)) + EntryBits(e.table, e.name, e.content, true))
  {
    var reader := new BitReader(file.content);
    assert Output(writer, bs) == old(Output(writer, bs));
    var table := EncodeFile(reader, writer, bs, file.name, isFileLast);
    e := Archived(table, file.name, file.content);
  }

  /** Recording one more file's entry keeps the loop's record of EncodeArchive. */
  lemma {:induction false} Grown(entries: seq<Archived>, e: Archived, files: seq<InputFile>)
    requires |entries| < |files|
    requires forall j :: 0 <= j < |entries| ==> entries[j] == ArchivedFile(files[j])
    requires forall j :: 0 <= j < |entries| ==> Coded(entries[j], j == |files| - 1)
    requires e == ArchivedFile(files[|entries|])
    requires Coded(e, |entries| == |files| - 1)
    ensures forall j :: 0 <= j < |entries| + 1 ==> (entries + [e])[j] == ArchivedFile(files[j])
    ensures forall j :: 0 <= j < |entries| + 1 ==> Coded((entries + [e])[j], j == |files| - 1)
  {
    GrownRecord(entries, e, files);
    GrownCoded(entries, e, |files|);
  }

  /** The record part of Grown. */
  lemma {:induction false} GrownRecord(entries: seq<Archived>, e: Archived, files: seq<InputFile>)
    requires |entries| < |files|
    requires forall j :: 0 <= j < |entries| ==> entries[j] == ArchivedFile(files[j])
    requires e == ArchivedFile(files[|entries|])
    ensures forall j :: 0 <= j < |entries| + 1 ==> (entries + [e])[j] == ArchivedFile(files[j])
  {
    forall j | 0 <= j < |entries| + 1
      ensures (entries + [e])[j] == ArchivedFile(files[j])
    {
      if j < |entries| {
        assert (entries + [e])[j] == entries[j];
      }
    }
  }

  /** The codability part of Grown: each recorded entry stays codable, the final one marked last. */
  lemma {:induction false} GrownCoded(entries: seq<Archived>, e: Archived, n: nat)
    requires |entries| < n
    requires forall j :: 0 <= j < |entries| ==> Coded(entries[j], j == n - 1)
    requires Coded(e, |entries| == n - 1)
    ensures forall j :: 0 <= j < |entries| + 1 ==> Coded((entries + [e])[j], j == n - 1)
  {
    forall j | 0 <= j < |entries| + 1
      ensures Coded((entries + [e])[j], j == n - 1)
    {
      if j < |entries| {
        assert (entries + [e])[j] == entries[j];
      }
    }
  }

  /** When every file has been coded, the loop's record of EncodeArchive is the archive's
      record of the files. */
  lemma {:induction false} Recorded(entries: seq<Archived>, files: seq<InputFile>)
    requires |entries| == |files|
    requires forall j :: 0 <= j < |entries| ==> entries[j] == ArchivedFile(files[j])
    requires forall j :: 0 <= j < |entries| ==> Coded(entries[j], j == |files| - 1)
    ensures entries == ArchivedOf(files) && AllCoded(ArchivedOf(files), true)
  {
    assert |ArchivedOf(files)| == |files|;
  }

  /** The files the archive's record stands for are the files themselves. */
  lemma {:induction false} FilesOfArchived(files: seq<InputFile>)
    ensures FilesOf(ArchivedOf(files)) == files
  {
    var r := FilesOf(ArchivedOf(files));
    forall j | 0 <= j < |files|
      ensures r[j] == files[j]
    {
      assert r[j] == InputFile(ArchivedOf(files)[j].name, ArchivedOf(files)[j].content);
    }
  }

  /** Reads the archive's entries back, one DecodeFile per entry on a shared reader and
      bit register, until the entry that ends the archive; returns every file in order. */
  method DecodeArchive(archive: seq<byte>, ghost entries: seq<Archived>) returns (files: seq<InputFile>)
    requires |entries| > 0 && AllCoded(entries, true)
    requires ChainBits(entries, true) <= ByteBits(archive)
    ensures files == FilesOf(entries)
  {
    var reader := new BitReader(archive);
    var globalBitString := new BitString(0, 0);
    assert globalBitString.Pending() == [];
    assert Avail(reader, globalBitString) == ByteBits(archive);
    assert entries[0..] == entries;
    files := [];
    var endOfArchive := false;
    ghost var i := 0;
    while !endOfArchive
      invariant 0 <= i <= |entries| && (endOfArchive <==> i == |entries|)
      invariant fresh(reader) && fresh(reader.buffer) && fresh(globalBitString)
      invariant Reading(reader, globalBitString, entries, i)
      invariant files == FilesOf(entries[..i])
      decreases |entries| - i
    {
      var file;
      endOfArchive, file := DecodeOne(reader, globalBitString, entries, i);
      FilesOfSnoc(entries, i);
      files := files + [file];
      i := i + 1;
    }
    assert entries[..i] == entries;
  }

  /** DecodeArchive part way: the reader and the register are sound, and the bits still to
      be read begin with the entries from `i` on. */
  ghost predicate Reading(reader: BitReader, bs: BitString, entries: seq<Archived>, i: nat)
    reads reader, reader.buffer, bs
  {
    reader.Valid() && bs.Valid() && (i < |entries| ==> ChainBits(entries[i..], true) <= Avail(reader, bs))
  }

  /** One round of DecodeArchive: the entry at the head of the remaining bits is read back,
      and the bits after it are left. */
  method DecodeOne(reader: BitReader, bs: BitString, ghost entries: seq<Archived>, ghost i: nat)
    returns (endOfArchive: bool, file: InputFile)
    requires reader.Valid() && bs.Valid() && AllCoded(entries, true) && i < |entries|
    requires ChainBits(entries[i..], true) <= Avail(reader, bs)
    modifies reader, reader.buffer, bs
    ensures reader.Valid() && reader.buffer == old(reader.buffer) && bs.Valid()
    ensures endOfArchive == (i == |entries| - 1) && file == InputFile(entries[i].name, entries[i].content)
    ensures ChainBits(entries[i + 1..], true) <= Avail(reader, bs)
  {
    ChainFrom(entries, i);
    ghost var e := entries[i];
    var filename, contents;
    endOfArchive, filename, contents :=
      DecodeFile(reader, bs, e.table, e.name, e.content, i == |entries| - 1, ChainBits(entries[i + 1..], true));
    file := InputFile(filename, contents);
  }

  lemma {:induction false} FilesOfSnoc(es: seq<Archived>, i: nat)
    requires i < |es|
    ensures FilesOf(es[..i + 1]) == FilesOf(es[..i]) + [InputFile(es[i].name, es[i].content)]
  {
    var a, b := FilesOf(es[..i + 1]), FilesOf(es[..i]) + [InputFile(es[i].name, es[i].content)];
    assert |a| == |b|;
    forall j | 0 <= j <= i
      ensures a[j] == b[j]
    {
      if j < i { assert es[..i + 1][j] == es[..i][j]; }
    }
  }

  /** Decoding an archive the encoder wrote gives back every file, name and bytes, in order. */
  method ArchiveRoundTrip(files: seq<InputFile>) returns (decoded: seq<InputFile>)
    requires |files| > 0 && forall i :: 0 <= i < |files| ==> NameFits(files[i].name)
    ensures decoded == files
  {
    var archive := EncodeArchive(files);
    ghost var entries := ArchivedOf(files);
    ghost var padded := ChainBits(entries, true);
    assert padded <= Padded(padded);
    decoded := DecodeArchive(archive, entries);
    FilesOfArchived(files);
  }
}
