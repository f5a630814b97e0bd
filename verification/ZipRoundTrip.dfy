/** Archives laid out by PKWARE APPNOTE.TXT (sections 4.3.7, 4.3.12 and 4.3.16), and the proof
    that the reader gives back what was put in. */
module ZipRoundTrip {
  import opened ZipArchive
  import opened Options

  /** A member to be written.  The byte strings at the end are header fields and extensions
      that the reader skips; `size` is the uncompressed size recorded in the directory. */
  datatype File = File(
    name: Bytes, data: Bytes, size: nat, method_: nat, flags: nat, external: nat,
    localHead: Bytes, versions: Bytes, stamp: Bytes, attributes: Bytes,
    localExtra: Bytes, extra: Bytes, comment: Bytes)

  ghost predicate WellFormed(f: File) {
    && |f.name| < 0x10000 && |f.localExtra| < 0x10000 && |f.extra| < 0x10000 && |f.comment| < 0x10000
    && |f.data| < 0x1_0000_0000 && f.size < 0x1_0000_0000 && f.external < 0x1_0000_0000
    && f.method_ < 0x10000 && f.flags < 0x10000
    && |f.localHead| == 22 && |f.versions| == 4 && |f.stamp| == 8 && |f.attributes| == 4
  }

  // ------------------------------------------------------------- numbers

  /** Two bytes, the lower one first. */
  function LE16(n: nat): (b: Bytes)
    requires n < 0x10000
    ensures |b| == 2 && U16(b, 0) == n
  {
    [n % 0x100, n / 0x100]
  }

  /** Four bytes, the lowest one first. */
  function LE32(n: nat): (b: Bytes)
    requires n < 0x1_0000_0000
    ensures |b| == 4 && U32(b, 0) == n
  {
    assert n == n % 0x10000 + n / 0x10000 * 0x10000;
    LE16(n % 0x10000) + LE16(n / 0x10000)
  }

  // -------------------------------------------------------- parts of buffers

  /** `part` stands in `b` at position `at`. */
  ghost predicate At(b: Bytes, at: nat, part: Bytes) {
    at + |part| <= |b| && b[at..at + |part|] == part
  }

  lemma AtMiddle(before: Bytes, part: Bytes, after: Bytes)
    ensures At(before + part + after, |before|, part)
  {
  }

  lemma AtWithin(b: Bytes, at: nat, whole: Bytes, k: nat, part: Bytes)
    requires At(b, at, whole) && At(whole, k, part)
    ensures At(b, at + k, part)
  {
    var w := b[at..at + |whole|];
    assert w == whole;
    assert At(w, k, part);
    assert at + k + |part| <= |b|;
    var found := b[at + k..at + k + |part|];
    forall i | 0 <= i < |part| ensures found[i] == part[i] {
      assert found[i] == b[at + k + i] == w[k + i] == w[k..k + |part|][i];
    }
  }

  lemma AtThree(b: Bytes, at: nat, x: Bytes, y: Bytes, z: Bytes)
    requires At(b, at, x + y + z)
    ensures At(b, at, x) && At(b, at + |x|, y) && At(b, at + |x| + |y|, z)
  {
    var w := x + y + z;
    AtMiddle([], x, y + z);
    assert [] + x + (y + z) == w;
    AtMiddle(x, y, z);
    AtMiddle(x + y, z, []);
    assert x + y + z + [] == w;
    AtWithin(b, at, w, 0, x);
    AtWithin(b, at, w, |x|, y);
    AtWithin(b, at, w, |x + y|, z);
  }

  lemma AtWhole(b: Bytes)
    ensures At(b, 0, b)
  {
  }

  lemma AtAppended(b: Bytes, at: nat, part: Bytes, more: Bytes)
    requires At(b, at, part)
    ensures At(b + more, at, part)
  {
    assert (b + more)[at..at + |part|] == b[at..at + |part|];
  }

  lemma AtEnd(b: Bytes, part: Bytes)
    ensures At(b + part, |b|, part)
  {
  }

  /** The first `n` blocks, one after the other. */
  ghost function Cat(blocks: seq<Bytes>, n: nat): Bytes
    requires n <= |blocks|
  {
    if n == 0 then [] else Cat(blocks, n - 1) + blocks[n-1]
  }

  lemma {:induction false} BlockStands(blocks: seq<Bytes>, n: nat, i: nat)
    requires i < n <= |blocks|
    ensures At(Cat(blocks, n), |Cat(blocks, i)|, blocks[i])
  {
    if i == n - 1 {
      AtEnd(Cat(blocks, i), blocks[i]);
    } else {
      BlockStands(blocks, n - 1, i);
      AtAppended(Cat(blocks, n - 1), |Cat(blocks, i)|, blocks[i], blocks[n-1]);
    }
  }

  /** A block of a run of blocks that stands at `start`. */
  lemma BlockStandsIn(b: Bytes, start: nat, blocks: seq<Bytes>, i: nat)
    requires i < |blocks| && At(b, start, Cat(blocks, |blocks|))
    ensures At(b, start + |Cat(blocks, i)|, blocks[i])
  {
    BlockStands(blocks, |blocks|, i);
    AtWithin(b, start, Cat(blocks, |blocks|), |Cat(blocks, i)|, blocks[i]);
  }

  /** Numbers inside a part are read where the part stands. */
  lemma SameNumbers(b: Bytes, at: nat, part: Bytes, k: nat)
    requires At(b, at, part)
    ensures k + 2 <= |part| ==> U16(b, at + k) == U16(part, k)
    ensures k + 4 <= |part| ==> U32(b, at + k) == U32(part, k)
  {
    var w := b[at..at + |part|];
    assert forall i :: 0 <= i < |part| ==> w[i] == b[at + i];
  }

  // ---------------------------------------------------------------- layout

  ghost function Local(f: File): Bytes
    requires WellFormed(f)
  {
    LE32(LOCAL_SIGNATURE) + f.localHead + LE16(|f.name|) + LE16(|f.localExtra|) + (f.name + f.localExtra + f.data)
  }

  ghost function CentralFront(f: File): (b: Bytes)
    requires WellFormed(f)
    ensures |b| == 24
  {
    LE32(CENTRAL_SIGNATURE) + f.versions + LE16(f.flags) + LE16(f.method_) + f.stamp + LE32(|f.data|)
  }

  ghost function CentralBack(f: File, offset: nat): (b: Bytes)
    requires WellFormed(f) && offset < 0x1_0000_0000
    ensures |b| == 22
  {
    LE32(f.size) + LE16(|f.name|) + LE16(|f.extra|) + LE16(|f.comment|) + f.attributes + LE32(f.external) + LE32(offset)
  }

  ghost function Central(f: File, offset: nat): (b: Bytes)
    requires WellFormed(f) && offset < 0x1_0000_0000
    ensures |b| == 46 + |f.name| + |f.extra| + |f.comment|
  {
    CentralFront(f) + CentralBack(f, offset) + (f.name + f.extra + f.comment)
  }

  ghost predicate AllWellFormed(files: seq<File>) {
    forall i :: 0 <= i < |files| ==> WellFormed(files[i])
  }

  ghost function LocalBlocks(files: seq<File>): (blocks: seq<Bytes>)
    requires AllWellFormed(files)
    ensures |blocks| == |files|
  {
    seq(|files|, i requires 0 <= i < |files| => Local(files[i]))
  }

  /** Where the local record of file `i` starts. */
  ghost function LocalOffset(files: seq<File>, i: nat): nat
    requires AllWellFormed(files) && i <= |files|
  {
    |Cat(LocalBlocks(files), i)|
  }

  ghost predicate Addressable(files: seq<File>)
    requires AllWellFormed(files)
  {
    forall i :: 0 <= i <= |files| ==> LocalOffset(files, i) < 0x1_0000_0000
  }

  ghost function CentralBlocks(files: seq<File>): (blocks: seq<Bytes>)
    requires AllWellFormed(files) && Addressable(files)
    ensures |blocks| == |files|
  {
    seq(|files|, i requires 0 <= i < |files| => Central(files[i], LocalOffset(files, i)))
  }

  /** The end of an archive: its comment, and two fields of the end record that the reader
      skips. */
  datatype Tail = Tail(disks: Bytes, sizes: Bytes, comment: Bytes)

  ghost predicate WellFormedTail(tail: Tail) {
    |tail.disks| == 6 && |tail.sizes| == 4 && |tail.comment| < 0x10000
  }

  ghost function End(count: nat, offset: nat, tail: Tail): (b: Bytes)
    requires WellFormedTail(tail) && count < 0x10000 && offset < 0x1_0000_0000
    ensures |b| == 22 + |tail.comment|
  {
    LE32(END_SIGNATURE) + tail.disks + LE16(count) + tail.sizes + LE32(offset) + LE16(|tail.comment|) + tail.comment
  }

  /** Nothing that follows in an end record looks like another one: no position that leaves
      room for a record holds the signature. */
  ghost predicate OneSignature(end: Bytes) {
    forall k :: 0 < k <= |end| - 22 ==> U32(end, k) != END_SIGNATURE
  }

  /** What an archive must satisfy to be written: at most 512 members with distinct names, and
      a comment that cannot be taken for the end record. */
  ghost predicate Writable(files: seq<File>, tail: Tail, utf8: Bytes -> string) {
    && AllWellFormed(files) && Addressable(files) && |files| <= MAX_ENTRIES && WellFormedTail(tail)
    && OneSignature(End(|files|, LocalOffset(files, |files|), tail))
    && forall i, j :: 0 <= i < j < |files| ==> utf8(files[i].name) != utf8(files[j].name)
  }

  ghost function Archive(files: seq<File>, tail: Tail, utf8: Bytes -> string): Bytes
    requires Writable(files, tail, utf8)
  {
    Cat(LocalBlocks(files), |files|) + Cat(CentralBlocks(files), |files|)
    + End(|files|, LocalOffset(files, |files|), tail)
  }

  // ------------------------------------------------------ reading one record

  lemma CentralFrontFields(f: File)
    requires WellFormed(f)
    ensures var c := CentralFront(f);
            && U32(c, 0) == CENTRAL_SIGNATURE && U16(c, 8) == f.flags && U16(c, 10) == f.method_
            && U32(c, 20) == |f.data|
  {
  }

  lemma CentralBackFields(f: File, offset: nat)
    requires WellFormed(f) && offset < 0x1_0000_0000
    ensures var c := CentralBack(f, offset);
            && U32(c, 0) == f.size && U16(c, 4) == |f.name| && U16(c, 6) == |f.extra|
            && U16(c, 8) == |f.comment| && U32(c, 14) == f.external && U32(c, 18) == offset
  {
  }

  ghost function EntryOf(f: File, offset: nat, utf8: Bytes -> string): Entry {
    Entry(utf8(f.name), |f.data|, f.size, f.method_, f.flags, f.external, offset)
  }

  /** Reading a directory record that stands at `at`. */
  lemma ReadCentral(b: Bytes, at: nat, f: File, offset: nat, utf8: Bytes -> string)
    requires WellFormed(f) && offset < 0x1_0000_0000 && At(b, at, Central(f, offset))
    ensures RecordsIn(b, utf8)(at) == Some(Record(EntryOf(f, offset, utf8), at + |Central(f, offset)|))
  {
    AtThree(b, at, CentralFront(f), CentralBack(f, offset), f.name + f.extra + f.comment);
    AtThree(b, at + 46, f.name, f.extra, f.comment);
    FrontNumbers(b, at, f);
    BackNumbers(b, at, f, offset);
  }

  lemma FrontNumbers(b: Bytes, at: nat, f: File)
    requires WellFormed(f) && At(b, at, CentralFront(f))
    ensures U32(b, at) == CENTRAL_SIGNATURE && U16(b, at + 8) == f.flags && U16(b, at + 10) == f.method_
    ensures U32(b, at + 20) == |f.data|
  {
    CentralFrontFields(f);
    SameNumbers(b, at, CentralFront(f), 0);
    SameNumbers(b, at, CentralFront(f), 8);
    SameNumbers(b, at, CentralFront(f), 10);
    SameNumbers(b, at, CentralFront(f), 20);
  }

  lemma BackNumbers(b: Bytes, at: nat, f: File, offset: nat)
    requires WellFormed(f) && offset < 0x1_0000_0000 && At(b, at + 24, CentralBack(f, offset))
    ensures U32(b, at + 24) == f.size && U16(b, at + 28) == |f.name| && U16(b, at + 30) == |f.extra|
    ensures U16(b, at + 32) == |f.comment| && U32(b, at + 38) == f.external && U32(b, at + 42) == offset
  {
    CentralBackFields(f, offset);
    var back := CentralBack(f, offset);
    SameNumbers(b, at + 24, back, 0);
    SameNumbers(b, at + 24, back, 4);
    SameNumbers(b, at + 24, back, 6);
    SameNumbers(b, at + 24, back, 8);
    SameNumbers(b, at + 24, back, 14);
    SameNumbers(b, at + 24, back, 18);
  }

  ghost function LocalHeader(f: File): (b: Bytes)
    requires WellFormed(f)
    ensures |b| == 30
  {
    LE32(LOCAL_SIGNATURE) + f.localHead + LE16(|f.name|) + LE16(|f.localExtra|)
  }

  lemma LocalHeaderFields(f: File)
    requires WellFormed(f)
    ensures var h := LocalHeader(f);
            U32(h, 0) == LOCAL_SIGNATURE && U16(h, 26) == |f.name| && U16(h, 28) == |f.localExtra|
  {
  }

  /** What a reader with this limit is entitled to get for a member. */
  ghost function Contents(f: File, limit: nat, inflater: Inflater): Option<Bytes> {
    if f.flags % 2 == 1 || f.size > limit then None
    else if f.method_ == 0 then if |f.data| <= limit then Some(f.data) else None
    else if f.method_ == 8 then Inflate(inflater, f.data, limit)
    else None
  }

  /** Reading a member whose local record stands where its directory entry says. */
  lemma ReadLocal(b: Bytes, f: File, e: Entry, limit: nat, inflater: Inflater)
    requires WellFormed(f) && At(b, e.localHeaderOffset, Local(f))
    requires e.compressedSize == |f.data| && e.uncompressedSize == f.size && e.method_ == f.method_
             && e.flags == f.flags
    ensures ReadMember(b, e, limit, inflater) == Contents(f, limit, inflater)
  {
    LocalParts(b, f, e.localHeaderOffset);
  }

  /** Where the parts of a local record stand, and what its header says. */
  lemma LocalParts(b: Bytes, f: File, at: nat)
    requires WellFormed(f) && At(b, at, Local(f))
    ensures var start := at + 30 + |f.name| + |f.localExtra|;
            && at + 30 <= start <= start + |f.data| <= |b| && b[start..start + |f.data|] == f.data
            && U32(b, at) == LOCAL_SIGNATURE && U16(b, at + 26) == |f.name| && U16(b, at + 28) == |f.localExtra|
  {
    var header := LocalHeader(f);
    assert Local(f) == [] + header + (f.name + f.localExtra + f.data);
    AtThree(b, at, [], header, f.name + f.localExtra + f.data);
    AtThree(b, at + 30, f.name, f.localExtra, f.data);
    LocalHeaderFields(f);
    SameNumbers(b, at, header, 0);
    SameNumbers(b, at, header, 26);
    SameNumbers(b, at, header, 28);
  }

  lemma EndFields(count: nat, offset: nat, tail: Tail)
    requires WellFormedTail(tail) && count < 0x10000 && offset < 0x1_0000_0000
    ensures var e := End(count, offset, tail);
            U32(e, 0) == END_SIGNATURE && U16(e, 10) == count && U32(e, 16) == offset
  {
  }

  /** The backward search finds the end record behind which nothing looks like another one, and
      no other. */
  lemma EndFound(b: Bytes, at: nat, end: Bytes)
    requires 22 <= |end| < 22 + 0x10000 && U32(end, 0) == END_SIGNATURE && at + |end| == |b| && At(b, at, end)
    ensures FindEnd(b, |b| - 22) == at <==> OneSignature(end)
    ensures U16(b, at + 10) == U16(end, 10) && U32(b, at + 16) == U32(end, 16)
  {
    var found := FindEnd(b, |b| - 22);
    FindEndIsLast(b, |b| - 22);
    SameNumbers(b, at, end, 0);
    SameNumbers(b, at, end, 10);
    SameNumbers(b, at, end, 16);
    assert Searched(b, at);
    assert found >= at;
    forall k | 0 < k <= |end| - 22 ensures U32(b, at + k) == U32(end, k) && Searched(b, at + k) {
      SameNumbers(b, at, end, k);
    }
    if found > at {
      assert U32(end, found - at) == END_SIGNATURE;
    } else {
      forall k | 0 < k <= |end| - 22 ensures U32(end, k) != END_SIGNATURE {
        assert Searched(b, at + k);
      }
    }
  }

  // ---------------------------------------------------------- runs of records

  ghost predicate IthRecord(records: Records, at: seq<nat>, entries: Directory, i: nat)
    requires |at| == |entries| + 1 && i < |entries|
  {
    records(at[i]) == Some(Record(entries[i], at[i+1]))
  }

  /** Directory records for `entries` stand one after the other at `at`. */
  ghost predicate RecordsAt(records: Records, at: seq<nat>, entries: Directory) {
    |at| == |entries| + 1 && forall i :: 0 <= i < |entries| ==> IthRecord(records, at, entries, i)
  }

  lemma {:induction false} PutNew(dir: Directory, e: Entry)
    requires forall i :: 0 <= i < |dir| ==> dir[i].name != e.name
    ensures Put(dir, e) == dir + [e]
  {
    if dir != [] {
      PutNew(dir[1..], e);
      assert dir == [dir[0]] + dir[1..];
    }
  }

  /** Scanning a run of records with distinct names lists them all, in order. */
  lemma {:induction false} ScanReadsAll(records: Records, at: seq<nat>, entries: Directory, i: nat)
    requires RecordsAt(records, at, entries) && DistinctNames(entries) && i <= |entries|
    ensures Scan(records, at[i], |entries| - i, entries[..i]) == entries
    decreases |entries| - i
  {
    if i < |entries| {
      assert IthRecord(records, at, entries, i);
      PutNew(entries[..i], entries[i]);
      assert entries[..i] + [entries[i]] == entries[..i+1];
      ScanReadsAll(records, at, entries, i + 1);
    } else {
      assert entries[..i] == entries;
    }
  }

  // ------------------------------------------------------------- round trip

  /** The directory entry written for file `i`. */
  ghost function EntryFor(files: seq<File>, i: nat, utf8: Bytes -> string): Entry
    requires AllWellFormed(files) && i < |files|
  {
    EntryOf(files[i], LocalOffset(files, i), utf8)
  }

  ghost function EntriesFor(files: seq<File>, utf8: Bytes -> string): (dir: Directory)
    requires AllWellFormed(files)
    ensures |dir| == |files| && forall i :: 0 <= i < |files| ==> dir[i] == EntryFor(files, i, utf8)
  {
    seq(|files|, i requires 0 <= i < |files| => EntryFor(files, i, utf8))
  }

  ghost function Positions(blocks: seq<Bytes>, start: nat): (at: seq<nat>)
    ensures |at| == |blocks| + 1 && forall i :: 0 <= i <= |blocks| ==> at[i] == start + |Cat(blocks, i)|
  {
    seq(|blocks| + 1, i requires 0 <= i <= |blocks| => start + |Cat(blocks, i)|)
  }

  ghost predicate ReadsAs(records: Records, at: nat, block: Bytes, e: Entry) {
    records(at) == Some(Record(e, at + |block|))
  }

  lemma BlockRead(b: Bytes, at: nat, block: Bytes, f: File, offset: nat, utf8: Bytes -> string, e: Entry)
    requires WellFormed(f) && offset < 0x1_0000_0000 && block == Central(f, offset) && At(b, at, block)
    requires e == EntryOf(f, offset, utf8)
    ensures ReadsAs(RecordsIn(b, utf8), at, block, e)
  {
    ReadCentral(b, at, f, offset, utf8);
  }

  ghost predicate IthBlockRead(records: Records, start: nat, blocks: seq<Bytes>, entries: Directory, i: nat)
    requires i < |blocks| && i < |entries|
  {
    ReadsAs(records, start + |Cat(blocks, i)|, blocks[i], entries[i])
  }

  /** Blocks that read as directory records form a run of records. */
  lemma RunOfBlocks(records: Records, start: nat, blocks: seq<Bytes>, entries: Directory)
    requires |blocks| == |entries| && forall i :: 0 <= i < |blocks| ==> IthBlockRead(records, start, blocks, entries, i)
    ensures RecordsAt(records, Positions(blocks, start), entries)
  {
    forall i | 0 <= i < |entries| ensures IthRecord(records, Positions(blocks, start), entries, i) {
      assert IthBlockRead(records, start, blocks, entries, i);
      assert |Cat(blocks, i + 1)| == |Cat(blocks, i)| + |blocks[i]|;
    }
  }

  /** The three parts of an archive, and where they stand. */
  lemma ArchiveParts(files: seq<File>, tail: Tail, utf8: Bytes -> string)
    requires Writable(files, tail, utf8)
    ensures var b, n := Archive(files, tail, utf8), |files|;
            var end := End(n, LocalOffset(files, n), tail);
            && At(b, 0, Cat(LocalBlocks(files), n)) && At(b, LocalOffset(files, n), Cat(CentralBlocks(files), n))
            && |b| >= |end| && At(b, |b| - |end|, end)
  {
    var b, n := Archive(files, tail, utf8), |files|;
    AtWhole(b);
    AtThree(b, 0, Cat(LocalBlocks(files), n), Cat(CentralBlocks(files), n), End(n, LocalOffset(files, n), tail));
  }

  /** The listing of a written archive names exactly its files, in order. */
  lemma ListingRoundTrip(files: seq<File>, tail: Tail, utf8: Bytes -> string)
    requires Writable(files, tail, utf8)
    ensures ListingOf(Archive(files, tail, utf8), utf8) == Listing(EntriesFor(files, utf8), Some(|files|))
  {
    var b, n, start := Archive(files, tail, utf8), |files|, LocalOffset(files, |files|);
    var end := End(n, start, tail);
    ArchiveParts(files, tail, utf8);
    EndFields(n, start, tail);
    EndFound(b, |b| - |end|, end);
    ScanOfArchive(files, b, start, utf8);
    ListingFrom(b, |b| - |end|, n, start, EntriesFor(files, utf8), utf8);
  }

  lemma ListingFrom(b: Bytes, at: nat, n: nat, start: nat, dir: Directory, utf8: Bytes -> string)
    requires at + 22 <= |b| && FindEnd(b, |b| - 22) == at && n <= MAX_ENTRIES
    requires U16(b, at + 10) == n && U32(b, at + 16) == start && Scan(RecordsIn(b, utf8), start, n, []) == dir
    ensures ListingOf(b, utf8) == Listing(dir, Some(n))
  {
  }

  lemma ScanOfArchive(files: seq<File>, b: Bytes, start: nat, utf8: Bytes -> string)
    requires AllWellFormed(files) && Addressable(files)
    requires forall i, j :: 0 <= i < j < |files| ==> utf8(files[i].name) != utf8(files[j].name)
    requires At(b, start, Cat(CentralBlocks(files), |files|))
    ensures Scan(RecordsIn(b, utf8), start, |files|, []) == EntriesFor(files, utf8)
  {
    EntriesDistinct(files, utf8);
    BlocksRead(files, b, start, utf8, CentralBlocks(files), EntriesFor(files, utf8), RecordsIn(b, utf8));
    ScanBlocks(RecordsIn(b, utf8), start, CentralBlocks(files), EntriesFor(files, utf8));
  }

  lemma EntriesDistinct(files: seq<File>, utf8: Bytes -> string)
    requires AllWellFormed(files)
    requires forall i, j :: 0 <= i < j < |files| ==> utf8(files[i].name) != utf8(files[j].name)
    ensures DistinctNames(EntriesFor(files, utf8))
  {
  }

  lemma IthBlockReads(files: seq<File>, b: Bytes, start: nat, utf8: Bytes -> string, i: nat, blocks: seq<Bytes>,
      entries: Directory)
    requires AllWellFormed(files) && Addressable(files) && i < |files|
    requires blocks == CentralBlocks(files) && entries == EntriesFor(files, utf8)
    requires At(b, start + |Cat(blocks, i)|, blocks[i])
    ensures IthBlockRead(RecordsIn(b, utf8), start, blocks, entries, i)
  {
    BlockReadsAs(b, start + |Cat(blocks, i)|, blocks[i], files, i, utf8, entries[i]);
  }

  lemma BlockReadsAs(b: Bytes, at: nat, block: Bytes, files: seq<File>, i: nat, utf8: Bytes -> string, e: Entry)
    requires AllWellFormed(files) && Addressable(files) && i < |files|
    requires block == CentralBlocks(files)[i] && e == EntryFor(files, i, utf8) && At(b, at, block)
    ensures ReadsAs(RecordsIn(b, utf8), at, block, e)
  {
    BlockRead(b, at, block, files[i], LocalOffset(files, i), utf8, e);
  }

  lemma BlocksRead(files: seq<File>, b: Bytes, start: nat, utf8: Bytes -> string, blocks: seq<Bytes>,
      entries: Directory, records: Records)
    requires AllWellFormed(files) && Addressable(files) && records == RecordsIn(b, utf8)
    requires blocks == CentralBlocks(files) && entries == EntriesFor(files, utf8) && At(b, start, Cat(blocks, |blocks|))
    ensures forall i :: 0 <= i < |blocks| ==> IthBlockRead(records, start, blocks, entries, i)
  {
    forall i | 0 <= i < |blocks| ensures IthBlockRead(records, start, blocks, entries, i) {
      BlockStandsIn(b, start, blocks, i);
      IthBlockReads(files, b, start, utf8, i, blocks, entries);
    }
  }

  lemma ScanBlocks(records: Records, start: nat, blocks: seq<Bytes>, entries: Directory)
    requires |blocks| == |entries| && DistinctNames(entries)
    requires forall i :: 0 <= i < |blocks| ==> IthBlockRead(records, start, blocks, entries, i)
    ensures Scan(records, start, |entries|, []) == entries
  {
    RunOfBlocks(records, start, blocks, entries);
    ScanWhole(records, Positions(blocks, start), entries);
  }

  lemma ScanWhole(records: Records, at: seq<nat>, entries: Directory)
    requires RecordsAt(records, at, entries) && DistinctNames(entries)
    ensures Scan(records, at[0], |entries|, []) == entries
  {
    ScanReadsAll(records, at, entries, 0);
    assert entries[..0] == [];
  }

  /** The file holds `original`: stored as it is, or deflated to something that inflates to it. */
  ghost predicate Packs(f: File, original: Bytes, inflater: Inflater) {
    && f.flags % 2 == 0 && f.size == |original|
    && (f.method_ == 0 || f.method_ == 8)
    && (f.method_ == 0 ==> f.data == original)
    && (f.method_ == 8 ==>
          forall limit: nat :: |original| <= limit && 0 < limit ==> inflater(f.data, limit) == Some(original))
  }

  /** The limit leaves room for the file; inflating needs room for a byte even for none. */
  predicate Fits(f: File, original: Bytes, limit: nat) {
    |original| <= limit && (f.method_ == 8 ==> 0 < limit)
  }

  /** Every file of a written archive is found under its own name, and what was packed into it
      is read back exactly when the limit leaves room for it. */
  lemma MemberRoundTrip(files: seq<File>, tail: Tail, utf8: Bytes -> string, i: nat, limit: nat, inflater: Inflater,
                        original: Bytes)
    requires Writable(files, tail, utf8) && i < |files|
    ensures var b := Archive(files, tail, utf8);
            var e := Lookup(ListingOf(b, utf8).dir, utf8(files[i].name));
            && e == Some(EntryFor(files, i, utf8))
            && ReadMember(b, e.value, limit, inflater) == Contents(files[i], limit, inflater)
            && (Packs(files[i], original, inflater) ==>
                  ReadMember(b, e.value, limit, inflater)
                  == if Fits(files[i], original, limit) then Some(original) else None)
  {
    ListingRoundTrip(files, tail, utf8);
    ArchiveParts(files, tail, utf8);
    EntriesDistinct(files, utf8);
    MemberFound(files, Archive(files, tail, utf8), ListingOf(Archive(files, tail, utf8), utf8).dir, utf8,
                i, limit, inflater, original);
  }

  lemma MemberFound(files: seq<File>, b: Bytes, dir: Directory, utf8: Bytes -> string, i: nat, limit: nat,
                    inflater: Inflater, original: Bytes)
    requires AllWellFormed(files) && i < |files| && At(b, 0, Cat(LocalBlocks(files), |files|))
    requires dir == EntriesFor(files, utf8) && DistinctNames(dir)
    ensures var e := Lookup(dir, utf8(files[i].name));
            && e == Some(EntryFor(files, i, utf8))
            && ReadMember(b, e.value, limit, inflater) == Contents(files[i], limit, inflater)
            && (Packs(files[i], original, inflater) ==>
                  ReadMember(b, e.value, limit, inflater)
                  == if Fits(files[i], original, limit) then Some(original) else None)
  {
    LookupDistinct(dir, i);
    MemberStands(files, b, i, utf8, limit, inflater);
    if Packs(files[i], original, inflater) {
      UnpacksTo(files[i], original, limit, inflater);
    }
  }

  lemma UnpacksTo(f: File, original: Bytes, limit: nat, inflater: Inflater)
    requires Packs(f, original, inflater)
    ensures Contents(f, limit, inflater) == if Fits(f, original, limit) then Some(original) else None
  {
  }

  lemma MemberStands(files: seq<File>, b: Bytes, i: nat, utf8: Bytes -> string, limit: nat, inflater: Inflater)
    requires AllWellFormed(files) && i < |files| && At(b, 0, Cat(LocalBlocks(files), |files|))
    ensures ReadMember(b, EntryFor(files, i, utf8), limit, inflater) == Contents(files[i], limit, inflater)
  {
    assert LocalBlocks(files)[i] == Local(files[i]);
    BlockStandsIn(b, 0, LocalBlocks(files), i);
    ReadLocal(b, files[i], EntryFor(files, i, utf8), limit, inflater);
  }

  lemma {:induction false} LookupDistinct(dir: Directory, i: nat)
    requires i < |dir| && DistinctNames(dir)
    ensures Lookup(dir, dir[i].name) == Some(dir[i])
  {
    if i > 0 { LookupDistinct(dir[1..], i - 1); }
  }

  // ------------------------------------------------- extraction is complete

  ghost function EntriesOf(members: seq<Member>): (dir: Directory)
    ensures |dir| == |members| && forall i :: 0 <= i < |members| ==> dir[i] == members[i].entry
  {
    if members == [] then [] else [members[0].entry] + EntriesOf(members[1..])
  }

  /** An acceptable member that reads as its bytes whenever there is room for them. */
  ghost predicate Extractable(source: Source, m: Member) {
    && !source.skip(m.entry) && m.entry.uncompressedSize == |m.data| <= MAX_MEMBER_BYTES
    && forall limit: nat :: |m.data| <= limit ==> source.read(m.entry, limit) == ReadWithin(m, limit)
  }

  function ReadWithin(m: Member, limit: nat): Option<Bytes> {
    if m.entry.method_ == 8 && limit == 0 then None else Some(m.data)
  }

  ghost predicate AllExtractable(source: Source, members: seq<Member>) {
    forall i :: 0 <= i < |members| ==> Extractable(source, members[i])
  }

  /** The members fit the budget together, and no deflated one meets it used up. */
  ghost predicate Affordable(members: seq<Member>, total: nat) {
    && total + TotalBytes(members) <= MAX_TOTAL_BYTES
    && forall i :: 0 <= i < |members| ==> AffordableAt(members, i, total)
  }

  predicate AffordableAt(members: seq<Member>, i: nat, total: nat)
    requires i < |members|
  {
    members[i].entry.method_ == 8 ==> total + TotalBytes(members[..i]) < MAX_TOTAL_BYTES
  }

  lemma AffordableNext(m: Member, rest: seq<Member>, i: nat, total: nat)
    requires i < |rest|
    ensures AffordableAt([m] + rest, i + 1, total) <==> AffordableAt(rest, i, total + |m.data|)
  {
    assert ([m] + rest)[..i+1][1..] == rest[..i];
  }

  lemma AffordableCons(m: Member, rest: seq<Member>, total: nat)
    ensures Affordable([m] + rest, total) <==>
              && total + |m.data| <= MAX_TOTAL_BYTES && (m.entry.method_ == 8 ==> total < MAX_TOTAL_BYTES)
              && Affordable(rest, total + |m.data|)
  {
    var members, spent := [m] + rest, total + |m.data|;
    assert members[1..] == rest && members[..0] == [];
    if Affordable(members, total) {
      assert AffordableAt(members, 0, total);
      forall i | 0 <= i < |rest| ensures AffordableAt(rest, i, spent) {
        AffordableNext(m, rest, i, total);
      }
    }
    if Affordable(rest, spent) && (m.entry.method_ == 8 ==> total < MAX_TOTAL_BYTES) {
      forall i | 0 <= i < |members| ensures AffordableAt(members, i, total) {
        if i > 0 { AffordableNext(m, rest, i - 1, total); }
      }
    }
  }

  /** Acceptable members are all extracted, in order, if and only if they are affordable. */
  lemma {:induction false} ExtractsAll(source: Source, members: seq<Member>, total: nat)
    requires Bounded(source) && AllExtractable(source, members) && total <= MAX_TOTAL_BYTES
    ensures Extracted(source, EntriesOf(members), total) == members <==> Affordable(members, total)
  {
    if members != [] {
      var m, rest := members[0], members[1..];
      var dir := EntriesOf(rest);
      assert members == [m] + rest;
      TurnOnMember(source, m, total);
      if TurnOf(source, m.entry, total).Take? {
        ExtractsAll(source, rest, total + |m.data|);
        TookFirst(source, m, rest, dir, total);
      } else {
        LostFirst(source, m, rest, dir, total);
      }
    }
  }

  lemma TookFirst(source: Source, m: Member, rest: seq<Member>, dir: Directory, total: nat)
    requires Bounded(source) && total <= MAX_TOTAL_BYTES && TurnOf(source, m.entry, total) == Take(m.data)
    requires m.entry.method_ == 8 ==> total < MAX_TOTAL_BYTES
    requires Extracted(source, dir, total + |m.data|) == rest <==> Affordable(rest, total + |m.data|)
    ensures Extracted(source, [m.entry] + dir, total) == [m] + rest <==> Affordable([m] + rest, total)
  {
    var later := Extracted(source, dir, total + |m.data|);
    AffordableCons(m, rest, total);
    ExtractedCons(source, m, dir, total);
    assert ([m] + later)[1..] == later && ([m] + rest)[1..] == rest;
  }

  lemma LostFirst(source: Source, m: Member, rest: seq<Member>, dir: Directory, total: nat)
    requires Bounded(source) && total <= MAX_TOTAL_BYTES && |dir| == |rest| && !TurnOf(source, m.entry, total).Take?
    requires total + |m.data| > MAX_TOTAL_BYTES || (m.entry.method_ == 8 && total == MAX_TOTAL_BYTES)
    ensures Extracted(source, [m.entry] + dir, total) == [m] + rest <==> Affordable([m] + rest, total)
  {
    AffordableCons(m, rest, total);
    ExtractedCons(source, m, dir, total);
    ExtractedAtMost(source, dir, total);
  }

  lemma ExtractedCons(source: Source, m: Member, dir: Directory, total: nat)
    requires Bounded(source) && total <= MAX_TOTAL_BYTES
    ensures Extracted(source, [m.entry] + dir, total) ==
              match TurnOf(source, m.entry, total)
              case Pass => Extracted(source, dir, total)
              case Take(data) => [Member(m.entry, data)] + Extracted(source, dir, total + |data|)
              case Stop => []
  {
    assert ([m.entry] + dir)[1..] == dir;
  }

  lemma {:induction false} ExtractedAtMost(source: Source, dir: Directory, total: nat)
    requires Bounded(source) && total <= MAX_TOTAL_BYTES
    ensures |Extracted(source, dir, total)| <= |dir|
  {
    if dir != [] {
      match TurnOf(source, dir[0], total)
      case Pass => ExtractedAtMost(source, dir[1..], total);
      case Take(data) => ExtractedAtMost(source, dir[1..], total + |data|);
      case Stop =>
    }
  }

  lemma TurnOnMember(source: Source, m: Member, total: nat)
    requires Bounded(source) && Extractable(source, m) && total <= MAX_TOTAL_BYTES
    ensures TurnOf(source, m.entry, total) ==
              if total + |m.data| > MAX_TOTAL_BYTES then Stop
              else if m.entry.method_ == 8 && total == MAX_TOTAL_BYTES then Pass
              else Take(m.data)
  {
  }

  /** The members with what was packed into them. */
  ghost function MembersFor(files: seq<File>, originals: seq<Bytes>, utf8: Bytes -> string): (members: seq<Member>)
    requires AllWellFormed(files) && |originals| == |files|
    ensures |members| == |files|
    ensures forall i :: 0 <= i < |files| ==> members[i] == Member(EntryFor(files, i, utf8), originals[i])
  {
    seq(|files|, i requires 0 <= i < |files| => Member(EntryFor(files, i, utf8), originals[i]))
  }

  /** A table, stored or deflated, that the extraction does not pass over. */
  ghost predicate IsTable(f: File, original: Bytes, e: Entry, env: Env) {
    Packs(f, original, env.inflater) && !Skipped(e, env)
  }

  ghost predicate AreTables(files: seq<File>, originals: seq<Bytes>, env: Env)
    requires AllWellFormed(files) && |originals| == |files|
  {
    forall i :: 0 <= i < |files| ==> IsTable(files[i], originals[i], EntryFor(files, i, env.utf8), env)
  }

  /** The tables of a written archive, stored or deflated, all come out as they were packed, if
      and only if they fit the budget together and no deflated one meets it used up. */
  lemma ExtractionRoundTrip(files: seq<File>, originals: seq<Bytes>, tail: Tail, env: Env)
    requires Writable(files, tail, env.utf8) && |originals| == |files| && AreTables(files, originals, env)
    ensures var b, members := Archive(files, tail, env.utf8), MembersFor(files, originals, env.utf8);
            Extracted(SourceOf(b, env), ListingOf(b, env.utf8).dir, 0) == members <==> Affordable(members, 0)
  {
    var b, members := Archive(files, tail, env.utf8), MembersFor(files, originals, env.utf8);
    ListingRoundTrip(files, tail, env.utf8);
    assert EntriesOf(members) == EntriesFor(files, env.utf8);
    ArchiveParts(files, tail, env.utf8);
    TablesExtracted(files, originals, b, env, SourceOf(b, env), members);
  }

  lemma TablesExtracted(files: seq<File>, originals: seq<Bytes>, b: Bytes, env: Env, source: Source,
      members: seq<Member>)
    requires AllWellFormed(files) && |originals| == |files| && AreTables(files, originals, env)
    requires At(b, 0, Cat(LocalBlocks(files), |files|)) && source == SourceOf(b, env)
    requires members == MembersFor(files, originals, env.utf8)
    ensures Extracted(source, EntriesOf(members), 0) == members <==> Affordable(members, 0)
  {
    TablesExtractable(files, originals, b, env, source, members);
    ExtractsAll(source, members, 0);
  }

  lemma TablesExtractable(files: seq<File>, originals: seq<Bytes>, b: Bytes, env: Env, source: Source,
      members: seq<Member>)
    requires AllWellFormed(files) && |originals| == |files| && AreTables(files, originals, env)
    requires At(b, 0, Cat(LocalBlocks(files), |files|)) && source == SourceOf(b, env)
    requires members == MembersFor(files, originals, env.utf8)
    ensures AllExtractable(source, members)
  {
    forall i | 0 <= i < |members| ensures Extractable(source, members[i]) {
      TableExtractable(files, originals[i], b, i, env);
    }
  }

  lemma TableExtractable(files: seq<File>, original: Bytes, b: Bytes, i: nat, env: Env)
    requires AllWellFormed(files) && i < |files| && At(b, 0, Cat(LocalBlocks(files), |files|))
    requires IsTable(files[i], original, EntryFor(files, i, env.utf8), env)
    ensures Extractable(SourceOf(b, env), Member(EntryFor(files, i, env.utf8), original))
  {
    var e := EntryFor(files, i, env.utf8);
    forall limit: nat | |original| <= limit
      ensures SourceOf(b, env).read(e, limit) == ReadWithin(Member(e, original), limit)
    {
      TableReads(files, original, b, i, env.utf8, env.inflater, limit);
    }
  }

  lemma TableReads(files: seq<File>, original: Bytes, b: Bytes, i: nat, utf8: Bytes -> string, inflater: Inflater,
      limit: nat)
    requires AllWellFormed(files) && i < |files| && At(b, 0, Cat(LocalBlocks(files), |files|))
    requires Packs(files[i], original, inflater)
    ensures ReadMember(b, EntryFor(files, i, utf8), limit, inflater)
            == if Fits(files[i], original, limit) then Some(original) else None
  {
    MemberStands(files, b, i, utf8, limit, inflater);
    UnpacksTo(files[i], original, limit, inflater);
  }
}
