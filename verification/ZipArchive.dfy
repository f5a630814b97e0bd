/** Reading uploaded ZIP archives: the central directory, single members, and the extraction
    budget.  Field positions follow sections 4.3.7, 4.3.12 and 4.3.16 of PKWARE APPNOTE.TXT. */
module ZipArchive {
  import opened Numbers
  import opened Options

  type byte = b: int | 0 <= b < 256
  type Bytes = seq<byte>

  const MAX_ENTRIES := 512
  const MAX_MEMBER_BYTES := 8 * 1024 * 1024
  const MAX_TOTAL_BYTES := 16 * 1024 * 1024

  const END_SIGNATURE := 0x06054b50
  const CENTRAL_SIGNATURE := 0x02014b50
  const LOCAL_SIGNATURE := 0x04034b50

  type Inflater = (Bytes, nat) -> Option<Bytes>

  /** What the reader is given from outside: the text decoder, the decompressor, the safe form
      of a member name ("" when it is unsafe or no table), and the text sampled from a member
      ("" when blank). */
  datatype Env = Env(
    utf8: Bytes -> string,
    inflater: Inflater,
    safeName: string -> string,
    sampleText: (string, Bytes) -> string)

  /** `zlib.inflateRawSync` with `maxOutputLength`: it fails, or stays within the limit, and it
      takes no limit of zero. */
  function Inflate(inflater: Inflater, data: Bytes, limit: nat): (r: Option<Bytes>)
    ensures r.Some? ==> |r.value| <= limit
  {
    var r := inflater(data, limit);
    if limit > 0 && r.Some? && |r.value| <= limit then r else None
  }

  // -------------------------------------------------------------- numbers

  function U16(b: Bytes, at: nat): nat
    requires at + 2 <= |b|
  {
    b[at] as int + b[at+1] as int * 0x100
  }

  function U32(b: Bytes, at: nat): nat
    requires at + 4 <= |b|
  {
    b[at] as int + b[at+1] as int * 0x100 + b[at+2] as int * 0x10000 + b[at+3] as int * 0x1000000
  }

  /** `buffer.slice`, which stops at the end of the buffer. */
  function Slice(b: Bytes, from: nat, to: nat): Bytes
    requires from <= to
  {
    if from >= |b| then [] else if to > |b| then b[from..] else b[from..to]
  }

  // ------------------------------------------------------------ directory

  datatype Entry = Entry(
    name: string, compressedSize: nat, uncompressedSize: nat, method_: nat, flags: nat,
    externalAttributes: nat, localHeaderOffset: nat)
  {
    predicate IsDirectory() {
      name != "" && name[|name|-1] == '/'
    }

    predicate IsEncrypted() {
      flags % 2 == 1
    }

    /** The file type in the upper half of the attributes says "symbolic link". */
    predicate IsSymlink() {
      externalAttributes / 0x10000 % 0x10000 / 0x1000 == 0xa
    }
  }

  /** A JavaScript map from name to entry: names are distinct, in order of first insertion. */
  type Directory = seq<Entry>

  function Put(dir: Directory, e: Entry): (r: Directory)
    ensures |r| <= |dir| + 1
  {
    if dir == [] then [e]
    else if dir[0].name == e.name then [e] + dir[1..]
    else [dir[0]] + Put(dir[1..], e)
  }

  function Lookup(dir: Directory, name: string): Option<Entry> {
    if dir == [] then None
    else if dir[0].name == name then Some(dir[0])
    else Lookup(dir[1..], name)
  }

  ghost predicate DistinctNames(dir: Directory) {
    forall i, j :: 0 <= i < j < |dir| ==> dir[i].name != dir[j].name
  }

  ghost function NamesOf(dir: Directory): set<string> {
    set e | e in dir :: e.name
  }

  /** Names stay distinct, and only the name put in can be new. */
  lemma {:induction false} PutKeepsDistinct(dir: Directory, e: Entry)
    requires DistinctNames(dir)
    ensures DistinctNames(Put(dir, e)) && NamesOf(Put(dir, e)) == NamesOf(dir) + {e.name}
  {
    if dir != [] {
      var first, rest := dir[0], dir[1..];
      assert dir == [first] + rest;
      if first.name == e.name {
        assert Put(dir, e) == [e] + rest;
      } else {
        PutKeepsDistinct(rest, e);
        NewFirst(first, Put(rest, e));
        assert first.name !in NamesOf(rest);
      }
    }
  }

  lemma NewFirst(first: Entry, rest: Directory)
    requires DistinctNames(rest)
    ensures first.name !in NamesOf(rest) ==> DistinctNames([first] + rest)
    ensures NamesOf([first] + rest) == {first.name} + NamesOf(rest)
  {
    var dir := [first] + rest;
    if first.name !in NamesOf(rest) {
      forall i, j | 0 <= i < j < |dir| ensures dir[i].name != dir[j].name {
        assert dir[j] in rest;
      }
    }
    forall e | e in rest ensures e.name in NamesOf(dir) { assert e in dir; }
    assert first in dir;
  }

  lemma {:induction false} LookupPut(dir: Directory, e: Entry, name: string)
    ensures Lookup(Put(dir, e), name) == if name == e.name then Some(e) else Lookup(dir, name)
  {
    if dir != [] && dir[0].name != e.name {
      LookupPut(dir[1..], e, name);
    }
  }

  /** The position of the end record, searched backwards from `index`; -1 when there is none. */
  function FindEnd(b: Bytes, index: int): (eocd: int)
    requires index + 22 <= |b|
    ensures -1 <= eocd <= index || (eocd == -1 && index < 0)
    ensures eocd >= 0 ==> U32(b, eocd) == END_SIGNATURE
    decreases if index < 0 then 0 else index + 1
  {
    if index < 0 || index < |b| - 65558 then -1
    else if U32(b, index) == END_SIGNATURE then index
    else FindEnd(b, index - 1)
  }

  /** Where the end record is searched for. */
  predicate Searched(b: Bytes, k: int) {
    0 <= k && |b| - 65558 <= k <= |b| - 22
  }

  /** No searched position from `from` on holds the signature of an end record. */
  ghost predicate NoEndFrom(b: Bytes, from: int) {
    forall k :: from <= k && Searched(b, k) ==> U32(b, k) != END_SIGNATURE
  }

  lemma {:induction false} FindEndIsLast(b: Bytes, index: int)
    requires index + 22 <= |b| && NoEndFrom(b, index + 1)
    ensures FindEnd(b, index) == -1 ==> NoEndFrom(b, 0)
    ensures FindEnd(b, index) >= 0 ==> Searched(b, FindEnd(b, index)) && NoEndFrom(b, FindEnd(b, index) + 1)
    decreases if index < 0 then 0 else index + 1
  {
    if 0 <= index && index >= |b| - 65558 && U32(b, index) != END_SIGNATURE {
      FindEndIsLast(b, index - 1);
    }
  }

  function CentralEntry(b: Bytes, at: nat, utf8: Bytes -> string): Entry
    requires at + 46 <= |b|
  {
    Entry(utf8(Slice(b, at + 46, at + 46 + U16(b, at + 28))), U32(b, at + 20), U32(b, at + 24),
          U16(b, at + 10), U16(b, at + 8), U32(b, at + 38), U32(b, at + 42))
  }

  function CentralLength(b: Bytes, at: nat): nat
    requires at + 46 <= |b|
  {
    46 + U16(b, at + 28) + U16(b, at + 30) + U16(b, at + 32)
  }

  /** A directory record: its entry, and where the next record starts. */
  datatype Record = Record(entry: Entry, next: nat)

  function CentralRecord(b: Bytes, at: nat, utf8: Bytes -> string): Record
    requires at + 46 <= |b|
  {
    Record(CentralEntry(b, at, utf8), at + CentralLength(b, at))
  }

  /** What is found at a position: a directory record, or something else. */
  type Records = nat -> Option<Record>

  function RecordsIn(b: Bytes, utf8: Bytes -> string): Records {
    (at: nat) =>
      if at + 46 > |b| || U32(b, at) != CENTRAL_SIGNATURE then None
      else Some(CentralRecord(b, at, utf8))
  }

  /** At most `left` directory records from `at` on, added to `dir`. */
  function Scan(records: Records, at: nat, left: nat, dir: Directory): (r: Directory)
    ensures |r| <= |dir| + left
    decreases left
  {
    if left == 0 || records(at) == None then dir
    else Scan(records, records(at).value.next, left - 1, Put(dir, records(at).value.entry))
  }

  /** The entries of at most `left` directory records from `at` on, repetitions included. */
  ghost function EntriesAt(records: Records, at: nat, left: nat): seq<Entry>
    decreases left
  {
    if left == 0 || records(at) == None then []
    else [records(at).value.entry] + EntriesAt(records, records(at).value.next, left - 1)
  }

  /** The last of the entries with a name. */
  ghost function LastNamed(entries: seq<Entry>, name: string): Option<Entry> {
    if entries == [] then None
    else LastNamed(entries[1..], name).Or(if entries[0].name == name then Some(entries[0]) else None)
  }

  /** On every buffer the scanned directory has each name once. */
  lemma {:induction false} ScanKeepsDistinct(records: Records, at: nat, left: nat, dir: Directory)
    requires DistinctNames(dir)
    ensures DistinctNames(Scan(records, at, left, dir))
    decreases left
  {
    if left > 0 && records(at) != None {
      var e, next := records(at).value.entry, records(at).value.next;
      PutKeepsDistinct(dir, e);
      ScanKeepsDistinct(records, next, left - 1, Put(dir, e));
    }
  }

  /** Under a name stands the last record that bears it. */
  lemma {:induction false} ScanKeepsLast(records: Records, at: nat, left: nat, dir: Directory, name: string)
    ensures Lookup(Scan(records, at, left, dir), name)
              == LastNamed(EntriesAt(records, at, left), name).Or(Lookup(dir, name))
    decreases left
  {
    if left > 0 && records(at) != None {
      var e, next := records(at).value.entry, records(at).value.next;
      var rest := EntriesAt(records, next, left - 1);
      LookupPut(dir, e, name);
      ScanKeepsLast(records, next, left - 1, Put(dir, e), name);
      LastOfCons(e, rest, name);
    }
  }

  lemma LastOfCons(e: Entry, rest: seq<Entry>, name: string)
    ensures LastNamed([e] + rest, name) == LastNamed(rest, name).Or(if e.name == name then Some(e) else None)
  {
    assert ([e] + rest)[1..] == rest;
  }

  lemma ScanStep(records: Records, at: nat, left: nat, dir: Directory)
    ensures left == 0 || records(at) == None ==> Scan(records, at, left, dir) == dir
    ensures left > 0 && records(at) != None ==>
              Scan(records, at, left, dir)
                == Scan(records, records(at).value.next, left - 1, Put(dir, records(at).value.entry))
  {
  }

  /** The directory and the entry count that the archive claims to have. */
  datatype Listing = Listing(dir: Directory, claimed: Option<nat>)

  function ListingOf(b: Bytes, utf8: Bytes -> string): Listing {
    var eocd := FindEnd(b, |b| - 22);
    if eocd == -1 then Listing([], None)
    else
      var total := U16(b, eocd + 10);
      Listing(Scan(RecordsIn(b, utf8), U32(b, eocd + 16), Least(total, MAX_ENTRIES), []), Some(total))
  }

  method FindEndRecord(buffer: Bytes) returns (eocd: int)
    ensures eocd == FindEnd(buffer, |buffer| - 22)
    ensures eocd == -1 ==> NoEndFrom(buffer, 0)
    ensures eocd != -1 ==>
              Searched(buffer, eocd) && U32(buffer, eocd) == END_SIGNATURE && NoEndFrom(buffer, eocd + 1)
  {
    var index := |buffer| - 22;
    while index >= 0 && index >= |buffer| - 65558
      invariant index + 22 <= |buffer| && NoEndFrom(buffer, index + 1)
      invariant FindEnd(buffer, |buffer| - 22) == FindEnd(buffer, index)
    {
      if U32(buffer, index) == END_SIGNATURE {
        return index;
      }
      index := index - 1;
    }
    return -1;
  }

  /** `zipEntries` */
  method ZipEntries(buffer: Bytes, utf8: Bytes -> string) returns (listing: Listing)
    ensures listing == ListingOf(buffer, utf8)
  {
    var eocd := FindEndRecord(buffer);
    if eocd == -1 {
      return Listing([], None);
    }
    var totalEntries := U16(buffer, eocd + 10);
    var dir := ReadDirectory(buffer, U32(buffer, eocd + 16), Least(totalEntries, MAX_ENTRIES), utf8);
    return Listing(dir, Some(totalEntries));
  }

  /** The directory: every name once, with the last record that bears it. */
  method ReadDirectory(buffer: Bytes, start: nat, most: nat, utf8: Bytes -> string) returns (dir: Directory)
    ensures dir == Scan(RecordsIn(buffer, utf8), start, most, [])
    ensures DistinctNames(dir)
    ensures forall name :: Lookup(dir, name) == LastNamed(EntriesAt(RecordsIn(buffer, utf8), start, most), name)
  {
    ghost var records := RecordsIn(buffer, utf8);
    dir := ScanRecords(buffer, start, most, utf8, records);
    ScanKeepsDistinct(records, start, most, []);
    forall name ensures Lookup(dir, name) == LastNamed(EntriesAt(records, start, most), name) {
      ScanKeepsLast(records, start, most, [], name);
    }
  }

  /** One turn's look at the buffer: room for a record, and its signature. */
  method ReadRecord(buffer: Bytes, offset: nat, utf8: Bytes -> string, ghost records: Records)
    returns (record: Option<Record>)
    requires records == RecordsIn(buffer, utf8)
    ensures record == records(offset)
  {
    if offset + 46 > |buffer| || U32(buffer, offset) != CENTRAL_SIGNATURE {
      return None;
    }
    return Some(CentralRecord(buffer, offset, utf8));
  }

  /** The loop over the directory records. */
  method ScanRecords(buffer: Bytes, start: nat, most: nat, utf8: Bytes -> string, ghost records: Records)
    returns (dir: Directory)
    requires records == RecordsIn(buffer, utf8)
    ensures dir == Scan(records, start, most, [])
  {
    dir := [];
    var offset: nat := start;
    var count := 0;
    while count < most
      invariant 0 <= count <= most
      invariant Scan(records, start, most, []) == Scan(records, offset, most - count, dir)
    {
      ScanStep(records, offset, most - count, dir);
      var record := ReadRecord(buffer, offset, utf8, records);
      if record.None? {
        return;
      }
      dir := Put(dir, record.value.entry);
      offset := record.value.next;
      count := count + 1;
    }
    ScanStep(records, offset, most - count, dir);
  }

  // -------------------------------------------------------------- members

  /** `readZipEntryBuffer` */
  function ReadMember(b: Bytes, e: Entry, limit: nat, inflater: Inflater): (r: Option<Bytes>)
    ensures r.Some? ==> |r.value| <= limit
  {
    var at := e.localHeaderOffset;
    if e.IsEncrypted() || e.uncompressedSize > limit then None
    else if at + 30 > |b| || U32(b, at) != LOCAL_SIGNATURE then None
    else
      var start := at + 30 + U16(b, at + 26) + U16(b, at + 28);
      var end := start + e.compressedSize;
      if end > |b| then None
      else if e.method_ == 0 then if e.compressedSize <= limit then Some(b[start..end]) else None
      else if e.method_ == 8 then Inflate(inflater, b[start..end], limit)
      else None
  }

  // -------------------------------------------------------------- extraction

  datatype Sample = Sample(name: string, text: string)

  datatype Extraction = TooManyEntries | Samples(samples: seq<Sample>)

  predicate Skipped(e: Entry, env: Env) {
    env.safeName(e.name) == "" || e.IsDirectory() || e.IsEncrypted() || e.IsSymlink()
      || e.uncompressedSize > MAX_MEMBER_BYTES
  }

  datatype Member = Member(entry: Entry, data: Bytes)

  /** How many bytes the next member may have. */
  function Room(total: nat): nat
    requires total <= MAX_TOTAL_BYTES
  {
    Least(MAX_MEMBER_BYTES, MAX_TOTAL_BYTES - total)
  }

  /** What the loop asks about a directory entry: whether to pass over it, and for its bytes,
      at most so many. */
  datatype Source = Source(skip: Entry -> bool, read: (Entry, nat) -> Option<Bytes>)

  ghost predicate Bounded(source: Source) {
    forall e, limit :: source.read(e, limit).Some? ==> |source.read(e, limit).value| <= limit
  }

  function SourceOf(b: Bytes, env: Env): (source: Source)
    ensures Bounded(source)
  {
    Source(e => Skipped(e, env), (e: Entry, limit: nat) => ReadMember(b, e, limit, env.inflater))
  }

  /** What the loop does with one entry: pass over it, take its bytes, or end. */
  datatype Turn = Pass | Take(data: Bytes) | Stop

  function TurnOf(source: Source, e: Entry, total: nat): (turn: Turn)
    requires Bounded(source) && total <= MAX_TOTAL_BYTES
    ensures turn.Take? ==> |turn.data| <= Room(total)
  {
    if source.skip(e) then Pass
    else if total + e.uncompressedSize > MAX_TOTAL_BYTES then Stop
    else
      match source.read(e, Room(total))
      case None => Pass
      case Some(data) => Take(data)
  }

  /** The members the loop takes, when `total` bytes have already been extracted. */
  function Extracted(source: Source, dir: seq<Entry>, total: nat): seq<Member>
    requires Bounded(source) && total <= MAX_TOTAL_BYTES
  {
    if dir == [] then []
    else
      match TurnOf(source, dir[0], total)
      case Pass => Extracted(source, dir[1..], total)
      case Take(data) => [Member(dir[0], data)] + Extracted(source, dir[1..], total + |data|)
      case Stop => []
  }

  function SampleOf(member: Member, env: Env): seq<Sample> {
    var name := env.safeName(member.entry.name);
    var text := env.sampleText(name, member.data);
    if text == "" then [] else [Sample(name, text)]
  }

  function SamplesOf(members: seq<Member>, env: Env): seq<Sample> {
    if members == [] then [] else SampleOf(members[0], env) + SamplesOf(members[1..], env)
  }

  function ClaimedEntries(listing: Listing): nat {
    if listing.claimed.Some? && listing.claimed.value != 0 then listing.claimed.value else |listing.dir|
  }

  ghost function ExtractionOf(file: Bytes, env: Env): Extraction {
    var listing := ListingOf(file, env.utf8);
    if ClaimedEntries(listing) > MAX_ENTRIES then TooManyEntries
    else Samples(SamplesOf(Extracted(SourceOf(file, env), listing.dir, 0), env))
  }

  /** `extractZipIntakeSamples` */
  method ExtractSamples(file: Bytes, env: Env) returns (r: Extraction)
    ensures r == ExtractionOf(file, env)
  {
    var listing := ZipEntries(file, env.utf8);
    if ClaimedEntries(listing) > MAX_ENTRIES {
      return TooManyEntries;
    }
    var samples := SampleMembers(SourceOf(file, env), listing.dir, env);
    return Samples(samples);
  }

  /** The loop over the directory. */
  method SampleMembers(source: Source, dir: Directory, env: Env) returns (samples: seq<Sample>)
    requires Bounded(source)
    ensures samples == SamplesOf(Extracted(source, dir, 0), env)
  {
    var totalExtracted: nat := 0;
    samples := [];
    assert dir[0..] == dir;
    for i := 0 to |dir|
      invariant totalExtracted <= MAX_TOTAL_BYTES
      invariant samples + SamplesFrom(source, dir, i, totalExtracted, env) == SamplesOf(Extracted(source, dir, 0), env)
    {
      NextSamples(source, dir, i, totalExtracted, env, samples);
      var entry := dir[i];
      if !source.skip(entry) {
        if totalExtracted + entry.uncompressedSize > MAX_TOTAL_BYTES {
          return;
        }
        var data := source.read(entry, Room(totalExtracted));
        if data.Some? {
          totalExtracted := totalExtracted + |data.value|;
          samples := samples + SampleOf(Member(entry, data.value), env);
        }
      }
    }
  }

  /** The samples still to come from entry `i` on. */
  ghost function SamplesFrom(source: Source, dir: Directory, i: nat, total: nat, env: Env): seq<Sample>
    requires Bounded(source) && total <= MAX_TOTAL_BYTES && i <= |dir|
  {
    SamplesOf(Extracted(source, dir[i..], total), env)
  }

  lemma NextSamples(source: Source, dir: Directory, i: nat, total: nat, env: Env, before: seq<Sample>)
    requires Bounded(source) && total <= MAX_TOTAL_BYTES && i < |dir|
    ensures before + SamplesFrom(source, dir, i, total, env) ==
              match TurnOf(source, dir[i], total)
              case Pass => before + SamplesFrom(source, dir, i + 1, total, env)
              case Take(data) =>
                before + SampleOf(Member(dir[i], data), env) + SamplesFrom(source, dir, i + 1, total + |data|, env)
              case Stop => before
  {
    assert dir[i..][1..] == dir[i+1..];
    match TurnOf(source, dir[i], total)
    case Take(data) => FirstSample(Member(dir[i], data), Extracted(source, dir[i+1..], total + |data|), env, before);
    case _ =>
  }

  lemma FirstSample(member: Member, rest: seq<Member>, env: Env, before: seq<Sample>)
    ensures before + SamplesOf([member] + rest, env) == before + SampleOf(member, env) + SamplesOf(rest, env)
  {
    assert ([member] + rest)[1..] == rest;
  }

  // ---------------------------------------------------------------- budget

  function TotalBytes(members: seq<Member>): nat {
    if members == [] then 0 else |members[0].data| + TotalBytes(members[1..])
  }

  /** Whatever sizes the directory claims, extraction stays within its budget. */
  lemma {:induction false} ExtractionBudget(source: Source, dir: seq<Entry>, total: nat)
    requires Bounded(source) && total <= MAX_TOTAL_BYTES
    ensures total + TotalBytes(Extracted(source, dir, total)) <= MAX_TOTAL_BYTES
  {
    if dir != [] {
      match TurnOf(source, dir[0], total)
      case Pass => ExtractionBudget(source, dir[1..], total);
      case Take(data) =>
        ExtractionBudget(source, dir[1..], total + |data|);
        assert Extracted(source, dir, total)[1..] == Extracted(source, dir[1..], total + |data|);
      case Stop =>
    }
  }

  /** A member of the archive, acceptable and not too large. */
  ghost predicate Genuine(source: Source, dir: seq<Entry>, member: Member) {
    && member.entry in dir && !source.skip(member.entry)
    && |member.data| <= MAX_MEMBER_BYTES
    && exists limit: nat :: source.read(member.entry, limit) == Some(member.data)
  }

  lemma {:induction false} ExtractedIsGenuine(source: Source, dir: seq<Entry>, total: nat, member: Member)
    requires Bounded(source) && total <= MAX_TOTAL_BYTES && member in Extracted(source, dir, total)
    ensures Genuine(source, dir, member)
  {
    match TurnOf(source, dir[0], total)
    case Pass => ExtractedIsGenuine(source, dir[1..], total, member);
    case Take(data) =>
      if member != Member(dir[0], data) {
        ExtractedIsGenuine(source, dir[1..], total + |data|, member);
      }
  }
}
