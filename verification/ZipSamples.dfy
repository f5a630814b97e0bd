/** What the extraction of a whole archive returns, in the words of its files. */
module ZipSamples {
  import opened ZipArchive
  import opened ZipRoundTrip

  // ------------------------------------------------------------- signatures

  /** What stands in front of the records, byte by byte. */
  lemma Signatures(f: File, count: nat, offset: nat, tail: Tail)
    requires WellFormed(f) && WellFormedTail(tail) && count < 0x10000 && offset < 0x1_0000_0000
    ensures Local(f)[..4] == [0x50, 0x4b, 3, 4]
    ensures Central(f, offset)[..4] == [0x50, 0x4b, 1, 2]
    ensures End(count, offset, tail)[..4] == [0x50, 0x4b, 5, 6]
  {
    assert LE32(LOCAL_SIGNATURE) == [0x50, 0x4b, 3, 4];
    assert LE32(CENTRAL_SIGNATURE) == [0x50, 0x4b, 1, 2];
    assert LE32(END_SIGNATURE) == [0x50, 0x4b, 5, 6];
  }

  // ------------------------------------------------------- too many entries

  /** An end record stands at `at`, with room for its fixed part. */
  predicate EndAt(b: Bytes, at: nat) {
    at + 22 <= |b| && b[at..at + 4] == [0x50, 0x4b, 5, 6]
  }

  /** The last end record in reach of the search. */
  ghost predicate LastEnd(b: Bytes, at: nat) {
    EndAt(b, at) && at + 65558 >= |b| && forall k :: at < k ==> !EndAt(b, k)
  }

  lemma SignatureBytes(b: Bytes, at: nat)
    requires at + 22 <= |b|
    ensures U32(b, at) == END_SIGNATURE <==> EndAt(b, at)
  {
    assert b[at..at + 4] == [b[at], b[at+1], b[at+2], b[at+3]];
    FourBytesAgree(b[at], b[at+1], b[at+2], b[at+3]);
  }

  lemma FourBytesAgree(x: byte, y: byte, z: byte, w: byte)
    ensures x as int + y as int * 0x100 + z as int * 0x10000 + w as int * 0x1000000 == 0x06054b50 <==>
              x == 0x50 && y == 0x4b && z == 5 && w == 6
  {
  }

  lemma EndIsFound(b: Bytes, at: nat)
    ensures FindEnd(b, |b| - 22) == at <==> LastEnd(b, at)
  {
    var found := FindEnd(b, |b| - 22);
    FindEndIsLast(b, |b| - 22);
    forall k: nat | k + 22 <= |b| ensures U32(b, k) == END_SIGNATURE <==> EndAt(b, k) { SignatureBytes(b, k); }
    assert found >= 0 ==> EndAt(b, found);
    if LastEnd(b, at) {
      assert Searched(b, at) && U32(b, at) == END_SIGNATURE;
    }
    if found == at {
      forall k: nat | at < k ensures !EndAt(b, k) {
        if k + 22 <= |b| { assert Searched(b, k); }
      }
    }
  }

  /** An archive is refused for its entries exactly when the last end record in reach claims more
      than 512 of them. */
  lemma TooManyIff(b: Bytes, env: Env)
    ensures ExtractionOf(b, env).TooManyEntries? <==>
              exists at: nat :: LastEnd(b, at) && b[at + 10] as int + 256 * b[at + 11] as int > 512
  {
    var found := FindEnd(b, |b| - 22);
    if found >= 0 {
      EndIsFound(b, found);
    }
    if at: nat :| LastEnd(b, at) {
      EndIsFound(b, at);
    }
  }

  // -------------------------------------------------------- what is sampled

  /** A file that the extraction is to sample: with a safe name, no directory, not encrypted, no
      symbolic link by the upper four bits of its attributes, and of at most eight megabytes. */
  ghost predicate Wanted(f: File, env: Env) {
    var name := env.utf8(f.name);
    && env.safeName(name) != "" && (name != "" ==> name[|name|-1] != '/')
    && f.flags % 2 == 0 && f.external / 0x1000_0000 % 16 != 10 && f.size <= 8_388_608
  }

  /** The samples of the first `n` files. */
  ghost function SamplesOfFirst(files: seq<File>, originals: seq<Bytes>, env: Env, n: nat): seq<Sample>
    requires n <= |files| == |originals|
  {
    if n == 0 then []
    else
      var safe := env.safeName(env.utf8(files[n-1].name));
      var text := env.sampleText(safe, originals[n-1]);
      SamplesOfFirst(files, originals, env, n - 1)
      + if Wanted(files[n-1], env) && text != "" then [Sample(safe, text)] else []
  }

  /** The bytes of the wanted ones among the first `n` files. */
  ghost function BytesOfFirst(files: seq<File>, originals: seq<Bytes>, env: Env, n: nat): nat
    requires n <= |files| == |originals|
  {
    if n == 0 then 0
    else BytesOfFirst(files, originals, env, n - 1) + if Wanted(files[n-1], env) then |originals[n-1]| else 0
  }

  /** The wanted files hold the originals, fit sixteen megabytes together, and none is deflated
      that comes when these are used up. */
  ghost predicate FitTogether(files: seq<File>, originals: seq<Bytes>, env: Env) {
    && |originals| == |files| && BytesOfFirst(files, originals, env, |files|) <= 16_777_216
    && forall i :: 0 <= i < |files| && Wanted(files[i], env) ==> FitsInTurn(files, originals, env, i)
  }

  ghost predicate FitsInTurn(files: seq<File>, originals: seq<Bytes>, env: Env, i: nat)
    requires i < |files| == |originals|
  {
    && Packs(files[i], originals[i], env.inflater)
    && (files[i].method_ == 8 ==> BytesOfFirst(files, originals, env, i) < 16_777_216)
  }

  lemma {:induction false} BytesGrow(files: seq<File>, originals: seq<Bytes>, env: Env, i: nat, n: nat)
    requires i <= n <= |files| == |originals|
    ensures BytesOfFirst(files, originals, env, i) <= BytesOfFirst(files, originals, env, n)
  {
    if i < n { BytesGrow(files, originals, env, i, n - 1); }
  }

  lemma WantedIffNotSkipped(f: File, e: Entry, env: Env)
    requires WellFormed(f) && e.name == env.utf8(f.name) && e.flags == f.flags
    requires e.externalAttributes == f.external && e.uncompressedSize == f.size
    ensures Skipped(e, env) <==> !Wanted(f, env)
  {
    TypeBits(f.external);
  }

  lemma TypeBits(external: nat)
    requires external < 0x1_0000_0000
    ensures external / 0x10000 % 0x10000 / 0x1000 == external / 0x1000_0000 % 16
  {
  }

  /** One turn of the extraction on a written archive. */
  lemma TurnOnFile(files: seq<File>, originals: seq<Bytes>, b: Bytes, env: Env, i: nat, e: Entry, total: nat)
    requires AllWellFormed(files) && |originals| == |files| && i < |files|
    requires At(b, 0, Cat(LocalBlocks(files), |files|)) && e == EntryFor(files, i, env.utf8)
    requires Wanted(files[i], env) ==> FitsInTurn(files, originals, env, i)
    requires total == BytesOfFirst(files, originals, env, i)
    requires BytesOfFirst(files, originals, env, i + 1) <= 16_777_216
    ensures total <= MAX_TOTAL_BYTES
    ensures TurnOf(SourceOf(b, env), e, total) == if Wanted(files[i], env) then Take(originals[i]) else Pass
  {
    WantedIffNotSkipped(files[i], e, env);
    if Wanted(files[i], env) {
      TableExtractable(files, originals[i], b, i, env);
      TurnOnMember(SourceOf(b, env), Member(e, originals[i]), total);
    }
  }

  /** One entry further, whether it is taken or passed over. */
  lemma OneEntryFurther(source: Source, dir: Directory, i: nat, total: nat, env: Env, taken: bool, data: Bytes,
                        before: seq<Sample>)
    requires Bounded(source) && total <= MAX_TOTAL_BYTES && i < |dir|
    requires TurnOf(source, dir[i], total) == if taken then Take(data) else Pass
    ensures total + (if taken then |data| else 0) <= MAX_TOTAL_BYTES
    ensures before + SamplesFrom(source, dir, i, total, env)
            == before + (if taken then SampleOf(Member(dir[i], data), env) else [])
               + SamplesFrom(source, dir, i + 1, total + if taken then |data| else 0, env)
  {
    NextSamples(source, dir, i, total, env, before);
    assert before + [] == before;
  }

  lemma OneFileMore(files: seq<File>, originals: seq<Bytes>, env: Env, i: nat, e: Entry)
    requires i < |files| == |originals| && e.name == env.utf8(files[i].name)
    ensures SamplesOfFirst(files, originals, env, i + 1)
            == SamplesOfFirst(files, originals, env, i)
               + if Wanted(files[i], env) then SampleOf(Member(e, originals[i]), env) else []
  {
  }

  lemma TurnInTurn(files: seq<File>, originals: seq<Bytes>, b: Bytes, env: Env, i: nat, e: Entry, total: nat)
    requires AllWellFormed(files) && FitTogether(files, originals, env) && i < |files|
    requires At(b, 0, Cat(LocalBlocks(files), |files|)) && e == EntryFor(files, i, env.utf8)
    requires total == BytesOfFirst(files, originals, env, i)
    ensures total <= MAX_TOTAL_BYTES
    ensures TurnOf(SourceOf(b, env), e, total) == if Wanted(files[i], env) then Take(originals[i]) else Pass
  {
    BytesGrow(files, originals, env, i + 1, |files|);
    TurnOnFile(files, originals, b, env, i, e, total);
  }

  /** The samples of the first files, and what the extraction adds from there. */
  ghost predicate SoFar(files: seq<File>, originals: seq<Bytes>, env: Env, dir: Directory, source: Source, n: nat)
    requires Bounded(source) && n <= |dir| && n <= |files| == |originals|
  {
    var total := BytesOfFirst(files, originals, env, n);
    && total <= MAX_TOTAL_BYTES
    && SamplesOfFirst(files, originals, env, n) + SamplesFrom(source, dir, n, total, env)
       == SamplesFrom(source, dir, 0, 0, env)
  }

  lemma SoFarNext(files: seq<File>, originals: seq<Bytes>, env: Env, dir: Directory, source: Source, i: nat)
    requires Bounded(source) && i < |dir| && i < |files| == |originals| && SoFar(files, originals, env, dir, source, i)
    requires TurnOf(source, dir[i], BytesOfFirst(files, originals, env, i))
             == if Wanted(files[i], env) then Take(originals[i]) else Pass
    requires dir[i].name == env.utf8(files[i].name)
    ensures SoFar(files, originals, env, dir, source, i + 1)
  {
    OneEntryFurther(source, dir, i, BytesOfFirst(files, originals, env, i), env, Wanted(files[i], env), originals[i],
                    SamplesOfFirst(files, originals, env, i));
    OneFileMore(files, originals, env, i, dir[i]);
  }

  lemma {:induction false} SamplesSoFar(files: seq<File>, originals: seq<Bytes>, b: Bytes, env: Env, dir: Directory,
                                        n: nat, source: Source)
    requires AllWellFormed(files) && FitTogether(files, originals, env) && n <= |files|
    requires At(b, 0, Cat(LocalBlocks(files), |files|)) && dir == EntriesFor(files, env.utf8)
    requires source == SourceOf(b, env)
    ensures SoFar(files, originals, env, dir, source, n)
  {
    if n > 0 {
      var i := n - 1;
      SamplesSoFar(files, originals, b, env, dir, i, source);
      TurnInTurn(files, originals, b, env, i, dir[i], BytesOfFirst(files, originals, env, i));
      SoFarNext(files, originals, env, dir, source, i);
    }
  }

  /** What the extraction returns for a written archive: in their order, the samples of exactly
      the wanted files with some text, each under its safe name. */
  lemma SamplesOfArchive(files: seq<File>, originals: seq<Bytes>, tail: Tail, env: Env)
    requires Writable(files, tail, env.utf8) && FitTogether(files, originals, env)
    ensures ExtractionOf(Archive(files, tail, env.utf8), env)
            == Samples(SamplesOfFirst(files, originals, env, |files|))
  {
    var b, dir, n := Archive(files, tail, env.utf8), EntriesFor(files, env.utf8), |files|;
    ListingRoundTrip(files, tail, env.utf8);
    ArchiveParts(files, tail, env.utf8);
    SamplesSoFar(files, originals, b, env, dir, n, SourceOf(b, env));
    assert dir[0..] == dir && dir[n..] == [];
  }
}
