/**
 * The Quake .pak unpacker: a 12-byte header with the id "PACK", the offset
 * and byte size of a file table, and a table of 64-byte records (a 56-byte
 * NUL-padded path, a `uint32_t` offset and a `uint32_t` size). Every record
 * with a non-empty name whose bytes lie inside the archive is written under
 * the output directory.
 *
 * Reading the archive is the `contents` parameter (`None` when it cannot be
 * read); creating the directories of an output file and writing it is the
 * `store` parameter, which says whether both succeeded.
 */
module Pak {
  import opened Bits
  import opened Bytes
  import opened Paths

  const PakHeaderSize: nat := 12
  const PakEntrySize: nat := 64
  const NameSize: nat := 56

  /** "PACK" in ASCII. */
  const PackId: seq<Byte> := [0x50, 0x41, 0x43, 0x4B]

  datatype PakHeader = PakHeader(id: seq<Byte>, offset: nat, size: nat)

  datatype PakEntry = PakEntry(name: seq<Byte>, offset: nat, size: nat)

  /** One output file: where it went and what was written to it. */
  datatype Extraction = Extraction(path: string, data: seq<Byte>)

  /** The result of `unpack_pak_file` and the files it wrote. */
  datatype Unpacked = Unpacked(ok: bool, extracted: seq<Extraction>)

  function DecodePakHeader(b: seq<Byte>): PakHeader
    requires |b| == PakHeaderSize
  {
    PakHeader(b[..4], U32(b, 4), U32(b, 8))
  }

  function DecodePakEntry(b: seq<Byte>): PakEntry
    requires |b| == PakEntrySize
  {
    PakEntry(b[..56], U32(b, 56), U32(b, 60))
  }

  predicate WellFormedEntry(e: PakEntry)
  {
    |e.name| == NameSize && e.offset < U32Limit && e.size < U32Limit
  }

  function EncodePakEntry(e: PakEntry): (b: seq<Byte>)
    requires WellFormedEntry(e)
    ensures |b| == PakEntrySize
  {
    e.name + ToLittleEndian(e.offset, 4) + ToLittleEndian(e.size, 4)
  }

  /** Decoding inverts encoding for file-table records. */
  lemma EntryRoundTrip(e: PakEntry)
    requires WellFormedEntry(e)
    ensures DecodePakEntry(EncodePakEntry(e)) == e
  {
    var b := EncodePakEntry(e);
    Pow256Widths();
    assert b[..56] == e.name;
    assert b[56..60] == ToLittleEndian(e.offset, 4);
    DecodeEncode(e.offset, 4);
    assert b[60..64] == ToLittleEndian(e.size, 4);
    DecodeEncode(e.size, 4);
  }

  /** `validate_pak_header`: the four id bytes compare equal to "PACK", byte for byte. */
  function ValidHeader(h: PakHeader): (ok: bool)
    ensures ok <==> |h.id| == 4 && forall j :: 0 <= j < 4 ==> h.id[j] == PackId[j]
  {
    h.id == PackId
  }

  /** The header, if the archive is long enough to hold one. */
  function ReadHeader(contents: seq<Byte>): (r: Option<PakHeader>)
    ensures r.Some? <==> |contents| >= PakHeaderSize
    ensures r.Some? ==> r.value == DecodePakHeader(contents[..PakHeaderSize])
    ensures r.Some? ==> r.value.id == contents[..4] && r.value.offset == U32(contents, 4) && r.value.size == U32(contents, 8)
  {
    var (ok, image) := ReadAt(contents, 0, seq(PakHeaderSize, _ => 0));
    if !ok then None
    else
      U32OfSlice(contents, 0, PakHeaderSize, 4);
      U32OfSlice(contents, 0, PakHeaderSize, 8);
      Some(DecodePakHeader(image))
  }

  /**
   * The number of records in the table: its byte size divided by 64, any
   * remainder ignored.
   */
  function FileCount(h: PakHeader): (n: nat)
    ensures n * PakEntrySize <= h.size < (n + 1) * PakEntrySize
  {
    h.size / PakEntrySize
  }

  /**
   * Records i to `count - 1` of the table, each read at
   * `offset + i * 64`; `None` as soon as one lies outside the archive.
   */
  function ReadEntries(contents: seq<Byte>, tableOffset: nat, i: nat, count: nat): (r: Option<seq<PakEntry>>)
    requires i <= count
    ensures r.Some? ==> |r.value| == count - i
    decreases count - i
  {
    if i == count then Some([])
    else
      var (ok, image) := ReadAt(contents, tableOffset + i * PakEntrySize, seq(PakEntrySize, _ => 0));
      if !ok then None
      else
        var rest := ReadEntries(contents, tableOffset, i + 1, count);
        if rest.None? then None else Some([DecodePakEntry(image)] + rest.value)
  }

  /** The table is read exactly when its last record lies inside the archive. */
  lemma {:induction false} ReadEntriesSucceeds(contents: seq<Byte>, tableOffset: nat, i: nat, count: nat)
    requires i <= count
    ensures ReadEntries(contents, tableOffset, i, count).Some?
      <==> (i == count || tableOffset + count * PakEntrySize <= |contents|)
    decreases count - i
  {
    if i < count {
      ReadEntriesSucceeds(contents, tableOffset, i + 1, count);
      if tableOffset + count * PakEntrySize <= |contents| {
        assert tableOffset + i * PakEntrySize + PakEntrySize <= tableOffset + count * PakEntrySize;
      } else if i + 1 == count {
        assert tableOffset + i * PakEntrySize + PakEntrySize == tableOffset + count * PakEntrySize;
      }
    }
  }

  /** Record k of a table that was read is the 64 bytes at `offset + (i + k) * 64`. */
  lemma {:induction false} ReadEntriesAt(contents: seq<Byte>, tableOffset: nat, i: nat, count: nat, k: nat)
    requires i <= count && ReadEntries(contents, tableOffset, i, count).Some?
    requires k < count - i
    ensures var at := tableOffset + (i + k) * PakEntrySize;
      && at + PakEntrySize <= |contents|
      && ReadEntries(contents, tableOffset, i, count).value[k] == DecodePakEntry(contents[at..at + PakEntrySize])
    decreases count - i
  {
    if k > 0 {
      ReadEntriesAt(contents, tableOffset, i + 1, count, k - 1);
      assert i + 1 + (k - 1) == i + k;
    }
  }

  /** The file name of a record: its name field up to the first NUL. */
  function EntryName(e: PakEntry): seq<Byte>
  {
    CString(e.name)
  }

  /**
   * The bounds check of a record as compiled: `offset + size` is a sum of two
   * `uint32_t` fields and wraps modulo 2^32 before the comparison.
   */
  function EntryInBoundsAsWritten(e: PakEntry, archiveLen: nat): (ok: bool)
    ensures e.offset + e.size < U32Limit ==> (ok <==> e.offset + e.size <= archiveLen)
  {
    WrapU32(e.offset + e.size) <= archiveLen
  }

  /**
   * A record at offset 0xFFFFFFFF with size 2 passes the compiled check in
   * any archive long enough to hold a header, though its bytes lie past 4 GiB: the write then copies
   * bytes from outside the archive contents.
   */
  lemma EntryBoundsWrapExample(archiveLen: nat)
    requires PakHeaderSize <= archiveLen < U32Limit
    ensures var e := PakEntry(seq(NameSize, _ => 0x41), 0xFFFF_FFFF, 2);
      EntryInBoundsAsWritten(e, archiveLen) && e.offset + e.size > archiveLen
  {
    assert WrapU32(0xFFFF_FFFF + 2) == 1 by {
      ModUnique(U32Limit + 1, U32Limit, 1, 1);
    }
  }

  /** The check the model uses: the record's bytes lie inside the archive. */
  function EntryInBounds(e: PakEntry, archiveLen: nat): (ok: bool)
    ensures ok ==> e.offset <= archiveLen && e.size <= archiveLen - e.offset
    ensures e.offset + e.size < U32Limit ==> (ok <==> EntryInBoundsAsWritten(e, archiveLen))
  {
    e.offset + e.size <= archiveLen
  }

  /** A record is written out when its name is non-empty and its bytes are in the archive. */
  predicate Eligible(contents: seq<Byte>, e: PakEntry)
  {
    EntryName(e) != [] && EntryInBounds(e, |contents|)
  }

  /** The output of an eligible record: the name joined to the output directory, and its bytes. */
  function ExtractionOf(contents: seq<Byte>, outputDir: string, e: PakEntry): (x: Extraction)
    requires Eligible(contents, e)
    ensures |x.data| == e.size
  {
    Extraction(PathJoin(outputDir, ToChars(EntryName(e))), contents[e.offset..e.offset + e.size])
  }

  /** The extraction loop over the records, keeping the files `store` reports as written. */
  function ExtractAll(contents: seq<Byte>, outputDir: string, entries: seq<PakEntry>,
                      store: Extraction -> bool): (r: seq<Extraction>)
    ensures |r| <= |entries|
    ensures forall x :: x in r ==> store(x)
  {
    if entries == [] then []
    else
      var e := entries[0];
      var here := if Eligible(contents, e) && store(ExtractionOf(contents, outputDir, e))
        then [ExtractionOf(contents, outputDir, e)] else [];
      here + ExtractAll(contents, outputDir, entries[1..], store)
  }

  /** Every file written is the output of an eligible record of the table. */
  lemma {:induction false} ExtractAllSound(contents: seq<Byte>, outputDir: string, entries: seq<PakEntry>,
                                           store: Extraction -> bool, x: Extraction)
    requires x in ExtractAll(contents, outputDir, entries, store)
    ensures exists k :: 0 <= k < |entries| && Eligible(contents, entries[k])
                        && x == ExtractionOf(contents, outputDir, entries[k])
  {
    var e := entries[0];
    var rest := ExtractAll(contents, outputDir, entries[1..], store);
    if x in rest {
      ExtractAllSound(contents, outputDir, entries[1..], store, x);
      var k :| 0 <= k < |entries[1..]| && Eligible(contents, entries[1..][k])
        && x == ExtractionOf(contents, outputDir, entries[1..][k]);
      assert entries[1..][k] == entries[k + 1];
    } else {
      assert Eligible(contents, entries[0]);
    }
  }

  /** Something is written exactly when some eligible record is stored successfully. */
  lemma {:induction false} ExtractAllNonEmpty(contents: seq<Byte>, outputDir: string, entries: seq<PakEntry>,
                                              store: Extraction -> bool)
    ensures ExtractAll(contents, outputDir, entries, store) != []
      <==> exists k :: 0 <= k < |entries| && Eligible(contents, entries[k])
             && store(ExtractionOf(contents, outputDir, entries[k]))
  {
    if entries != [] {
      ExtractAllNonEmpty(contents, outputDir, entries[1..], store);
      if exists k :: 0 <= k < |entries| && Eligible(contents, entries[k])
          && store(ExtractionOf(contents, outputDir, entries[k])) {
        var k :| 0 <= k < |entries| && Eligible(contents, entries[k])
          && store(ExtractionOf(contents, outputDir, entries[k]));
        if k > 0 {
          assert entries[1..][k - 1] == entries[k];
        }
      } else {
        forall k | 0 <= k < |entries[1..]|
          ensures !(Eligible(contents, entries[1..][k]) && store(ExtractionOf(contents, outputDir, entries[1..][k])))
        {
          assert entries[1..][k] == entries[k + 1];
        }
      }
    }
  }

  /**
   * `unpack_pak_file`: read the archive, check the header, read the whole
   * table, then write every eligible record. The result is whether at
   * least one file was written.
   */
  function Unpack(archive: Option<seq<Byte>>, outputDir: string, store: Extraction -> bool): (r: Unpacked)
    ensures r.ok <==> r.extracted != []
    ensures archive.None? ==> r.extracted == []
  {
    if archive.None? then Unpacked(false, [])
    else
      var contents := archive.value;
      var header := ReadHeader(contents);
      if header.None? || !ValidHeader(header.value) then Unpacked(false, [])
      else
        var entries := ReadEntries(contents, header.value.offset, 0, FileCount(header.value));
        if entries.None? then Unpacked(false, [])
        else
          var extracted := ExtractAll(contents, outputDir, entries.value, store);
          Unpacked(extracted != [], extracted)
  }

  /**
   * An archive writes nothing unless it starts with a "PACK" header and its
   * whole file table lies inside it; then at most one file per record.
   */
  lemma UnpackRequiresTable(contents: seq<Byte>, outputDir: string, store: Extraction -> bool)
    ensures var r := Unpack(Some(contents), outputDir, store);
      r.extracted != [] ==>
        && |contents| >= PakHeaderSize && contents[..4] == PackId
        && var h := ReadHeader(contents).value;
           h.offset + FileCount(h) * PakEntrySize <= |contents|
           && |r.extracted| <= FileCount(h)
  {
    var header := ReadHeader(contents);
    if header.Some? && ValidHeader(header.value) {
      ReadEntriesSucceeds(contents, header.value.offset, 0, FileCount(header.value));
    }
  }

  /**
   * The unpacker reports success exactly when the archive has a "PACK"
   * header, its table fits, and some record with a name and in-bounds data
   * is stored successfully.
   */
  lemma UnpackSucceeds(contents: seq<Byte>, outputDir: string, store: Extraction -> bool)
    ensures var r := Unpack(Some(contents), outputDir, store);
      r.ok <==>
        && ReadHeader(contents).Some? && ValidHeader(ReadHeader(contents).value)
        && var h := ReadHeader(contents).value;
           var entries := ReadEntries(contents, h.offset, 0, FileCount(h));
           && entries.Some?
           && exists k :: 0 <= k < |entries.value| && Eligible(contents, entries.value[k])
                && store(ExtractionOf(contents, outputDir, entries.value[k]))
  {
    var header := ReadHeader(contents);
    if header.Some? && ValidHeader(header.value) {
      var entries := ReadEntries(contents, header.value.offset, 0, FileCount(header.value));
      if entries.Some? {
        ExtractAllNonEmpty(contents, outputDir, entries.value, store);
      }
    }
  }

  /** A written file's name, seen from its path, is the record's name when that has no '/'. */
  lemma ExtractedName(contents: seq<Byte>, outputDir: string, e: PakEntry)
    requires Eligible(contents, e) && '/' !in ToChars(EntryName(e))
    ensures PathGetFilename(ExtractionOf(contents, outputDir, e).path) == ToChars(EntryName(e))
  {
    FilenameOfJoin(outputDir, ToChars(EntryName(e)));
  }
}
