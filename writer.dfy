/**
 * The append writer of src/pycask/writer.py: the record codec it applies
 * (_calculate_crc, _serialize_entry), the rotation rule, the start-up scan
 * that picks the file to resume, and the KVWriter object itself.
 *
 * WriteStep is the writer's behaviour as a function of its state; the
 * KVWriter class holds the same state in fields, updates it step by step
 * as the source does, and is proved to follow WriteStep.
 */
module Writer {
  import opened Bytes
  import opened Wrappers
  import opened Models
  import Utf8
  import Crc32
  import opened Exceptions
  import opened Storage

  /** max_file_size when none is given: one gibibyte. */
  const DEFAULT_MAX_FILE_SIZE: int := 1024 * 1024 * 1024

  // ---------------------------------------------------------------- codec

  /** The header fields struct.pack('!QII') accepts (the checksum input). */
  predicate Packable(e: KVEntry)
  {
    0 <= e.timestamp < U64_LIMIT && 0 <= e.keySize < U32_LIMIT && 0 <= e.valueSize < U32_LIMIT
  }

  /** The header fields struct.pack('!IQII') accepts (the whole header). */
  predicate HeaderFits(e: KVEntry)
  {
    Packable(e) && 0 <= e.crc < U32_LIMIT
  }

  /** What the checksum covers: timestamp ‖ key_size ‖ value_size ‖ key ‖ value, big-endian. */
  function ChecksumInput(e: KVEntry): (r: seq<byte>)
    requires Packable(e)
    ensures |r| == 16 + |Utf8.Encode(e.key)| + |e.value|
  {
    EncodeU64(e.timestamp) + EncodeU32(e.keySize) + EncodeU32(e.valueSize) + Utf8.Encode(e.key) + e.value
  }

  /**
   * _calculate_crc: the same entry with its crc set to the CRC-32 of the
   * checksum input, or None where struct.pack raises struct.error.
   */
  function CalculateCrc(e: KVEntry): (r: Option<KVEntry>)
    ensures r.Some? <==> Packable(e)
    ensures r.Some? ==> HeaderFits(r.value) && r.value.(crc := e.crc) == e
    ensures r.Some? ==> r.value.crc == Crc32.Crc32(ChecksumInput(e))
  {
    if Packable(e) then Some(e.(crc := Crc32.Crc32(ChecksumInput(e)))) else None
  }

  /**
   * _serialize_entry: crc:4 ‖ timestamp:8 ‖ key_size:4 ‖ value_size:4 ‖ key ‖ value,
   * or None where struct.pack raises.  The header carries the entry's own
   * size fields while the payload is the actual key and value, so the length
   * is total_size whether or not those fields are consistent.
   */
  function Serialize(e: KVEntry): (r: Option<seq<byte>>)
    ensures r.Some? <==> HeaderFits(e)
    ensures r.Some? ==> |r.value| == TotalSize(e)
  {
    if HeaderFits(e) then
      Some(EncodeU32(e.crc) + EncodeU64(e.timestamp) + EncodeU32(e.keySize) + EncodeU32(e.valueSize)
           + Utf8.Encode(e.key) + e.value)
    else None
  }

  /** Where each field sits in the serialized bytes; the checksum covers everything after the crc. */
  lemma SerializeLayout(e: KVEntry)
    requires HeaderFits(e)
    ensures var r := Serialize(e).value; var k := |Utf8.Encode(e.key)|;
      && DecodeBE(r[0..4]) == e.crc && DecodeBE(r[4..12]) == e.timestamp
      && DecodeBE(r[12..16]) == e.keySize && DecodeBE(r[16..20]) == e.valueSize
      && r[20..20 + k] == Utf8.Encode(e.key) && r[20 + k..] == e.value
      && r[4..] == ChecksumInput(e)
  {
    var c, t, ks, vs := EncodeU32(e.crc), EncodeU64(e.timestamp), EncodeU32(e.keySize), EncodeU32(e.valueSize);
    var kb := Utf8.Encode(e.key);
    var r := Serialize(e).value;
    var header := c + t + ks + vs;
    assert r == header + (kb + e.value);
    PrefixSlice(header, kb + e.value, 0, 4);
    PrefixSlice(header, kb + e.value, 4, 12);
    PrefixSlice(header, kb + e.value, 12, 16);
    PrefixSlice(header, kb + e.value, 16, 20);
    assert header[0..4] == c && header[4..12] == t && header[12..16] == ks && header[16..20] == vs;
    assert r[20..] == kb + e.value;
    assert r[20..20 + |kb|] == (kb + e.value)[..|kb|] == kb;
    assert r[20 + |kb|..] == (kb + e.value)[|kb|..] == e.value;
    assert r[4..] == t + ks + vs + kb + e.value;
  }

  lemma PrefixSlice(a: seq<byte>, b: seq<byte>, i: int, j: int)
    requires 0 <= i <= j <= |a|
    ensures (a + b)[i..j] == a[i..j]
  {
  }

  // ------------------------------------------------------------- rotation

  /** _should_rotate_file: the entry would end beyond max_file_size. */
  predicate ShouldRotate(currentOffset: int, entrySize: int, maxFileSize: int)
  {
    currentOffset + entrySize > maxFileSize
  }

  /** An entry that exactly fills the file stays; the next one, however small, rotates. */
  lemma ExactFillDoesNotRotate(currentOffset: int, e: KVEntry, next: KVEntry, maxFileSize: int)
    requires currentOffset + TotalSize(e) == maxFileSize
    ensures !ShouldRotate(currentOffset, TotalSize(e), maxFileSize)
    ensures ShouldRotate(currentOffset + TotalSize(e), TotalSize(next), maxFileSize)
  {
  }

  // ------------------------------------------------------- writer states

  /** The directory's files and the writer's three fields. */
  datatype WriterState = WriterState(
    files: map<string, seq<byte>>,
    activeFileId: nat,
    currentOffset: int,
    handleOpen: bool)

  /**
   * What a single writer keeps true: the active file exists, the offset is its
   * length, and no data file has a higher id than the active one.
   */
  predicate Consistent(s: WriterState)
  {
    && FileName(s.activeFileId) in s.files
    && s.currentOffset == |s.files[FileName(s.activeFileId)]|
    && forall name :: name in s.files && ParseFileName(name).Some? ==> ParseFileName(name).value <= s.activeFileId
  }

  /** open(path, 'ab'): creates the file empty when it does not exist. */
  function OpenForAppend(files: map<string, seq<byte>>, fileId: nat): (r: map<string, seq<byte>>)
    ensures FileName(fileId) in r && r.Keys == files.Keys + {FileName(fileId)}
    ensures forall name :: name in files ==> r[name] == files[name]
    ensures FileName(fileId) !in files ==> r[FileName(fileId)] == []
  {
    if FileName(fileId) in files then files else files[FileName(fileId) := []]
  }

  /** _rotate_to_new_file: next id, offset 0, the new file opened. */
  function Rotate(s: WriterState): WriterState
  {
    WriterState(OpenForAppend(s.files, s.activeFileId + 1), s.activeFileId + 1, 0, true)
  }

  /** Why write_entry failed: a WriterError, or struct.error escaping from struct.pack. */
  datatype WriteError = Raised(error: PyCaskError) | StructError

  function NoActiveHandle(): PyCaskError
  {
    NewWriterError("No active file handle available", None, None)
  }

  /**
   * write_entry: refuse when closed; rotate when the entry would overflow;
   * checksum; append the serialized bytes; return where they went.
   */
  function WriteStep(s: WriterState, maxFileSize: int, e: KVEntry): (WriterState, Result<KVLocation, WriteError>)
    requires Consistent(s)
  {
    if !s.handleOpen then (s, Failure(Raised(NoActiveHandle())))
    else
      var rotate := ShouldRotate(s.currentOffset, TotalSize(e), maxFileSize);
      var s1 := if rotate then Rotate(s) else s;
      assert Consistent(s1) by {
        if rotate { RotateConsistent(s); }
      }
      AppendStep(s1, e)
  }

  /**
   * The rest of write_entry once the active file is chosen: checksum,
   * serialize, append to the active file, and report where the bytes went.
   */
  function AppendStep(s: WriterState, e: KVEntry): (WriterState, Result<KVLocation, WriteError>)
    requires FileName(s.activeFileId) in s.files
  {
    match CalculateCrc(e)
    case None => (s, Failure(StructError))
    case Some(withCrc) =>
      (AppendRecord(s, Serialize(withCrc).value), Success(KVLocation(s.activeFileId, s.currentOffset, TotalSize(e), e.timestamp)))
  }

  /** active_file.write(data) and current_offset += len(data): the bytes go to the end of the active file. */
  function AppendRecord(s: WriterState, data: seq<byte>): (r: WriterState)
    requires FileName(s.activeFileId) in s.files
  {
    var name := FileName(s.activeFileId);
    s.(files := s.files[name := s.files[name] + data], currentOffset := s.currentOffset + |data|)
  }

  /** Rotation moves to a fresh, empty file and keeps the state consistent. */
  lemma RotateConsistent(s: WriterState)
    requires Consistent(s)
    ensures FileName(s.activeFileId + 1) !in s.files
    ensures Consistent(Rotate(s)) && Rotate(s).files == s.files[FileName(s.activeFileId + 1) := []]
  {
    ParseFileNameOfFileName(s.activeFileId + 1);
    var r := Rotate(s);
    forall name | name in r.files && ParseFileName(name).Some?
      ensures ParseFileName(name).value <= r.activeFileId
    {
      if name == FileName(r.activeFileId) {
        ParseFileNameOfFileName(r.activeFileId);
      }
    }
  }

  /** Every write leaves the state consistent, whatever its outcome. */
  lemma WriteStepConsistent(s: WriterState, maxFileSize: int, e: KVEntry)
    requires Consistent(s)
    ensures Consistent(WriteStep(s, maxFileSize, e).0)
  {
    if s.handleOpen && ShouldRotate(s.currentOffset, TotalSize(e), maxFileSize) {
      RotateConsistent(s);
    }
  }

  /**
   * A write on an open writer with packable fields succeeds at the current
   * offset of the active file, or at offset 0 of the next file when it rotates;
   * the offset then advances by exactly the entry's size, and only the file
   * written to changes, by the serialized entry appended to it.
   */
  lemma WriteLocation(s: WriterState, maxFileSize: int, e: KVEntry)
    requires Consistent(s) && s.handleOpen && Packable(e)
    ensures var (s', r) := WriteStep(s, maxFileSize, e);
      var rotated := s.currentOffset + TotalSize(e) > maxFileSize;
      && r.Success? && s'.handleOpen
      && r.value.fileId == s'.activeFileId == s.activeFileId + (if rotated then 1 else 0)
      && r.value.entryOffset == (if rotated then 0 else s.currentOffset)
      && r.value.entrySize == TotalSize(e) && r.value.timestamp == e.timestamp
      && s'.currentOffset == r.value.entryOffset + TotalSize(e)
      && s'.files == (if rotated then s.files[FileName(s'.activeFileId) := []] else s.files)
                     [FileName(s'.activeFileId) := (if rotated then [] else s.files[FileName(s.activeFileId)])
                                                   + Serialize(CalculateCrc(e).value).value]
  {
    if s.currentOffset + TotalSize(e) > maxFileSize {
      RotateConsistent(s);
    }
  }

  /** A write that fits lands at the current offset of the active file. */
  lemma WriteInPlace(s: WriterState, maxFileSize: int, e: KVEntry)
    requires Consistent(s) && s.handleOpen && Packable(e) && s.currentOffset + TotalSize(e) <= maxFileSize
    ensures var (s', r) := WriteStep(s, maxFileSize, e);
      && r == Success(KVLocation(s.activeFileId, s.currentOffset, TotalSize(e), e.timestamp))
      && s'.handleOpen && s'.activeFileId == s.activeFileId && s'.currentOffset == s.currentOffset + TotalSize(e)
  {
  }

  /** Writing after close fails with "No active file handle available" and changes nothing. */
  lemma WriteAfterClose(s: WriterState, maxFileSize: int, e: KVEntry)
    requires Consistent(s) && !s.handleOpen
    ensures WriteStep(s, maxFileSize, e) == (s, Failure(Raised(NoActiveHandle())))
    ensures NoActiveHandle().text == "No active file handle available"
  {
  }

  /**
   * An entry larger than max_file_size still rotates first, even out of an
   * empty file, and is then written whole as the only content of the new file.
   */
  lemma OversizedEntry(s: WriterState, maxFileSize: int, e: KVEntry)
    requires Consistent(s) && s.handleOpen && Packable(e) && TotalSize(e) > maxFileSize && s.currentOffset >= 0
    ensures var (s', r) := WriteStep(s, maxFileSize, e);
      && r == Success(KVLocation(s.activeFileId + 1, 0, TotalSize(e), e.timestamp))
      && s'.files[FileName(s.activeFileId + 1)] == Serialize(CalculateCrc(e).value).value
      && s'.files[FileName(s.activeFileId)] == s.files[FileName(s.activeFileId)]
  {
    WriteLocation(s, maxFileSize, e);
    ParseFileNameOfFileName(s.activeFileId);
    ParseFileNameOfFileName(s.activeFileId + 1);
  }

  /** A write never removes a file and never changes bytes already written. */
  lemma WriteStepAppendOnly(s: WriterState, maxFileSize: int, e: KVEntry)
    requires Consistent(s)
    ensures var s' := WriteStep(s, maxFileSize, e).0;
      forall name :: name in s.files ==> name in s'.files && s.files[name] <= s'.files[name]
  {
    if s.handleOpen && ShouldRotate(s.currentOffset, TotalSize(e), maxFileSize) {
      RotateConsistent(s);
    }
  }

  /**
   * Two writes in a row that fit in the active file go to it back to back:
   * the second starts where the first ended.
   */
  lemma BackToBack(s: WriterState, maxFileSize: int, e1: KVEntry, e2: KVEntry)
    requires Consistent(s) && s.handleOpen && Packable(e1) && Packable(e2)
    requires s.currentOffset + TotalSize(e1) + TotalSize(e2) <= maxFileSize
    ensures var (s1, r1) := WriteStep(s, maxFileSize, e1);
      Consistent(s1) &&
      var r2 := WriteStep(s1, maxFileSize, e2).1;
      && r1.Success? && r2.Success?
      && r2.value.fileId == r1.value.fileId == s.activeFileId
      && r2.value.entryOffset == r1.value.entryOffset + r1.value.entrySize
  {
    WriteStepConsistent(s, maxFileSize, e1);
    WriteInPlace(s, maxFileSize, e1);
    WriteInPlace(WriteStep(s, maxFileSize, e1).0, maxFileSize, e2);
  }

  // ------------------------------------------------ start-up directory scan

  /** A listing of the directory: each name of names exactly once, in some order. */
  ghost predicate Enumerates(listing: seq<string>, names: set<string>)
  {
    && (forall i, j :: 0 <= i < j < |listing| ==> listing[i] != listing[j])
    && (forall name :: name in listing <==> name in names)
  }

  /** The ids the scan appends, in listing order; malformed names are skipped. */
  function ParseAll(listing: seq<string>): (r: seq<nat>)
    ensures |r| <= |listing|
  {
    if listing == [] then []
    else
      var init := ParseAll(listing[..|listing| - 1]);
      match ParseFileName(listing[|listing| - 1])
      case Some(id) => init + [id]
      case None => init
  }

  /** The data-file ids among a set of names. */
  function DataFileIds(names: set<string>): set<nat>
  {
    set name | name in names && ParseFileName(name).Some? :: ParseFileName(name).value
  }

  /** An id is scanned exactly when some listed name parses to it. */
  lemma {:induction false} ParseAllMembers(listing: seq<string>, id: nat)
    ensures id in ParseAll(listing) <==> exists i :: 0 <= i < |listing| && ParseFileName(listing[i]) == Some(id)
  {
    if listing != [] {
      var init := listing[..|listing| - 1];
      ParseAllMembers(init, id);
      if exists i :: 0 <= i < |listing| && ParseFileName(listing[i]) == Some(id) {
        var i :| 0 <= i < |listing| && ParseFileName(listing[i]) == Some(id);
        if i < |init| {
          assert init[i] == listing[i];
        }
      }
      if exists i :: 0 <= i < |init| && ParseFileName(init[i]) == Some(id) {
        var i :| 0 <= i < |init| && ParseFileName(init[i]) == Some(id);
        assert listing[i] == init[i];
      }
    }
  }

  /** Scanning a listing of a directory finds exactly its data-file ids. */
  lemma ParseAllOfListing(listing: seq<string>, names: set<string>)
    requires Enumerates(listing, names)
    ensures forall id :: id in ParseAll(listing) <==> id in DataFileIds(names)
  {
    forall id: nat
      ensures id in ParseAll(listing) <==> id in DataFileIds(names)
    {
      ParseAllMembers(listing, id);
      if id in DataFileIds(names) {
        var name :| name in names && ParseFileName(name) == Some(id);
        var i :| 0 <= i < |listing| && listing[i] == name;
      }
    }
  }

  predicate IsSorted(s: seq<nat>)
  {
    forall i, j :: 0 <= i < j < |s| ==> s[i] <= s[j]
  }

  function Insert(s: seq<nat>, x: nat): (r: seq<nat>)
    ensures multiset(r) == multiset(s) + multiset{x}
  {
    if s == [] then [x]
    else if x <= s[0] then [x] + s
    else
      assert s == [s[0]] + s[1..];
      [s[0]] + Insert(s[1..], x)
  }

  /** Inserting into a sorted list keeps it sorted. */
  lemma {:induction false} InsertSorted(s: seq<nat>, x: nat)
    requires IsSorted(s)
    ensures IsSorted(Insert(s, x))
  {
    if s != [] && x > s[0] {
      var rest := Insert(s[1..], x);
      InsertSorted(s[1..], x);
      var r := Insert(s, x);
      assert r == [s[0]] + rest;
      forall i, j | 0 <= i < j < |r|
        ensures r[i] <= r[j]
      {
        assert r[j] == rest[j - 1];
        if i == 0 {
          assert rest[j - 1] in multiset(s[1..]) + multiset{x};
          if rest[j - 1] != x {
            assert rest[j - 1] in s[1..];
          }
        } else {
          assert r[i] == rest[i - 1];
        }
      }
    }
  }

  /** sorted(): the same ids, ascending. */
  function Sort(s: seq<nat>): (r: seq<nat>)
    ensures multiset(r) == multiset(s)
  {
    if s == [] then []
    else
      assert s == s[..|s| - 1] + [s[|s| - 1]];
      Insert(Sort(s[..|s| - 1]), s[|s| - 1])
  }

  lemma {:induction false} SortSorted(s: seq<nat>)
    ensures IsSorted(Sort(s))
  {
    if s != [] {
      SortSorted(s[..|s| - 1]);
      InsertSorted(Sort(s[..|s| - 1]), s[|s| - 1]);
    }
  }

  /** The sorted scan of a listing holds exactly the data-file ids of the directory, in ascending order. */
  lemma SortedScan(listing: seq<string>, names: set<string>)
    requires Enumerates(listing, names)
    ensures IsSorted(Sort(ParseAll(listing)))
    ensures forall id :: id in Sort(ParseAll(listing)) <==> id in DataFileIds(names)
  {
    var ids := Sort(ParseAll(listing));
    SortSorted(ParseAll(listing));
    ParseAllOfListing(listing, names);
    forall id
      ensures id in ids <==> id in ParseAll(listing)
    {
      assert id in ids <==> id in multiset(ids);
    }
  }

  /** max() of a non-empty list. */
  function SeqMax(s: seq<nat>): (r: nat)
    requires |s| > 0
    ensures r in s && forall i :: 0 <= i < |s| ==> s[i] <= r
  {
    if |s| == 1 then s[0]
    else
      var m := SeqMax(s[..|s| - 1]);
      assert forall i :: 0 <= i < |s| - 1 ==> s[..|s| - 1][i] == s[i];
      if s[|s| - 1] > m then s[|s| - 1] else m
  }

  /**
   * Where _initialize_active_file resumes: nowhere yet means file 0; else
   * the highest id, at its end, when a file of exactly that name exists and
   * is smaller than max_file_size; else (full, or os.path.getsize failing
   * because the id came from a name such as "data_007.dat") the next id,
   * at offset 0.
   */
  ghost predicate IsResumePoint(files: map<string, seq<byte>>, maxFileSize: int, fileId: nat, offset: int)
  {
    var ids := DataFileIds(files.Keys);
    if ids == {} then fileId == 0 && offset == 0
    else exists last :: last in ids && (forall j :: j in ids ==> j <= last) && ResumesAfter(files, maxFileSize, last, fileId, offset)
  }

  /** Where the writer resumes when last is the highest data-file id. */
  predicate ResumesAfter(files: map<string, seq<byte>>, maxFileSize: int, last: nat, fileId: nat, offset: int)
  {
    if FileName(last) in files && |files[FileName(last)]| < maxFileSize then
      fileId == last && offset == |files[FileName(last)]|
    else fileId == last + 1 && offset == 0
  }

  /** The resume point is unique. */
  lemma ResumePointUnique(files: map<string, seq<byte>>, maxFileSize: int, id1: nat, offset1: int, id2: nat, offset2: int)
    requires IsResumePoint(files, maxFileSize, id1, offset1) && IsResumePoint(files, maxFileSize, id2, offset2)
    ensures id1 == id2 && offset1 == offset2
  {
    var ids := DataFileIds(files.Keys);
    if ids != {} {
      var a :| a in ids && (forall j :: j in ids ==> j <= a) && ResumesAfter(files, maxFileSize, a, id1, offset1);
      var b :| b in ids && (forall j :: j in ids ==> j <= b) && ResumesAfter(files, maxFileSize, b, id2, offset2);
      assert a <= b && b <= a;
    }
  }

  /**
   * Opening the resume point gives a consistent writer: the active file
   * exists, the offset is its size, and no data file has a higher id.
   */
  lemma ResumePointConsistent(files: map<string, seq<byte>>, maxFileSize: int, fileId: nat, offset: int)
    requires IsResumePoint(files, maxFileSize, fileId, offset)
    ensures Consistent(WriterState(OpenForAppend(files, fileId), fileId, offset, true))
  {
    var ids := DataFileIds(files.Keys);
    var s := WriterState(OpenForAppend(files, fileId), fileId, offset, true);
    ParseFileNameOfFileName(fileId);
    assert FileName(fileId) in files ==> ParseFileName(FileName(fileId)).value in ids;
    if ids != {} {
      var last :| last in ids && (forall j :: j in ids ==> j <= last) && ResumesAfter(files, maxFileSize, last, fileId, offset);
    }
    forall name | name in s.files && ParseFileName(name).Some?
      ensures ParseFileName(name).value <= fileId
    {
      if name in files {
        assert ParseFileName(name).value in ids;
      }
    }
  }

  /** An empty directory starts at file 0, offset 0. */
  lemma ResumeEmpty(maxFileSize: int)
    ensures IsResumePoint(map[], maxFileSize, 0, 0)
  {
    var files: map<string, seq<byte>> := map[];
    assert DataFileIds(files.Keys) == {};
  }

  lemma GapIds(a: seq<byte>, b: seq<byte>)
    ensures DataFileIds(map["data_0.dat" := a, "data_5.dat" := b].Keys) == {0, 5}
  {
    var files := map["data_0.dat" := a, "data_5.dat" := b];
    ParseFileNameExamples();
    assert files.Keys == {"data_0.dat", "data_5.dat"};
  }

  /**
   * Gaps in the numbering are kept: with data_0.dat and data_5.dat present
   * the writer continues data_5.dat while it has room, and opens data_6.dat
   * once it is full.
   */
  lemma ResumeAfterGap(a: seq<byte>, b: seq<byte>, maxFileSize: int)
    ensures |b| < maxFileSize ==> IsResumePoint(map["data_0.dat" := a, "data_5.dat" := b], maxFileSize, 5, |b|)
    ensures |b| >= maxFileSize ==> IsResumePoint(map["data_0.dat" := a, "data_5.dat" := b], maxFileSize, 6, 0)
  {
    GapIds(a, b);
    assert FileName(5) == "data_5.dat" by {
      ParseFileNameExamples();
    }
    var files := map["data_0.dat" := a, "data_5.dat" := b];
    assert files[FileName(5)] == b;
  }

  // ------------------------------------------------------- the writer object

  /**
   * KVWriter: the data directory, max_file_size, and the three fields the
   * source updates (active_file_id, current_offset and whether
   * active_file_handle is set).
   */
  class KVWriter {
    const dir: DataDir
    const maxFileSize: int
    var activeFileId: nat
    var currentOffset: int
    var handleOpen: bool

    /** The writer's fields together with the directory's files. */
    function State(): WriterState
      reads this, dir
    {
      WriterState(dir.files, activeFileId, currentOffset, handleOpen)
    }

    predicate Valid()
      reads this, dir
    {
      dir.present && dir.Valid() && Consistent(State())
    }

    /**
     * KVWriter(data_dir, max_file_size): create the directory if needed,
     * then resume after the files already there.
     */
    constructor(dir: DataDir, maxFileSize: int)
      requires dir.Valid()
      modifies dir
      ensures this.dir == dir && this.maxFileSize == maxFileSize
      ensures Valid() && handleOpen
      ensures IsResumePoint(old(dir.files), maxFileSize, activeFileId, currentOffset)
      ensures dir.files == OpenForAppend(old(dir.files), activeFileId)
    {
      this.dir := dir;
      this.maxFileSize := maxFileSize;
      activeFileId := 0;
      currentOffset := 0;
      handleOpen := false;
      new;
      EnsureDataDirectory();
      InitializeActiveFile();
    }

    /** _ensure_data_directory: os.makedirs(data_dir, exist_ok=True). */
    method EnsureDataDirectory()
      modifies dir`present
      ensures dir.present
    {
      dir.present := true;
    }

    /**
     * _get_existing_file_ids: walk the listing, keep the ids of well-formed
     * data file names, return them sorted.
     */
    method GetExistingFileIds() returns (ids: seq<nat>)
      ensures IsSorted(ids)
      ensures forall id :: id in ids <==> id in DataFileIds(dir.files.Keys)
      ensures exists listing :: Enumerates(listing, dir.files.Keys) && ids == Sort(ParseAll(listing))
    {
      var fileIds, listed := ScanDataFiles();
      ids := Sort(fileIds);
      SortedScan(listed, dir.files.Keys);
    }

    /** The loop of _get_existing_file_ids: one listed name after another, in listing order. */
    method ScanDataFiles() returns (fileIds: seq<nat>, ghost listed: seq<string>)
      ensures Enumerates(listed, dir.files.Keys) && fileIds == ParseAll(listed)
    {
      var remaining := dir.files.Keys;
      fileIds := [];
      listed := [];
      while remaining != {}
        invariant remaining <= dir.files.Keys
        invariant forall i, j :: 0 <= i < j < |listed| ==> listed[i] != listed[j]
        invariant forall name :: name in listed <==> name in dir.files.Keys && name !in remaining
        invariant fileIds == ParseAll(listed)
        decreases remaining
      {
        var name :| name in remaining;
        match ParseFileName(name) {
          case Some(id) => fileIds := fileIds + [id];
          case None =>
        }
        assert (listed + [name])[..|listed|] == listed;
        listed := listed + [name];
        remaining := remaining - {name};
      }
    }

    /** _open_active_file: open(path, 'ab'), which creates the file when it is missing. */
    method OpenActiveFile()
      modifies this`handleOpen, dir`files
      ensures handleOpen && dir.files == OpenForAppend(old(dir.files), activeFileId)
    {
      var name := FileName(activeFileId);
      if name !in dir.files {
        dir.files := dir.files[name := []];
      }
      handleOpen := true;
    }

    /** _initialize_active_file: pick the resume point and open it. */
    method InitializeActiveFile()
      modifies this`activeFileId, this`currentOffset, this`handleOpen, dir`files
      ensures IsResumePoint(old(dir.files), maxFileSize, activeFileId, currentOffset)
      ensures handleOpen && dir.files == OpenForAppend(old(dir.files), activeFileId)
      ensures Consistent(State())
    {
      var existing := GetExistingFileIds();
      if |existing| > 0 {
        var last := SeqMax(existing);
        var name := FileName(last);
        if name in dir.files && |dir.files[name]| < maxFileSize {
          activeFileId := last;
          currentOffset := |dir.files[name]|;
        } else {
          activeFileId := last + 1;
          currentOffset := 0;
        }
      } else {
        activeFileId := 0;
        currentOffset := 0;
      }
      ghost var files := dir.files;
      OpenActiveFile();
      ResumePointConsistent(files, maxFileSize, activeFileId, currentOffset);
    }

    /** _rotate_to_new_file: close, move to the next id at offset 0, open. */
    method RotateToNewFile()
      requires Consistent(State())
      modifies this`activeFileId, this`currentOffset, this`handleOpen, dir`files
      ensures State() == Rotate(old(State()))
    {
      if handleOpen {
        handleOpen := false;
      }
      activeFileId := activeFileId + 1;
      currentOffset := 0;
      OpenActiveFile();
    }

    /** write_entry, step for step as WriteStep describes it. */
    method WriteEntry(e: KVEntry) returns (r: Result<KVLocation, WriteError>)
      requires Valid()
      modifies this`activeFileId, this`currentOffset, this`handleOpen, dir`files
      ensures Valid()
      ensures (State(), r) == WriteStep(old(State()), maxFileSize, e)
    {
      ghost var s := State();
      if !handleOpen {
        r := Failure(Raised(NoActiveHandle()));
      } else {
        if ShouldRotate(currentOffset, TotalSize(e), maxFileSize) {
          RotateConsistent(s);
          RotateToNewFile();
        }
        ghost var s1 := State();
        assert s1 == if ShouldRotate(s.currentOffset, TotalSize(e), maxFileSize) then Rotate(s) else s;
        r := AppendEntry(e);
        assert (State(), r) == AppendStep(s1, e);
      }
      assert (State(), r) == WriteStep(s, maxFileSize, e);
      WriteStepConsistent(s, maxFileSize, e);
    }

    /**
     * The checksum, serialization and append of write_entry: write(data),
     * flush(), then current_offset += len(data).
     */
    method AppendEntry(e: KVEntry) returns (r: Result<KVLocation, WriteError>)
      requires FileName(activeFileId) in dir.files
      modifies this`currentOffset, dir`files
      ensures (State(), r) == AppendStep(old(State()), e)
    {
      var withCrc := CalculateCrc(e);
      if withCrc.None? {
        return Failure(StructError);
      }
      var writeOffset := currentOffset;
      var data := Serialize(withCrc.value).value;
      var name := FileName(activeFileId);
      dir.files := dir.files[name := dir.files[name] + data];
      currentOffset := currentOffset + |data|;
      r := Success(KVLocation(activeFileId, writeOffset, TotalSize(e), e.timestamp));
    }

    /** close: drop the handle; a second close does nothing. */
    method Close()
      requires Valid()
      modifies this`handleOpen
      ensures Valid() && !handleOpen
    {
      if handleOpen {
        handleOpen := false;
      }
    }
  }
}
