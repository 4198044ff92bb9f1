/**
 * The writer and the reader over the same directory contents: what
 * write_entry appends, read_entry at the returned location gives back;
 * later writes never disturb it; and a record cut short by a torn write
 * is reported as incomplete rather than misread.
 */
module LogProps {
  import opened Wrappers
  import opened Bytes
  import Utf8
  import opened Models
  import opened Exceptions
  import opened Storage
  import opened Writer
  import opened Reader

  /** A record appended to a file sits right after the bytes that were there. */
  lemma AppendedRecord(prefix: seq<byte>, data: seq<byte>, loc: KVLocation)
    requires loc.entryOffset == |prefix| && loc.entrySize == |data|
    ensures (prefix + data)[loc.entryOffset..loc.entryOffset + loc.entrySize] == data
  {
  }

  /**
   * Write, then read at the returned location: on an open writer an entry
   * with consistent sizes and packable fields comes back with the same key,
   * value, timestamp and sizes, and with the crc the writer computed.
   */
  lemma WriteThenRead(s: WriterState, maxFileSize: int, e: KVEntry, directory: string)
    requires Consistent(s) && s.handleOpen && Packable(e) && IsValidSizes(e)
    ensures var (s', r) := WriteStep(s, maxFileSize, e);
      && r.Success? && s'.handleOpen
      && ReadEntryResult(s'.files, directory, r.value) == Success(CalculateCrc(e).value)
      && var got := ReadEntryResult(s'.files, directory, r.value).value;
      && got.key == e.key && got.value == e.value && got.timestamp == e.timestamp
      && got.keySize == e.keySize && got.valueSize == e.valueSize
  {
    var withCrc := WrittenRecord(s, maxFileSize, e);
    CalculateCrcVerifies(e);
    var (s', r) := WriteStep(s, maxFileSize, e);
    DecodeSerialized(s'.files[FileName(r.value.fileId)], r.value, withCrc);
  }

  /** Where write_entry reports the entry, the file holds the serialization of its checksummed form. */
  lemma WrittenRecord(s: WriterState, maxFileSize: int, e: KVEntry) returns (withCrc: KVEntry)
    requires Consistent(s) && s.handleOpen && Packable(e)
    ensures withCrc == CalculateCrc(e).value
    ensures var (s', r) := WriteStep(s, maxFileSize, e);
      && r.Success? && s'.handleOpen && FileName(r.value.fileId) in s'.files
      && 0 <= r.value.entryOffset && r.value.entrySize == TotalSize(e)
      && r.value.entryOffset + r.value.entrySize <= |s'.files[FileName(r.value.fileId)]|
      && s'.files[FileName(r.value.fileId)][r.value.entryOffset..r.value.entryOffset + r.value.entrySize]
         == Serialize(withCrc).value
  {
    WriteLocation(s, maxFileSize, e);
    var (s', r) := WriteStep(s, maxFileSize, e);
    withCrc := CalculateCrc(e).value;
    var rotated := s.currentOffset + TotalSize(e) > maxFileSize;
    var prefix := if rotated then [] else s.files[FileName(s.activeFileId)];
    assert s'.files[FileName(r.value.fileId)] == prefix + Serialize(withCrc).value;
    AppendedRecord(prefix, Serialize(withCrc).value, r.value);
  }

  /**
   * write_entry does not check is_valid_sizes, so an entry whose size fields
   * disagree with its key or value is still written.  It never reads back as
   * written: the reader only ever returns entries with valid sizes.  When the
   * size fields do not even add up to the key and value, the read fails with
   * a size mismatch.
   */
  lemma WriteInvalidSizes(s: WriterState, maxFileSize: int, e: KVEntry, directory: string)
    requires Consistent(s) && s.handleOpen && Packable(e) && !IsValidSizes(e)
    ensures var (s', r) := WriteStep(s, maxFileSize, e);
      && r.Success?
      && ReadEntryResult(s'.files, directory, r.value) != Success(CalculateCrc(e).value)
      && (e.keySize + e.valueSize != |Utf8.Encode(e.key)| + |e.value| ==>
            ReadEntryResult(s'.files, directory, r.value)
            == Failure(NewCorruptedEntryError(CorruptionMessage(SizeMismatch(TotalSize(e), HEADER_SIZE + e.keySize + e.valueSize)), None, None)))
  {
    var withCrc := WrittenRecord(s, maxFileSize, e);
    var (s', r) := WriteStep(s, maxFileSize, e);
    InvalidRecordRead(s'.files, directory, r.value, e);
  }

  /** The same for a record already in a directory's file. */
  lemma InvalidRecordRead(files: map<string, seq<byte>>, directory: string, loc: KVLocation, e: KVEntry)
    requires Packable(e) && !IsValidSizes(e) && FileName(loc.fileId) in files
    requires 0 <= loc.entryOffset && loc.entrySize == TotalSize(e)
    requires loc.entryOffset + loc.entrySize <= |files[FileName(loc.fileId)]|
    requires files[FileName(loc.fileId)][loc.entryOffset..loc.entryOffset + loc.entrySize]
             == Serialize(CalculateCrc(e).value).value
    ensures ReadEntryResult(files, directory, loc) != Success(CalculateCrc(e).value)
    ensures e.keySize + e.valueSize != |Utf8.Encode(e.key)| + |e.value| ==>
      ReadEntryResult(files, directory, loc)
      == Failure(NewCorruptedEntryError(CorruptionMessage(SizeMismatch(TotalSize(e), HEADER_SIZE + e.keySize + e.valueSize)), None, None))
  {
    var w := CalculateCrc(e).value;
    assert w.(crc := e.crc) == e;
    assert w.key == e.key && w.value == e.value && w.keySize == e.keySize && w.valueSize == e.valueSize;
    var file := files[FileName(loc.fileId)];
    InvalidNeverDecoded(file, loc, w);
    if e.keySize + e.valueSize != |Utf8.Encode(e.key)| + |e.value| {
      SerializedSizeMismatch(file, loc, w);
    }
  }

  /** The reader never returns an entry whose sizes are invalid. */
  lemma InvalidNeverDecoded(file: seq<byte>, loc: KVLocation, e: KVEntry)
    requires !IsValidSizes(e)
    ensures DecodeAt(file, loc) != Success(e)
  {
    if DecodeAt(file, loc).Success? {
      DecodeAtSound(file, loc);
    }
  }

  /**
   * A location that reads successfully keeps reading the same entry after
   * any later write, whether that write appends to the same file, rotates,
   * or fails.
   */
  lemma ReadSurvivesWrite(s: WriterState, maxFileSize: int, e: KVEntry, directory: string, loc: KVLocation)
    requires Consistent(s) && ReadEntryResult(s.files, directory, loc).Success?
    ensures ReadEntryResult(WriteStep(s, maxFileSize, e).0.files, directory, loc) == ReadEntryResult(s.files, directory, loc)
  {
    WriteStepAppendOnly(s, maxFileSize, e);
    ReadSurvivesGrowth(s.files, WriteStep(s, maxFileSize, e).0.files, directory, loc);
  }

  /** Appending to files, or adding new ones, keeps every successful read as it was. */
  lemma ReadSurvivesGrowth(files: map<string, seq<byte>>, files': map<string, seq<byte>>, directory: string, loc: KVLocation)
    requires forall name :: name in files ==> name in files' && files[name] <= files'[name]
    requires ReadEntryResult(files, directory, loc).Success?
    ensures ReadEntryResult(files', directory, loc) == ReadEntryResult(files, directory, loc)
  {
    DecodeSurvivesGrowth(files[FileName(loc.fileId)], files'[FileName(loc.fileId)], loc);
  }

  /** The same for one file: bytes appended after a record do not change how it decodes. */
  lemma DecodeSurvivesGrowth(file: seq<byte>, file': seq<byte>, loc: KVLocation)
    requires file <= file' && DecodeAt(file, loc).Success?
    ensures DecodeAt(file', loc) == DecodeAt(file, loc)
  {
    DecodeAtSound(file, loc);
    assert file' == file + file'[|file|..];
    DecodeAtAppend(file, file'[|file|..], loc);
  }

  /** A run of write_entry calls: the final state and each call's result, in order. */
  function WriteAll(s: WriterState, maxFileSize: int, es: seq<KVEntry>): (r: (WriterState, seq<Result<KVLocation, WriteError>>))
    requires Consistent(s)
    ensures Consistent(r.0) && |r.1| == |es|
    ensures s.handleOpen && (forall i :: 0 <= i < |es| ==> Packable(es[i])) ==> r.0.handleOpen
    decreases |es|
  {
    if es == [] then (s, [])
    else
      WriteStepConsistent(s, maxFileSize, es[0]);
      assert s.handleOpen && Packable(es[0]) ==> WriteStep(s, maxFileSize, es[0]).0.handleOpen by {
        if s.handleOpen && Packable(es[0]) { WriteLocation(s, maxFileSize, es[0]); }
      }
      var step := WriteStep(s, maxFileSize, es[0]);
      var rest := WriteAll(step.0, maxFileSize, es[1..]);
      (rest.0, [step.1] + rest.1)
  }

  /** A successful read survives any run of later writes. */
  lemma {:induction false} ReadSurvivesWriteAll(s: WriterState, maxFileSize: int, es: seq<KVEntry>, directory: string, loc: KVLocation)
    requires Consistent(s) && ReadEntryResult(s.files, directory, loc).Success?
    ensures ReadEntryResult(WriteAll(s, maxFileSize, es).0.files, directory, loc) == ReadEntryResult(s.files, directory, loc)
    decreases |es|
  {
    if es != [] {
      ReadSurvivesWrite(s, maxFileSize, es[0], directory, loc);
      WriteStepConsistent(s, maxFileSize, es[0]);
      ReadSurvivesWriteAll(WriteStep(s, maxFileSize, es[0]).0, maxFileSize, es[1..], directory, loc);
    }
  }

  /** read_entry at the location a write returned gives back the checksummed entry. */
  predicate ReadsBack(files: map<string, seq<byte>>, directory: string, r: Result<KVLocation, WriteError>, e: KVEntry)
  {
    r.Success? && CalculateCrc(e).Some? && ReadEntryResult(files, directory, r.value) == Success(CalculateCrc(e).value)
  }

  /** Each result of a run of writes reads back its own entry. */
  predicate ReadsBackAll(files: map<string, seq<byte>>, directory: string, rs: seq<Result<KVLocation, WriteError>>, es: seq<KVEntry>)
    decreases |es|
  {
    |rs| == |es| && (es == [] || (ReadsBack(files, directory, rs[0], es[0]) && ReadsBackAll(files, directory, rs[1..], es[1..])))
  }

  /**
   * Write a run of entries, then read every returned location: each gives
   * back its own entry, with the crc the writer computed, however many files
   * the run rotated through.
   */
  lemma {:induction false} WriteAllThenReadAll(s: WriterState, maxFileSize: int, es: seq<KVEntry>, directory: string)
    requires Consistent(s) && s.handleOpen
    requires forall j :: 0 <= j < |es| ==> Packable(es[j]) && IsValidSizes(es[j])
    ensures ReadsBackAll(WriteAll(s, maxFileSize, es).0.files, directory, WriteAll(s, maxFileSize, es).1, es)
    decreases |es|
  {
    if es != [] {
      FirstReadsBack(s, maxFileSize, es, directory);
      var s1 := WriteAllCons(s, maxFileSize, es);
      TailWritable(es);
      WriteAllThenReadAll(s1, maxFileSize, es[1..], directory);
      ConsTail(WriteStep(s, maxFileSize, es[0]).1, WriteAll(s1, maxFileSize, es[1..]).1);
    }
  }

  /** The i-th write of a run reads back the i-th entry once the whole run is written. */
  lemma WriteAllThenRead(s: WriterState, maxFileSize: int, es: seq<KVEntry>, directory: string, i: int)
    requires Consistent(s) && s.handleOpen
    requires forall j :: 0 <= j < |es| ==> Packable(es[j]) && IsValidSizes(es[j])
    requires 0 <= i < |es|
    ensures ReadsBack(WriteAll(s, maxFileSize, es).0.files, directory, WriteAll(s, maxFileSize, es).1[i], es[i])
  {
    WriteAllThenReadAll(s, maxFileSize, es, directory);
    ReadsBackAt(WriteAll(s, maxFileSize, es).0.files, directory, WriteAll(s, maxFileSize, es).1, es, i);
  }

  lemma ReadsBackAt(files: map<string, seq<byte>>, directory: string, rs: seq<Result<KVLocation, WriteError>>, es: seq<KVEntry>, i: int)
    requires ReadsBackAll(files, directory, rs, es) && 0 <= i < |es|
    ensures |rs| == |es| && ReadsBack(files, directory, rs[i], es[i])
  {
    ReadsBackSuffix(files, directory, rs, es, i);
    assert rs[i..][0] == rs[i] && es[i..][0] == es[i];
  }

  lemma {:induction false} ReadsBackSuffix(files: map<string, seq<byte>>, directory: string, rs: seq<Result<KVLocation, WriteError>>, es: seq<KVEntry>, i: int)
    requires ReadsBackAll(files, directory, rs, es) && 0 <= i <= |es|
    ensures |rs| == |es| && ReadsBackAll(files, directory, rs[i..], es[i..])
    decreases i
  {
    if i > 0 {
      ReadsBackSuffix(files, directory, rs[1..], es[1..], i - 1);
      assert rs[1..][i - 1..] == rs[i..] && es[1..][i - 1..] == es[i..];
    }
  }

  /** After the first write, the run goes on as the run of the remaining entries. */
  lemma WriteAllCons(s: WriterState, maxFileSize: int, es: seq<KVEntry>) returns (s1: WriterState)
    requires Consistent(s) && s.handleOpen && |es| > 0 && Packable(es[0])
    ensures s1 == WriteStep(s, maxFileSize, es[0]).0 && Consistent(s1) && s1.handleOpen
    ensures WriteAll(s, maxFileSize, es).0 == WriteAll(s1, maxFileSize, es[1..]).0
    ensures WriteAll(s, maxFileSize, es).1 == [WriteStep(s, maxFileSize, es[0]).1] + WriteAll(s1, maxFileSize, es[1..]).1
  {
    WriteStepConsistent(s, maxFileSize, es[0]);
    WriteLocation(s, maxFileSize, es[0]);
    s1 := WriteStep(s, maxFileSize, es[0]).0;
  }

  lemma ConsTail<T>(x: T, xs: seq<T>)
    ensures ([x] + xs)[1..] == xs
  {
  }

  /** What holds of every entry of a run holds of every entry of its tail. */
  lemma TailWritable(es: seq<KVEntry>)
    requires forall j :: 0 <= j < |es| ==> Packable(es[j]) && IsValidSizes(es[j])
    requires |es| > 0
    ensures forall j :: 0 <= j < |es[1..]| ==> Packable(es[1..][j]) && IsValidSizes(es[1..][j])
  {
    forall j | 0 <= j < |es[1..]|
      ensures Packable(es[1..][j]) && IsValidSizes(es[1..][j])
    {
      assert es[1..][j] == es[j + 1];
    }
  }

  /** The first write of a run still reads back once the whole run is written. */
  lemma FirstReadsBack(s: WriterState, maxFileSize: int, es: seq<KVEntry>, directory: string)
    requires Consistent(s) && s.handleOpen && |es| > 0 && Packable(es[0]) && IsValidSizes(es[0])
    ensures Consistent(WriteStep(s, maxFileSize, es[0]).0)
    ensures ReadsBack(WriteAll(s, maxFileSize, es).0.files, directory, WriteAll(s, maxFileSize, es).1[0], es[0])
  {
    WriteThenRead(s, maxFileSize, es[0], directory);
    WriteStepConsistent(s, maxFileSize, es[0]);
    var (s1, r1) := WriteStep(s, maxFileSize, es[0]);
    ReadSurvivesWriteAll(s1, maxFileSize, es[1..], directory, r1.value);
  }

  /**
   * A torn write: when the file ends anywhere inside a serialized record,
   * read_entry at the record's location never returns an entry.  It reports
   * the part the cut falls in: an incomplete header when fewer than 20 bytes
   * of the record remain, an incomplete key when the cut falls inside the
   * key, and an incomplete value when it falls inside the value.
   */
  lemma TornRecord(prefix: seq<byte>, e: KVEntry, loc: KVLocation, cut: int)
    requires HeaderFits(e) && IsValidSizes(e)
    requires loc.entryOffset == |prefix| && loc.entrySize == TotalSize(e)
    requires |prefix| <= cut < |prefix| + TotalSize(e)
    ensures var r := DecodeAt((prefix + Serialize(e).value)[..cut], loc);
      && (cut < |prefix| + HEADER_SIZE ==> r == Failure(IncompleteHeader(|prefix|)))
      && (|prefix| + HEADER_SIZE <= cut < |prefix| + HEADER_SIZE + e.keySize ==> r == Failure(IncompleteKey(e.keySize)))
      && (|prefix| + HEADER_SIZE + e.keySize <= cut ==> r == Failure(IncompleteValue(e.valueSize)))
  {
    var full := prefix + Serialize(e).value;
    var file := full[..cut];
    if loc.entryOffset + HEADER_SIZE <= cut {
      var h := Header(e.crc, e.timestamp, e.keySize, e.valueSize);
      AppendedRecord(prefix, Serialize(e).value, loc);
      SerializedFields(full, loc, e, h);
      TakeSlice(full, cut, loc.entryOffset, loc.entryOffset + HEADER_SIZE);
      UnpackPackHeader(h);
      var h' := DecodeAtHeader(file, loc);
    }
  }

  lemma TakeSlice(full: seq<byte>, cut: int, i: int, j: int)
    requires 0 <= i <= j <= cut <= |full|
    ensures full[..cut][i..j] == full[i..j]
  {
  }

  /**
   * The first write into an empty directory: "hello" -> b"world" at
   * 1672531200 lands at offset 0 of data_0.dat as a 30-byte record and
   * reads back unchanged.
   */
  lemma HelloWorld(directory: string)
    ensures var e := Create("hello", [0x77, 0x6F, 0x72, 0x6C, 0x64], 1672531200);
      var (s', r) := WriteStep(FreshWriter(DEFAULT_MAX_FILE_SIZE), DEFAULT_MAX_FILE_SIZE, e);
      && r == Success(KVLocation(0, 0, 30, 1672531200))
      && ReadEntryResult(s'.files, directory, r.value).Success?
      && ReadEntryResult(s'.files, directory, r.value).value.key == "hello"
      && ReadEntryResult(s'.files, directory, r.value).value.value == [0x77, 0x6F, 0x72, 0x6C, 0x64]
  {
    var s := FreshWriter(DEFAULT_MAX_FILE_SIZE);
    var e := Create("hello", [0x77, 0x6F, 0x72, 0x6C, 0x64], 1672531200);
    Utf8.EncodedLengthExamples();
    CreateIsValid("hello", [0x77, 0x6F, 0x72, 0x6C, 0x64], 1672531200);
    assert Packable(e) by { Pow256Widths(); }
    WriteInPlace(s, DEFAULT_MAX_FILE_SIZE, e);
    WriteThenRead(s, DEFAULT_MAX_FILE_SIZE, e, directory);
  }

  /** The state of a writer just opened on an empty directory: data_0.dat, empty, at offset 0. */
  function FreshWriter(maxFileSize: int): (s: WriterState)
    ensures Consistent(s) && s.handleOpen && s.activeFileId == 0 && s.currentOffset == 0
    ensures s.files == map[FileName(0) := []]
  {
    ResumeEmpty(maxFileSize);
    ResumePointConsistent(map[], maxFileSize, 0, 0);
    WriterState(OpenForAppend(map[], 0), 0, 0, true)
  }
}
