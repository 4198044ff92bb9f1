/**
 * The reader of src/pycask/reader.py: the header unpacking, the checks
 * read_entry makes in the order it makes them, the checksum verification,
 * and the KVReader object with its cache of open file handles.
 *
 * DecodeAt is what read_entry finds at a location of one file, as a
 * function of that file's bytes; KVReader.ReadEntry walks a read cursor
 * through the file as the source does and is proved to agree with it.
 */
module Reader {
  import opened Bytes
  import opened Wrappers
  import opened Models
  import Utf8
  import Crc32
  import opened Exceptions
  import opened Storage
  import opened Writer
  import opened Decimal

  /** The four header fields as struct.unpack('!IQII') returns them. */
  datatype Header = Header(crc: nat, timestamp: nat, keySize: nat, valueSize: nat)

  /** The ranges of the struct formats 'I' and 'Q' the fields are packed with. */
  predicate InRange(h: Header)
  {
    h.crc < U32_LIMIT && h.timestamp < U64_LIMIT && h.keySize < U32_LIMIT && h.valueSize < U32_LIMIT
  }

  /** struct.unpack('!IQII', h) on exactly HEADER_SIZE bytes. */
  function UnpackHeader(h: seq<byte>): (r: Header)
    requires |h| == HEADER_SIZE
    ensures InRange(r)
  {
    DecodeU32Bound(h[0..4]);
    DecodeU64Bound(h[4..12]);
    DecodeU32Bound(h[12..16]);
    DecodeU32Bound(h[16..20]);
    Header(DecodeBE(h[0..4]), DecodeBE(h[4..12]), DecodeBE(h[12..16]), DecodeBE(h[16..20]))
  }

  /** struct.pack('!IQII', *fields). */
  function PackHeader(h: Header): (r: seq<byte>)
    requires InRange(h)
    ensures |r| == HEADER_SIZE
  {
    EncodeU32(h.crc) + EncodeU64(h.timestamp) + EncodeU32(h.keySize) + EncodeU32(h.valueSize)
  }

  /** Packing the unpacked fields gives the header bytes back. */
  lemma PackUnpackHeader(b: seq<byte>)
    requires |b| == HEADER_SIZE
    ensures PackHeader(UnpackHeader(b)) == b
  {
    DecodeU32Bound(b[0..4]);
    DecodeU64Bound(b[4..12]);
    DecodeU32Bound(b[12..16]);
    DecodeU32Bound(b[16..20]);
    assert b == b[0..4] + b[4..12] + b[12..16] + b[16..20];
  }

  /** Unpacking packed fields gives the fields back. */
  lemma UnpackPackHeader(h: Header)
    requires InRange(h)
    ensures UnpackHeader(PackHeader(h)) == h
  {
    var b := PackHeader(h);
    assert b[0..4] == EncodeU32(h.crc);
    assert b[4..12] == EncodeU64(h.timestamp);
    assert b[12..16] == EncodeU32(h.keySize);
    assert b[16..20] == EncodeU32(h.valueSize);
  }

  /** _verify_crc: the checksum of the entry's fields matches its crc field. */
  predicate VerifyCrc(e: KVEntry)
    requires Packable(e)
  {
    Crc32.Crc32(ChecksumInput(e)) == e.crc
  }

  /** An entry the writer checksummed passes the reader's check. */
  lemma CalculateCrcVerifies(e: KVEntry)
    requires Packable(e)
    ensures Packable(CalculateCrc(e).value) && VerifyCrc(CalculateCrc(e).value)
  {
    assert ChecksumInput(CalculateCrc(e).value) == ChecksumInput(e);
  }

  /** Why read_entry raised CorruptedEntryError. */
  datatype Corruption =
    | IoError
    | IncompleteHeader(offset: int)
    | SizeMismatch(expected: int, calculated: int)
    | IncompleteKey(keySize: nat)
    | IncompleteValue(valueSize: nat)
    | InvalidUtf8Key
    | CrcMismatch(offset: int)

  /** The message read_entry gives each kind of corruption. */
  function CorruptionMessage(c: Corruption): (r: string)
    ensures |r| > 0
  {
    match c
    case IoError => "IO error reading entry"
    case IncompleteHeader(offset) => "Incomplete header at offset " + IntToString(offset)
    case SizeMismatch(expected, calculated) =>
      "Size mismatch: expected " + IntToString(expected) + ", calculated " + IntToString(calculated)
    case IncompleteKey(keySize) => "Incomplete key data: expected " + IntToString(keySize) + " bytes"
    case IncompleteValue(valueSize) => "Incomplete value data: expected " + IntToString(valueSize) + " bytes"
    case InvalidUtf8Key => "Invalid UTF-8 key data"
    case CrcMismatch(offset) => "CRC check failed for entry at offset " + IntToString(offset)
  }

  predicate StartsWith(s: string, prefix: string)
  {
    |prefix| <= |s| && s[..|prefix|] == prefix
  }

  lemma StartsWithConcat(prefix: string, rest: string)
    ensures StartsWith(prefix + rest, prefix)
  {
  }

  /** The words that open each check's message, naming the check. */
  function Head(c: Corruption): string
  {
    match c
    case IoError => "IO error reading entry"
    case IncompleteHeader(_) => "Incomplete header at offset "
    case SizeMismatch(_, _) => "Size mismatch: expected "
    case IncompleteKey(_) => "Incomplete key data: expected "
    case IncompleteValue(_) => "Incomplete value data: expected "
    case InvalidUtf8Key => "Invalid UTF-8 key data"
    case CrcMismatch(_) => "CRC check failed for entry at offset "
  }

  /** Each check's message opens with the words that name the check. */
  lemma CorruptionMessageNames(c: Corruption)
    ensures StartsWith(CorruptionMessage(c), Head(c))
    ensures c.IoError? || c.InvalidUtf8Key? ==> CorruptionMessage(c) == Head(c)
  {
    match c
    case IoError =>
    case IncompleteHeader(offset) => StartsWithConcat(Head(c), IntToString(offset));
    case SizeMismatch(expected, calculated) =>
      StartsWithConcat(Head(c), IntToString(expected) + ", calculated " + IntToString(calculated));
    case IncompleteKey(keySize) => StartsWithConcat(Head(c), IntToString(keySize) + " bytes");
    case IncompleteValue(valueSize) => StartsWithConcat(Head(c), IntToString(valueSize) + " bytes");
    case InvalidUtf8Key =>
    case CrcMismatch(offset) => StartsWithConcat(Head(c), IntToString(offset));
  }

  /**
   * read_entry on one file's bytes: seek (a negative offset is an OSError),
   * read and unpack the header, then the rest as DecodeBody says.  A read
   * returns fewer bytes than asked for exactly when the file ends first, so
   * "incomplete" means the file is shorter than the part being read.
   */
  function DecodeAt(file: seq<byte>, loc: KVLocation): (r: Result<KVEntry, Corruption>)
  {
    if loc.entryOffset < 0 then Failure(IoError)
    else if loc.entryOffset + HEADER_SIZE > |file| then Failure(IncompleteHeader(loc.entryOffset))
    else DecodeBody(file, loc, UnpackHeader(file[loc.entryOffset..loc.entryOffset + HEADER_SIZE]))
  }

  /**
   * After the header: compare the size it implies with the location's, then
   * read the key and the value that follow it.
   */
  function DecodeBody(file: seq<byte>, loc: KVLocation, h: Header): (r: Result<KVEntry, Corruption>)
    requires 0 <= loc.entryOffset && loc.entryOffset + HEADER_SIZE <= |file| && InRange(h)
  {
    var expectedSize := HEADER_SIZE + h.keySize + h.valueSize;
    var keyStart := loc.entryOffset + HEADER_SIZE;
    var valueStart := keyStart + h.keySize;
    if expectedSize != loc.entrySize then Failure(SizeMismatch(loc.entrySize, expectedSize))
    else if valueStart > |file| then Failure(IncompleteKey(h.keySize))
    else if valueStart + h.valueSize > |file| then Failure(IncompleteValue(h.valueSize))
    else Assemble(h, file[keyStart..valueStart], file[valueStart..valueStart + h.valueSize], loc.entryOffset)
  }

  /** Decode the key, build the entry, check its CRC. */
  function Assemble(h: Header, keyData: seq<byte>, valueData: seq<byte>, offset: int): (r: Result<KVEntry, Corruption>)
    requires InRange(h)
  {
    match Utf8.Decode(keyData)
    case None => Failure(InvalidUtf8Key)
    case Some(key) =>
      var entry := KVEntry(h.crc, h.timestamp, h.keySize, h.valueSize, key, valueData);
      if !VerifyCrc(entry) then Failure(CrcMismatch(offset)) else Success(entry)
  }

  /** read_entry in the directory: a missing file, a corrupted entry, or the entry. */
  function ReadEntryResult(files: map<string, seq<byte>>, directory: string, loc: KVLocation): (r: Result<KVEntry, PyCaskError>)
    ensures FileName(loc.fileId) !in files ==> r == Failure(FileNotFoundError("Data file not found: " + FilePath(directory, loc.fileId)))
    ensures r.Failure? && FileName(loc.fileId) in files ==> r.error.CorruptedEntryError? && r.error.location.None? && r.error.details.None?
  {
    if FileName(loc.fileId) !in files then Failure(FileNotFoundError("Data file not found: " + FilePath(directory, loc.fileId)))
    else
      match DecodeAt(files[FileName(loc.fileId)], loc)
      case Success(e) => Success(e)
      case Failure(c) => Failure(NewCorruptedEntryError(CorruptionMessage(c), None, None))
  }

  // ------------------------------------------------------------ properties

  /** The serialization is the packed header followed by the key's UTF-8 bytes and the value. */
  lemma SerializeIsPackedHeader(e: KVEntry)
    requires HeaderFits(e)
    ensures Serialize(e).value == PackHeader(Header(e.crc, e.timestamp, e.keySize, e.valueSize)) + Utf8.Encode(e.key) + e.value
  {
  }

  /** What Assemble accepts is the decoded key with the given value, and passes the CRC check. */
  lemma AssembleSound(h: Header, keyData: seq<byte>, valueData: seq<byte>, offset: int)
    requires InRange(h)
    requires Assemble(h, keyData, valueData, offset).Success?
    ensures var e := Assemble(h, keyData, valueData, offset).value;
      && e == KVEntry(h.crc, h.timestamp, h.keySize, h.valueSize, e.key, valueData)
      && Utf8.Encode(e.key) == keyData && Packable(e) && VerifyCrc(e)
  {
    Utf8.EncodeDecode(keyData);
  }

  // Stages of DecodeAt, each in a small lemma of its own.

  /** Past the seek and the header check, DecodeAt is DecodeBody of the unpacked header. */
  lemma DecodeAtHeader(file: seq<byte>, loc: KVLocation) returns (h: Header)
    requires 0 <= loc.entryOffset && loc.entryOffset + HEADER_SIZE <= |file|
    ensures h == UnpackHeader(file[loc.entryOffset..loc.entryOffset + HEADER_SIZE]) && InRange(h)
    ensures DecodeAt(file, loc) == DecodeBody(file, loc, h)
  {
    h := UnpackHeader(file[loc.entryOffset..loc.entryOffset + HEADER_SIZE]);
  }

  /** Past the size check with the whole record in the file, DecodeBody assembles its key and value bytes. */
  lemma DecodeBodyPayload(file: seq<byte>, loc: KVLocation, h: Header)
    requires 0 <= loc.entryOffset && InRange(h) && HEADER_SIZE + h.keySize + h.valueSize == loc.entrySize
    requires loc.entryOffset + loc.entrySize <= |file|
    ensures DecodeBody(file, loc, h)
      == Assemble(h, file[loc.entryOffset + HEADER_SIZE..loc.entryOffset + HEADER_SIZE + h.keySize],
                  file[loc.entryOffset + HEADER_SIZE + h.keySize..loc.entryOffset + loc.entrySize], loc.entryOffset)
  {
  }

  /** A successful DecodeAt went through every stage: the record lies in the file and was assembled from it. */
  lemma DecodeAtPayload(file: seq<byte>, loc: KVLocation) returns (h: Header)
    requires DecodeAt(file, loc).Success?
    ensures 0 <= loc.entryOffset && loc.entryOffset + loc.entrySize <= |file|
    ensures h == UnpackHeader(file[loc.entryOffset..loc.entryOffset + HEADER_SIZE]) && InRange(h)
    ensures HEADER_SIZE + h.keySize + h.valueSize == loc.entrySize
    ensures DecodeAt(file, loc)
      == Assemble(h, file[loc.entryOffset + HEADER_SIZE..loc.entryOffset + HEADER_SIZE + h.keySize],
                  file[loc.entryOffset + HEADER_SIZE + h.keySize..loc.entryOffset + loc.entrySize], loc.entryOffset)
  {
    h := DecodeAtHeader(file, loc);
    DecodeBodyPayload(file, loc, h);
  }

  /** With a key that decodes, Assemble succeeds exactly when the CRC check passes. */
  lemma AssembleDecoded(h: Header, keyData: seq<byte>, valueData: seq<byte>, offset: int)
    requires InRange(h) && Utf8.Decode(keyData).Some?
    ensures var e := KVEntry(h.crc, h.timestamp, h.keySize, h.valueSize, Utf8.Decode(keyData).value, valueData);
      Assemble(h, keyData, valueData, offset) == if VerifyCrc(e) then Success(e) else Failure(CrcMismatch(offset))
  {
  }

  /** Assembling the header fields, key bytes and value of a checksummed entry gives the entry back. */
  lemma AssembleEncoded(e: KVEntry, offset: int)
    requires HeaderFits(e) && VerifyCrc(e)
    ensures Assemble(Header(e.crc, e.timestamp, e.keySize, e.valueSize), Utf8.Encode(e.key), e.value, offset) == Success(e)
  {
    Utf8.DecodeEncode(e.key);
  }

  lemma SliceJoin(file: seq<byte>, i: int, j: int, k: int, l: int)
    requires 0 <= i <= j <= k <= l <= |file|
    ensures file[i..l] == file[i..j] + file[j..k] + file[k..l]
  {
  }

  lemma SliceParts(file: seq<byte>, pos: int, a: seq<byte>, b: seq<byte>, c: seq<byte>)
    requires 0 <= pos && pos + |a| + |b| + |c| <= |file| && file[pos..pos + |a| + |b| + |c|] == a + b + c
    ensures file[pos..pos + |a|] == a && file[pos + |a|..pos + |a| + |b|] == b
    ensures file[pos + |a| + |b|..pos + |a| + |b| + |c|] == c
  {
    var i, j, k := pos + |a|, pos + |a| + |b|, pos + |a| + |b| + |c|;
    SliceJoin(file, pos, i, j, k);
    var x, y, z := file[pos..i], file[i..j], file[j..k];
    assert (x + y + z)[..|a|] == x && (a + b + c)[..|a|] == a;
    assert (x + y + z)[|a|..|a| + |b|] == y && (a + b + c)[|a|..|a| + |b|] == b;
    assert (x + y + z)[|a| + |b|..] == z && (a + b + c)[|a| + |b|..] == c;
  }

  /** The bytes of a record read from a file are the serialization of the entry built from them. */
  lemma RecordIsSerialized(file: seq<byte>, loc: KVLocation, h: Header, e: KVEntry)
    requires 0 <= loc.entryOffset && InRange(h) && HEADER_SIZE + h.keySize + h.valueSize == loc.entrySize
    requires loc.entryOffset + loc.entrySize <= |file|
    requires h == UnpackHeader(file[loc.entryOffset..loc.entryOffset + HEADER_SIZE])
    requires e.crc == h.crc && e.timestamp == h.timestamp && e.keySize == h.keySize && e.valueSize == h.valueSize
    requires Utf8.Encode(e.key) == file[loc.entryOffset + HEADER_SIZE..loc.entryOffset + HEADER_SIZE + h.keySize]
    requires e.value == file[loc.entryOffset + HEADER_SIZE + h.keySize..loc.entryOffset + loc.entrySize]
    ensures HeaderFits(e) && Serialize(e) == Some(file[loc.entryOffset..loc.entryOffset + loc.entrySize])
  {
    var pos := loc.entryOffset;
    var keyStart := pos + HEADER_SIZE;
    PackUnpackHeader(file[pos..keyStart]);
    SerializeIsPackedHeader(e);
    SliceJoin(file, pos, keyStart, keyStart + h.keySize, pos + loc.entrySize);
  }

  /** The entry a successful DecodeAt returns: the header's fields, the decoded key bytes and the value bytes. */
  lemma DecodeAtEntry(file: seq<byte>, loc: KVLocation) returns (h: Header, e: KVEntry)
    requires DecodeAt(file, loc).Success?
    ensures e == DecodeAt(file, loc).value
    ensures 0 <= loc.entryOffset && loc.entryOffset + loc.entrySize <= |file|
    ensures h == UnpackHeader(file[loc.entryOffset..loc.entryOffset + HEADER_SIZE]) && InRange(h)
    ensures HEADER_SIZE + h.keySize + h.valueSize == loc.entrySize
    ensures e.crc == h.crc && e.timestamp == h.timestamp && e.keySize == h.keySize && e.valueSize == h.valueSize
    ensures Utf8.Encode(e.key) == file[loc.entryOffset + HEADER_SIZE..loc.entryOffset + HEADER_SIZE + h.keySize]
    ensures e.value == file[loc.entryOffset + HEADER_SIZE + h.keySize..loc.entryOffset + loc.entrySize]
    ensures Packable(e) && VerifyCrc(e)
  {
    h := DecodeAtPayload(file, loc);
    var keyData := file[loc.entryOffset + HEADER_SIZE..loc.entryOffset + HEADER_SIZE + h.keySize];
    var valueData := file[loc.entryOffset + HEADER_SIZE + h.keySize..loc.entryOffset + loc.entrySize];
    AssembleSound(h, keyData, valueData, loc.entryOffset);
    var r := Assemble(h, keyData, valueData, loc.entryOffset);
    e := r.value;
  }

  /**
   * Whatever read_entry accepts is a well-formed record lying wholly inside
   * the file: its sizes agree with its key and value, the location's size is
   * its serialized size, the bytes there are exactly its serialization, and
   * its crc is the checksum of its fields.
   */
  lemma DecodeAtSound(file: seq<byte>, loc: KVLocation)
    requires DecodeAt(file, loc).Success?
    ensures var e := DecodeAt(file, loc).value;
      && 0 <= loc.entryOffset && loc.entryOffset + loc.entrySize <= |file|
      && IsValidSizes(e) && Packable(e) && VerifyCrc(e)
      && loc.entrySize == TotalSize(e)
      && Serialize(e) == Some(file[loc.entryOffset..loc.entryOffset + loc.entrySize])
  {
    var h, e := DecodeAtEntry(file, loc);
    RecordIsSerialized(file, loc, h, e);
  }

  /**
   * Reading back a serialized record: wherever the bytes of a checksummed
   * entry with consistent sizes lie in a file, read_entry at that offset and
   * size returns the entry.
   */
  lemma DecodeSerialized(file: seq<byte>, loc: KVLocation, e: KVEntry)
    requires HeaderFits(e) && IsValidSizes(e) && VerifyCrc(e)
    requires 0 <= loc.entryOffset && loc.entrySize == TotalSize(e)
    requires loc.entryOffset + loc.entrySize <= |file|
    requires file[loc.entryOffset..loc.entryOffset + loc.entrySize] == Serialize(e).value
    ensures DecodeAt(file, loc) == Success(e)
  {
    var h := Header(e.crc, e.timestamp, e.keySize, e.valueSize);
    SerializedFields(file, loc, e, h);
    UnpackPackHeader(h);
    var h' := DecodeAtHeader(file, loc);
    DecodeBodyPayload(file, loc, h);
    AssembleEncoded(e, loc.entryOffset);
  }

  /** Where the header, key and value of a serialized entry lie in the file. */
  lemma SerializedFields(file: seq<byte>, loc: KVLocation, e: KVEntry, h: Header)
    requires HeaderFits(e) && IsValidSizes(e) && h == Header(e.crc, e.timestamp, e.keySize, e.valueSize)
    requires 0 <= loc.entryOffset && loc.entrySize == TotalSize(e)
    requires loc.entryOffset + loc.entrySize <= |file|
    requires file[loc.entryOffset..loc.entryOffset + loc.entrySize] == Serialize(e).value
    ensures InRange(h) && file[loc.entryOffset..loc.entryOffset + HEADER_SIZE] == PackHeader(h)
    ensures file[loc.entryOffset + HEADER_SIZE..loc.entryOffset + HEADER_SIZE + h.keySize] == Utf8.Encode(e.key)
    ensures file[loc.entryOffset + HEADER_SIZE + h.keySize..loc.entryOffset + loc.entrySize] == e.value
  {
    SerializeIsPackedHeader(e);
    SliceParts(file, loc.entryOffset, PackHeader(h), Utf8.Encode(e.key), e.value);
  }

  /**
   * The size check catches a serialized entry whose size fields do not add
   * up to its key and value: with the location's size taken from
   * total_size, read_entry fails with a size mismatch.
   */
  lemma SerializedSizeMismatch(file: seq<byte>, loc: KVLocation, e: KVEntry)
    requires HeaderFits(e) && e.keySize + e.valueSize != |Utf8.Encode(e.key)| + |e.value|
    requires 0 <= loc.entryOffset && loc.entrySize == TotalSize(e)
    requires loc.entryOffset + loc.entrySize <= |file|
    requires file[loc.entryOffset..loc.entryOffset + loc.entrySize] == Serialize(e).value
    ensures DecodeAt(file, loc) == Failure(SizeMismatch(TotalSize(e), HEADER_SIZE + e.keySize + e.valueSize))
  {
    var h := Header(e.crc, e.timestamp, e.keySize, e.valueSize);
    SerializeIsPackedHeader(e);
    SliceOfSlice(file, loc.entryOffset, loc.entrySize, 0, HEADER_SIZE);
    assert file[loc.entryOffset..loc.entryOffset + HEADER_SIZE] == PackHeader(h);
    UnpackPackHeader(h);
    var h' := DecodeAtHeader(file, loc);
  }

  /** The header is incomplete exactly when fewer than HEADER_SIZE bytes follow the offset. */
  lemma IncompleteHeaderIff(file: seq<byte>, loc: KVLocation)
    requires 0 <= loc.entryOffset
    ensures DecodeAt(file, loc) == Failure(IncompleteHeader(loc.entryOffset)) <==> loc.entryOffset + HEADER_SIZE > |file|
  {
    if loc.entryOffset + HEADER_SIZE <= |file| {
      var h := UnpackHeader(file[loc.entryOffset..loc.entryOffset + HEADER_SIZE]);
      assert DecodeAt(file, loc) == DecodeBody(file, loc, h);
    }
  }

  /**
   * The size check comes before the key and value are read: a header whose
   * sizes disagree with the location is reported as a size mismatch even
   * when the file ends right after it.
   */
  lemma SizeCheckedFirst(file: seq<byte>, loc: KVLocation)
    requires 0 <= loc.entryOffset && loc.entryOffset + HEADER_SIZE <= |file|
    ensures var h := UnpackHeader(file[loc.entryOffset..loc.entryOffset + HEADER_SIZE]);
      HEADER_SIZE + h.keySize + h.valueSize != loc.entrySize
      <==> DecodeAt(file, loc) == Failure(SizeMismatch(loc.entrySize, HEADER_SIZE + h.keySize + h.valueSize))
  {
    var h := UnpackHeader(file[loc.entryOffset..loc.entryOffset + HEADER_SIZE]);
    assert DecodeAt(file, loc) == DecodeBody(file, loc, h);
    if HEADER_SIZE + h.keySize + h.valueSize == loc.entrySize {
      var keyStart := loc.entryOffset + HEADER_SIZE;
      var valueStart := keyStart + h.keySize;
      if valueStart + h.valueSize <= |file| {
        var r := Assemble(h, file[keyStart..valueStart], file[valueStart..valueStart + h.valueSize], loc.entryOffset);
        assert r.Success? || r.error.InvalidUtf8Key? || r.error.CrcMismatch?;
      }
    }
  }

  /**
   * With a complete header, matching sizes, a complete payload and a key that
   * decodes, the CRC check fails exactly when the stored crc differs from the
   * CRC-32 of all the bytes after it.
   */
  lemma CrcMismatchIff(file: seq<byte>, loc: KVLocation, h: Header)
    requires 0 <= loc.entryOffset && loc.entryOffset + loc.entrySize <= |file| && loc.entrySize >= HEADER_SIZE
    requires h == UnpackHeader(file[loc.entryOffset..loc.entryOffset + HEADER_SIZE])
    requires HEADER_SIZE + h.keySize + h.valueSize == loc.entrySize
    requires Utf8.Decode(file[loc.entryOffset + HEADER_SIZE..loc.entryOffset + HEADER_SIZE + h.keySize]).Some?
    ensures DecodeAt(file, loc).Success? || DecodeAt(file, loc) == Failure(CrcMismatch(loc.entryOffset))
    ensures DecodeAt(file, loc) == Failure(CrcMismatch(loc.entryOffset))
      <==> DecodeBE(file[loc.entryOffset..loc.entryOffset + 4]) != Crc32.Crc32(file[loc.entryOffset + 4..loc.entryOffset + loc.entrySize])
  {
    var keyData := file[loc.entryOffset + HEADER_SIZE..loc.entryOffset + HEADER_SIZE + h.keySize];
    var valueData := file[loc.entryOffset + HEADER_SIZE + h.keySize..loc.entryOffset + loc.entrySize];
    var h' := DecodeAtHeader(file, loc);
    DecodeBodyPayload(file, loc, h);
    AssembleDecoded(h, keyData, valueData, loc.entryOffset);
    RecordChecksum(file, loc, h, Utf8.Decode(keyData).value);
  }

  /** In a record whose key decodes, the stored crc and the checksummed bytes of the entry read from it. */
  lemma RecordChecksum(file: seq<byte>, loc: KVLocation, h: Header, key: string)
    requires 0 <= loc.entryOffset && loc.entryOffset + loc.entrySize <= |file|
    requires HEADER_SIZE + h.keySize + h.valueSize == loc.entrySize
    requires h == UnpackHeader(file[loc.entryOffset..loc.entryOffset + HEADER_SIZE])
    requires Utf8.Decode(file[loc.entryOffset + HEADER_SIZE..loc.entryOffset + HEADER_SIZE + h.keySize]) == Some(key)
    ensures var e := KVEntry(h.crc, h.timestamp, h.keySize, h.valueSize, key,
                             file[loc.entryOffset + HEADER_SIZE + h.keySize..loc.entryOffset + loc.entrySize]);
      && Packable(e) && DecodeBE(file[loc.entryOffset..loc.entryOffset + 4]) == e.crc
      && file[loc.entryOffset + 4..loc.entryOffset + loc.entrySize] == ChecksumInput(e)
  {
    var e := KVEntry(h.crc, h.timestamp, h.keySize, h.valueSize, key,
                     file[loc.entryOffset + HEADER_SIZE + h.keySize..loc.entryOffset + loc.entrySize]);
    Utf8.EncodeDecode(file[loc.entryOffset + HEADER_SIZE..loc.entryOffset + HEADER_SIZE + h.keySize]);
    RecordIsSerialized(file, loc, h, e);
    StoredCrc(file, loc.entryOffset, loc.entryOffset + loc.entrySize, e);
  }

  /** In the bytes of a serialized entry, the first four hold its crc and the rest are its checksum input. */
  lemma StoredCrc(file: seq<byte>, pos: int, end: int, e: KVEntry)
    requires 0 <= pos <= end <= |file| && HeaderFits(e) && Serialize(e) == Some(file[pos..end])
    ensures end >= pos + 4 && DecodeBE(file[pos..pos + 4]) == e.crc && file[pos + 4..end] == ChecksumInput(e)
  {
    SerializeLayout(e);
    var r := file[pos..end];
    assert r[0..4] == file[pos..pos + 4];
    assert r[4..] == file[pos + 4..end];
  }

  /** DecodeBody reads nothing of a file but the record's own key and value bytes. */
  lemma DecodeBodyAgree(f: seq<byte>, g: seq<byte>, loc: KVLocation, h: Header)
    requires 0 <= loc.entryOffset && loc.entrySize >= HEADER_SIZE && InRange(h)
    requires loc.entryOffset + loc.entrySize <= |f| && loc.entryOffset + loc.entrySize <= |g|
    requires HEADER_SIZE + h.keySize + h.valueSize == loc.entrySize
    requires f[loc.entryOffset + HEADER_SIZE..loc.entryOffset + HEADER_SIZE + h.keySize]
          == g[loc.entryOffset + HEADER_SIZE..loc.entryOffset + HEADER_SIZE + h.keySize]
    requires f[loc.entryOffset + HEADER_SIZE + h.keySize..loc.entryOffset + loc.entrySize]
          == g[loc.entryOffset + HEADER_SIZE + h.keySize..loc.entryOffset + loc.entrySize]
    ensures DecodeBody(f, loc, h) == DecodeBody(g, loc, h)
  {
    DecodeBodyPayload(f, loc, h);
    DecodeBodyPayload(g, loc, h);
  }

  /** A slice of a slice is the slice of the whole at the shifted bounds. */
  lemma SliceOfSlice(s: seq<byte>, start: int, len: int, i: int, j: int)
    requires 0 <= start && start + len <= |s| && 0 <= i <= j <= len
    ensures s[start..start + len][i..j] == s[start + i..start + j]
  {
    var inner, outer := s[start..start + len][i..j], s[start + i..start + j];
    assert |inner| == |outer|;
    forall k | 0 <= k < |inner|
      ensures inner[k] == outer[k]
    {
    }
  }

  /**
   * read_entry reads no byte of a file outside the record's own span: two
   * files that agree on the bytes at the location read the same there, so
   * damage to one record leaves every other record readable.
   */
  lemma DecodeAtLocal(f: seq<byte>, g: seq<byte>, loc: KVLocation)
    requires 0 <= loc.entryOffset && loc.entrySize >= HEADER_SIZE
    requires loc.entryOffset + loc.entrySize <= |f| && loc.entryOffset + loc.entrySize <= |g|
    requires f[loc.entryOffset..loc.entryOffset + loc.entrySize] == g[loc.entryOffset..loc.entryOffset + loc.entrySize]
    ensures DecodeAt(f, loc) == DecodeAt(g, loc)
  {
    var pos, size := loc.entryOffset, loc.entrySize;
    SliceOfSlice(f, pos, size, 0, HEADER_SIZE);
    SliceOfSlice(g, pos, size, 0, HEADER_SIZE);
    var h := UnpackHeader(f[pos..pos + HEADER_SIZE]);
    if HEADER_SIZE + h.keySize + h.valueSize == size {
      SliceOfSlice(f, pos, size, HEADER_SIZE, HEADER_SIZE + h.keySize);
      SliceOfSlice(g, pos, size, HEADER_SIZE, HEADER_SIZE + h.keySize);
      SliceOfSlice(f, pos, size, HEADER_SIZE + h.keySize, size);
      SliceOfSlice(g, pos, size, HEADER_SIZE + h.keySize, size);
      DecodeBodyAgree(f, g, loc, h);
    }
  }

  lemma DecodeBodyAppend(file: seq<byte>, more: seq<byte>, loc: KVLocation, h: Header)
    requires 0 <= loc.entryOffset && loc.entryOffset + loc.entrySize <= |file| && loc.entrySize >= HEADER_SIZE && InRange(h)
    ensures DecodeBody(file + more, loc, h) == DecodeBody(file, loc, h)
  {
    if HEADER_SIZE + h.keySize + h.valueSize == loc.entrySize {
      PrefixSlice(file, more, loc.entryOffset + HEADER_SIZE, loc.entryOffset + HEADER_SIZE + h.keySize);
      PrefixSlice(file, more, loc.entryOffset + HEADER_SIZE + h.keySize, loc.entryOffset + loc.entrySize);
      DecodeBodyAgree(file + more, file, loc, h);
    }
  }

  lemma DecodeAtAppend(file: seq<byte>, more: seq<byte>, loc: KVLocation)
    requires loc.entrySize >= HEADER_SIZE && loc.entryOffset + loc.entrySize <= |file|
    ensures DecodeAt(file + more, loc) == DecodeAt(file, loc)
  {
    if loc.entryOffset >= 0 {
      var pos := loc.entryOffset;
      PrefixSlice(file, more, pos, pos + HEADER_SIZE);
      var h := UnpackHeader(file[pos..pos + HEADER_SIZE]);
      DecodeBodyAppend(file, more, loc, h);
    }
  }

  // ------------------------------------------------------- the reader object

  /**
   * KVReader: the data directory and the ids whose files have an open
   * handle in file_handles.
   */
  class KVReader {
    const dir: DataDir
    var fileHandles: set<int>

    /** Every cached handle belongs to a data file of the directory. */
    predicate Valid()
      reads this, dir
    {
      forall fileId :: fileId in fileHandles ==> FileName(fileId) in dir.files
    }

    constructor(dir: DataDir)
      ensures this.dir == dir && fileHandles == {} && Valid()
    {
      this.dir := dir;
      fileHandles := {};
    }

    /** KVReader(data_dir): refuses a directory that does not exist. */
    static method Open(dir: DataDir) returns (r: Result<KVReader, PyCaskError>)
      ensures !dir.present ==> r == Failure(FileNotFoundError("Data directory not found: " + dir.path))
      ensures dir.present ==> r.Success? && fresh(r.value) && r.value.dir == dir && r.value.fileHandles == {} && r.value.Valid()
    {
      if !dir.present {
        return Failure(FileNotFoundError("Data directory not found: " + dir.path));
      }
      var reader := new KVReader(dir);
      return Success(reader);
    }

    /** _get_file_handle: a cached handle, or a new one when the file exists. */
    method GetFileHandle(fileId: int) returns (err: Option<PyCaskError>)
      requires Valid()
      modifies this`fileHandles
      ensures Valid()
      ensures FileName(fileId) in dir.files ==> err.None? && fileHandles == old(fileHandles) + {fileId}
      ensures FileName(fileId) !in dir.files ==>
        err == Some(FileNotFoundError("Data file not found: " + FilePath(dir.path, fileId))) && fileHandles == old(fileHandles)
    {
      if fileId !in fileHandles {
        var filePath := FilePath(dir.path, fileId);
        if FileName(fileId) !in dir.files {
          return Some(FileNotFoundError("Data file not found: " + filePath));
        }
        fileHandles := fileHandles + {fileId};
      }
      return None;
    }

    /** read_entry: the handle, then the checks of DecodeAt, reading the file through a cursor. */
    method ReadEntry(loc: KVLocation) returns (r: Result<KVEntry, PyCaskError>)
      requires Valid()
      modifies this`fileHandles
      ensures Valid() && r == ReadEntryResult(dir.files, dir.path, loc)
      ensures fileHandles == old(fileHandles) + (if FileName(loc.fileId) in dir.files then {loc.fileId} else {})
    {
      var err := GetFileHandle(loc.fileId);
      if err.Some? {
        return Failure(err.value);
      }
      var file := dir.files[FileName(loc.fileId)];
      var c := ReadRecord(file, loc);
      match c {
        case Success(e) => r := Success(e);
        case Failure(why) => r := Failure(NewCorruptedEntryError(CorruptionMessage(why), None, None));
      }
    }

    /** read_value: the value of the entry read_entry returns. */
    method ReadValue(loc: KVLocation) returns (r: Result<seq<byte>, PyCaskError>)
      requires Valid()
      modifies this`fileHandles
      ensures Valid()
      ensures r.Success? <==> ReadEntryResult(dir.files, dir.path, loc).Success?
      ensures r.Success? ==> r.value == ReadEntryResult(dir.files, dir.path, loc).value.value
      ensures r.Failure? ==> r.error == ReadEntryResult(dir.files, dir.path, loc).error
    {
      var entry := ReadEntry(loc);
      match entry {
        case Success(e) => r := Success(e.value);
        case Failure(error) => r := Failure(error);
      }
    }

    /**
     * close: every cached handle is closed and the cache emptied.  Closing a
     * handle has no effect this model observes, so what remains is the clear().
     */
    method Close()
      modifies this`fileHandles
      ensures fileHandles == {} && Valid()
    {
      fileHandles := {};
    }
  }

  /**
   * The body of read_entry's try block on an open file: seek, then read
   * header, key and value in turn, each read starting where the last ended.
   */
  method ReadRecord(file: seq<byte>, loc: KVLocation) returns (r: Result<KVEntry, Corruption>)
    ensures r == DecodeAt(file, loc)
  {
    if loc.entryOffset < 0 {
      return Failure(IoError);
    }
    var cursor: nat := loc.entryOffset;
    var headerData := ReadAt(file, cursor, HEADER_SIZE);
    cursor := cursor + |headerData|;
    if |headerData| != HEADER_SIZE {
      return Failure(IncompleteHeader(loc.entryOffset));
    }
    var h := UnpackHeader(headerData);
    ghost var h' := DecodeAtHeader(file, loc);
    assert h' == h && cursor == loc.entryOffset + HEADER_SIZE;
    var expectedSize := HEADER_SIZE + h.keySize + h.valueSize;
    if expectedSize != loc.entrySize {
      return Failure(SizeMismatch(loc.entrySize, expectedSize));
    }
    var keyData := ReadAt(file, cursor, h.keySize);
    cursor := cursor + |keyData|;
    if |keyData| != h.keySize {
      assert loc.entryOffset + HEADER_SIZE + h.keySize > |file|;
      return Failure(IncompleteKey(h.keySize));
    }
    assert cursor == loc.entryOffset + HEADER_SIZE + h.keySize;
    var valueData := ReadAt(file, cursor, h.valueSize);
    cursor := cursor + |valueData|;
    if |valueData| != h.valueSize {
      assert loc.entryOffset + loc.entrySize > |file|;
      return Failure(IncompleteValue(h.valueSize));
    }
    DecodeBodyPayload(file, loc, h);
    assert keyData == file[loc.entryOffset + HEADER_SIZE..loc.entryOffset + HEADER_SIZE + h.keySize];
    assert valueData == file[loc.entryOffset + HEADER_SIZE + h.keySize..loc.entryOffset + loc.entrySize];
    assert DecodeAt(file, loc) == Assemble(h, keyData, valueData, loc.entryOffset);
    var key := Utf8.Decode(keyData);
    if key.None? {
      return Failure(InvalidUtf8Key);
    }
    var entry := KVEntry(h.crc, h.timestamp, h.keySize, h.valueSize, key.value, valueData);
    if !VerifyCrc(entry) {
      return Failure(CrcMismatch(loc.entryOffset));
    }
    return Success(entry);
  }
}
