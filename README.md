# pycask record layer in Dafny

This project models the record layer of pycask, a Bitcask-style log-structured
key-value store:

- the `KVEntry` record and the `KVLocation` handle;
- the append writer `KVWriter`;
- the reader `KVReader`;
- the error classes whose messages the writer and the reader raise.

A data directory holds files named `data_<id>.dat`. Each file is a sequence of
records laid out back to back. A record is a 20-byte big-endian header
(crc:4, timestamp:8, key_size:4, value_size:4), then the key's UTF-8 bytes,
then the value bytes. The crc is the CRC-32 of everything after it.

The writer has these jobs:

- It resumes after the highest-numbered file it finds.
- It rotates to the next file id when an entry would push the active file
  past `max_file_size`.
- It returns the location of each record it appends.

The reader seeks to a location, reads the header, checks the sizes, reads the
key and the value, decodes the key and checks the CRC. Each check has its own
error message.

Modules, one per file:

- `Wrappers`: `Option` and `Result`.
- `Bytes`: the `byte` type and `struct.pack('!I')`/`('!Q')` as big-endian
  fields.
- `Decimal`: `str(int)` and a strict `int(str)`.
- `Utf8`: strict UTF-8 as in section 3 of RFC 3629.
- `Crc32`: the CRC that `zlib.crc32` computes.
- `Models`, `Exceptions`, `Writer` and `Reader`: the four source files.
- `Storage`: the data directory. It is a `DataDir` object whose `files` map
  takes a file name to its bytes, and it holds the file-naming convention.
- `LogProps`: the properties that join the writer and the reader.

Where the code is imperative, the model is too. `KVWriter` and `KVReader` are
classes whose methods update the same fields as the source. The directory's
files are a field the writer's methods reassign. The scan of the directory
listing is a loop. Each method is proved against a function:

- `KVWriter.WriteEntry` produces exactly the state and result of `WriteStep`.
- `KVReader.ReadEntry` produces exactly the result of `ReadEntryResult`.
- `ReadRecord` reads through a cursor and produces exactly the result of
  `DecodeAt`.

The properties are proved about those functions.

`read_entry` raises `CorruptedEntryError` with only a message; its `location`
and `details` fields stay `None` (`Reader.ReadEntryResult` states this).

## Model

| member | source | states |
|---|---|---|
| Models.TotalSize | src/pycask/models.py:91-104 | The serialized size is the 20-byte header plus the key's UTF-8 length plus the value length. It is never less than the header plus the character count plus the value length. |
| Models.Create | src/pycask/models.py:107-137 | The new entry has crc 0 and the given timestamp, key and value. key_size is the UTF-8 byte length of the key, and value_size is the value's length. |
| Models.CreateIsValid | src/pycask/models.py:107-151 | Every created entry passes is_valid_sizes. Its total size is the header plus the two lengths. |
| Models.TotalSizeOfValid | src/pycask/models.py:139-151 | When the sizes are valid, total_size can be read off the header fields. |
| Models.EmptyEntry | src/pycask/models.py:82 | HEADER_SIZE is 20. An entry with an empty key and an empty value is just a header. |
| Models.MultiByteKeySizes | src/pycask/models.py:104 | Key sizes count UTF-8 bytes: "héllo" and "测试" take 6 each, and "café" plus a value takes 25 plus the value's length. |
| Exceptions.KeyNotFoundText | src/pycask/exceptions.py:76-87 | An explicit message is kept as it is. |
| Exceptions.NewKeyNotFoundError | src/pycask/exceptions.py:76-87 | The error keeps the key, and its text is the default text or the given message. |
| Exceptions.KeyNotFoundDefault | src/pycask/exceptions.py:85-86 | Without a message the text names the key. An explicit "" is kept. |
| Exceptions.CorruptedEntryText | src/pycask/exceptions.py:125-131 | The message is always a prefix of the text. With no truthy location and no truthy details, the text is just the message. |
| Exceptions.NewCorruptedEntryError | src/pycask/exceptions.py:113-131 | location and details are stored unchanged, beside the composed text. |
| Exceptions.CorruptedEntryOrder | src/pycask/exceptions.py:125-129 | The location part comes before the details part. |
| Exceptions.CorruptedEntryEmptyOmitted | src/pycask/exceptions.py:126-129 | An empty location or details string is left out exactly as a missing one is. |
| Exceptions.CorruptedEntryLocationOnly | src/pycask/exceptions.py:126-127 | A location alone is appended as " (location: …)". |
| Exceptions.CorruptedEntryDetailsOnly | src/pycask/exceptions.py:128-129 | Details alone are appended as " - …". |
| Exceptions.WriterErrorText | src/pycask/exceptions.py:169-175 | With no truthy operation and no truthy path, the text is just the message. |
| Exceptions.NewWriterError | src/pycask/exceptions.py:157-175 | operation and file_path are stored unchanged, beside the composed text. |
| Exceptions.WriterErrorEmptyOmitted | src/pycask/exceptions.py:169-173 | An empty operation or path string is left out exactly as a missing one is, each on its own. |
| Exceptions.WriterErrorShape | src/pycask/exceptions.py:169-173 | The operation is a prefix and the path a suffix around the message. Empty strings for both give the bare message. |
| Exceptions.WriterErrorOperationOnly | src/pycask/exceptions.py:170-171 | An operation alone gives "op: message". |
| Exceptions.WriterErrorPathOnly | src/pycask/exceptions.py:172-173 | A path alone is appended as " (file: …)". |
| Exceptions.ReaderErrorText | src/pycask/exceptions.py:234-243 | The message is always a prefix of the text. With neither a file id nor an offset, the text is the message. |
| Exceptions.NewReaderError | src/pycask/exceptions.py:222-243 | file_id and offset are stored unchanged, beside the composed text. |
| Exceptions.ReaderErrorZeroShown | src/pycask/exceptions.py:235-241 | A file id or offset of 0 is shown, because the test is "is not None" and not truthiness. |
| Exceptions.ReaderErrorBoth | src/pycask/exceptions.py:235-239 | Both fields together give " (file_id: i, offset: o)". |
| Exceptions.CorruptedEntryWithLocationText | tests/test_exceptions.py:84-87 | The text for a location alone, as the test pins it. |
| Exceptions.CorruptedEntryWithDetailsText | tests/test_exceptions.py:91-94 | The text for details alone, as the test pins it. |
| Exceptions.WriterErrorWithOperationText | tests/test_exceptions.py:123-126 | The text for an operation alone, as the test pins it. |
| Exceptions.WriterErrorWithPathText | tests/test_exceptions.py:130-133 | The text for a path alone, as the test pins it. |
| Exceptions.ReaderErrorWithFileIdText | tests/test_exceptions.py:162-165 | The text for a file id alone, as the test pins it. |
| Exceptions.ReaderErrorWithOffsetText | tests/test_exceptions.py:169-172 | The text for an offset alone, as the test pins it. |
| Exceptions.ReaderErrorWithBothText | tests/test_exceptions.py:176-180 | The text for both fields, as the test pins it. |
| Bytes.EncodeU32 | src/pycask/writer.py:174 | struct.pack('!I', x) is 4 bytes whose big-endian value is x. |
| Bytes.EncodeU64 | src/pycask/writer.py:174 | struct.pack('!Q', x) is 8 bytes whose big-endian value is x. |
| Bytes.DecodeEncodeBE | src/pycask/reader.py:107 | Unpacking a packed field gives the value back. |
| Bytes.EncodeDecodeBE | src/pycask/reader.py:107 | Every byte string is the packing of the value unpacked from it. |
| Bytes.DecodeU32Bound | src/pycask/reader.py:107 | A 4-byte field unpacks to a value below 2^32, and that value packs back to the same bytes. |
| Bytes.DecodeU64Bound | src/pycask/reader.py:107 | An 8-byte field unpacks to a value below 2^64, and that value packs back to the same bytes. |
| Crc32.Crc32 | src/pycask/writer.py:148 | The checksum fits in 32 bits, as `& 0xffffffff` keeps it. |
| Crc32.UpdateAppend | src/pycask/writer.py:143-148 | Feeding the header fields, then the key, then the value, gives the register of the whole input. |
| Crc32.CheckValue | src/pycask/writer.py:148 | The CRC of "123456789" is 0xCBF43926, the check value of zlib's CRC-32. |
| Utf8.DecodeEncode | src/pycask/reader.py:129-133 | Decoding a key's UTF-8 encoding gives the key back. |
| Utf8.EncodeDecode | src/pycask/reader.py:129-133 | Whatever the strict decoder accepts is the encoding of what it returns. |
| Utf8.EncodedLengthExamples | src/pycask/models.py:104 | The encoded length counts bytes: "hello" 5, "café" 5, "héllo" 6, "测试" 6. |
| Decimal.NatToString | src/pycask/writer.py:325 | The decimal text of an id is all digits, with no leading zero except for 0. |
| Decimal.IntToString | src/pycask/reader.py:104 | The text of an int has a leading '-' exactly when the int is negative. |
| Decimal.ParseNat | src/pycask/writer.py:305-309 | The parse succeeds exactly on non-empty strings of ASCII digits. |
| Decimal.ParseNatToString | src/pycask/writer.py:305-307 | Parsing the text of a number gives the number back. |
| Decimal.NatToStringInjective | src/pycask/writer.py:325 | Different numbers have different texts. |
| Storage.DataDir.constructor | src/pycask/writer.py:47-69 | A directory that does not exist holds no files. |
| Storage.FileName | src/pycask/writer.py:325 | A file's name starts with "data_" and ends with ".dat". |
| Storage.Join | src/pycask/writer.py:325 | os.path.join keeps the name as the path's last part. |
| Storage.FilePath | src/pycask/writer.py:315-325 | The path ends in data_<id>.dat. |
| Storage.FilePathNamesId | src/pycask/reader.py:180-190 | The name at the end of a file's path parses back to its id. |
| Storage.ParseFileName | src/pycask/writer.py:303-309 | Only names with the prefix and the suffix yield an id. |
| Storage.ParseFileNameOfFileName | src/pycask/writer.py:303-307 | The scan reads back the id of every name the writer gives a file. |
| Storage.FileNameInjective | src/pycask/writer.py:325 | Different ids never share a file. |
| Storage.ParseFileNameExamples | src/pycask/writer.py:302-309 | data_0.dat and data_5.dat are taken. data_10.log and other.txt are skipped. |
| Storage.ReadAt | src/pycask/reader.py:99-102 | seek-then-read returns at most n bytes. It is short exactly when the file ends first, and it returns the file's bytes when they are all there. |
| Writer.ChecksumInput | src/pycask/writer.py:143-145 | The checksum input is 16 header bytes plus the key's UTF-8 bytes plus the value. |
| Writer.CalculateCrc | src/pycask/writer.py:130-158 | The function succeeds exactly when struct.pack accepts the fields. Only the crc changes, and it is set to the CRC-32 of the checksum input. |
| Writer.Serialize | src/pycask/writer.py:160-179 | The function succeeds exactly when the header fits its formats. The output's length is total_size. |
| Writer.SerializeLayout | src/pycask/writer.py:174-179 | Each field sits at its offset, and the bytes after the crc are exactly the checksum input. |
| Writer.ExactFillDoesNotRotate | src/pycask/writer.py:181-191 | An entry that exactly fills the file does not rotate. Any entry after it does. |
| Writer.OpenForAppend | src/pycask/writer.py:284 | Opening with 'ab' creates a missing file empty and leaves every existing file unchanged. |
| Writer.RotateConsistent | src/pycask/writer.py:193-220 | Rotation opens a fresh, empty file with the next id and keeps the writer consistent. |
| Writer.WriteStepConsistent | src/pycask/writer.py:71-128 | Every write, whatever its outcome, keeps the writer consistent: the active file exists, the offset is its length, and no data file has a higher id. |
| Writer.WriteLocation | src/pycask/writer.py:95-121 | A write on an open writer succeeds. It lands at the current offset, or at offset 0 of the next file when it rotates. The offset advances by the entry's size, and only the written file changes, by the serialized record appended to it. |
| Writer.WriteInPlace | src/pycask/writer.py:104-121 | A write that fits lands at the current offset of the active file. |
| Writer.WriteAfterClose | src/pycask/writer.py:92-93 | After close, a write fails with "No active file handle available" and changes nothing. |
| Writer.OversizedEntry | src/pycask/writer.py:96-98 | An entry larger than max_file_size rotates first, even out of an empty file. It is then the only content of the new file. |
| Writer.WriteStepAppendOnly | src/pycask/writer.py:106-113 | A write never removes a file and never changes bytes already written. |
| Writer.BackToBack | src/pycask/writer.py:104-113 | Two writes that fit go back to back in the same file. |
| Writer.ParseAll | src/pycask/writer.py:299-309 | The scan keeps at most one id per listed name. |
| Writer.ParseAllMembers | src/pycask/writer.py:302-309 | An id is kept exactly when some listed name parses to it. |
| Writer.ParseAllOfListing | src/pycask/writer.py:299-311 | Scanning any listing of the directory finds exactly its data-file ids. |
| Writer.Insert | src/pycask/writer.py:313 | Inserting adds exactly one element. |
| Writer.InsertSorted | src/pycask/writer.py:313 | Inserting into a sorted list keeps it sorted. |
| Writer.Sort | src/pycask/writer.py:313 | sorted() keeps the same ids with the same multiplicities. |
| Writer.SortSorted | src/pycask/writer.py:313 | sorted() returns an ascending list. |
| Writer.SortedScan | src/pycask/writer.py:292-313 | The result is ascending and holds exactly the directory's data-file ids. |
| Writer.SeqMax | src/pycask/writer.py:248 | max() is an element that no element exceeds. |
| Writer.ResumePointUnique | src/pycask/writer.py:244-268 | The directory's contents decide the file and offset the writer resumes at. |
| Writer.ResumePointConsistent | src/pycask/writer.py:244-271 | Opening the resume point gives a consistent writer. |
| Writer.ResumeEmpty | src/pycask/writer.py:265-268 | An empty directory starts at file 0, offset 0. |
| Writer.GapIds | src/pycask/writer.py:299-313 | data_0.dat and data_5.dat give the ids 0 and 5. |
| Writer.ResumeAfterGap | src/pycask/writer.py:246-264 | With data_0.dat and data_5.dat present, the writer continues data_5.dat while it has room and opens data_6.dat once it is full. |
| Writer.KVWriter.constructor | src/pycask/writer.py:47-69 | The directory now exists, the writer is open and consistent, and it sits at the resume point of the files found. |
| Writer.KVWriter.EnsureDataDirectory | src/pycask/writer.py:222-232 | The directory exists afterwards. |
| Writer.KVWriter.GetExistingFileIds | src/pycask/writer.py:292-313 | The result is an ascending list of exactly the data-file ids, and it is the sorted scan of some listing. |
| Writer.KVWriter.ScanDataFiles | src/pycask/writer.py:299-311 | The loop visits each name once and keeps the parsed ids in listing order. |
| Writer.KVWriter.OpenActiveFile | src/pycask/writer.py:273-290 | The handle is open, and the active file exists, created empty if it was missing. |
| Writer.KVWriter.InitializeActiveFile | src/pycask/writer.py:234-271 | The chosen file and offset are the resume point, the file is open, and the writer is consistent. |
| Writer.KVWriter.RotateToNewFile | src/pycask/writer.py:193-220 | The new state is the rotation of the old one. |
| Writer.KVWriter.WriteEntry | src/pycask/writer.py:71-128 | The new state and the result are exactly those of WriteStep, and the writer stays valid. |
| Writer.KVWriter.AppendEntry | src/pycask/writer.py:100-121 | The method checksums, appends, advances the offset and reports the location, as AppendStep does. |
| Writer.KVWriter.Close | src/pycask/writer.py:327-340 | The handle is dropped, the writer stays valid, and a second close changes nothing. |
| Reader.UnpackHeader | src/pycask/reader.py:106-107 | The unpacked fields lie in the ranges of their formats. |
| Reader.PackHeader | src/pycask/writer.py:174 | The packed header is HEADER_SIZE bytes. |
| Reader.PackUnpackHeader | src/pycask/reader.py:107 | Packing unpacked header bytes gives the same bytes. |
| Reader.UnpackPackHeader | src/pycask/reader.py:107 | Unpacking packed fields gives the same fields. |
| Reader.CalculateCrcVerifies | src/pycask/reader.py:192-212 | An entry the writer checksummed passes _verify_crc. |
| Reader.CorruptionMessageNames | src/pycask/reader.py:103-152 | Each check's message opens with the words that name it. The IO and UTF-8 messages are exactly those words. |
| Reader.ReadEntryResult | src/pycask/reader.py:81-152 | A missing file gives FileNotFoundError "Data file not found: <path>". Any other failure is a CorruptedEntryError with no location and no details. |
| Reader.SerializeIsPackedHeader | src/pycask/writer.py:174-179 | A serialized entry is its packed header, then its key bytes, then its value. |
| Reader.AssembleSound | src/pycask/reader.py:129-149 | An accepted entry has the header's fields, the key whose encoding is the key bytes, and a passing CRC. |
| Reader.DecodeAtHeader | src/pycask/reader.py:99-107 | Past the seek and the header check, reading goes on with the unpacked header. |
| Reader.DecodeBodyPayload | src/pycask/reader.py:113-127 | With matching sizes and a whole record, the key and value bytes are the slices after the header. |
| Reader.DecodeAtPayload | src/pycask/reader.py:97-149 | A successful read lies in the file and went through every stage. |
| Reader.AssembleDecoded | src/pycask/reader.py:135-149 | With a key that decodes, the read succeeds exactly when the CRC check passes. |
| Reader.AssembleEncoded | src/pycask/reader.py:129-149 | The fields, key bytes and value of a checksummed entry assemble back into the entry. |
| Reader.RecordIsSerialized | src/pycask/reader.py:101-143 | The bytes of a record read from a file are the serialization of the entry built from them. |
| Reader.DecodeAtEntry | src/pycask/reader.py:95-149 | The entry returned has the header's fields, the decoded key and the value bytes, and it passes the CRC check. |
| Reader.DecodeAtSound | src/pycask/reader.py:95-149 | Whatever read_entry accepts is a whole record inside the file. Its sizes are valid, the location's size is its total_size, the bytes there are its serialization, and its crc checks out. |
| Reader.DecodeSerialized | src/pycask/reader.py:95-149 | Wherever a checksummed entry with valid sizes is serialized in a file, reading at that offset and size returns the entry. |
| Reader.SerializedFields | src/pycask/writer.py:174-179 | The header, key and value of a serialized record sit at their offsets in the file. |
| Reader.SerializedSizeMismatch | src/pycask/reader.py:113-118 | A written record whose size fields do not add up to its key and value lengths fails with a size mismatch naming the location's size and the size the header claims. |
| Reader.IncompleteHeaderIff | src/pycask/reader.py:101-104 | The header is incomplete exactly when fewer than 20 bytes follow the offset. |
| Reader.SizeCheckedFirst | src/pycask/reader.py:113-127 | A size mismatch is reported exactly when the header's sizes disagree with the location, even when the file ends right after the header. |
| Reader.CrcMismatchIff | src/pycask/reader.py:145-147 | Once a record is otherwise well formed, the read either succeeds or fails its CRC check. It fails exactly when the stored crc differs from the CRC-32 of the bytes after it. |
| Reader.RecordChecksum | src/pycask/reader.py:192-212 | In a record whose key decodes, the stored crc and the checksummed bytes are those of the entry read. |
| Reader.StoredCrc | src/pycask/writer.py:174-179 | In a serialized record, the first four bytes hold the crc and the rest are the checksum input. |
| Reader.DecodeBodyAgree | src/pycask/reader.py:120-127 | Once the header is fixed, reading the key and value depends only on the bytes of the record's own key and value. |
| Reader.DecodeAtLocal | src/pycask/reader.py:97-149 | Two files that agree on a record's span read that record the same. The read looks at no byte outside the record, so damage elsewhere leaves it readable. |
| Reader.DecodeBodyAppend | src/pycask/reader.py:113-127 | Bytes appended after a record do not change how its body is read. |
| Reader.DecodeAtAppend | src/pycask/reader.py:97-127 | Bytes appended after a record do not change how it is read. |
| Reader.ReadRecord | src/pycask/reader.py:97-152 | Reading through a cursor gives exactly DecodeAt's result. |
| Reader.KVReader.constructor | src/pycask/reader.py:54-55 | The reader starts with no cached handles. |
| Reader.KVReader.Open | src/pycask/reader.py:44-59 | A missing directory gives FileNotFoundError "Data directory not found: <dir>". Otherwise the result is a fresh reader with an empty cache. |
| Reader.KVReader.GetFileHandle | src/pycask/reader.py:154-178 | An existing file's id joins the cache. A missing file gives "Data file not found: <path>" and leaves the cache as it was. |
| Reader.KVReader.ReadEntry | src/pycask/reader.py:81-152 | The result is exactly ReadEntryResult of the directory, and the file's id is cached when the file exists. |
| Reader.KVReader.ReadValue | src/pycask/reader.py:61-79 | The method succeeds exactly when read_entry does, with its value, and otherwise fails with its error. |
| Reader.KVReader.Close | src/pycask/reader.py:214-227 | The cache is empty afterwards. |
| LogProps.WriteThenRead | src/pycask/writer.py:71-128 | Reading at the location a write returned gives back the entry with the writer's crc: same key, value, timestamp and sizes. |
| LogProps.WrittenRecord | src/pycask/writer.py:104-121 | At the returned location the file holds the serialization of the checksummed entry. |
| LogProps.ReadSurvivesWrite | src/pycask/writer.py:106-113 | A location that reads successfully reads the same entry after any later write, whether it appends, rotates or fails. |
| LogProps.ReadSurvivesGrowth | src/pycask/reader.py:81-152 | Appending to files or adding files keeps every successful read unchanged. |
| LogProps.DecodeSurvivesGrowth | src/pycask/reader.py:97-149 | Bytes appended to a file keep every successful read of it unchanged. |
| LogProps.WriteAll | src/pycask/writer.py:71-128 | A run of writes keeps the writer consistent and gives one result per entry. |
| LogProps.ReadSurvivesWriteAll | src/pycask/writer.py:71-128 | A successful read survives any run of later writes. |
| LogProps.WriteAllThenReadAll | src/pycask/writer.py:71-128 | After a run of writes, every returned location reads back its own entry, across any number of rotations. |
| LogProps.WriteAllThenRead | src/pycask/writer.py:71-128 | The i-th write of a run reads back the i-th entry once the whole run is written. |
| LogProps.WriteInvalidSizes | src/pycask/writer.py:71-128 | write_entry does not check is_valid_sizes: an entry with inconsistent size fields is still written, never reads back as written, and fails with a size mismatch when the fields do not add up to the key and value. |
| LogProps.InvalidRecordRead | src/pycask/reader.py:113-149 | A record written from an entry with invalid sizes never reads back as that entry. When its size fields do not add up, the read fails with a size mismatch. |
| LogProps.TornRecord | src/pycask/reader.py:101-127 | When the file ends inside a record, the cut position decides the error. Before the end of the header it is an incomplete header at the record's offset. Inside the key it is incomplete key data, and inside the value incomplete value data, each with the expected size. |
| LogProps.FreshWriter | src/pycask/writer.py:265-271 | A writer opened on an empty directory is consistent, open, and at offset 0 of an empty data_0.dat. |
| LogProps.HelloWorld | src/pycask/writer.py:71-128 | "hello" -> b"world" into an empty directory lands at file 0, offset 0, size 30, and reads back unchanged. |

## Left out

- I/O failures are not modelled: the OSError paths of open, write, flush, makedirs and listdir. These are the WriterError raised by write_entry, rotation and _open_active_file, and the StorageError of _ensure_data_directory. The model's file operations always succeed. Reader's "Cannot open data file" is left out for the same reason.
- The detail text after "IO error reading entry" and "Invalid UTF-8 key data" is left out. It is the text of a Python exception object, not something the program composes. The model ends the message before the ": ".
- Writer.KVWriter.Close: closing the handle and ignoring its OSError have no effect the model can observe. What remains is that the handle is dropped.
- Reader.KVReader.Close: the loop that closes each cached handle is reduced to emptying the cache, for the same reason.
- Reader.KVReader.GetFileHandle: the cache holds file ids, not handles. A handle cached for a file deleted later is not modelled, so the method requires every cached id to name an existing file.
- Storage.ParseFileName: Python's int() also accepts a sign, surrounding whitespace, underscores between digits and non-ASCII digits. The model accepts only ASCII digit strings, so a name such as "data_-1.dat" or "data_ 3.dat" is skipped rather than read as an id.
- Decimal.ParseNat: leading zeros are accepted ("data_007.dat" gives 7), as int() does. The writer then finds that data_7.dat does not exist, because os.path.getsize fails on it, and opens the next id. Writer.IsResumePoint states this.
- Reading the size with os.path.getsize is read off the files map. A directory entry that is itself a directory is not modelled.
- Reader.DecodeAt: an entry_offset above 2^63 - 1 makes seek on the buffered file raise ValueError. read_entry catches only OSError and IOError, so that error escapes as a non-PyCask error. The model does not have it. Negative offsets are modelled: they give "IO error reading entry".
- Reader.DecodeAt: the model treats every offset below 2^63 at or past the end of the file as a short read, so it reports an incomplete header. An offset the file system itself refuses can make seek fail with an OSError instead. read_entry then reports "IO error reading entry", which the model does not.
- The branch at reader.py:110-111 for negative key or value sizes cannot be reached, because struct.unpack with 'I' never returns a negative value. Reader.UnpackHeader's result is in range, and the model has no such branch.
- Models.Create takes the timestamp as a parameter. The default of the current wall-clock time is not modelled.
- The context-manager methods (__enter__/__exit__), get_stats and __repr__ are not modelled.
- The exception class hierarchy (PyCaskError subclasses, KeyError and builtin FileNotFoundError as bases) is flattened into one datatype. str() of a KeyError-derived exception quotes its text, and this is not modelled.
- Concurrency is not modelled: two writers on one directory, or a reader racing a writer.
- Whether flush makes data durable is not modelled. An append is visible to the reader at once.
- A struct.error from _calculate_crc escapes write_entry as a non-PyCask error (Writer.WriteError.StructError). Any rotation that came before it has already happened, and the model keeps that order.
- Models.Create, Models.TotalSize, Writer.WriteStep: a key holding a lone surrogate makes key.encode('utf-8') raise UnicodeEncodeError in create, in total_size and in write_entry, where the encode sits outside the try. A Dafny char is a Unicode scalar value, so such keys and that error path are not modelled.
- Writer.BackToBack: contiguity is stated for two consecutive writes that fit. Longer runs follow by repeating it but are not stated as one lemma.
