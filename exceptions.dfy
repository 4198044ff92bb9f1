/**
 * The error taxonomy of src/pycask/exceptions.py as one tagged datatype.
 * Each constructor function stores its optional fields unchanged and
 * composes the text str(error) shows.  Python's truthiness tests ("if
 * location:") treat None and "" alike; ReaderError tests "is not None",
 * so a file id or offset of 0 still appears.
 */
module Exceptions {
  import opened Wrappers
  import opened Decimal

  datatype PyCaskError =
    | StorageError(text: string)
    | KeyNotFoundError(key: string, text: string)
    | CorruptedEntryError(location: Option<string>, details: Option<string>, text: string)
    | WriterError(operation: Option<string>, filePath: Option<string>, text: string)
    | FileNotFoundError(text: string)
    | ReaderError(fileId: Option<int>, offset: Option<int>, text: string)

  /** Python truthiness of an optional string: present and non-empty. */
  predicate Truthy(s: Option<string>)
  {
    s.Some? && s.value != ""
  }

  function KeyNotFoundText(key: string, message: Option<string>): (r: string)
    ensures message.Some? ==> r == message.value
  {
    if message.None? then "Key '" + key + "' not found in store" else message.value
  }

  function CorruptedEntryText(message: string, location: Option<string>, details: Option<string>): (r: string)
    ensures |r| >= |message| && r[..|message|] == message
    ensures !Truthy(location) && !Truthy(details) ==> r == message
  {
    var withLocation := if Truthy(location) then message + " (location: " + location.value + ")" else message;
    if Truthy(details) then withLocation + " - " + details.value else withLocation
  }

  function WriterErrorText(message: string, operation: Option<string>, filePath: Option<string>): (r: string)
    ensures !Truthy(operation) && !Truthy(filePath) ==> r == message
  {
    var withOperation := if Truthy(operation) then operation.value + ": " + message else message;
    if Truthy(filePath) then withOperation + " (file: " + filePath.value + ")" else withOperation
  }

  function ReaderErrorText(message: string, fileId: Option<int>, offset: Option<int>): (r: string)
    ensures |r| >= |message| && r[..|message|] == message
    ensures fileId.None? && offset.None? ==> r == message
  {
    if fileId.Some? then
      var withOffset := if offset.Some? then ", offset: " + IntToString(offset.value) else "";
      message + " (file_id: " + IntToString(fileId.value) + withOffset + ")"
    else if offset.Some? then message + " (offset: " + IntToString(offset.value) + ")"
    else message
  }

  /** KeyNotFoundError(key, message=None). */
  function NewKeyNotFoundError(key: string, message: Option<string>): (e: PyCaskError)
    ensures e.KeyNotFoundError? && e.key == key && e.text == KeyNotFoundText(key, message)
  {
    KeyNotFoundError(key, KeyNotFoundText(key, message))
  }

  /** CorruptedEntryError(message, location=None, details=None). */
  function NewCorruptedEntryError(message: string, location: Option<string>, details: Option<string>): (e: PyCaskError)
    ensures e.CorruptedEntryError? && e.location == location && e.details == details
    ensures e.text == CorruptedEntryText(message, location, details)
  {
    CorruptedEntryError(location, details, CorruptedEntryText(message, location, details))
  }

  /** WriterError(message, operation=None, file_path=None). */
  function NewWriterError(message: string, operation: Option<string>, filePath: Option<string>): (e: PyCaskError)
    ensures e.WriterError? && e.operation == operation && e.filePath == filePath
    ensures e.text == WriterErrorText(message, operation, filePath)
  {
    WriterError(operation, filePath, WriterErrorText(message, operation, filePath))
  }

  /** ReaderError(message, file_id=None, offset=None). */
  function NewReaderError(message: string, fileId: Option<int>, offset: Option<int>): (e: PyCaskError)
    ensures e.ReaderError? && e.fileId == fileId && e.offset == offset
    ensures e.text == ReaderErrorText(message, fileId, offset)
  {
    ReaderError(fileId, offset, ReaderErrorText(message, fileId, offset))
  }

  /** Without a message, KeyNotFoundError names the key; an explicit message, even "", is kept. */
  lemma KeyNotFoundDefault(key: string)
    ensures NewKeyNotFoundError(key, None).text == "Key '" + key + "' not found in store"
    ensures NewKeyNotFoundError(key, Some("")).text == ""
  {
  }

  /** The location part comes before the details part. */
  lemma CorruptedEntryOrder(message: string, location: string, details: string)
    requires location != "" && details != ""
    ensures CorruptedEntryText(message, Some(location), Some(details))
         == message + " (location: " + location + ") - " + details
  {
  }

  /** An empty location or details string is omitted exactly as a missing one is. */
  lemma CorruptedEntryEmptyOmitted(message: string, location: Option<string>, details: Option<string>)
    ensures CorruptedEntryText(message, Some(""), details) == CorruptedEntryText(message, None, details)
    ensures CorruptedEntryText(message, location, Some("")) == CorruptedEntryText(message, location, None)
  {
  }

  /** WriterError leaves out an empty operation or path exactly as a missing one. */
  lemma WriterErrorEmptyOmitted(message: string, operation: Option<string>, filePath: Option<string>)
    ensures WriterErrorText(message, Some(""), filePath) == WriterErrorText(message, None, filePath)
    ensures WriterErrorText(message, operation, Some("")) == WriterErrorText(message, operation, None)
  {
  }

  /** The operation is a prefix and the path a suffix around the message. */
  lemma WriterErrorShape(message: string, operation: string, filePath: string)
    requires operation != "" && filePath != ""
    ensures WriterErrorText(message, Some(operation), Some(filePath))
         == operation + ": " + message + " (file: " + filePath + ")"
    ensures WriterErrorText(message, Some(""), Some("")) == message
  {
  }

  /** ReaderError shows a zero file id and a zero offset, unlike the truthiness tests above. */
  lemma ReaderErrorZeroShown(message: string)
    ensures ReaderErrorText(message, Some(0), Some(0)) == message + " (file_id: 0, offset: 0)"
    ensures ReaderErrorText(message, Some(0), None) == message + " (file_id: 0)"
    ensures ReaderErrorText(message, None, Some(0)) == message + " (offset: 0)"
  {
  }

  /** The forms with one extra each, for the texts pinned below. */
  lemma CorruptedEntryLocationOnly(message: string, location: string)
    requires location != ""
    ensures CorruptedEntryText(message, Some(location), None) == message + " (location: " + location + ")"
  {
  }

  lemma CorruptedEntryDetailsOnly(message: string, details: string)
    requires details != ""
    ensures CorruptedEntryText(message, None, Some(details)) == message + " - " + details
  {
  }

  lemma WriterErrorOperationOnly(message: string, operation: string)
    requires operation != ""
    ensures WriterErrorText(message, Some(operation), None) == operation + ": " + message
  {
  }

  lemma WriterErrorPathOnly(message: string, filePath: string)
    requires filePath != ""
    ensures WriterErrorText(message, None, Some(filePath)) == message + " (file: " + filePath + ")"
  {
  }

  // The texts the tests pin down, one lemma each.

  lemma CorruptedEntryWithLocationText()
    ensures CorruptedEntryText("Data is corrupted", Some("file_1:offset_1024"), None)
         == "Data is corrupted (location: file_1:offset_1024)"
  {
    CorruptedEntryLocationOnly("Data is corrupted", "file_1:offset_1024");
  }

  lemma CorruptedEntryWithDetailsText()
    ensures CorruptedEntryText("CRC mismatch", None, Some("Expected 123, got 456"))
         == "CRC mismatch - Expected 123, got 456"
  {
    CorruptedEntryDetailsOnly("CRC mismatch", "Expected 123, got 456");
  }

  lemma WriterErrorWithOperationText()
    ensures WriterErrorText("Disk full", Some("write_entry"), None) == "write_entry: Disk full"
  {
    WriterErrorOperationOnly("Disk full", "write_entry");
  }

  lemma WriterErrorWithPathText()
    ensures WriterErrorText("Permission denied", None, Some("/data/file_1.log"))
         == "Permission denied (file: /data/file_1.log)"
  {
    WriterErrorPathOnly("Permission denied", "/data/file_1.log");
  }

  lemma ReaderErrorBoth(message: string, fileId: int, offset: int)
    ensures ReaderErrorText(message, Some(fileId), Some(offset))
         == message + " (file_id: " + IntToString(fileId) + ", offset: " + IntToString(offset) + ")"
  {
  }

  lemma ReaderErrorWithFileIdText()
    ensures ReaderErrorText("File not found", Some(1), None) == "File not found (file_id: 1)"
  {
    assert IntToString(1) == "1";
  }

  lemma ReaderErrorWithOffsetText()
    ensures ReaderErrorText("Seek failed", None, Some(1024)) == "Seek failed (offset: 1024)"
  {
    Decimal.IntToStringExample1024();
  }

  lemma ReaderErrorWithBothText()
    ensures ReaderErrorText("Read error", Some(2), Some(2048)) == "Read error (file_id: 2, offset: 2048)"
  {
    ReaderErrorBoth("Read error", 2, 2048);
    Decimal.IntToStringExample2048();
    assert IntToString(2) == "2";
  }
}
