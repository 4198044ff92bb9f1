/**
 * The record and the location handle of the log (src/pycask/models.py).
 * Both are plain values with structural equality, like the dataclasses
 * they model; Python's unbounded ints become int.
 */
module Models {
  import opened Bytes
  import Utf8

  /** Bytes of the fixed header: crc (4), timestamp (8), key_size (4), value_size (4). */
  const HEADER_SIZE: int := 4 + 8 + 4 + 4

  /** Where an entry lives: file id, byte offset, serialized size and timestamp. */
  datatype KVLocation = KVLocation(fileId: int, entryOffset: int, entrySize: int, timestamp: int)

  /** A key-value record as laid out on disk; the key is text, the value raw bytes. */
  datatype KVEntry = KVEntry(
    crc: int,
    timestamp: int,
    keySize: int,
    valueSize: int,
    key: string,
    value: seq<byte>)

  /** Serialized size: the header plus the UTF-8 bytes of the key plus the value. */
  function TotalSize(e: KVEntry): (r: int)
    ensures r >= HEADER_SIZE + |e.key| + |e.value|
  {
    HEADER_SIZE + |Utf8.Encode(e.key)| + |e.value|
  }

  /** KVEntry.create with an explicit timestamp: sizes filled in, crc left at 0. */
  function Create(key: string, value: seq<byte>, timestamp: int): (e: KVEntry)
    ensures e.crc == 0 && e.timestamp == timestamp && e.key == key && e.value == value
    ensures e.keySize == |Utf8.Encode(key)| && e.valueSize == |value|
  {
    KVEntry(0, timestamp, |Utf8.Encode(key)|, |value|, key, value)
  }

  /** The header's size fields agree with the key's UTF-8 length and the value's length. */
  predicate IsValidSizes(e: KVEntry)
  {
    e.keySize == |Utf8.Encode(e.key)| && e.valueSize == |e.value|
  }

  /** Every created entry has consistent sizes, and its size is the header plus both sizes. */
  lemma CreateIsValid(key: string, value: seq<byte>, timestamp: int)
    ensures IsValidSizes(Create(key, value, timestamp))
    ensures TotalSize(Create(key, value, timestamp)) == HEADER_SIZE + |Utf8.Encode(key)| + |value|
  {
  }

  /** With consistent sizes the serialized size can be read off the header fields. */
  lemma TotalSizeOfValid(e: KVEntry)
    requires IsValidSizes(e)
    ensures TotalSize(e) == HEADER_SIZE + e.keySize + e.valueSize
  {
  }

  /** An entry with empty key and value is just a header. */
  lemma EmptyEntry(timestamp: int)
    ensures Create("", [], timestamp).keySize == 0 && Create("", [], timestamp).valueSize == 0
    ensures TotalSize(Create("", [], timestamp)) == HEADER_SIZE == 20
  {
  }

  /** Sizes count UTF-8 bytes: "héllo" and "测试" both take six. */
  lemma MultiByteKeySizes(value: seq<byte>, timestamp: int)
    ensures Create("h\U{E9}llo", value, timestamp).keySize == 6
    ensures Create("\U{6D4B}\U{8BD5}", value, timestamp).keySize == 6
    ensures TotalSize(Create("caf\U{E9}", value, timestamp)) == 25 + |value|
  {
    Utf8.EncodedLengthExamples();
  }
}
