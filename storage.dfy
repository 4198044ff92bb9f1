/**
 * The data directory both the writer and the reader work on, with the
 * file-naming convention data_<id>.dat that writer.py and reader.py share.
 * The directory is a mutable object holding a map from file name to the
 * bytes of that file; os.listdir, os.path.exists, os.path.getsize, open,
 * seek and read are read off or applied to that map.
 */
module Storage {
  import opened Bytes
  import opened Wrappers
  import opened Decimal

  class DataDir {
    /** The directory path given to the writer and the reader. */
    const path: string
    /** Whether the directory exists (the writer creates it). */
    var present: bool
    /** The directory's regular files, by name. */
    var files: map<string, seq<byte>>

    /** A directory that does not exist holds no files. */
    predicate Valid()
      reads this
    {
      present || files == map[]
    }

    constructor(path: string, present: bool, files: map<string, seq<byte>>)
      requires present || files == map[]
      ensures this.path == path && this.present == present && this.files == files
      ensures Valid()
    {
      this.path := path;
      this.present := present;
      this.files := files;
    }
  }

  const PREFIX: string := "data_"
  const SUFFIX: string := ".dat"

  /** The name _get_file_path gives file id fileId, without the directory. */
  function FileName(fileId: int): (r: string)
    ensures |r| >= 10 && r[..5] == PREFIX && r[|r| - 4..] == SUFFIX
  {
    PREFIX + IntToString(fileId) + SUFFIX
  }

  /** os.path.join(directory, name) for a relative name. */
  function Join(directory: string, name: string): (r: string)
    ensures |r| >= |name| && r[|r| - |name|..] == name
  {
    if directory == [] || directory[|directory| - 1] == '/' then directory + name
    else directory + "/" + name
  }

  /** _get_file_path(fileId): the path ends in the file's name, data_<id>.dat. */
  function FilePath(directory: string, fileId: int): (r: string)
    ensures |r| >= |FileName(fileId)| && r[|r| - |FileName(fileId)|..] == FileName(fileId)
  {
    Join(directory, FileName(fileId))
  }

  /**
   * The id _get_existing_file_ids takes from a directory entry: names that
   * start with "data_" and end with ".dat" whose middle is a decimal number.
   */
  function ParseFileName(name: string): (r: Option<nat>)
    ensures r.Some? ==> |name| >= 10 && name[..5] == PREFIX && name[|name| - 4..] == SUFFIX
  {
    if StartsWithPrefix(name) && EndsWithSuffix(name) then
      AffixesDoNotOverlap(name);
      ParseNat(name[5..|name| - 4])
    else None
  }

  /** filename.startswith('data_'). */
  predicate StartsWithPrefix(name: string) { |name| >= 5 && name[..5] == PREFIX }

  /** filename.endswith('.dat'). */
  predicate EndsWithSuffix(name: string) { |name| >= 4 && name[|name| - 4..] == SUFFIX }

  /** A name that starts with "data_" and ends with ".dat" is long enough to cut both off. */
  lemma AffixesDoNotOverlap(name: string)
    requires StartsWithPrefix(name) && EndsWithSuffix(name)
    ensures |name| >= 9
  {
    // the suffix's '.' cannot fall on one of the prefix's letters
    assert name[|name| - 4] == '.' by { assert name[|name| - 4..][0] == name[|name| - 4]; }
    assert forall i :: 0 <= i < 5 ==> name[i] != '.' by {
      forall i | 0 <= i < 5 ensures name[i] != '.' { assert name[..5][i] == name[i]; }
    }
  }

  /** Parsing the name of a file id gives the id back. */
  lemma ParseFileNameOfFileName(fileId: nat)
    ensures ParseFileName(FileName(fileId)) == Some(fileId)
  {
    var name := FileName(fileId);
    assert name[5..|name| - 4] == NatToString(fileId);
    ParseNatToString(fileId);
  }

  /** The name at the end of a file's path gives back its id. */
  lemma FilePathNamesId(directory: string, fileId: nat)
    ensures var r := FilePath(directory, fileId);
      ParseFileName(r[|r| - |FileName(fileId)|..]) == Some(fileId)
  {
    ParseFileNameOfFileName(fileId);
  }

  /** Different file ids never share a file. */
  lemma FileNameInjective(a: nat, b: nat)
    requires FileName(a) == FileName(b)
    ensures a == b
  {
    ParseFileNameOfFileName(a);
    ParseFileNameOfFileName(b);
  }

  /** Only data_<digits>.dat names are taken. */
  lemma ParseFileNameExamples()
    ensures ParseFileName("data_0.dat") == Some(0)
    ensures ParseFileName("data_5.dat") == Some(5)
    ensures ParseFileName("data_10.log") == None
    ensures ParseFileName("other.txt") == None
  {
    ParseFileNameOfFileName(0);
    ParseFileNameOfFileName(5);
    assert FileName(0) == "data_0.dat" && FileName(5) == "data_5.dat";
    assert "data_10.log"[7..] != SUFFIX;
  }

  /**
   * file.seek(pos); file.read(n): at most n bytes, fewer (or none) when the
   * file ends first.
   */
  function ReadAt(file: seq<byte>, pos: nat, n: nat): (r: seq<byte>)
    ensures |r| <= n
    ensures |r| == n <==> n == 0 || pos + n <= |file|
    ensures pos + n <= |file| ==> r == file[pos..pos + n]
  {
    if pos >= |file| then [] else if pos + n <= |file| then file[pos..pos + n] else file[pos..]
  }
}
