/**
 * The archive service (internal/services/archive.go): finds the CSV file of an uploaded ZIP or
 * TAR archive.
 *
 * The ZIP and TAR byte formats belong to archive/zip and archive/tar and are not modelled: the
 * uploaded bytes are given as the two readers see them, a ZIP central directory (or a failure
 * to read one) and a stream of TAR headers ending in io.EOF or in an error.
 */
module Archive {
  import opened Results
  import opened GoText

  newtype byte = x: int | 0 <= x < 256

  type Bytes = seq<byte>

  /** The body of an entry as io.ReadAll sees it: all of its bytes, or an error part way. */
  datatype Content = Readable(data: Bytes) | ReadFails

  /** A file listed in a ZIP central directory: its name, whether File.Open succeeds, its body. */
  datatype ZipFile = ZipFile(name: string, opens: bool, content: Content)

  /** What zip.NewReader makes of the bytes: an error, or the files in directory order. */
  datatype ZipView = ZipUnreadable | ZipFiles(files: seq<ZipFile>)

  /** The type flag of a TAR header. */
  datatype EntryKind = RegularFile | Directory | OtherKind

  datatype TarEntry = TarEntry(name: string, kind: EntryKind, content: Content)

  /** How tar.Reader.Next ends the stream of headers: io.EOF, or an error. */
  datatype TarEnd = Eof | Broken

  /** What tar.Reader makes of the bytes: the headers it returns, in order, then how it stops. */
  datatype TarView = TarView(entries: seq<TarEntry>, end: TarEnd)

  /** The uploaded bytes as read by each of the two readers. */
  datatype Payload = Payload(asZip: ZipView, asTar: TarView)

  datatype ArchiveError =
    | UnsupportedType(archiveType: string)
    | ZipUnreadableError   // zip.NewReader failed
    | ZipOpenFailed        // File.Open of the CSV file failed
    | ZipReadFailed        // reading the CSV file failed
    | NoCsvInZip
    | TarBroken            // tar.Reader.Next failed
    | TarReadFailed        // reading the CSV entry failed
    | NoCsvInTar

  /** The test both loops apply to a name: lower-cased, it ends in ".csv". */
  predicate IsCsvName(name: string) {
    HasSuffix(ToLower(name), ".csv")
  }

  /** The index of the first CSV name, or |names| when there is none. */
  function FirstCsv(names: seq<string>): (k: nat)
    ensures k <= |names|
    ensures k < |names| ==> IsCsvName(names[k])
    ensures forall j :: 0 <= j < k ==> !IsCsvName(names[j])
  {
    if names == [] then 0 else if IsCsvName(names[0]) then 0 else 1 + FirstCsv(names[1..])
  }

  function ZipNames(files: seq<ZipFile>): (names: seq<string>)
    ensures |names| == |files| && forall i :: 0 <= i < |files| ==> names[i] == files[i].name
  {
    seq(|files|, i requires 0 <= i < |files| => files[i].name)
  }

  function TarNames(entries: seq<TarEntry>): (names: seq<string>)
    ensures |names| == |entries| && forall i :: 0 <= i < |entries| ==> names[i] == entries[i].name
  {
    seq(|entries|, i requires 0 <= i < |entries| => entries[i].name)
  }

  // ---------------------------------------------------------------------------
  // What the service returns
  // ---------------------------------------------------------------------------

  /**
   * extractZip: the body of the first CSV file of the directory. What it returns is the whole
   * readable body of a file with a CSV name; its errors are those of the ZIP steps only.
   */
  function ZipResult(z: ZipView): (r: Result<Bytes, ArchiveError>)
    ensures r.Ok? ==> z.ZipFiles? && exists k :: 0 <= k < |z.files| && IsCsvName(z.files[k].name) && z.files[k].content == Readable(r.value)
    ensures r.Err? ==> r.error in {ZipUnreadableError, NoCsvInZip, ZipOpenFailed, ZipReadFailed}
  {
    match z
    case ZipUnreadable => Err(ZipUnreadableError)
    case ZipFiles(files) =>
      var k := FirstCsv(ZipNames(files));
      if k == |files| then Err(NoCsvInZip)
      else if !files[k].opens then Err(ZipOpenFailed)
      else if files[k].content.ReadFails? then Err(ZipReadFailed)
      else
        assert files[k].content == Readable(files[k].content.data);
        Ok(files[k].content.data)
  }

  /**
   * extractTar: the body of the first CSV entry met before the stream of headers stops. What it
   * returns is the whole readable body of an entry with a CSV name; its errors are those of the
   * TAR steps only.
   */
  function TarResult(t: TarView): (r: Result<Bytes, ArchiveError>)
    ensures r.Ok? ==> exists k :: 0 <= k < |t.entries| && IsCsvName(t.entries[k].name) && t.entries[k].content == Readable(r.value)
    ensures r.Err? ==> r.error in {TarBroken, TarReadFailed, NoCsvInTar}
  {
    var k := FirstCsv(TarNames(t.entries));
    if k < |t.entries| then
      (if t.entries[k].content.ReadFails? then Err(TarReadFailed)
       else
         assert t.entries[k].content == Readable(t.entries[k].content.data);
         Ok(t.entries[k].content.data))
    else if t.end == Broken then Err(TarBroken)
    else Err(NoCsvInTar)
  }

  /** Extract: ZIP and TAR only; any other type is refused whatever the bytes are. */
  function ExtractResult(p: Payload, archiveType: string): (r: Result<Bytes, ArchiveError>)
    ensures archiveType != "zip" && archiveType != "tar" ==> r == Err(UnsupportedType(archiveType))
    ensures r.Ok? ==> archiveType == "zip" || archiveType == "tar"
  {
    if archiveType == "zip" then ZipResult(p.asZip)
    else if archiveType == "tar" then TarResult(p.asTar)
    else Err(UnsupportedType(archiveType))
  }

  // ---------------------------------------------------------------------------
  // The service
  // ---------------------------------------------------------------------------

  /** The loop of extractZip over the files of the central directory, returning at the first CSV. */
  method ExtractZip(z: ZipView) returns (r: Result<Bytes, ArchiveError>)
    ensures r == ZipResult(z)
  {
    if z.ZipUnreadable? {
      return Err(ZipUnreadableError);
    }
    var files := z.files;
    for i := 0 to |files|
      invariant forall j :: 0 <= j < i ==> !IsCsvName(files[j].name)
    {
      var file := files[i];
      if IsCsvName(file.name) {
        assert FirstCsv(ZipNames(files)) == i;
        if !file.opens {
          return Err(ZipOpenFailed);
        }
        var content := file.content;
        if content.ReadFails? {
          return Err(ZipReadFailed);
        }
        return Ok(content.data);
      }
    }
    return Err(NoCsvInZip);
  }

  /** What one call of tar.Reader.Next returns. */
  datatype Next = Header(name: string, kind: EntryKind) | EndOfArchive | NextFailed

  /** tar.Reader: a cursor over the headers of the archive. */
  class TarReader {
    const entries: seq<TarEntry>
    const end: TarEnd
    /** The number of headers returned so far. */
    var pos: nat

    ghost predicate Valid()
      reads this
    {
      pos <= |entries|
    }

    constructor (t: TarView)
      ensures Valid() && entries == t.entries && end == t.end && pos == 0
    {
      entries, end, pos := t.entries, t.end, 0;
    }

    /** The next header, or io.EOF, or an error once the headers are exhausted. */
    method Next() returns (h: Next)
      requires Valid()
      modifies this`pos
      ensures Valid()
      ensures old(pos) < |entries| ==> pos == old(pos) + 1 && h == Header(entries[old(pos)].name, entries[old(pos)].kind)
      ensures old(pos) == |entries| ==> pos == old(pos) && h == (if end == Eof then EndOfArchive else NextFailed)
    {
      if pos == |entries| {
        return if end == Eof then EndOfArchive else NextFailed;
      }
      h := Header(entries[pos].name, entries[pos].kind);
      pos := pos + 1;
    }

    /** io.ReadAll on the reader: the body of the entry whose header was returned last. */
    method ReadAll() returns (c: Content)
      requires Valid() && pos > 0
      ensures c == entries[pos - 1].content
    {
      c := entries[pos - 1].content;
    }
  }

  /** The loop of extractTar: Next until io.EOF, returning at the first CSV entry. */
  method ExtractTar(t: TarView) returns (r: Result<Bytes, ArchiveError>)
    ensures r == TarResult(t)
  {
    var reader := new TarReader(t);
    while true
      invariant reader.Valid() && reader.entries == t.entries && reader.end == t.end
      invariant forall j :: 0 <= j < reader.pos ==> !IsCsvName(t.entries[j].name)
      decreases |t.entries| - reader.pos
    {
      var header := reader.Next();
      if header.EndOfArchive? {
        break;
      }
      if header.NextFailed? {
        return Err(TarBroken);
      }
      if IsCsvName(header.name) {
        assert FirstCsv(TarNames(t.entries)) == reader.pos - 1;
        var content := reader.ReadAll();
        if content.ReadFails? {
          return Err(TarReadFailed);
        }
        return Ok(content.data);
      }
    }
    assert FirstCsv(TarNames(t.entries)) == |t.entries|;
    return Err(NoCsvInTar);
  }

  /** ArchiveService.Extract: dispatch on the archive type. */
  method Extract(p: Payload, archiveType: string) returns (r: Result<Bytes, ArchiveError>)
    ensures r == ExtractResult(p, archiveType)
  {
    match archiveType
    case "zip" => r := ExtractZip(p.asZip);
    case "tar" => r := ExtractTar(p.asTar);
    case _ => r := Err(UnsupportedType(archiveType));
  }

  // ---------------------------------------------------------------------------
  // Properties
  // ---------------------------------------------------------------------------

  /** The test on names ignores case: the name ends in '.' and the letters c, s, v in any case. */
  lemma CsvNameIgnoresCase(name: string)
    ensures IsCsvName(name) <==>
              && |name| >= 4 && name[|name| - 4] == '.'
              && name[|name| - 3] in {'c', 'C'} && name[|name| - 2] in {'s', 'S'} && name[|name| - 1] in {'v', 'V'}
  {
    var low := ToLower(name);
    if |name| >= 4 {
      var n := |name|;
      assert IsCsvName(name) <==> low[n - 4] == '.' && low[n - 3] == 'c' && low[n - 2] == 's' && low[n - 1] == 'v' by {
        assert low[n - 4..] == [low[n - 4], low[n - 3], low[n - 2], low[n - 1]];
      }
    }
  }

  /** Any archive type other than "zip" and "tar" is refused, whatever the bytes. */
  lemma OnlyZipAndTar(p: Payload, archiveType: string)
    ensures ExtractResult(p, archiveType) == Err(UnsupportedType(archiveType)) <==>
              archiveType != "zip" && archiveType != "tar"
  {
  }

  /** kth is the first CSV name of the list. */
  predicate FirstCsvAt(names: seq<string>, k: nat) {
    k < |names| && IsCsvName(names[k]) && forall j :: 0 <= j < k ==> !IsCsvName(names[j])
  }

  /**
   * A ZIP extraction succeeds with d exactly when the directory was read and its first CSV file,
   * in directory order, opens and reads back as d.
   */
  lemma ZipSelectsFirstCsv(z: ZipView, d: Bytes)
    ensures ZipResult(z) == Ok(d) <==>
              z.ZipFiles? &&
              exists k: nat :: FirstCsvAt(ZipNames(z.files), k) && z.files[k].opens && z.files[k].content == Readable(d)
  {
    if z.ZipFiles? && exists k: nat :: FirstCsvAt(ZipNames(z.files), k) && z.files[k].opens && z.files[k].content == Readable(d) {
      var k: nat :| FirstCsvAt(ZipNames(z.files), k) && z.files[k].opens && z.files[k].content == Readable(d);
      assert FirstCsv(ZipNames(z.files)) == k;
    }
    if ZipResult(z) == Ok(d) {
      assert FirstCsvAt(ZipNames(z.files), FirstCsv(ZipNames(z.files)));
    }
  }

  /**
   * A TAR extraction succeeds with d exactly when some entry is a CSV, the first such entry in
   * stream order reads back as d; whatever follows it, even a broken header, does not matter.
   */
  lemma TarSelectsFirstCsv(t: TarView, d: Bytes)
    ensures TarResult(t) == Ok(d) <==>
              exists k: nat :: FirstCsvAt(TarNames(t.entries), k) && t.entries[k].content == Readable(d)
  {
    if exists k: nat :: FirstCsvAt(TarNames(t.entries), k) && t.entries[k].content == Readable(d) {
      var k: nat :| FirstCsvAt(TarNames(t.entries), k) && t.entries[k].content == Readable(d);
      assert FirstCsv(TarNames(t.entries)) == k;
    }
    if TarResult(t) == Ok(d) {
      assert FirstCsvAt(TarNames(t.entries), FirstCsv(TarNames(t.entries)));
    }
  }

  /** With no CSV name in the archive, extraction fails: for want of a CSV or for a broken archive. */
  lemma NoCsvIsAnError(p: Payload, archiveType: string)
    requires archiveType == "zip" ==>
               p.asZip.ZipFiles? && forall i :: 0 <= i < |p.asZip.files| ==> !IsCsvName(p.asZip.files[i].name)
    requires archiveType == "tar" ==> forall i :: 0 <= i < |p.asTar.entries| ==> !IsCsvName(p.asTar.entries[i].name)
    ensures archiveType == "zip" ==> ExtractResult(p, archiveType) == Err(NoCsvInZip)
    ensures archiveType == "tar" ==> ExtractResult(p, archiveType) == Err(if p.asTar.end == Eof then NoCsvInTar else TarBroken)
  {
  }

  /** An archive the reader cannot open gives an error; so does a TAR stream broken before any CSV. */
  lemma UnreadableIsAnError(p: Payload)
    ensures p.asZip.ZipUnreadable? ==> ExtractResult(p, "zip") == Err(ZipUnreadableError)
    ensures p.asTar.end == Broken && (forall i :: 0 <= i < |p.asTar.entries| ==> !IsCsvName(p.asTar.entries[i].name)) ==>
              ExtractResult(p, "tar") == Err(TarBroken)
  {
  }

  /** TAR selection looks at names only: changing the type flag of any header changes nothing. */
  lemma {:induction false} TarIgnoresKind(t: TarView, u: TarView)
    requires t.end == u.end && |t.entries| == |u.entries|
    requires forall i :: 0 <= i < |t.entries| ==> t.entries[i].name == u.entries[i].name && t.entries[i].content == u.entries[i].content
    ensures TarResult(t) == TarResult(u)
  {
    assert TarNames(t.entries) == TarNames(u.entries);
  }

  /**
   * A TAR holding a directory and then a "._" metadata file of a CSV (as macOS tar writes them)
   * yields the body of the metadata file: neither directories nor "._" names are skipped.
   */
  lemma HiddenMetadataSelected(dir: string, base: string, d: Bytes, rest: seq<TarEntry>, end: TarEnd)
    requires dir != [] && dir[|dir| - 1] == '/'
    ensures var t := TarView([TarEntry(dir, Directory, Readable([])), TarEntry("._" + base + ".csv", RegularFile, Readable(d))] + rest, end);
            ExtractResult(Payload(ZipUnreadable, t), "tar") == Ok(d)
  {
    var name := "._" + base + ".csv";
    var t := TarView([TarEntry(dir, Directory, Readable([])), TarEntry(name, RegularFile, Readable(d))] + rest, end);
    CsvNameIgnoresCase(dir);
    CsvNameIgnoresCase(name);
    assert FirstCsvAt(TarNames(t.entries), 1);
    TarSelectsFirstCsv(t, d);
  }
}
