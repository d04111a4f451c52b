/**
 * The bulk-import side of the platform: which directory entries become image
 * records, which parsed CSV rows become CSV records, and the two lookups the
 * search tab runs on those collections.
 */
module Imports {

  import opened Wrappers
  import Seqs

  // ---------------------------------------------------------------------------
  // Images

  /**
   * One name listed by `os.listdir`, with the base64 text that reading and
   * encoding the file produced, or `None` when opening or reading it raised.
   */
  datatype DirEntry = DirEntry(name: string, content: Option<string>)

  /**
   * What the import finds at the folder path: nothing there, something that
   * exists but cannot be listed (a regular file, a folder without permission),
   * or a listing.
   */
  datatype Folder = Missing | Unlistable | Listing(entries: seq<DirEntry>)

  /** A document of the `images` collection. */
  datatype ImageRecord = ImageRecord(filename: string, data: string)

  /** `str.lower` on one character, for the ASCII letters. */
  function LowerChar(c: char): char {
    if 'A' <= c <= 'Z' then (c as int + 32) as char else c
  }

  function Lower(s: string): (r: string)
    ensures |r| == |s| && forall i :: 0 <= i < |s| ==> r[i] == LowerChar(s[i])
  {
    seq(|s|, i requires 0 <= i < |s| => LowerChar(s[i]))
  }

  predicate EndsWith(s: string, suffix: string) {
    |suffix| <= |s| && s[|s| - |suffix|..] == suffix
  }

  /** `filename.lower().endswith(('.png', '.jpg', '.jpeg'))`. */
  predicate HasImageExtension(name: string) {
    var lowered := Lower(name);
    EndsWith(lowered, ".png") || EndsWith(lowered, ".jpg") || EndsWith(lowered, ".jpeg")
  }

  /** An entry that the import loop inserts: an image extension and a read that succeeded. */
  predicate Importable(e: DirEntry) {
    HasImageExtension(e.name) && e.content.Some?
  }

  /** An entry that the import loop reports as failed: an image extension and a read that raised. */
  predicate FailedRead(e: DirEntry) {
    HasImageExtension(e.name) && e.content.None?
  }

  /** The records the import loop has inserted after visiting `entries`, in listing order. */
  function ImportedImages(entries: seq<DirEntry>): (records: seq<ImageRecord>)
    ensures |records| <= |entries|
  {
    if entries == [] then []
    else
      var e := entries[|entries| - 1];
      ImportedImages(entries[..|entries| - 1])
        + (if Importable(e) then [ImageRecord(e.name, e.content.value)] else [])
  }

  /** The names the import loop has reported as failed after visiting `entries`, in listing order. */
  function FailedImports(entries: seq<DirEntry>): (names: seq<string>)
    ensures |names| <= |entries|
  {
    if entries == [] then []
    else
      var e := entries[|entries| - 1];
      FailedImports(entries[..|entries| - 1]) + (if FailedRead(e) then [e.name] else [])
  }

  /** The number of listed names that carry an image extension. */
  function CandidateCount(entries: seq<DirEntry>): (n: nat)
    ensures n <= |entries|
  {
    if entries == [] then 0
    else
      CandidateCount(entries[..|entries| - 1]) + (if HasImageExtension(entries[|entries| - 1].name) then 1 else 0)
  }

  /** An imported record is exactly an image-named entry whose read succeeded, with its content. */
  lemma {:induction false} ImportedImagesExactly(entries: seq<DirEntry>, r: ImageRecord)
    ensures r in ImportedImages(entries) <==>
      exists i :: 0 <= i < |entries| && Importable(entries[i])
                  && r == ImageRecord(entries[i].name, entries[i].content.value)
  {
    if entries != [] {
      var n := |entries| - 1;
      var init := entries[..n];
      ImportedImagesExactly(init, r);
      assert forall i :: 0 <= i < n ==> init[i] == entries[i];
      if r in ImportedImages(entries) && r !in ImportedImages(init) {
        assert Importable(entries[n]) && r == ImageRecord(entries[n].name, entries[n].content.value);
      }
    }
  }

  ghost function ImportableIndices(entries: seq<DirEntry>): set<int> {
    set i | 0 <= i < |entries| && Importable(entries[i])
  }

  /** One record per image-named entry whose read succeeded: `imported_count` is their number. */
  lemma {:induction false} ImportedImagesCount(entries: seq<DirEntry>)
    ensures |ImportedImages(entries)| == |ImportableIndices(entries)|
  {
    if entries != [] {
      var n := |entries| - 1;
      ImportedImagesCount(entries[..n]);
      ImportableIndicesStep(entries);
    }
  }

  /** The importable positions of a listing are those of all but its last entry, plus the last when importable. */
  lemma ImportableIndicesStep(entries: seq<DirEntry>)
    requires entries != []
    ensures var n := |entries| - 1;
      && n !in ImportableIndices(entries[..n])
      && ImportableIndices(entries) ==
           ImportableIndices(entries[..n]) + (if Importable(entries[n]) then {n} else {})
  {
    var n := |entries| - 1;
    assert forall i :: 0 <= i < n ==> entries[..n][i] == entries[i];
  }

  /** A reported failure is exactly the name of an image-named entry whose read raised. */
  lemma {:induction false} FailedImportsExactly(entries: seq<DirEntry>, name: string)
    ensures name in FailedImports(entries) <==>
      exists i :: 0 <= i < |entries| && FailedRead(entries[i]) && entries[i].name == name
  {
    if entries != [] {
      var n := |entries| - 1;
      var init := entries[..n];
      FailedImportsExactly(init, name);
      assert forall i :: 0 <= i < n ==> init[i] == entries[i];
      if name in FailedImports(entries) && name !in FailedImports(init) {
        assert FailedRead(entries[n]) && entries[n].name == name;
      }
    }
  }

  /** Every image-named entry is accounted for: it is either imported or reported as failed. */
  lemma {:induction false} EveryCandidateAccounted(entries: seq<DirEntry>)
    ensures |ImportedImages(entries)| + |FailedImports(entries)| == CandidateCount(entries)
  {
    if entries != [] {
      EveryCandidateAccounted(entries[..|entries| - 1]);
    }
  }

  /** `images_collection.find_one({"filename": name})`: the first record with exactly that name. */
  function FindImage(images: seq<ImageRecord>, name: string): (r: Option<ImageRecord>)
    ensures r.None? <==> forall i :: 0 <= i < |images| ==> images[i].filename != name
    ensures r.Some? ==> exists k :: 0 <= k < |images| && images[k] == r.value && r.value.filename == name
                                    && forall j :: 0 <= j < k ==> images[j].filename != name
  {
    var k := Seqs.FirstIndex(images, (img: ImageRecord) => img.filename == name);
    if k < |images| then Some(images[k]) else None
  }

  /** After an import, a search by name succeeds exactly for the names of imported entries. */
  lemma FoundAfterImport(entries: seq<DirEntry>, name: string)
    ensures FindImage(ImportedImages(entries), name).Some? <==>
      exists i :: 0 <= i < |entries| && Importable(entries[i]) && entries[i].name == name
  {
    var images := ImportedImages(entries);
    if FindImage(images, name).Some? {
      var r := FindImage(images, name).value;
      ImportedImagesExactly(entries, r);
    } else {
      forall i | 0 <= i < |entries| && Importable(entries[i])
        ensures entries[i].name != name
      {
        var r := ImageRecord(entries[i].name, entries[i].content.value);
        ImportedImagesExactly(entries, r);
        var k :| 0 <= k < |images| && images[k] == r;
      }
    }
  }

  /** Upper-case extensions count, other extensions and names that only contain an extension do not. */
  lemma ExtensionExamples()
    ensures HasImageExtension("photo.PNG") && HasImageExtension("scan.Jpeg") && HasImageExtension("a.jpg")
    ensures !HasImageExtension("notes.txt") && !HasImageExtension("photo.png.bak")
  {
    assert Lower("photo.PNG")[5..] == ".png";
    assert Lower("scan.Jpeg")[4..] == ".jpeg";
    assert Lower("a.jpg")[1..] == ".jpg";
    assert Lower("notes.txt")[8] == 't';
    assert Lower("photo.png.bak")[12] == 'k';
  }

  /** Three images and one file of another kind, all readable, give three records. */
  lemma ImportExample(a: string, b: string, c: string, d: string)
    ensures var entries := [DirEntry("a.png", Some(a)), DirEntry("b.JPG", Some(b)),
                            DirEntry("notes.txt", Some(d)), DirEntry("c.jpeg", Some(c))];
      ImportedImages(entries) == [ImageRecord("a.png", a), ImageRecord("b.JPG", b), ImageRecord("c.jpeg", c)]
  {
    var entries := [DirEntry("a.png", Some(a)), DirEntry("b.JPG", Some(b)),
                    DirEntry("notes.txt", Some(d)), DirEntry("c.jpeg", Some(c))];
    assert Lower("a.png")[1..] == ".png";
    assert Lower("b.JPG")[1..] == ".jpg";
    assert Lower("notes.txt")[8] == 't';
    assert Lower("c.jpeg")[1..] == ".jpeg";
    assert Importable(entries[0]) && Importable(entries[1]) && !Importable(entries[2]) && Importable(entries[3]);
    assert entries[..1][..0] == [];
    assert ImportedImages(entries[..1]) == [ImageRecord("a.png", a)];
    assert entries[..2][..1] == entries[..1];
    assert ImportedImages(entries[..2]) == [ImageRecord("a.png", a), ImageRecord("b.JPG", b)];
    assert entries[..3][..2] == entries[..2];
    assert ImportedImages(entries[..3]) == ImportedImages(entries[..2]);
    assert entries[..3] == entries[..|entries| - 1];
  }

  // ---------------------------------------------------------------------------
  // CSV rows

  /** One cell of a parsed row: missing (pandas' NaN) or a value. */
  datatype Cell = Blank | Value(text: string)

  /** A document of the `csv_files` collection: one parsed row, column name to cell. */
  type CsvRecord = map<string, Cell>

  predicate HasContent(row: CsvRecord) {
    exists column :: column in row && row[column] != Blank
  }

  /** `dropna(how='all')`: the rows with at least one non-missing cell, duplicates included, in their order. */
  function KeepNonBlankRows(rows: seq<CsvRecord>): (kept: seq<CsvRecord>)
    ensures |kept| <= |rows|
    ensures forall row :: row in kept <==> row in rows && HasContent(row)
    ensures forall row :: multiset(kept)[row] == if HasContent(row) then multiset(rows)[row] else 0
  {
    Seqs.FilterCounts(rows, HasContent);
    Seqs.Filter(rows, HasContent)
  }

  /** The column the search tab matches image names against. */
  const FileNameColumn := "Nom du fichier"

  predicate NamesFile(row: CsvRecord, name: string) {
    FileNameColumn in row && row[FileNameColumn] == Value(name)
  }

  /**
   * `csv_collection.find({"Nom du fichier": name})`: every row whose file-name
   * cell is exactly `name`, each stored copy once.
   */
  function FindCsvRecords(records: seq<CsvRecord>, name: string): (found: seq<CsvRecord>)
    ensures |found| <= |records|
    ensures forall row :: row in found <==> row in records && NamesFile(row, name)
    ensures forall row :: multiset(found)[row] == if NamesFile(row, name) then multiset(records)[row] else 0
  {
    var p := (row: CsvRecord) => NamesFile(row, name);
    Seqs.FilterCounts(records, p);
    Seqs.Filter(records, p)
  }
}
