/**
 * The comparator window's state and its "Compare ZIP Contents" action: the
 * two selected paths, whether the compare button is enabled, and the report
 * currently shown in the results area. Opening a path is the parameter `fs`
 * (the file system and the ZIP reader together), hashing the parameter `hash`.
 */
module Comparator {
  import opened ZipArchive
  import opened DigestDict
  import opened Extraction
  import opened Comparison

  /** What one press of the compare button leads to. */
  datatype Outcome =
    | MissingInput       // a path is empty: a warning, nothing else
    | NoReport           // a dictionary is empty: the results area is left alone
    | Reported(report: Report)

  /** What the results area shows. */
  datatype Display =
    | Blank
    | Showing(file1: string, file2: string, report: Report)

  /** The outcome of comparing the archives at two paths. */
  function CompareFiles(file1: string, file2: string, fs: string -> Archive, hash: Bytes -> Digest): (o: Outcome)
    ensures o.MissingInput? <==> file1 == [] || file2 == []
    ensures o.NoReport? <==>
            && file1 != [] && file2 != []
            && (Size(ArchiveDigests(fs(file1), hash)) == 0 || Size(ArchiveDigests(fs(file2), hash)) == 0)
    ensures o.Reported? ==> o.report == Compare(ArchiveDigests(fs(file1), hash), ArchiveDigests(fs(file2), hash))
  {
    if file1 == [] || file2 == [] then MissingInput
    else
      var d1, d2 := ArchiveDigests(fs(file1), hash), ArchiveDigests(fs(file2), hash);
      if Size(d1) == 0 || Size(d2) == 0 then NoReport
      else Reported(Compare(d1, d2))
  }

  class ComparatorWindow {
    var file1Path: string
    var file2Path: string
    var compareEnabled: bool
    var results: Display

    constructor ()
      ensures file1Path == [] && file2Path == []
      ensures compareEnabled && results == Blank
    {
      file1Path, file2Path := [], [];
      compareEnabled := true;
      results := Blank;
    }

    /**
     * The compare action. The paths are not changed; the button ends enabled
     * whenever it was disabled for the work; the results area changes only
     * when a report is produced.
     */
    method CompareZipFiles(fs: string -> Archive, hash: Bytes -> Digest) returns (outcome: Outcome)
      modifies this
      ensures outcome == CompareFiles(old(file1Path), old(file2Path), fs, hash)
      ensures file1Path == old(file1Path) && file2Path == old(file2Path)
      ensures compareEnabled == (outcome.MissingInput? ==> old(compareEnabled))
      ensures results == if outcome.Reported? then Showing(file1Path, file2Path, outcome.report)
                         else old(results)
    {
      var file1, file2 := file1Path, file2Path;
      if file1 == [] || file2 == [] {
        return MissingInput;
      }
      compareEnabled := false;
      var d1, failed1 := GetZipContentsDigests(fs(file1), hash);
      var d2, failed2 := GetZipContentsDigests(fs(file2), hash);
      if Size(d1) == 0 || Size(d2) == 0 {
        outcome := NoReport;
      } else {
        var report := DisplayComparisonResults(d1, d2);
        results := Showing(file1, file2, report);
        outcome := Reported(report);
      }
      compareEnabled := true;
    }
  }

  /**
   * An archive compared with itself is reported identical, as long as it
   * yields at least one file digest.
   */
  lemma SelfComparisonReportsIdentical(path: string, fs: string -> Archive, hash: Bytes -> Digest)
    requires path != []
    requires Size(ArchiveDigests(fs(path), hash)) != 0
    ensures CompareFiles(path, path, fs, hash) == Reported(Identical)
  {
    SelfComparisonIdentical(ArchiveDigests(fs(path), hash));
  }

  /** An archive that cannot be opened never leads to a report. */
  lemma UnopenableNeverReported(file1: string, file2: string, fs: string -> Archive, hash: Bytes -> Digest)
    requires fs(file1).NotOpenable? || fs(file2).NotOpenable?
    ensures !CompareFiles(file1, file2, fs, hash).Reported?
  {
  }

  /**
   * Two file entries with one name collapse into one key, so an archive with
   * file entries x, x compared against one with x, y is a count mismatch (1
   * against 2) rather than a report that y is missing.
   */
  lemma DuplicateNameGivesCountMismatch(hash: Bytes -> Digest, x: Name, y: Name, b0: Bytes, b1: Bytes, b2: Bytes)
    requires x != y
    ensures Compare(ArchiveDigests(Opened([Entry(x, false, Data(b0)), Entry(x, false, Data(b1))]), hash),
                    ArchiveDigests(Opened([Entry(x, false, Data(b0)), Entry(y, false, Data(b2))]), hash))
            == CountMismatch(1, 2)
  {
    TwoEntryDigests(Entry(x, false, Data(b0)), Entry(x, false, Data(b1)), hash);
    TwoEntryDigests(Entry(x, false, Data(b0)), Entry(y, false, Data(b2)), hash);
    PutTwice(x, hash(b0), x, hash(b1));
    PutTwice(x, hash(b0), y, hash(b2));
    assert map[x := hash(b1)].Keys == {x};
    assert map[x := hash(b0), y := hash(b2)].Keys == {x, y};
  }

  /**
   * A name present only in the second archive is never reported: with file
   * entries a, c against b, c (same content for c) the only finding is that a
   * is not found in the second archive.
   */
  lemma ExtraInSecondNotReported(hash: Bytes -> Digest, a: Name, b: Name, c: Name, ba: Bytes, bb: Bytes, bc: Bytes)
    requires a != c && b != c && a != b
    ensures Compare(ArchiveDigests(Opened([Entry(a, false, Data(ba)), Entry(c, false, Data(bc))]), hash),
                    ArchiveDigests(Opened([Entry(b, false, Data(bb)), Entry(c, false, Data(bc))]), hash))
            == Different([NotFoundInSecond(a)])
  {
    TwoEntryDigests(Entry(a, false, Data(ba)), Entry(c, false, Data(bc)), hash);
    TwoEntryDigests(Entry(b, false, Data(bb)), Entry(c, false, Data(bc)), hash);
    PutTwice(a, hash(ba), c, hash(bc));
    PutTwice(b, hash(bb), c, hash(bc));
    ExtraInSecondDicts(a, b, c, hash(ba), hash(bb), hash(bc));
  }

  /** The dictionary-level half of `ExtraInSecondNotReported`. */
  lemma ExtraInSecondDicts(a: Name, b: Name, c: Name, ha: Digest, hb: Digest, hc: Digest)
    requires a != c && b != c && a != b
    ensures Compare(Dict([a, c], map[a := ha, c := hc]), Dict([b, c], map[b := hb, c := hc]))
            == Different([NotFoundInSecond(a)])
  {
    var t1, t2 := map[a := ha, c := hc], map[b := hb, c := hc];
    assert t1.Keys == {a, c} && t2.Keys == {b, c};
    assert FindingFor(a, t1, t2) == [NotFoundInSecond(a)];
    assert FindingFor(c, t1, t2) == [];
    FindingsOfTwo(a, c, t1, t2);
  }

  /** The findings for a two-name key order. */
  lemma FindingsOfTwo(x: Name, y: Name, t1: map<Name, Digest>, t2: map<Name, Digest>)
    requires x in t1 && y in t1
    ensures Findings([x, y], t1, t2) == FindingFor(x, t1, t2) + FindingFor(y, t1, t2)
  {
    assert [x, y][..1] == [x] && [x][..0] == [];
    assert Findings([x], t1, t2) == FindingFor(x, t1, t2);
  }

  /** The dictionary of a readable archive with two file entries. */
  lemma TwoEntryDigests(e0: Entry, e1: Entry, hash: Bytes -> Digest)
    requires !e0.isDir && e0.payload.Data? && !e1.isDir && e1.payload.Data?
    ensures ArchiveDigests(Opened([e0, e1]), hash)
            == Put(Put(Empty(), e0.name, hash(e0.payload.bytes)), e1.name, hash(e1.payload.bytes))
  {
    ReadableArchiveDigests([e0, e1], hash);
    assert [e0, e1] == [e0] + [e1] && [e0] == [] + [e0];
    DigestsOfSnoc([], e0, hash);
    DigestsOfSnoc([e0], e1, hash);
  }

  /** Two assignments into an empty dictionary. */
  lemma PutTwice(n0: Name, h0: Digest, n1: Name, h1: Digest)
    ensures n0 == n1 ==> Put(Put(Empty(), n0, h0), n1, h1) == Dict([n0], map[n0 := h1])
    ensures n0 != n1 ==> Put(Put(Empty(), n0, h0), n1, h1) == Dict([n0, n1], map[n0 := h0, n1 := h1])
  {
    var d0 := Put(Empty(), n0, h0);
    assert d0 == Dict([n0], map[n0 := h0]);
  }
}
