/**
 * The archive digest extractor: walk the entry list of an archive, skip
 * directory markers, and record `name -> digest(content)` for every file
 * entry in an insertion-ordered dictionary. A failure to open the archive or
 * to read an entry stops the walk; the dictionary built so far is the result.
 *
 * The hashing primitive (MD5, RFC 1321, rendered as lower-case hex) is the
 * parameter `hash`: a deterministic function of the entry's bytes about which
 * nothing else is assumed.
 */
module Extraction {
  import opened ZipArchive
  import opened DigestDict

  /** The dictionary the loop builds from a list of entries none of which raises. */
  function DigestsOf(es: seq<Entry>, hash: Bytes -> Digest): (d: Dict)
    requires AllProcessable(es)
    ensures Valid(d)
    decreases |es|
  {
    if es == [] then Empty()
    else
      var n := |es| - 1;
      assert AllProcessable(es[..n]) by {
        forall j | 0 <= j < n ensures Processable(es[..n][j]) {
          assert es[..n][j] == es[j];
        }
      }
      var d := DigestsOf(es[..n], hash);
      if es[n].isDir then d else Put(d, es[n].name, hash(es[n].payload.bytes))
  }

  /** One more entry at the end: skipped if a directory, otherwise put. */
  lemma DigestsOfSnoc(es: seq<Entry>, e: Entry, hash: Bytes -> Digest)
    requires AllProcessable(es + [e])
    ensures AllProcessable(es)
    ensures DigestsOf(es + [e], hash) ==
            if e.isDir then DigestsOf(es, hash) else Put(DigestsOf(es, hash), e.name, hash(e.payload.bytes))
  {
    assert (es + [e])[..|es|] == es;
    assert forall j :: 0 <= j < |es| ==> (es + [e])[j] == es[j];
  }

  /** An archive none of whose entries raises yields the dictionary of all its entries. */
  lemma ReadableArchiveDigests(es: seq<Entry>, hash: Bytes -> Digest)
    requires AllProcessable(es)
    ensures ArchiveDigests(Opened(es), hash) == DigestsOf(es, hash)
  {
    StopIndexAll(es);
    assert es[..|es|] == es;
  }

  /**
   * The dictionary extraction returns for an archive: empty when it cannot be
   * opened, otherwise built from the entries before the first one whose read
   * raises.
   */
  function ArchiveDigests(a: Archive, hash: Bytes -> Digest): (d: Dict)
    ensures Valid(d)
    ensures a.NotOpenable? ==> Size(d) == 0
  {
    match a
    case NotOpenable => Empty()
    case Opened(es) => DigestsOf(es[..StopIndex(es)], hash)
  }

  /** Extraction raises (and reports an error to the user) part-way or at the start. */
  predicate ExtractionFails(a: Archive) {
    a.NotOpenable? || StopIndex(a.entries) < |a.entries|
  }

  /**
   * The extraction loop. `failed` is whether an exception was caught (the
   * point where the error message is shown); the dictionary is returned in
   * either case.
   */
  method GetZipContentsDigests(a: Archive, hash: Bytes -> Digest) returns (d: Dict, failed: bool)
    ensures d == ArchiveDigests(a, hash)
    ensures failed == ExtractionFails(a)
  {
    d := Empty();
    if a.NotOpenable? {
      return d, true;
    }
    var es := a.entries;
    var i := 0;
    while i < |es|
      invariant i <= |es|
      invariant AllProcessable(es[..i])
      invariant d == DigestsOf(es[..i], hash)
    {
      var e := es[i];
      if !e.isDir {
        match e.payload
        case Unreadable =>
          StopIndexAt(es, i);
          return d, true;
        case Data(bytes) =>
          d := Put(d, e.name, hash(bytes));
      }
      ProcessableExtend(es, i);
      assert es[..i + 1][..i] == es[..i];
      i := i + 1;
    }
    assert es[..i] == es;
    StopIndexAll(es);
    failed := false;
  }

  /** The keys of the dictionary are exactly the names of the file entries. */
  lemma {:induction false} KeysAreFileNames(es: seq<Entry>, hash: Bytes -> Digest, name: string)
    requires AllProcessable(es)
    ensures name in DigestsOf(es, hash).table <==>
            exists i :: 0 <= i < |es| && IsFileNamed(es[i], name)
    decreases |es|
  {
    if es != [] {
      var n := |es| - 1;
      var prefix, last := es[..n], es[n];
      assert es == prefix + [last];
      DigestsOfSnoc(prefix, last, hash);
      KeysAreFileNames(prefix, hash, name);
      var d0, d := DigestsOf(prefix, hash), DigestsOf(es, hash);
      if IsFileNamed(last, name) {
        assert name in d.table;
      } else {
        assert name in d.table <==> name in d0.table;
        if name in d0.table {
          var i :| 0 <= i < n && IsFileNamed(prefix[i], name);
          assert es[i] == prefix[i];
        } else {
          forall i | 0 <= i < |es| ensures !IsFileNamed(es[i], name) {
            if i < n {
              assert es[i] == prefix[i];
            }
          }
        }
      }
    }
  }

  /**
   * Of several file entries with the same name, the last one decides the
   * digest recorded for that name.
   */
  lemma {:induction false} LastFileWins(es: seq<Entry>, hash: Bytes -> Digest, i: nat)
    requires AllProcessable(es)
    requires i < |es| && !es[i].isDir
    requires forall j :: i < j < |es| ==> !IsFileNamed(es[j], es[i].name)
    ensures es[i].payload.Data?
    ensures es[i].name in DigestsOf(es, hash).table
    ensures DigestsOf(es, hash).table[es[i].name] == hash(es[i].payload.bytes)
    decreases |es|
  {
    assert Processable(es[i]);
    var n := |es| - 1;
    var prefix, last := es[..n], es[n];
    assert es == prefix + [last];
    DigestsOfSnoc(prefix, last, hash);
    if i < n {
      assert prefix[i] == es[i];
      forall j | i < j < n ensures !IsFileNamed(prefix[j], prefix[i].name) {
        assert prefix[j] == es[j];
      }
      LastFileWins(prefix, hash, i);
      assert !IsFileNamed(last, es[i].name);
    }
  }

  /**
   * The key order is the order of first occurrence: a key inserted before
   * another first occurs earlier among the file entries, however often either
   * name recurs later.
   */
  lemma {:induction false} KeyOrderIsFirstOccurrence(es: seq<Entry>, hash: Bytes -> Digest, p: nat, q: nat)
    requires AllProcessable(es)
    requires p < q < |DigestsOf(es, hash).order|
    ensures FirstFileIndex(es, DigestsOf(es, hash).order[p])
          < FirstFileIndex(es, DigestsOf(es, hash).order[q])
          < |es|
    decreases |es|
  {
    var n := |es| - 1;
    var prefix, last := es[..n], es[n];
    assert es == prefix + [last];
    DigestsOfSnoc(prefix, last, hash);
    var d0 := DigestsOf(prefix, hash);
    var d := DigestsOf(es, hash);
    KeyFirstIndexStable(prefix, last, hash, d0.order[p]);
    if q < |d0.order| {
      assert d.order[p] == d0.order[p] && d.order[q] == d0.order[q];
      KeyOrderIsFirstOccurrence(prefix, hash, p, q);
      KeyFirstIndexStable(prefix, last, hash, d0.order[q]);
    } else {
      // The key at q is the last entry's name, inserted for the first time.
      assert d.order == d0.order + [last.name] && d.order[q] == last.name && last.name !in d0.table;
      KeysAreFileNames(prefix, hash, last.name);
      FirstFileIndexNew(prefix, last, last.name);
    }
  }

  /** A key of the dictionary built so far keeps its first occurrence when an entry is appended. */
  lemma KeyFirstIndexStable(prefix: seq<Entry>, e: Entry, hash: Bytes -> Digest, k: Name)
    requires AllProcessable(prefix) && k in DigestsOf(prefix, hash).table
    ensures FirstFileIndex(prefix + [e], k) == FirstFileIndex(prefix, k) < |prefix|
  {
    KeysAreFileNames(prefix, hash, k);
    var i :| 0 <= i < |prefix| && IsFileNamed(prefix[i], k);
    FirstFileIndexAppend(prefix, e, k);
  }

  /**
   * A read that fails at entry k leaves the same dictionary as an archive that
   * ended just before entry k: everything from the failing entry on is ignored.
   */
  lemma FailureKeepsPrefix(es: seq<Entry>, hash: Bytes -> Digest, k: nat)
    requires k < |es|
    requires AllProcessable(es[..k]) && !Processable(es[k])
    ensures ExtractionFails(Opened(es))
    ensures ArchiveDigests(Opened(es), hash) == ArchiveDigests(Opened(es[..k]), hash)
  {
    StopIndexAt(es, k);
    StopIndexAll(es[..k]);
    assert es[..k][..k] == es[..k];
  }
}
