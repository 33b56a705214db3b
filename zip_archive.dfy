/**
 * The view of a ZIP container that the digest extractor relies on: the list
 * of entry records in central-directory order, each with its name, its
 * directory flag and what reading its decompressed stream yields. Decoding
 * the container format itself is not part of this model.
 */
module ZipArchive {

  type Bytes = seq<bv8>

  /** What reading one entry's decompressed stream yields. */
  datatype Payload =
    | Data(bytes: Bytes)
    | Unreadable  // the read raises: corrupt stream, bad CRC, unsupported method, ...

  datatype Entry = Entry(name: string, isDir: bool, payload: Payload)

  /** The outcome of opening a path as a ZIP container for reading. */
  datatype Archive =
    | NotOpenable  // missing file, not a ZIP container, permission denied, ...
    | Opened(entries: seq<Entry>)

  /** A file entry (not a directory marker) with the given name. */
  predicate IsFileNamed(e: Entry, name: string) {
    !e.isDir && e.name == name
  }

  /** Processing an entry cannot raise: directories are skipped without being read. */
  predicate Processable(e: Entry) {
    e.isDir || e.payload.Data?
  }

  predicate AllProcessable(es: seq<Entry>) {
    forall j :: 0 <= j < |es| ==> Processable(es[j])
  }

  /**
   * The number of entries the extraction loop gets through: the index of the
   * first file entry whose read raises, or the whole list.
   */
  function StopIndex(es: seq<Entry>): (k: nat)
    ensures k <= |es|
    ensures AllProcessable(es[..k])
    ensures k < |es| ==> !Processable(es[k])
  {
    if es == [] then 0
    else if !Processable(es[0]) then 0
    else
      var k' := StopIndex(es[1..]);
      assert es[..1 + k'] == [es[0]] + es[1..][..k'];
      1 + k'
  }

  /** The loop stops exactly at the first file entry whose read raises. */
  lemma StopIndexAt(es: seq<Entry>, i: nat)
    requires i < |es| && AllProcessable(es[..i]) && !Processable(es[i])
    ensures StopIndex(es) == i
  {
  }

  /** An archive none of whose entries raises is walked to the end. */
  lemma StopIndexAll(es: seq<Entry>)
    requires AllProcessable(es)
    ensures StopIndex(es) == |es|
  {
  }

  /** One more processable entry extends the processable prefix. */
  lemma ProcessableExtend(es: seq<Entry>, i: nat)
    requires i < |es| && AllProcessable(es[..i]) && Processable(es[i])
    ensures AllProcessable(es[..i + 1])
  {
    assert es[..i + 1] == es[..i] + [es[i]];
  }

  /**
   * The first index at which a file entry named `name` occurs, or |es| when
   * there is none.
   */
  function FirstFileIndex(es: seq<Entry>, name: string): (i: nat)
    ensures i <= |es|
    ensures i < |es| ==> IsFileNamed(es[i], name)
    ensures forall j :: 0 <= j < i ==> !IsFileNamed(es[j], name)
  {
    if es == [] then 0
    else if IsFileNamed(es[0], name) then 0
    else 1 + FirstFileIndex(es[1..], name)
  }

  /** Appending an entry does not move the first occurrence of a name already present. */
  lemma FirstFileIndexAppend(es: seq<Entry>, e: Entry, name: string)
    requires FirstFileIndex(es, name) < |es|
    ensures FirstFileIndex(es + [e], name) == FirstFileIndex(es, name)
  {
    var i := FirstFileIndex(es, name);
    assert (es + [e])[i] == es[i];
    assert forall j :: 0 <= j < i ==> (es + [e])[j] == es[j];
  }

  /** A file entry whose name has not occurred yet is that name's first occurrence. */
  lemma FirstFileIndexNew(es: seq<Entry>, e: Entry, name: string)
    requires IsFileNamed(e, name)
    requires forall j :: 0 <= j < |es| ==> !IsFileNamed(es[j], name)
    ensures FirstFileIndex(es + [e], name) == |es|
  {
    assert (es + [e])[|es|] == e;
  }
}
