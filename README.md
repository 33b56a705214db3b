# ZIP checksum comparator: a verified model of the comparison core

The ZIP File Checksum Comparator is a small desktop tool. The user picks two ZIP
archives and presses "Compare ZIP Contents". For each archive the tool builds a
dictionary from each file entry's name to the MD5 digest of its decompressed
bytes. It then compares the two dictionaries and reports one of three results:
the two archives hold different numbers of files, they are identical, or a
list of differences (a file missing from the second archive, or a file whose
content differs).

This project models that core in Dafny, in five modules:

- `ZipArchive` (`zip_archive.dfy`): what the extractor sees of an archive. The
  archive either cannot be opened, or it is a list of entries. Each entry has a
  name, a directory flag and a payload: its bytes, or a read that raises. The
  module also defines where the extraction loop stops and where a name first
  occurs.
- `DigestDict` (`digest_dict.dfy`): the insertion-ordered Python dict that maps
  names to digests. `order` is the key order and `table` the contents; `Valid`
  says each key is listed exactly once. `Put` is `d[name] = digest`.
- `Extraction` (`extraction.dfy`): `get_zip_contents_md5`. A method with the
  source's loop, proved equal to a specification function, and the lemmas
  about that function: which keys appear, which digest wins, the key order,
  and the partial result after a failure.
- `Comparison` (`comparison.dfy`): `display_comparison_results` without the
  text widget. A method with the source's loop returns a `Report`: the method
  is proved equal to the `Compare` function, and lemmas state the properties
  of `Compare`.
- `Comparator` (`comparator.dfy`): the window state that `compare_zip_files`
  reads and writes. This is a class with the two paths, whether the compare
  button is enabled, and the report on display. The module also holds the
  guards of `compare_zip_files` as a function and a few scenario lemmas.

Two collaborators are parameters. `hash: Bytes -> Digest` stands for MD5 with
hex rendering: any deterministic function of the bytes. `fs: string -> Archive`
stands for the file system plus the ZIP reader: it gives the archive at a path.

Three behaviours of the code shape the model:

- A failed archive open or entry read does not abort the comparison. The
  extractor catches the exception, shows an error and returns the dictionary
  built so far. The comparison goes ahead whenever both dictionaries are
  non-empty (`FailureKeepsPrefix`, `ArchiveDigests`, `CompareFiles`).
- Key order matters. Findings come out in the first dictionary's insertion
  order, and that order is the order in which each name first appears
  (`KeyOrderIsFirstOccurrence`, `FindingsInKeyOrder`).
- The count check compares the number of distinct file names, not the number
  of entries. Directory entries are not counted, and duplicate names count
  once. So two archives with two file entries each can give a count mismatch
  of 1 against 2 (`DuplicateNameGivesCountMismatch`).

## Model

| member | source | states |
|---|---|---|
| `ZipArchive.StopIndex` | zip-checksum-comparator.py:156-159 | the loop gets through exactly the entries before the first file entry whose read raises: all of those can be processed, and the entry at the stop index (if any) cannot |
| `ZipArchive.FirstFileIndex` | zip-checksum-comparator.py:156-157 | the index of the first file entry with a given name: it is a file entry with that name, and no earlier file entry has that name (the length of the list when there is none) |
| `DigestDict.Empty` | zip-checksum-comparator.py:153 | the empty dict is well formed and has no keys |
| `DigestDict.Put` | zip-checksum-comparator.py:161 | `d[name] = digest` keeps the dict well formed; afterwards `name` maps to `digest` and every other key keeps its presence and its digest; a key that was already present keeps its position and the size stays the same, a new key goes last and the size grows by one |
| `DigestDict.KeysListed` | zip-checksum-comparator.py:185 | every key of a well-formed dict appears in its key order, so iterating over `items()` visits every key |
| `Extraction.DigestsOf` | zip-checksum-comparator.py:156-161 | the dict built from entries that do not raise is always well formed |
| `Extraction.ArchiveDigests` | zip-checksum-comparator.py:151-164 | the extractor's result is well formed, and it is empty when the archive cannot be opened |
| `Extraction.GetZipContentsDigests` | zip-checksum-comparator.py:151-164 | the loop returns exactly `ArchiveDigests` of the archive, the dict built before any failure; `failed` holds exactly when the open failed or the loop stopped before the end |
| `Extraction.KeysAreFileNames` | zip-checksum-comparator.py:156-161 | a name is a key exactly when some non-directory entry has that name; directory entries never give keys |
| `Extraction.LastFileWins` | zip-checksum-comparator.py:161 | when several file entries share a name, the digest of the last of them is the one recorded |
| `Extraction.KeyOrderIsFirstOccurrence` | zip-checksum-comparator.py:153-161 | keys are ordered by the first occurrence of their names among the file entries; a later duplicate never moves a key |
| `Extraction.FailureKeepsPrefix` | zip-checksum-comparator.py:154-164 | a read that raises at entry k makes the extraction fail, and the result is the same dict as for an archive that ended just before entry k |
| `Comparison.Compare` | zip-checksum-comparator.py:177-197 | the report is a count mismatch exactly when the two sizes differ, and then it carries both sizes; a "differences found" report never has an empty list |
| `Comparison.DisplayComparisonResults` | zip-checksum-comparator.py:177-197 | the count check, the loop over the first dict and the verdict give exactly the report `Compare` describes |
| `Comparison.FindingsExactly` | zip-checksum-comparator.py:184-189 | a "not found in second" finding exists exactly for a name of the first dict that the second lacks; a "different content" finding exists exactly for a shared name whose digests differ |
| `Comparison.OnlyInSecondNeverReported` | zip-checksum-comparator.py:185-189 | a name that only the second dict has never appears in any finding |
| `Comparison.FindingsInKeyOrder` | zip-checksum-comparator.py:184-189 | there are at most as many findings as names, and findings appear in the key order of the first dict |
| `Comparison.AtMostOneFindingPerName` | zip-checksum-comparator.py:184-189 | there are never more findings than keys in the first dict, and no name is reported twice |
| `Comparison.NoFindingsIffAgree` | zip-checksum-comparator.py:184-192 | the walk finds nothing exactly when every name it visits is in the second dict with the same digest |
| `Comparison.IdenticalIffEqual` | zip-checksum-comparator.py:177-193 | when the sizes agree, the report is "identical" exactly when both dicts have the same names with the same digests, whatever the key order |
| `Comparison.SelfComparisonIdentical` | zip-checksum-comparator.py:177-193 | a dict compared with itself is reported identical |
| `Comparison.DifferentIffUnequal` | zip-checksum-comparator.py:192-197 | the report is "differences found" exactly when the sizes agree and the dicts differ, and then it lists every finding of the walk, in order |
| `Comparator.CompareFiles` | zip-checksum-comparator.py:118-142 | an empty path gives "missing input"; otherwise an empty dict on either side gives no report; otherwise the report is `Compare` of the two extracted dicts |
| `Comparator.ComparatorWindow.constructor` | zip-checksum-comparator.py:14-16 | the window starts with both paths empty, the compare button enabled and nothing shown |
| `Comparator.ComparatorWindow.CompareZipFiles` | zip-checksum-comparator.py:118-149 | the action returns `CompareFiles` of the current paths and leaves the paths alone; the button ends enabled except after the missing-input warning, which leaves it untouched; the results area shows the two paths and the report when a report is produced, and keeps its earlier contents otherwise |
| `Comparator.SelfComparisonReportsIdentical` | zip-checksum-comparator.py:118-142 | an archive compared with itself is reported identical, provided it yields at least one file digest (reading the path is deterministic: `fs` is a function) |
| `Comparator.UnopenableNeverReported` | zip-checksum-comparator.py:138-139 | when either archive cannot be opened, no report is produced |
| `Comparator.DuplicateNameGivesCountMismatch` | zip-checksum-comparator.py:161 | entries x, x against x, y give a count mismatch of 1 against 2, because the duplicate name collapses into one key |
| `Comparator.ExtraInSecondNotReported` | zip-checksum-comparator.py:184-189 | a, c against b, c with the same content for c gives exactly one finding: a is not found in the second archive; b is never mentioned |

## Left out

- The Tk window: layout, the file dialog of `browse_file`, the entry widgets,
  the scrollbar, the report's header and text, and the colour tags. The paths
  are public fields of `ComparatorWindow`, set by whoever holds the window. The
  text in the results area is modelled as the `Display` value it renders.
- Message boxes. The missing-input warning is the `MissingInput` outcome. The
  "Could not read ZIP file" error is the `failed` result of
  `GetZipContentsDigests`. `CompareZipFiles` does not record how many error
  boxes were shown.
- The disabled state of the compare button while the work runs. The model is
  sequential, so only the final enabled state can be observed.
- The outer `except` in `compare_zip_files`. The extractor catches every
  exception itself, so only the text widget could raise there, and the widget
  is not part of this model.
- ZIP container decoding and MD5 hashing (RFC 1321). They are the `fs` and
  `hash` parameters, and the entry list is what `infolist()` returns. Closing
  the archive and the entry streams (the `with` blocks) has no effect on the
  result and is not modelled.
- The exact exception types. Only where the first failure happens matters: at
  the open, or at the read of a particular entry.
- Reading a path is assumed deterministic. `fs` is a function, so the two
  extractions in one comparison (zip-checksum-comparator.py:134-135) see the
  same archive and fail at the same entry. The model does not capture a file
  replaced between the two reads, or a read error that happens only once
  (line 162 catches every exception, MemoryError included). Either of those
  can turn a self-comparison into a count mismatch or a list of differences,
  so `SelfComparisonReportsIdentical` holds only under this assumption.
