/**
 * The digest comparator: given the dictionaries of the first and the second
 * archive, report a count mismatch, or walk the first dictionary in key order
 * collecting one finding per name that is missing from the second dictionary
 * or maps there to a different digest.
 */
module Comparison {
  import opened DigestDict

  datatype Finding =
    | NotFoundInSecond(name: Name)  // "File <name> not found in second ZIP"
    | DifferentContent(name: Name)  // "File <name> has different content"

  datatype Report =
    | CountMismatch(count1: nat, count2: nat)  // "Different number of files"
    | Identical                                 // "ZIP files have identical contents!"
    | Different(findings: seq<Finding>)         // "Differences found:" and one line per finding

  predicate AllIn(names: seq<Name>, t: map<Name, Digest>) {
    forall i :: 0 <= i < |names| ==> names[i] in t
  }

  /** The finding (at most one) for a single name of the first dictionary. */
  function FindingFor(name: Name, t1: map<Name, Digest>, t2: map<Name, Digest>): seq<Finding>
    requires name in t1
  {
    if name !in t2 then [NotFoundInSecond(name)]
    else if t1[name] != t2[name] then [DifferentContent(name)]
    else []
  }

  /** Each finding names an element of `names`, and later findings name later elements. */
  predicate FollowsOrder(fs: seq<Finding>, names: seq<Name>) {
    forall i, j :: 0 <= i < j < |fs| ==>
      exists p, q :: 0 <= p < q < |names| && names[p] == fs[i].name && names[q] == fs[j].name
  }

  /** The findings for `names`, collected in the order of `names`. */
  function Findings(names: seq<Name>, t1: map<Name, Digest>, t2: map<Name, Digest>): seq<Finding>
    requires AllIn(names, t1)
    decreases |names|
  {
    if names == [] then []
    else
      var n := |names| - 1;
      Findings(names[..n], t1, t2) + FindingFor(names[n], t1, t2)
  }

  /** Walking one more name appends that name's finding, if any. */
  lemma FindingsStep(names: seq<Name>, i: nat, t1: map<Name, Digest>, t2: map<Name, Digest>)
    requires i < |names| && AllIn(names, t1)
    ensures AllIn(names[..i], t1) && AllIn(names[..i + 1], t1)
    ensures Findings(names[..i + 1], t1, t2) == Findings(names[..i], t1, t2) + FindingFor(names[i], t1, t2)
  {
    assert names[..i + 1][..i] == names[..i];
  }

  /** The report of comparing two dictionaries. */
  function Compare(d1: Dict, d2: Dict): (r: Report)
    requires Valid(d1) && Valid(d2)
    ensures r.CountMismatch? <==> Size(d1) != Size(d2)
    ensures r.CountMismatch? ==> r.count1 == Size(d1) && r.count2 == Size(d2)
    ensures r.Different? ==> r.findings != []
  {
    if Size(d1) != Size(d2) then CountMismatch(Size(d1), Size(d2))
    else
      var fs := Findings(d1.order, d1.table, d2.table);
      if fs == [] then Identical else Different(fs)
  }

  /**
   * The comparison loop: the count check, then one pass over the first
   * dictionary in key order appending findings, then the verdict.
   */
  method DisplayComparisonResults(d1: Dict, d2: Dict) returns (r: Report)
    requires Valid(d1) && Valid(d2)
    ensures r == Compare(d1, d2)
  {
    if Size(d1) != Size(d2) {
      return CountMismatch(Size(d1), Size(d2));
    }
    var differentFiles: seq<Finding> := [];
    var i := 0;
    while i < |d1.order|
      invariant i <= |d1.order|
      invariant differentFiles == Findings(d1.order[..i], d1.table, d2.table)
    {
      var name := d1.order[i];
      if name !in d2.table {
        differentFiles := differentFiles + [NotFoundInSecond(name)];
      } else if d1.table[name] != d2.table[name] {
        differentFiles := differentFiles + [DifferentContent(name)];
      }
      FindingsStep(d1.order, i, d1.table, d2.table);
      i := i + 1;
    }
    assert d1.order[..i] == d1.order;
    if differentFiles == [] {
      r := Identical;
    } else {
      r := Different(differentFiles);
    }
  }

  /**
   * A finding is produced exactly for a name of the first dictionary that is
   * absent from the second (not found) or present with another digest
   * (different content).
   */
  lemma {:induction false} FindingsExactly(names: seq<Name>, t1: map<Name, Digest>, t2: map<Name, Digest>, f: Finding)
    requires AllIn(names, t1)
    ensures f in Findings(names, t1, t2) <==>
            && f.name in names
            && (f.NotFoundInSecond? ==> f.name !in t2)
            && (f.DifferentContent? ==> f.name in t2 && t1[f.name] != t2[f.name])
    decreases |names|
  {
    if names != [] {
      var n := |names| - 1;
      var prefix := names[..n];
      assert names == prefix + [names[n]];
      FindingsExactly(prefix, t1, t2, f);
    }
  }

  /** No finding is ever produced for a name that only the second dictionary has. */
  lemma OnlyInSecondNeverReported(d1: Dict, d2: Dict, name: Name)
    requires Valid(d1) && Valid(d2)
    requires name !in d1.table
    ensures forall f :: f in Findings(d1.order, d1.table, d2.table) ==> f.name != name
  {
    forall f | f in Findings(d1.order, d1.table, d2.table) ensures f.name != name {
      FindingsExactly(d1.order, d1.table, d2.table, f);
    }
  }

  /**
   * The findings follow the key order of the first dictionary, with at most
   * one finding per name.
   */
  lemma {:induction false} FindingsInKeyOrder(names: seq<Name>, t1: map<Name, Digest>, t2: map<Name, Digest>)
    requires AllIn(names, t1) && Distinct(names)
    ensures |Findings(names, t1, t2)| <= |names|
    ensures FollowsOrder(Findings(names, t1, t2), names)
    decreases |names|
  {
    if names != [] {
      var n := |names| - 1;
      var prefix, last := names[..n], names[n];
      assert names == prefix + [last];
      FindingsStep(names, n, t1, t2);
      assert names[..n + 1] == names;
      var fs0 := Findings(prefix, t1, t2);
      var fs := Findings(names, t1, t2);
      assert fs == fs0 + FindingFor(last, t1, t2);
      assert Distinct(prefix);
      FindingsInKeyOrder(prefix, t1, t2);
      forall i, j | 0 <= i < j < |fs|
        ensures exists p, q :: 0 <= p < q < |names| && names[p] == fs[i].name && names[q] == fs[j].name
      {
        assert fs[i] == fs0[i];
        if j < |fs0| {
          assert fs[j] == fs0[j];
          assert exists p, q :: 0 <= p < q < |prefix| && prefix[p] == fs0[i].name && prefix[q] == fs0[j].name;
          var p, q :| 0 <= p < q < |prefix| && prefix[p] == fs0[i].name && prefix[q] == fs0[j].name;
          assert names[p] == prefix[p] && names[q] == prefix[q];
        } else {
          assert fs[j] == FindingFor(last, t1, t2)[0] && fs[j].name == last;
          assert fs0[i] in fs0;
          FindingsExactly(prefix, t1, t2, fs0[i]);
          var p :| 0 <= p < |prefix| && prefix[p] == fs0[i].name;
          assert names[p] == fs[i].name && names[n] == fs[j].name;
        }
      }
      assert FollowsOrder(fs, names);
    }
  }

  /**
   * The walk over the first dictionary reports each name at most once, so
   * there are never more findings than names in the first dictionary.
   */
  lemma AtMostOneFindingPerName(d1: Dict, d2: Dict)
    requires Valid(d1) && Valid(d2)
    ensures |Findings(d1.order, d1.table, d2.table)| <= Size(d1)
    ensures forall i, j :: 0 <= i < j < |Findings(d1.order, d1.table, d2.table)| ==>
              Findings(d1.order, d1.table, d2.table)[i].name != Findings(d1.order, d1.table, d2.table)[j].name
  {
    var fs := Findings(d1.order, d1.table, d2.table);
    FindingsInKeyOrder(d1.order, d1.table, d2.table);
    assert FollowsOrder(fs, d1.order);
    forall i, j | 0 <= i < j < |fs| ensures fs[i].name != fs[j].name {
      var p, q :| 0 <= p < q < |d1.order| && d1.order[p] == fs[i].name && d1.order[q] == fs[j].name;
    }
  }

  /** Every name of `names` agrees on the two tables exactly when there are no findings. */
  lemma {:induction false} NoFindingsIffAgree(names: seq<Name>, t1: map<Name, Digest>, t2: map<Name, Digest>)
    requires AllIn(names, t1)
    ensures Findings(names, t1, t2) == [] <==>
            forall i :: 0 <= i < |names| ==> names[i] in t2 && t1[names[i]] == t2[names[i]]
    decreases |names|
  {
    if names != [] {
      var n := |names| - 1;
      var prefix := names[..n];
      NoFindingsIffAgree(prefix, t1, t2);
      assert forall i :: 0 <= i < n ==> names[i] == prefix[i];
    }
  }

  /**
   * When the counts agree, the comparison finds no difference exactly when
   * the two dictionaries have the same names with the same digests (the key
   * order does not matter).
   */
  lemma IdenticalIffEqual(d1: Dict, d2: Dict)
    requires Valid(d1) && Valid(d2) && Size(d1) == Size(d2)
    ensures Compare(d1, d2) == Identical <==> d1.table == d2.table
  {
    NoFindingsIffAgree(d1.order, d1.table, d2.table);
    if Findings(d1.order, d1.table, d2.table) == [] {
      forall k | k in d1.table ensures k in d2.table && d1.table[k] == d2.table[k] {
        KeysListed(d1, k);
        var i :| 0 <= i < |d1.order| && d1.order[i] == k;
      }
      SubsetOfSameSize(d1.table.Keys, d2.table.Keys);
    }
  }

  /** A dictionary compared with itself is identical. */
  lemma SelfComparisonIdentical(d: Dict)
    requires Valid(d)
    ensures Compare(d, d) == Identical
  {
    IdenticalIffEqual(d, d);
  }

  /**
   * The report lists differences exactly when the counts agree and the
   * dictionaries differ, and then it lists every finding of the walk.
   */
  lemma DifferentIffUnequal(d1: Dict, d2: Dict)
    requires Valid(d1) && Valid(d2)
    ensures Compare(d1, d2).Different? <==> Size(d1) == Size(d2) && d1.table != d2.table
    ensures Compare(d1, d2).Different? ==>
            Compare(d1, d2).findings == Findings(d1.order, d1.table, d2.table)
  {
    if Size(d1) == Size(d2) {
      IdenticalIffEqual(d1, d2);
    }
  }
}
