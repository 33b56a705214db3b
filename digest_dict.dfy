/**
 * The insertion-ordered dictionary from entry name to content digest that the
 * extractor builds (a Python dict): `order` lists the keys in the order they
 * were first inserted, `table` holds the current digest of each key.
 */
module DigestDict {

  type Name = string

  /** A digest as the hashing primitive renders it (MD5 in lower-case hex). */
  type Digest = string

  datatype Dict = Dict(order: seq<Name>, table: map<Name, Digest>)

  predicate Distinct(s: seq<Name>) {
    forall i, j :: 0 <= i < j < |s| ==> s[i] != s[j]
  }

  /**
   * The key order lists every key of the table exactly once: its names are
   * distinct keys, and there are as many of them as keys (see `KeysListed`).
   */
  predicate Valid(d: Dict) {
    && Distinct(d.order)
    && (forall i :: 0 <= i < |d.order| ==> d.order[i] in d.table)
    && |d.table| == |d.order|
  }

  /** `len(d)`: the number of keys. */
  function Size(d: Dict): nat {
    |d.table|
  }

  /** `{}` */
  function Empty(): (d: Dict)
    ensures Valid(d) && Size(d) == 0
  {
    Dict([], map[])
  }

  /**
   * `d[name] = digest`: the key now maps to `digest` and nothing else
   * changes; an existing key keeps its position, a new key goes last.
   */
  function Put(d: Dict, name: Name, digest: Digest): (r: Dict)
    requires Valid(d)
    ensures Valid(r)
    ensures name in r.table && r.table[name] == digest
    ensures forall k :: k != name ==> (k in r.table <==> k in d.table)
    ensures forall k :: k != name && k in d.table ==> r.table[k] == d.table[k]
    ensures name in d.table ==> r.order == d.order && Size(r) == Size(d)
    ensures name !in d.table ==> r.order == d.order + [name] && Size(r) == Size(d) + 1
  {
    if name in d.table then Dict(d.order, d.table[name := digest])
    else Dict(d.order + [name], d.table[name := digest])
  }

  /** Every key of a well-formed dictionary appears in its key order. */
  lemma KeysListed(d: Dict, k: Name)
    requires Valid(d) && k in d.table
    ensures k in d.order
  {
    var listed := set x | x in d.order;
    assert listed <= d.table.Keys;
    DistinctElements(d.order);
    SubsetOfSameSize(listed, d.table.Keys);
    assert k in listed;
  }

  /** A sequence without repetitions has as many distinct elements as it is long. */
  lemma {:induction false} DistinctElements(s: seq<Name>)
    requires Distinct(s)
    ensures |set x | x in s| == |s|
    decreases |s|
  {
    if s != [] {
      var n := |s| - 1;
      var prefix := s[..n];
      assert s == prefix + [s[n]];
      assert Distinct(prefix);
      DistinctElements(prefix);
      assert (set x | x in s) == (set x | x in prefix) + {s[n]};
      assert s[n] !in prefix;
    }
  }

  /** A subset with as many elements as its superset is the superset. */
  lemma {:induction false} SubsetOfSameSize(a: set<Name>, b: set<Name>)
    requires a <= b && |a| == |b|
    ensures a == b
    decreases |a|
  {
    if a != {} {
      var x :| x in a;
      assert |a - {x}| == |a| - 1 && |b - {x}| == |b| - 1;
      SubsetOfSameSize(a - {x}, b - {x});
      assert a == (a - {x}) + {x} && b == (b - {x}) + {x};
    }
  }
}
