/**
 * Python's `dict` from strings to strings, which keeps its keys in insertion order:
 * a sequence of entries with one entry per key.
 */
module Dict {
  import opened Errors

  datatype Entry = Entry(key: string, value: string)

  type Entries = seq<Entry>

  /** `list(d.keys())`. */
  function Keys(m: Entries): seq<string>
  {
    seq(|m|, i requires 0 <= i < |m| => m[i].key)
  }

  /** A dict holds each key once. */
  predicate UniqueKeys(m: Entries)
  {
    forall i, j :: 0 <= i < j < |m| ==> m[i].key != m[j].key
  }

  /** The position of the first entry with key `k`, if there is one. */
  function Find(m: Entries, k: string): (r: Option<nat>)
    ensures r.Some? ==> r.value < |m| && m[r.value].key == k && forall j :: 0 <= j < r.value ==> m[j].key != k
    ensures r.None? ==> forall j :: 0 <= j < |m| ==> m[j].key != k
  {
    if m == [] then None
    else if m[0].key == k then Some(0)
    else match Find(m[1..], k)
      case None => None
      case Some(i) => Some(i + 1)
  }

  /** A key is found exactly when it is one of the keys. */
  lemma FindIffKey(m: Entries, k: string)
    ensures Find(m, k).Some? <==> k in Keys(m)
  {
    var f := Find(m, k);
    if f.Some? {
      assert Keys(m)[f.value] == k;
    }
    if k in Keys(m) {
      var j :| 0 <= j < |m| && Keys(m)[j] == k;
      assert m[j].key == k;
    }
  }

  /** Two entry sequences with the same keys in the same order find every key at the same place. */
  lemma FindSameKeys(m1: Entries, m2: Entries, k: string)
    requires Keys(m1) == Keys(m2)
    ensures Find(m1, k) == Find(m2, k)
  {
    assert |m1| == |Keys(m1)| == |Keys(m2)| == |m2|;
    assert forall j :: 0 <= j < |m1| ==> m1[j].key == Keys(m1)[j] == m2[j].key;
    var f1, f2 := Find(m1, k), Find(m2, k);
    if f1.Some? && f2.Some? {
      assert !(f1.value < f2.value) && !(f2.value < f1.value);
    }
  }

  /** `d.get(k)`. */
  function Get(m: Entries, k: string): Option<string>
  {
    match Find(m, k)
    case None => None
    case Some(i) => Some(m[i].value)
  }

  /**
   * `d[k] = v`: a key already present keeps its position and takes the new value;
   * a new key goes at the end.
   */
  function Put(m: Entries, k: string, v: string): (r: Entries)
    ensures Get(r, k) == Some(v)
    ensures forall k' :: k' != k ==> Get(r, k') == Get(m, k')
    ensures Keys(r) == if k in Keys(m) then Keys(m) else Keys(m) + [k]
    ensures UniqueKeys(m) ==> UniqueKeys(r)
  {
    FindIffKey(m, k);
    match Find(m, k)
    case Some(i) => PutAt(m, i, k, v); m[i := Entry(k, v)]
    case None => PutNew(m, k, v); m + [Entry(k, v)]
  }

  lemma PutAt(m: Entries, i: nat, k: string, v: string)
    requires Find(m, k) == Some(i)
    ensures var r := m[i := Entry(k, v)];
      && Get(r, k) == Some(v)
      && (forall k' :: k' != k ==> Get(r, k') == Get(m, k'))
      && Keys(r) == Keys(m)
      && (UniqueKeys(m) ==> UniqueKeys(r))
  {
    var r := m[i := Entry(k, v)];
    assert Keys(r) == Keys(m);
    forall k' ensures Find(r, k') == Find(m, k') { FindSameKeys(r, m, k'); }
  }

  lemma PutNew(m: Entries, k: string, v: string)
    requires Find(m, k).None?
    ensures var r := m + [Entry(k, v)];
      && Get(r, k) == Some(v)
      && (forall k' :: k' != k ==> Get(r, k') == Get(m, k'))
      && Keys(r) == Keys(m) + [k]
      && (UniqueKeys(m) ==> UniqueKeys(r))
  {
    var r := m + [Entry(k, v)];
    assert r[|m|].key == k;
    assert forall j :: 0 <= j < |m| ==> r[j] == m[j];
    assert Find(r, k) == Some(|m|);
    assert Keys(r) == Keys(m) + [k];
    forall k' | k' != k ensures Get(r, k') == Get(m, k') {
      var fr, fm := Find(r, k'), Find(m, k');
      if fm.Some? {
        assert r[fm.value] == m[fm.value];
        assert fr.Some? && !(fr.value < fm.value);
        assert fr.value < |m| && r[fr.value] == m[fr.value];
      }
    }
  }

  /** In a dict, assigning to a present key changes that entry's value and nothing else. */
  lemma PutExisting(m: Entries, i: nat, v: string)
    requires UniqueKeys(m) && i < |m|
    ensures Put(m, m[i].key, v) == m[i := Entry(m[i].key, v)]
  {
    var f := Find(m, m[i].key);
    FindIffKey(m, m[i].key);
    assert Keys(m)[i] == m[i].key;
    assert !(f.value < i) && !(i < f.value);
  }

  /** The dict that `d = {}` followed by `d[k] = v` for each pair, in order, produces. */
  function FromPairs(ps: Entries): Entries
  {
    if ps == [] then [] else
      var n := |ps| - 1;
      Put(FromPairs(ps[..n]), ps[n].key, ps[n].value)
  }

  /** The value of the last pair with key `k`. */
  function LastValue(ps: Entries, k: string): Option<string>
  {
    if ps == [] then None
    else if ps[|ps| - 1].key == k then Some(ps[|ps| - 1].value)
    else LastValue(ps[..|ps| - 1], k)
  }

  /** The keys in order of their first occurrence, each once. */
  function FirstOccurrences(ks: seq<string>): seq<string>
  {
    if ks == [] then [] else
      var n := |ks| - 1;
      var d := FirstOccurrences(ks[..n]);
      if ks[n] in d then d else d + [ks[n]]
  }

  /** Last write wins: the dict maps each key to the value of the last pair that has it. */
  lemma {:induction false} FromPairsGet(ps: Entries, k: string)
    ensures Get(FromPairs(ps), k) == LastValue(ps, k)
  {
    if ps != [] {
      FromPairsGet(ps[..|ps| - 1], k);
    }
  }

  /** Keys stay where they were first inserted. */
  lemma {:induction false} FromPairsKeys(ps: Entries)
    ensures Keys(FromPairs(ps)) == FirstOccurrences(Keys(ps))
  {
    if ps != [] {
      var n := |ps| - 1;
      FromPairsKeys(ps[..n]);
      assert Keys(ps)[..n] == Keys(ps[..n]);
    }
  }

  /** The result is a dict: no key twice. */
  lemma {:induction false} FromPairsUnique(ps: Entries)
    ensures UniqueKeys(FromPairs(ps))
  {
    if ps != [] {
      FromPairsUnique(ps[..|ps| - 1]);
    }
  }

  /** Pairs that already hold each key once produce themselves, in the same order. */
  lemma {:induction false} FromPairsOfUnique(ps: Entries)
    requires UniqueKeys(ps)
    ensures FromPairs(ps) == ps
  {
    if ps != [] {
      var n := |ps| - 1;
      assert UniqueKeys(ps[..n]);
      FromPairsOfUnique(ps[..n]);
      assert ps[n].key !in Keys(ps[..n]);
      FindIffKey(ps[..n], ps[n].key);
      assert ps[..n] + [ps[n]] == ps;
    }
  }

  /** A Python dict object, which `translate_data` updates in place. */
  class PyDict {
    var items: Entries

    ghost predicate Valid()
      reads this
    {
      UniqueKeys(items)
    }

    constructor (items: Entries)
      requires UniqueKeys(items)
      ensures Valid() && this.items == items
    {
      this.items := items;
    }

    /** `self[k] = v`. */
    method Set(k: string, v: string)
      requires Valid()
      modifies this
      ensures Valid() && items == Put(old(items), k, v)
    {
      items := Put(items, k, v);
    }
  }
}
