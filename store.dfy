/**
 * The gadget store: a Python dict from start address to instruction list.
 * A dict remembers insertion order, so it is modelled as the sequence of its
 * entries; `d[k] = v` replaces the value of an existing key in place and
 * appends a new key at the end.
 */
module Store {
  import opened Wrappers

  datatype Gadget = Gadget(address: int, insns: seq<string>)

  /** A dict `{address: instructions}` as its entries in insertion order. */
  type Dict = seq<Gadget>

  /** `d.values()` */
  function Values(d: Dict): (r: seq<seq<string>>)
    ensures |r| == |d| && forall j :: 0 <= j < |d| ==> r[j] == d[j].insns
  {
    seq(|d|, j requires 0 <= j < |d| => d[j].insns)
  }

  /** `k in d` */
  predicate HasKey(d: Dict, k: int) {
    exists j :: 0 <= j < |d| && d[j].address == k
  }

  /** `d.get(k)`: the value of the first entry with key `k`. */
  function Lookup(d: Dict, k: int): (r: Option<seq<string>>)
    ensures r.Some? <==> HasKey(d, k)
  {
    if d == [] then None
    else if d[0].address == k then Some(d[0].insns)
    else Lookup(d[1..], k)
  }

  /** The value found for `k` is the list of the first entry whose key is `k`. */
  lemma {:induction false} LookupFirst(d: Dict, k: int)
    ensures Lookup(d, k).Some? ==>
      exists j :: 0 <= j < |d| && d[j] == Gadget(k, Lookup(d, k).value) && forall i :: 0 <= i < j ==> d[i].address != k
    decreases |d|
  {
    if d != [] && d[0].address != k && Lookup(d, k).Some? {
      LookupFirst(d[1..], k);
      var v := Lookup(d, k).value;
      var j :| 0 <= j < |d[1..]| && d[1..][j] == Gadget(k, v) && forall i :: 0 <= i < j ==> d[1..][i].address != k;
      assert d[j + 1] == Gadget(k, v);
      assert forall i :: 0 <= i < j + 1 ==> d[i].address != k by {
        forall i | 0 <= i < j + 1 ensures d[i].address != k {
          if i > 0 {
            assert d[i] == d[1..][i - 1];
          }
        }
      }
    } else if d != [] && d[0].address == k {
      assert d[0] == Gadget(k, Lookup(d, k).value);
    }
  }

  /** A real dict never holds a key twice. */
  predicate KeysUnique(d: Dict) {
    forall a, b :: 0 <= a < b < |d| ==> d[a].address != d[b].address
  }

  predicate ContentUnique(d: Dict) {
    forall a, b :: 0 <= a < b < |d| ==> d[a].insns != d[b].insns
  }

  predicate KeysIncreasing(d: Dict) {
    forall a, b :: 0 <= a < b < |d| ==> d[a].address < d[b].address
  }

  /**
   * `d[k] = v`: afterwards `k` maps to `v` and every other key to what it
   * mapped to before; a new key goes to the end, an existing one keeps its place.
   */
  function DictSet(d: Dict, k: int, v: seq<string>): (r: Dict)
    ensures forall a :: Lookup(r, a) == if a == k then Some(v) else Lookup(d, a)
    ensures v in Values(r)
    ensures !HasKey(d, k) ==> r == d + [Gadget(k, v)]
    ensures HasKey(d, k) ==> |r| == |d|
  {
    if d == [] then [Gadget(k, v)]
    else if d[0].address == k then
      var r := [Gadget(k, v)] + d[1..];
      assert Values(r)[0] == v;
      r
    else
      var t := DictSet(d[1..], k, v);
      var r := [d[0]] + t;
      assert Values(t) == Values(r)[1..];
      assert HasKey(d, k) ==> HasKey(d[1..], k);
      assert !HasKey(d, k) ==> !HasKey(d[1..], k);
      r
  }

  lemma {:induction false} DictSetKeysUnique(d: Dict, k: int, v: seq<string>)
    requires KeysUnique(d)
    ensures KeysUnique(DictSet(d, k, v))
  {
    if d != [] && d[0].address != k {
      DictSetKeysUnique(d[1..], k, v);
      var t := DictSet(d[1..], k, v);
      assert !HasKey(d[1..], d[0].address);
      forall j | 0 <= j < |t|
        ensures t[j].address != d[0].address
      {
        var a := t[j].address;
        assert HasKey(t, a);
        assert Lookup(t, a).Some?;
        assert a != k ==> Lookup(d[1..], a).Some?;
        assert Lookup(d[1..], d[0].address).None?;
      }
    }
  }

  /**
   * The store's deduplicating insertion (ropgen.py:260-264): a list already
   * stored under any address leaves the store unchanged; otherwise it is
   * stored under `k`.
   */
  function InsertUnique(d: Dict, k: int, v: seq<string>): (r: Dict)
    ensures v in Values(r)
    ensures v in Values(d) ==> r == d
    ensures v !in Values(d) && !HasKey(d, k) ==> r == d + [Gadget(k, v)]
  {
    if v in Values(d) then d else DictSet(d, k, v)
  }

  /**
   * A list not stored yet is stored under `k`: `k` then maps to it and every
   * other key as before; a new key is appended, and an existing key's entry
   * is replaced in place.
   */
  lemma InsertUniqueStores(d: Dict, k: int, v: seq<string>)
    requires KeysUnique(d) && v !in Values(d)
    ensures forall a :: Lookup(InsertUnique(d, k, v), a) == if a == k then Some(v) else Lookup(d, a)
    ensures !HasKey(d, k) ==> InsertUnique(d, k, v) == d + [Gadget(k, v)]
    ensures HasKey(d, k) ==> |InsertUnique(d, k, v)| == |d|
    ensures HasKey(d, k) ==>
      forall j :: 0 <= j < |d| ==> InsertUnique(d, k, v)[j] == if d[j].address == k then Gadget(k, v) else d[j]
  {
    if HasKey(d, k) {
      DictSetReplaces(d, k, v);
    }
  }

  /** Insertion keeps a store's keys unique and its instruction lists pairwise distinct. */
  lemma InsertKeepsUnique(d: Dict, k: int, v: seq<string>)
    requires KeysUnique(d) && ContentUnique(d)
    ensures KeysUnique(InsertUnique(d, k, v)) && ContentUnique(InsertUnique(d, k, v))
  {
    if v !in Values(d) {
      DictSetKeysUnique(d, k, v);
      if HasKey(d, k) {
        DictSetReplaces(d, k, v);
      }
    }
  }

  /** With unique keys, `d[k] = v` on an existing key changes that one entry. */
  lemma {:induction false} DictSetReplaces(d: Dict, k: int, v: seq<string>)
    requires KeysUnique(d) && HasKey(d, k)
    ensures |DictSet(d, k, v)| == |d|
    ensures forall j :: 0 <= j < |d| ==> DictSet(d, k, v)[j] == if d[j].address == k then Gadget(k, v) else d[j]
    decreases |d|
  {
    var r := DictSet(d, k, v);
    if d[0].address != k {
      var t := d[1..];
      assert HasKey(t, k);
      assert KeysUnique(t);
      DictSetReplaces(t, k, v);
      assert r == [d[0]] + DictSet(t, k, v);
      forall j | 0 < j < |d|
        ensures r[j] == if d[j].address == k then Gadget(k, v) else d[j]
      {
        assert r[j] == DictSet(t, k, v)[j - 1] && d[j] == t[j - 1];
      }
    } else {
      assert r == [Gadget(k, v)] + d[1..];
      assert forall j :: 0 < j < |d| ==> d[j].address != k;
    }
  }

  /** Inserting the same list twice, at any two addresses, is the same as inserting it once. */
  lemma InsertIdempotent(d: Dict, a: int, b: int, v: seq<string>)
    ensures InsertUnique(InsertUnique(d, a, v), b, v) == InsertUnique(d, a, v)
    ensures |InsertUnique(InsertUnique(d, a, v), b, v)| <= |d| + 1
  {
  }
}
