/**
 * The directory snapshot: an insertion-ordered dictionary from entry name to
 * `None` (a leaf) or a nested dictionary (a subdirectory), and the counter
 * `count_structure_items` over it (main.py:356-362).
 */
module Snapshot {
  import opened Wrappers

  /** One key of a snapshot level and its value. */
  datatype Item = Item(name: string, child: Option<Structure>)

  /** A Python dict, kept as its sequence of items in insertion order. */
  datatype Structure = Structure(items: seq<Item>)

  const Empty: Structure := Structure([])

  function Keys(s: Structure): (ks: seq<string>)
    ensures |ks| == |s.items|
    ensures forall i | 0 <= i < |s.items| :: ks[i] == s.items[i].name
  {
    seq(|s.items|, i requires 0 <= i < |s.items| => s.items[i].name)
  }

  /** The dict invariant: no key is stored twice. */
  predicate UniqueKeys(s: Structure)
  {
    forall i, j | 0 <= i < j < |s.items| :: s.items[i].name != s.items[j].name
  }

  /** The dict invariant at every nesting level. */
  predicate WellFormed(s: Structure)
    decreases s
  {
    UniqueKeys(s) &&
    forall i | 0 <= i < |s.items| && s.items[i].child.Some? :: WellFormed(s.items[i].child.value)
  }

  /** Position of key `k`, if it is stored. */
  function Find(items: seq<Item>, k: string): (r: Option<nat>)
    ensures r.Some? ==> r.value < |items| && items[r.value].name == k
    ensures r.None? <==> forall j | 0 <= j < |items| :: items[j].name != k
  {
    if items == [] then None
    else if items[0].name == k then Some(0)
    else match Find(items[1..], k)
      case None => None
      case Some(j) => Some(j + 1)
  }

  /**
   * Dict assignment `s[k] = v`: an existing key keeps its position and gets
   * the new value; a new key is appended at the end.
   */
  function Put(s: Structure, k: string, v: Option<Structure>): (r: Structure)
    requires UniqueKeys(s)
    ensures UniqueKeys(r)
    ensures k in Keys(s) ==>
      |r.items| == |s.items| &&
      forall i | 0 <= i < |s.items| ::
        r.items[i] == if s.items[i].name == k then Item(k, v) else s.items[i]
    ensures k !in Keys(s) ==> r.items == s.items + [Item(k, v)]
  {
    match Find(s.items, k)
    case Some(i) => Structure(s.items[i := Item(k, v)])
    case None => Structure(s.items + [Item(k, v)])
  }

  /** Assignment keeps the dict invariant at every level when the stored value satisfies it. */
  lemma PutWellFormed(s: Structure, k: string, v: Option<Structure>)
    requires WellFormed(s)
    requires v.Some? ==> WellFormed(v.value)
    ensures WellFormed(Put(s, k, v))
  {
    var r := Put(s, k, v);
    forall i | 0 <= i < |r.items| && r.items[i].child.Some? ensures WellFormed(r.items[i].child.value) {
      if i < |s.items| && r.items[i] == s.items[i] {
      } else {
        assert r.items[i] == Item(k, v);
      }
    }
  }

  /** Number of keys at every nesting level: each key is 1 plus the count of its sub-map. */
  function Count(s: Structure): (n: nat)
    ensures n >= |s.items|
    ensures n == 0 <==> s.items == []
    decreases s, 1
  {
    CountFrom(s, 0)
  }

  /** Count of the keys from position `i` on, with everything beneath them. */
  function CountFrom(s: Structure, i: nat): (n: nat)
    ensures i <= |s.items| ==> n >= |s.items| - i
    decreases s, 0, |s.items| - i
  {
    if i >= |s.items| then 0
    else
      1 + (if s.items[i].child.Some? then Count(s.items[i].child.value) else 0)
        + CountFrom(s, i + 1)
  }

  /** A single key contributes 1 plus the count of its sub-map. */
  lemma CountSingle(it: Item)
    ensures Count(Structure([it])) == 1 + (if it.child.Some? then Count(it.child.value) else 0)
  {
    assert CountFrom(Structure([it]), 1) == 0;
  }

  lemma {:induction false} CountFromSuffix(a: seq<Item>, b: seq<Item>, j: nat)
    requires j <= |b|
    ensures CountFrom(Structure(a + b), |a| + j) == CountFrom(Structure(b), j)
    decreases |b| - j
  {
    if j < |b| {
      CountFromSuffix(a, b, j + 1);
      assert (a + b)[|a| + j] == b[j];
    }
  }

  lemma {:induction false} CountFromPrefix(a: seq<Item>, b: seq<Item>, i: nat)
    requires i <= |a|
    ensures CountFrom(Structure(a + b), i) == CountFrom(Structure(a), i) + Count(Structure(b))
    decreases |a| - i
  {
    if i < |a| {
      CountFromPrefix(a, b, i + 1);
      assert (a + b)[i] == a[i];
    } else {
      CountFromSuffix(a, b, 0);
    }
  }

  /** The count is additive over the items: joining two key lists adds their counts. */
  lemma CountConcat(a: seq<Item>, b: seq<Item>)
    ensures Count(Structure(a + b)) == Count(Structure(a)) + Count(Structure(b))
  {
    CountFromPrefix(a, b, 0);
  }

  /** count_structure_items: the accumulating loop, recursing into sub-maps (main.py:356-362). */
  method CountStructureItems(s: Structure) returns (total: nat)
    ensures total == Count(s)
    decreases s
  {
    total := 0;
    var i := 0;
    while i < |s.items|
      invariant 0 <= i <= |s.items|
      invariant total + CountFrom(s, i) == Count(s)
    {
      var item := s.items[i];
      total := total + 1;
      if item.child.Some? {
        var sub := CountStructureItems(item.child.value);
        total := total + sub;
      }
      i := i + 1;
    }
  }
}
