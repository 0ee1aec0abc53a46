/**
 * The order in which the scanner visits a directory's entries:
 * `sorted(path_obj.iterdir(), key=lambda x: (x.is_file(), x.name.lower()))`
 * (main.py:347). The key is a pair compared lexicographically, `False`
 * before `True`, so everything that is not a regular file comes first;
 * strings compare code point by code point, a proper prefix first. Python's
 * sort is stable, so entries with equal keys keep their listing order; an
 * insertion sort that puts a new element before its equals has the same
 * result.
 */
module SortOrder {
  import opened FileSystem
  import opened SeqFacts

  /** `str.lower()` on one character, for the ASCII letters. */
  function LowerChar(c: char): char
  {
    if 'A' <= c <= 'Z' then (c as int + 32) as char else c
  }

  function Lower(s: string): (r: string)
    ensures |r| == |s|
    ensures forall i | 0 <= i < |s| :: r[i] == LowerChar(s[i])
  {
    seq(|s|, i requires 0 <= i < |s| => LowerChar(s[i]))
  }

  /** Python's `a <= b` on strings. */
  predicate StrLe(a: string, b: string)
  {
    a == [] || (b != [] && (a[0] < b[0] || (a[0] == b[0] && StrLe(a[1..], b[1..]))))
  }

  lemma {:induction false} StrLeReflexive(a: string)
    ensures StrLe(a, a)
  {
    if a != [] { StrLeReflexive(a[1..]); }
  }

  lemma {:induction false} StrLeTotal(a: string, b: string)
    ensures StrLe(a, b) || StrLe(b, a)
  {
    if a != [] && b != [] && a[0] == b[0] { StrLeTotal(a[1..], b[1..]); }
  }

  lemma {:induction false} StrLeTransitive(a: string, b: string, c: string)
    requires StrLe(a, b) && StrLe(b, c)
    ensures StrLe(a, c)
  {
    if a != [] && a[0] == b[0] && b[0] == c[0] { StrLeTransitive(a[1..], b[1..], c[1..]); }
  }

  lemma {:induction false} StrLeAntisymmetric(a: string, b: string)
    requires StrLe(a, b) && StrLe(b, a)
    ensures a == b
  {
    if a != [] {
      StrLeAntisymmetric(a[1..], b[1..]);
      assert a == [a[0]] + a[1..] && b == [b[0]] + b[1..];
    }
  }

  /** The sort key `(x.is_file(), x.name.lower())`. */
  datatype SortKey = SortKey(isFile: bool, lowered: string)

  function KeyOf(e: FsEntry): (k: SortKey)
    ensures k.isFile <==> e.node.RegularFile?
    ensures |k.lowered| == |e.name|
  {
    SortKey(e.node.RegularFile?, Lower(e.name))
  }

  /** Python's `<=` on the key tuples. */
  predicate KeyLe(a: SortKey, b: SortKey)
  {
    if a.isFile != b.isFile then !a.isFile else StrLe(a.lowered, b.lowered)
  }

  lemma KeyLeReflexive(a: SortKey)
    ensures KeyLe(a, a)
  {
    StrLeReflexive(a.lowered);
  }

  lemma KeyLeTotal(a: SortKey, b: SortKey)
    ensures KeyLe(a, b) || KeyLe(b, a)
  {
    StrLeTotal(a.lowered, b.lowered);
  }

  lemma KeyLeTransitive(a: SortKey, b: SortKey, c: SortKey)
    requires KeyLe(a, b) && KeyLe(b, c)
    ensures KeyLe(a, c)
  {
    if a.isFile == b.isFile == c.isFile { StrLeTransitive(a.lowered, b.lowered, c.lowered); }
  }

  /** Sorted by key, every pair considered. */
  predicate SortedByKey(r: seq<FsEntry>)
  {
    forall i, j | 0 <= i < j < |r| :: KeyLe(KeyOf(r[i]), KeyOf(r[j]))
  }

  /** Insert `x` before the first element whose key is not smaller than its own. */
  function Insert(x: FsEntry, r: seq<FsEntry>): (q: seq<FsEntry>)
    ensures |q| == |r| + 1
    ensures multiset(q) == multiset(r) + multiset{x}
    ensures forall e | e in q :: e == x || e in r
  {
    if r == [] || KeyLe(KeyOf(x), KeyOf(r[0])) then [x] + r
    else
      assert r == [r[0]] + r[1..];
      [r[0]] + Insert(x, r[1..])
  }

  /** `sorted(entries, key=KeyOf)`. */
  function SortEntries(s: seq<FsEntry>): (r: seq<FsEntry>)
    ensures |r| == |s|
    ensures multiset(r) == multiset(s)
    ensures forall e | e in r :: e in s
  {
    if s == [] then []
    else
      assert s == [s[0]] + s[1..];
      Insert(s[0], SortEntries(s[1..]))
  }

  lemma {:induction false} InsertSorted(x: FsEntry, r: seq<FsEntry>)
    requires SortedByKey(r)
    ensures SortedByKey(Insert(x, r))
  {
    if r == [] {
      assert Insert(x, r) == [x];
    } else if KeyLe(KeyOf(x), KeyOf(r[0])) {
      forall j | 0 <= j < |r| ensures KeyLe(KeyOf(x), KeyOf(r[j])) {
        if j > 0 { KeyLeTransitive(KeyOf(x), KeyOf(r[0]), KeyOf(r[j])); }
      }
      SortedCons(x, r);
    } else {
      var tail := r[1..];
      InsertSorted(x, tail);
      var q' := Insert(x, tail);
      KeyLeTotal(KeyOf(x), KeyOf(r[0]));
      forall j | 0 <= j < |q'| ensures KeyLe(KeyOf(r[0]), KeyOf(q'[j])) {
        assert q'[j] in q';
        if q'[j] != x {
          var m :| 0 <= m < |tail| && tail[m] == q'[j];
          assert r[m + 1] == q'[j];
        }
      }
      assert Insert(x, r) == [r[0]] + q';
      SortedCons(r[0], q');
    }
  }

  lemma SortedCons(y: FsEntry, q: seq<FsEntry>)
    requires SortedByKey(q)
    requires forall j | 0 <= j < |q| :: KeyLe(KeyOf(y), KeyOf(q[j]))
    ensures SortedByKey([y] + q)
  {
    var r := [y] + q;
    forall i, j | 0 <= i < j < |r| ensures KeyLe(KeyOf(r[i]), KeyOf(r[j])) {
      assert r[j] == q[j - 1];
      if i > 0 { assert r[i] == q[i - 1]; }
    }
  }

  /** The key puts every entry that is not a regular file, directories and others alike, first. */
  lemma {:induction false} SortEntriesSorted(s: seq<FsEntry>)
    ensures SortedByKey(SortEntries(s))
  {
    if s != [] {
      SortEntriesSorted(s[1..]);
      InsertSorted(s[0], SortEntries(s[1..]));
    }
  }

  /**
   * What the ordering means, stated without the key: no regular file precedes
   * an entry that is not one, and within each of the two groups the lowered
   * names never decrease.
   */
  lemma SortEntriesGroups(s: seq<FsEntry>)
    ensures var r := SortEntries(s);
      (forall i, j | 0 <= i < j < |r| :: r[i].node.RegularFile? ==> r[j].node.RegularFile?) &&
      (forall i, j | 0 <= i < j < |r| && r[i].node.RegularFile? == r[j].node.RegularFile? ::
         StrLe(Lower(r[i].name), Lower(r[j].name)))
  {
    SortEntriesSorted(s);
  }

  /** The entries of `s` whose key is `k`, in their order in `s`. */
  function WithKey(s: seq<FsEntry>, k: SortKey): seq<FsEntry>
  {
    if s == [] then []
    else (if KeyOf(s[0]) == k then [s[0]] else []) + WithKey(s[1..], k)
  }

  lemma {:induction false} WithKeyConcat(a: seq<FsEntry>, b: seq<FsEntry>, k: SortKey)
    ensures WithKey(a + b, k) == WithKey(a, k) + WithKey(b, k)
  {
    if a == [] {
      assert a + b == b;
    } else {
      assert (a + b)[1..] == a[1..] + b;
      WithKeyConcat(a[1..], b, k);
    }
  }

  lemma WithKeySingle(y: FsEntry, k: SortKey)
    ensures WithKey([y], k) == if KeyOf(y) == k then [y] else []
  {
    assert [y][1..] == [];
  }

  lemma {:induction false} InsertStable(x: FsEntry, r: seq<FsEntry>, k: SortKey)
    ensures WithKey(Insert(x, r), k) == WithKey([x] + r, k)
  {
    if r != [] && !KeyLe(KeyOf(x), KeyOf(r[0])) {
      var y, tail := r[0], r[1..];
      assert r == [y] + tail;
      assert Insert(x, r) == [y] + Insert(x, tail);
      var wx, wy, wt := WithKey([x], k), WithKey([y], k), WithKey(tail, k);
      KeyLeReflexive(KeyOf(x));
      WithKeyApart(x, y, k);
      InsertStable(x, tail, k);
      WithKeyConcat([y], Insert(x, tail), k);
      WithKeyConcat([x], tail, k);
      assert WithKey(Insert(x, r), k) == wy + (wx + wt);
      SwapEmpty(wy, wx, wt);
      WithKeyConcat([y], tail, k);
      WithKeyConcat([x], r, k);
    }
  }

  /** Entries with different keys are never both kept by one key filter. */
  lemma WithKeyApart(x: FsEntry, y: FsEntry, k: SortKey)
    requires KeyOf(x) != KeyOf(y)
    ensures WithKey([x], k) == [] || WithKey([y], k) == []
  {
    WithKeySingle(x, k);
    WithKeySingle(y, k);
  }

  /** Stability: among entries with equal keys the listing order survives the sort. */
  lemma {:induction false} SortEntriesStable(s: seq<FsEntry>, k: SortKey)
    ensures WithKey(SortEntries(s), k) == WithKey(s, k)
  {
    if s != [] {
      var x, tail := s[0], s[1..];
      assert s == [x] + tail;
      var sortedTail := SortEntries(tail);
      assert SortEntries(s) == Insert(x, sortedTail);
      SortEntriesStable(tail, k);
      InsertStable(x, sortedTail, k);
      WithKeyConcat([x], sortedTail, k);
      WithKeyConcat([x], tail, k);
    } else {
      assert SortEntries(s) == [];
    }
  }

  lemma KeyLeAntisymmetric(a: SortKey, b: SortKey)
    requires KeyLe(a, b) && KeyLe(b, a)
    ensures a == b
  {
    StrLeAntisymmetric(a.lowered, b.lowered);
  }

  lemma {:induction false} WithKeyMembers(s: seq<FsEntry>, k: SortKey)
    ensures forall x | x in WithKey(s, k) :: x in s && KeyOf(x) == k
  {
    if s != [] { WithKeyMembers(s[1..], k); }
  }

  /** In a sorted sequence nothing has a key below the first one's. */
  lemma SortedHeadLeast(a: seq<FsEntry>, x: FsEntry)
    requires SortedByKey(a) && a != [] && x in a
    ensures KeyLe(KeyOf(a[0]), KeyOf(x))
  {
    var i :| 0 <= i < |a| && a[i] == x;
    if i == 0 { KeyLeReflexive(KeyOf(a[0])); }
  }

  lemma SortedSameGroupsHeads(a: seq<FsEntry>, b: seq<FsEntry>)
    requires SortedByKey(a) && SortedByKey(b) && a != [] && b != []
    requires WithKey(a, KeyOf(a[0])) == WithKey(b, KeyOf(a[0]))
    requires WithKey(a, KeyOf(b[0])) == WithKey(b, KeyOf(b[0]))
    ensures a[0] == b[0]
  {
    var ka, kb := KeyOf(a[0]), KeyOf(b[0]);
    WithKeyMembers(a, kb);
    WithKeyMembers(b, ka);
    assert b[0] in WithKey(b, kb);
    assert a[0] in WithKey(a, ka);
    SortedHeadLeast(a, b[0]);
    SortedHeadLeast(b, a[0]);
    KeyLeAntisymmetric(ka, kb);
    assert ka == kb;
    var ga := WithKey(a, ka);
    assert ga == [a[0]] + WithKey(a[1..], ka);
    assert ga == [b[0]] + WithKey(b[1..], kb);
    assert ga[0] == a[0] && ga[0] == b[0];
  }

  lemma {:induction false} SortedSameGroupsEqual(a: seq<FsEntry>, b: seq<FsEntry>)
    requires SortedByKey(a) && SortedByKey(b)
    requires forall k :: WithKey(a, k) == WithKey(b, k)
    ensures a == b
    decreases |a|
  {
    if a == [] || b == [] {
      if a != [] { assert a[0] in WithKey(a, KeyOf(a[0])); WithKeyMembers(b, KeyOf(a[0])); }
      if b != [] { assert b[0] in WithKey(b, KeyOf(b[0])); WithKeyMembers(a, KeyOf(b[0])); }
    } else {
      SortedSameGroupsHeads(a, b);
      forall k ensures WithKey(a[1..], k) == WithKey(b[1..], k) {
        var p := if KeyOf(a[0]) == k then [a[0]] else [];
        assert WithKey(a, k) == p + WithKey(a[1..], k);
        assert WithKey(b, k) == p + WithKey(b[1..], k);
        assert WithKey(a[1..], k) == (p + WithKey(a[1..], k))[|p|..];
        assert WithKey(b[1..], k) == (p + WithKey(b[1..], k))[|p|..];
      }
      SortedSameGroupsEqual(a[1..], b[1..]);
      assert a == [a[0]] + a[1..] && b == [b[0]] + b[1..];
    }
  }

  /** Any sorted sequence that keeps, for every key, the listing's order of the entries with that key is the sort. */
  lemma SortEntriesUnique(s: seq<FsEntry>, r: seq<FsEntry>)
    requires SortedByKey(r)
    requires forall k :: WithKey(r, k) == WithKey(s, k)
    ensures r == SortEntries(s)
  {
    var sorted := SortEntries(s);
    SortEntriesSorted(s);
    forall k ensures WithKey(r, k) == WithKey(sorted, k) {
      SortEntriesStable(s, k);
      assert WithKey(r, k) == WithKey(s, k);
    }
    SortedSameGroupsEqual(r, sorted);
  }

  /** `r` is a stable sort of `s`: sorted by key, and for every key the entries with it in their order in `s`. */
  ghost predicate StableSortOf(r: seq<FsEntry>, s: seq<FsEntry>)
  {
    SortedByKey(r) && forall k :: WithKey(r, k) == WithKey(s, k)
  }

  /**
   * The sort is fixed by its two properties: a sequence is a stable sort of
   * the listing exactly when it is `SortEntries(s)`. So the insertion sort
   * has the result of any stable sort, Python's included.
   */
  lemma SortEntriesCharacterized(s: seq<FsEntry>, r: seq<FsEntry>)
    ensures StableSortOf(r, s) <==> r == SortEntries(s)
  {
    if StableSortOf(r, s) {
      SortEntriesUnique(s, r);
    }
    if r == SortEntries(s) {
      SortEntriesSorted(s);
      forall k ensures WithKey(r, k) == WithKey(s, k) {
        SortEntriesStable(s, k);
      }
    }
  }

  lemma {:induction false} InsertUniqueNames(x: FsEntry, r: seq<FsEntry>)
    requires UniqueNames(r)
    requires forall y | y in r :: y.name != x.name
    ensures UniqueNames(Insert(x, r))
  {
    if r != [] && !KeyLe(KeyOf(x), KeyOf(r[0])) {
      var tail := r[1..];
      InsertUniqueNames(x, tail);
      var q' := Insert(x, tail);
      forall j | 0 <= j < |q'| ensures q'[j].name != r[0].name {
        assert q'[j] in q';
        if q'[j] != x {
          var m :| 0 <= m < |tail| && tail[m] == q'[j];
          assert r[m + 1] == q'[j];
        }
      }
      assert Insert(x, r) == [r[0]] + q';
      UniqueCons(r[0], q');
    } else {
      forall j | 0 <= j < |r| ensures r[j].name != x.name {
        assert r[j] in r;
      }
      UniqueCons(x, r);
    }
  }

  lemma UniqueCons(y: FsEntry, q: seq<FsEntry>)
    requires UniqueNames(q)
    requires forall j | 0 <= j < |q| :: q[j].name != y.name
    ensures UniqueNames([y] + q)
  {
    var r := [y] + q;
    forall i, j | 0 <= i < j < |r| ensures r[i].name != r[j].name {
      assert r[j] == q[j - 1];
      if i > 0 { assert r[i] == q[i - 1]; }
    }
  }

  /** Sorting a listing with distinct names keeps the names distinct. */
  lemma {:induction false} SortEntriesUniqueNames(s: seq<FsEntry>)
    requires UniqueNames(s)
    ensures UniqueNames(SortEntries(s))
  {
    if s != [] {
      var tail := s[1..];
      SortEntriesUniqueNames(tail);
      forall y | y in SortEntries(tail) ensures y.name != s[0].name {
        assert y in multiset(SortEntries(tail));
        var m :| 0 <= m < |tail| && tail[m] == y;
        assert s[m + 1] == y;
      }
      InsertUniqueNames(s[0], SortEntries(tail));
    }
  }
}
