/**
 * The scanner `build_tree_structure` (main.py:344-354): list a directory,
 * sort the entries by `(is_file(), lowered name)`, and fill a fresh dict in
 * that order, recursing into every entry for which `is_dir()` holds and
 * storing `None` for every other one. A listing refused with a permission
 * error is caught inside the call for that directory and leaves the single
 * key "Access Denied"; the caller goes on with the directory's siblings.
 */
module Scanner {
  import opened Wrappers
  import opened Snapshot
  import opened FileSystem
  import opened SortOrder
  import opened SeqFacts

  /** The synthetic key recorded for a directory that cannot be listed. */
  const AccessDenied: string := "Access Denied"

  /** The snapshot the scanner produces for a directory whose listing is `l`. */
  function Scan(l: Listing): (r: Structure)
    ensures UniqueKeys(r)
    ensures l.PermissionDenied? ==> r == Structure([Item(AccessDenied, None)])
    decreases l, 1, 0
  {
    match l
    case PermissionDenied => Put(Empty, AccessDenied, None)
    case Entries(es) => Fill(l, SortEntries(es))
  }

  /** The dict after the loop has stored the entries `xs`, in order. */
  function Fill(l: Listing, xs: seq<FsEntry>): (r: Structure)
    requires l.Entries?
    requires forall e | e in xs :: e in l.entries
    ensures UniqueKeys(r)
    decreases l, 0, |xs|
  {
    if xs == [] then Empty
    else
      var e := xs[|xs| - 1];
      Put(Fill(l, xs[..|xs| - 1]), e.name, ValueOf(l, e))
  }

  /** The value stored for one entry: a sub-snapshot exactly when `is_dir()` holds. */
  function ValueOf(l: Listing, e: FsEntry): (v: Option<Structure>)
    requires l.Entries? && e in l.entries
    ensures v.Some? <==> e.node.Directory?
    decreases l, 0, 0
  {
    if e.node.Directory? then Some(Scan(e.node.listing)) else None
  }

  /** build_tree_structure, with the listing of the directory as its input. */
  method BuildTreeStructure(l: Listing) returns (structure: Structure)
    ensures structure == Scan(l)
    decreases l, 1
  {
    match l
    case PermissionDenied =>
      structure := Put(Empty, AccessDenied, None);
    case Entries(es) =>
      var sorted := SortEntries(es);
      structure := FillEntries(l, sorted);
  }

  /** The loop of build_tree_structure over the sorted entries `xs`, filling a fresh dict. */
  method FillEntries(l: Listing, xs: seq<FsEntry>) returns (structure: Structure)
    requires l.Entries?
    requires forall e | e in xs :: e in l.entries
    ensures structure == Fill(l, xs)
    decreases l, 0
  {
    structure := Empty;
    var i := 0;
    while i < |xs|
      invariant 0 <= i <= |xs|
      invariant structure == Fill(l, xs[..i])
    {
      var entry := xs[i];
      FillStep(l, xs, i);
      if entry.node.Directory? {
        var sub := BuildTreeStructure(entry.node.listing);
        structure := Put(structure, entry.name, Some(sub));
      } else {
        structure := Put(structure, entry.name, None);
      }
      i := i + 1;
    }
    assert xs[..i] == xs;
  }

  /** One turn of the scanner's loop: the dict so far, with entry `i` stored. */
  lemma FillStep(l: Listing, xs: seq<FsEntry>, i: nat)
    requires l.Entries?
    requires forall e | e in xs :: e in l.entries
    requires i < |xs|
    ensures xs[i] in l.entries
    ensures Fill(l, xs[..i + 1]) == Put(Fill(l, xs[..i]), xs[i].name, ValueOf(l, xs[i]))
  {
    assert xs[i] in xs;
    assert xs[..i + 1][..i] == xs[..i];
    assert xs[..i + 1][i] == xs[i];
  }

  lemma {:induction false} FillWellFormed(l: Listing, xs: seq<FsEntry>)
    requires l.Entries?
    requires forall e | e in xs :: e in l.entries
    requires forall e | e in xs && e.node.Directory? :: WellFormed(Scan(e.node.listing))
    ensures WellFormed(Fill(l, xs))
  {
    if xs != [] {
      var e := xs[|xs| - 1];
      FillWellFormed(l, xs[..|xs| - 1]);
      PutWellFormed(Fill(l, xs[..|xs| - 1]), e.name, ValueOf(l, e));
    }
  }

  /** Every level of a scanned snapshot is a proper dict: no key twice. */
  lemma {:induction false} ScanWellFormed(l: Listing)
    ensures WellFormed(Scan(l))
    decreases l
  {
    match l
    case PermissionDenied =>
    case Entries(es) =>
      var sorted := SortEntries(es);
      forall e | e in sorted && e.node.Directory? ensures WellFormed(Scan(e.node.listing)) {
        ScanWellFormed(e.node.listing);
      }
      FillWellFormed(l, sorted);
  }

  /** With distinct names every entry is appended: the dict holds the entries in the order given. */
  lemma {:induction false} FillAppends(l: Listing, xs: seq<FsEntry>)
    requires l.Entries?
    requires forall e | e in xs :: e in l.entries
    requires UniqueNames(xs)
    ensures |Fill(l, xs).items| == |xs|
    ensures forall i | 0 <= i < |xs| :: Fill(l, xs).items[i] == Item(xs[i].name, ValueOf(l, xs[i]))
  {
    if xs != [] {
      var n := |xs| - 1;
      var init := xs[..n];
      FillAppends(l, init);
      var prev := Fill(l, init);
      assert xs[n].name !in Keys(prev) by {
        forall j | 0 <= j < |Keys(prev)| ensures Keys(prev)[j] != xs[n].name {
          assert Keys(prev)[j] == xs[j].name;
        }
      }
    }
  }

  /**
   * The scanned snapshot of a directory with distinct names: one key per
   * entry, in the sorted order, each a sub-snapshot exactly when the entry is
   * a directory; a sibling whose own listing is refused holds the single
   * "Access Denied" leaf and changes nothing else.
   */
  lemma ScanOrder(l: Listing)
    requires l.Entries? && UniqueNames(l.entries)
    ensures var sorted := SortEntries(l.entries); var r := Scan(l);
      |r.items| == |sorted| &&
      forall i | 0 <= i < |sorted| ::
        sorted[i] in l.entries &&
        r.items[i].name == sorted[i].name &&
        r.items[i].child == ValueOf(l, sorted[i]) &&
        (sorted[i].node == Directory(PermissionDenied) ==>
           r.items[i].child == Some(Structure([Item(AccessDenied, None)])))
  {
    var sorted := SortEntries(l.entries);
    SortEntriesUniqueNames(l.entries);
    FillAppends(l, sorted);
  }

  /** What one entry adds to the snapshot's count. */
  function EntryWeight(e: FsEntry): nat
  {
    1 + (if e.node.Directory? then EntryCount(e.node.listing) + DeniedCount(e.node.listing) else 0)
  }

  function Weight(xs: seq<FsEntry>): nat
  {
    if xs == [] then 0 else EntryWeight(xs[0]) + Weight(xs[1..])
  }

  lemma {:induction false} WeightInsert(x: FsEntry, r: seq<FsEntry>)
    ensures Weight(Insert(x, r)) == EntryWeight(x) + Weight(r)
  {
    if r != [] && !KeyLe(KeyOf(x), KeyOf(r[0])) {
      WeightInsert(x, r[1..]);
      assert ([r[0]] + Insert(x, r[1..]))[1..] == Insert(x, r[1..]);
    } else {
      assert ([x] + r)[1..] == r;
    }
  }

  lemma {:induction false} WeightSort(s: seq<FsEntry>)
    ensures Weight(SortEntries(s)) == Weight(s)
  {
    if s != [] {
      WeightSort(s[1..]);
      WeightInsert(s[0], SortEntries(s[1..]));
    }
  }

  lemma {:induction false} WeightSplits(l: Listing, xs: seq<FsEntry>)
    requires l.Entries?
    requires forall e | e in xs :: e in l.entries
    ensures Weight(xs) == EntrySum(l, xs) + DeniedSum(l, xs)
  {
    if xs != [] { WeightSplits(l, xs[1..]); }
  }

  /**
   * countEntries(scan(d)) counts every file, directory and other entry at
   * every depth, plus one "Access Denied" key for each directory below `d`
   * (or `d` itself) whose listing is refused.
   */
  lemma {:induction false} ScanCount(l: Listing)
    requires Valid(l)
    ensures Count(Scan(l)) == EntryCount(l) + DeniedCount(l)
    decreases l, 1, 0
  {
    match l
    case PermissionDenied =>
      assert Count(Scan(l)) == CountFrom(Scan(l), 0) == 1 + CountFrom(Scan(l), 1);
    case Entries(es) =>
      var sorted := SortEntries(es);
      var r := Scan(l);
      ScanOrder(l);
      ScanCountFrom(l, r, sorted, 0);
      assert sorted[0..] == sorted;
      WeightSort(es);
      WeightSplits(l, es);
  }

  /**
   * The count of the keys from position `i` on, for a dict holding the
   * entries `xs` in order, is the weight of the entries from `i` on.
   */
  lemma {:induction false} ScanCountFrom(l: Listing, r: Structure, xs: seq<FsEntry>, i: nat)
    requires l.Entries? && Valid(l)
    requires forall e | e in xs :: e in l.entries
    requires |r.items| == |xs| && i <= |xs|
    requires forall j | 0 <= j < |xs| :: r.items[j] == Item(xs[j].name, ValueOf(l, xs[j]))
    ensures CountFrom(r, i) == Weight(xs[i..])
    decreases l, 0, |xs| - i
  {
    if i < |xs| {
      ScanCountFrom(l, r, xs, i + 1);
      var e := xs[i];
      assert e in xs;
      assert r.items[i] == Item(e.name, ValueOf(l, e));
      SliceCons(xs, i);
      WeightCons(e, xs[i + 1..]);
      if e.node.Directory? {
        ScanCount(e.node.listing);
      }
    } else {
      assert xs[i..] == [];
    }
  }

  lemma WeightCons(e: FsEntry, rest: seq<FsEntry>)
    ensures Weight([e] + rest) == EntryWeight(e) + Weight(rest)
  {
    assert ([e] + rest)[1..] == rest;
  }

  /** For a tree without refused listings the count is exactly the number of entries at every depth. */
  lemma ScanCountAllReadable(l: Listing)
    requires Valid(l) && DeniedCount(l) == 0
    ensures Count(Scan(l)) == EntryCount(l)
  {
    ScanCount(l);
  }
}
