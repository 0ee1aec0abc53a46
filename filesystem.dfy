/**
 * The finite directory tree the scanner walks. Each entry is what `is_file()`
 * and `is_dir()` report about it: a regular file, a directory, or something
 * that is neither (a socket, a device, a dangling link). A directory's
 * listing either yields its entries in the order the operating system lists
 * them, or fails with a permission error.
 */
module FileSystem {

  datatype FsNode = RegularFile | Directory(listing: Listing) | Special

  datatype Listing = Entries(entries: seq<FsEntry>) | PermissionDenied

  datatype FsEntry = FsEntry(name: string, node: FsNode)

  /** Names within one directory are distinct. */
  predicate UniqueNames(es: seq<FsEntry>)
  {
    forall i, j | 0 <= i < j < |es| :: es[i].name != es[j].name
  }

  /** What a real file system guarantees: distinct names in every directory, at every depth. */
  predicate Valid(l: Listing)
    decreases l
  {
    l.Entries? ==>
      UniqueNames(l.entries) &&
      forall e | e in l.entries && e.node.Directory? :: Valid(e.node.listing)
  }

  /** Number of files, directories and other entries at every depth below `l`. */
  function EntryCount(l: Listing): nat
    decreases l, 1, 0
  {
    match l
    case PermissionDenied => 0
    case Entries(es) => EntrySum(l, es)
  }

  function EntrySum(l: Listing, es: seq<FsEntry>): nat
    requires l.Entries?
    requires forall e | e in es :: e in l.entries
    decreases l, 0, |es|
  {
    if es == [] then 0
    else
      var e := es[0];
      assert e in l.entries;
      1 + (if e.node.Directory? then EntryCount(e.node.listing) else 0) + EntrySum(l, es[1..])
  }

  /** Number of directories below `l`, `l` included, whose listing is refused. */
  function DeniedCount(l: Listing): nat
    decreases l, 1, 0
  {
    match l
    case PermissionDenied => 1
    case Entries(es) => DeniedSum(l, es)
  }

  function DeniedSum(l: Listing, es: seq<FsEntry>): nat
    requires l.Entries?
    requires forall e | e in es :: e in l.entries
    decreases l, 0, |es|
  {
    if es == [] then 0
    else
      var e := es[0];
      assert e in l.entries;
      (if e.node.Directory? then DeniedCount(e.node.listing) else 0) + DeniedSum(l, es[1..])
  }
}
