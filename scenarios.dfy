/**
 * A worked example: a directory `root` holding an empty directory `B`, a
 * regular file `a.txt` and an empty directory `A`, listed in that order.
 */
module Scenarios {
  import opened Wrappers
  import opened Snapshot
  import opened FileSystem
  import opened SortOrder
  import opened Scanner
  import opened Renderer
  import opened SeqFacts

  const DirB: FsEntry := FsEntry("B", Directory(Entries([])))
  const FileA: FsEntry := FsEntry("a.txt", RegularFile)
  const DirA: FsEntry := FsEntry("A", Directory(Entries([])))
  const Listed: Listing := Entries([DirB, FileA, DirA])

  const RootSnapshot: Structure := Structure([Item("A", Some(Empty)), Item("B", Some(Empty)), Item("a.txt", None)])

  lemma ExampleSorted()
    ensures SortEntries(Listed.entries) == [DirA, DirB, FileA]
  {
    var es := Listed.entries;
    assert es[1..] == [FileA, DirA] && es[1..][1..] == [DirA];
    assert SortEntries(es) == Insert(DirB, SortEntries([FileA, DirA]));
    assert SortEntries([FileA, DirA]) == Insert(FileA, SortEntries([DirA]));
    SortSingle();
    InsertFile();
    InsertDirB();
  }

  lemma SortSingle()
    ensures SortEntries([DirA]) == [DirA]
  {
    assert [DirA][1..] == [];
  }

  lemma InsertFile()
    ensures Insert(FileA, [DirA]) == [DirA, FileA]
  {
    ExampleKeys();
    assert [DirA][1..] == [];
  }

  lemma InsertDirB()
    ensures Insert(DirB, [DirA, FileA]) == [DirA, DirB, FileA]
  {
    ExampleKeys();
    assert [DirA, FileA][1..] == [FileA];
  }

  /** The sort keys of the three entries: `(False, "a")`, `(False, "b")` and `(True, "a.txt")`. */
  lemma ExampleKeys()
    ensures !KeyLe(KeyOf(FileA), KeyOf(DirA))
    ensures !KeyLe(KeyOf(DirB), KeyOf(DirA))
    ensures KeyLe(KeyOf(DirB), KeyOf(FileA))
  {
    assert Lower("B")[0] == 'b' && Lower("A")[0] == 'a';
  }

  /** Directories first, `A` before `B`, then the file. */
  lemma ExampleSnapshot()
    ensures Scan(Listed) == RootSnapshot
  {
    ExampleSorted();
    ExampleFill();
  }

  lemma ExampleFill()
    ensures forall e | e in [DirA, DirB, FileA] :: e in Listed.entries
    ensures Fill(Listed, [DirA, DirB, FileA]) == RootSnapshot
  {
    var sorted := [DirA, DirB, FileA];
    ExampleValues();
    ExampleNames();
    FillAppends(Listed, sorted);
    var r := Fill(Listed, sorted);
    assert r.items[0] == Item(DirA.name, ValueOf(Listed, DirA));
    assert r.items[1] == Item(DirB.name, ValueOf(Listed, DirB));
    assert r.items[2] == Item(FileA.name, ValueOf(Listed, FileA));
    ThreeEqual(r.items, RootSnapshot.items);
  }

  lemma ExampleNames()
    ensures UniqueNames([DirA, DirB, FileA])
  {
    assert "A"[0] != "B"[0] && "A"[0] != "a.txt"[0] && "B"[0] != "a.txt"[0];
  }

  lemma ExampleValues()
    ensures DirA in Listed.entries && DirB in Listed.entries && FileA in Listed.entries
    ensures ValueOf(Listed, DirA) == Some(Empty)
    ensures ValueOf(Listed, DirB) == Some(Empty)
    ensures ValueOf(Listed, FileA) == None
  {
    assert Scan(Entries([])) == Empty;
  }

  lemma ExampleModern()
    ensures RenderLines(Scan(Listed), Modern, "root") ==
      ["root/", "\U{251C}\U{2500} A/", "\U{251C}\U{2500} B/", "\U{2514}\U{2500} a.txt"]
  {
    ExampleSnapshot();
    ExampleWalk(Modern);
    ModernTexts();
  }

  lemma ModernTexts()
    ensures Connector(Modern, false) + "A/" == "\U{251C}\U{2500} A/"
    ensures Connector(Modern, false) + "B/" == "\U{251C}\U{2500} B/"
    ensures Connector(Modern, true) + "a.txt" == "\U{2514}\U{2500} a.txt"
  {
  }

  lemma ExampleWalk(style: TreeStyle)
    ensures RenderLines(RootSnapshot, style, "root") == ["root/",
      Connector(style, false) + "A/", Connector(style, false) + "B/", Connector(style, true) + "a.txt"]
  {
    WalkFromA(style);
    assert "root" + "/" == "root/";
  }

  /** The lines of the last key, the leaf `a.txt`. */
  lemma WalkFromFile(style: TreeStyle)
    ensures WalkFrom(RootSnapshot, 2, "", style) == [Connector(style, true) + "a.txt"]
  {
    var s := RootSnapshot;
    assert WalkFrom(s, 3, "", style) == [];
    assert DisplayName(s.items[2]) == "a.txt";
    assert "" + Connector(style, true) + "a.txt" == Connector(style, true) + "a.txt";
    WalkFromUnfold(s, 2, "", style);
  }

  /** The lines from the empty sub-map `B` on. */
  lemma WalkFromB(style: TreeStyle)
    ensures WalkFrom(RootSnapshot, 1, "", style) == [Connector(style, false) + "B/", Connector(style, true) + "a.txt"]
  {
    var s := RootSnapshot;
    WalkFromFile(style);
    assert WalkLines(Empty, Continuation(style, false), style) == [];
    assert DisplayName(s.items[1]) == "B/";
    assert "" + Connector(style, false) + "B/" == Connector(style, false) + "B/";
    WalkFromUnfold(s, 1, "", style);
  }

  /** The lines of the whole walk, from the empty sub-map `A` on. */
  lemma WalkFromA(style: TreeStyle)
    ensures WalkLines(RootSnapshot, "", style) ==
      [Connector(style, false) + "A/", Connector(style, false) + "B/", Connector(style, true) + "a.txt"]
  {
    var s := RootSnapshot;
    WalkFromB(style);
    assert WalkLines(Empty, Continuation(style, false), style) == [];
    assert DisplayName(s.items[0]) == "A/";
    assert "" + Connector(style, false) + "A/" == Connector(style, false) + "A/";
    WalkFromUnfold(s, 0, "", style);
  }

  lemma ExampleClassic()
    ensures RenderLines(Scan(Listed), Classic, "root") == ["root/", "+-- A/", "+-- B/", "+-- a.txt"]
  {
    ExampleSnapshot();
    ExampleWalk(Classic);
    ClassicTexts();
  }

  lemma ClassicTexts()
    ensures Connector(Classic, false) + "A/" == "+-- A/"
    ensures Connector(Classic, false) + "B/" == "+-- B/"
    ensures Connector(Classic, true) + "a.txt" == "+-- a.txt"
  {
  }
}
