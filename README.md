# QuickTreeCopy: scanner, counter and text renderer

QuickTreeCopy is a small desktop tool. It lists a folder as a tree and copies a
plain-text drawing of that tree to the clipboard. Its logic sits in three
routines of `TreeViewerApp` in `main.py`:

- `build_tree_structure` scans a directory into a snapshot. The snapshot is an
  insertion-ordered nested dict from entry name to `None` (a leaf) or a nested
  dict (a subdirectory).
- `count_structure_items` counts the keys of a snapshot at every depth.
- `create_tree_string_from_structure` and its inner `walk` draw the snapshot
  as text. They emit one root line, then one line per key in depth-first
  pre-order, in the "classic", "modern" or minimal style.

This project models those three routines in Dafny, keeping their imperative
form, and proves what their output means.

- `Wrappers`: `Option`.
- `Snapshot`: the dict as a sequence of `(name, Option<Structure>)` items.
  - `Put` is dict assignment: an existing key keeps its place and a new key is
    appended.
  - `Count` is the recursive specification of the counter.
  - `CountStructureItems` is the counter's loop.
- `FileSystem`: the directory tree the scanner reads, as a finite datatype.
  - An entry is a regular file, a directory, or neither (what `is_file()` and
    `is_dir()` report).
  - A directory's listing is either its entries in operating-system order, or
    a permission error.
- `SortOrder`: the key `(is_file(), name.lower())` and Python's stable
  `sorted`, written as an insertion sort. Its correctness, its stability and
  its uniqueness among stable sorts are proved.
- `Scanner`: `Scan` is the specification. `BuildTreeStructure` sorts the
  listing and handles the permission error, and `FillEntries` is its loop that
  fills the dict.
- `Renderer`: the class `TreeWalker` carries the `lines` list that `walk`
  appends to. `WalkLines` and `RenderLines` are the specification.
  - The style string is kept in the walker and read once into the datatype
    `TreeStyle`: `"classic"` and `"modern"` select those styles, and any other
    string selects the minimal style, as the source's `else` branch does.
  - `Flat` enumerates the keys in pre-order together with their last-sibling
    flags.
  - `FormatRow` gives the line for one such row.
- `SeqFacts`: small facts about concatenating and slicing sequences, cited by
  the proofs above.
- `Scenarios`: one small directory, scanned and rendered in the modern and
  classic styles.

The source writes the box-drawing connectors in a double-encoded form, for
example `â””â”€ ` where `└─ ` is meant. The model uses the intended characters:
- `└─ ` is U+2514 U+2500 followed by a space;
- `├─ ` is U+251C U+2500 followed by a space;
- `│` followed by two spaces is U+2502 and two spaces;
- `• ` is U+2022 followed by a space.

## Model

| member | source | states |
|---|---|---|
| Snapshot.Put | main.py:349-353 | `structure[name] = v` keeps the keys unique. An existing key keeps its position and takes the new value, and nothing else changes. A new key is appended at the end. |
| Snapshot.PutWellFormed | main.py:349-353 | Assignment keeps the dict invariant (distinct keys) at every nesting level when the stored value satisfies it. |
| Snapshot.Count | main.py:356-362 | The count is at least the number of top-level keys. It is 0 exactly when the map is empty. |
| Snapshot.CountSingle | main.py:358-361 | A single key contributes 1 plus the count of its sub-map, and nothing for a leaf. |
| Snapshot.CountConcat | main.py:357-362 | The count is additive over the key list. Together with `CountSingle`, the count is the sum over all keys of 1 plus their sub-map's count. |
| Snapshot.CountStructureItems | main.py:356-362 | The accumulating loop returns exactly `Count(s)`. The loop holds `total + CountFrom(s, i) == Count(s)` and recurses into sub-maps. |
| SortOrder.KeyOf | main.py:347 | The key's flag is `is_file()` and its string is the lowered name, of the same length. What ordering by it means is stated in `SortEntriesSorted` and `SortEntriesGroups`. |
| SortOrder.SortEntries | main.py:347 | The sorted listing is a permutation of the listing and has the same length. |
| SortOrder.SortEntriesSorted | main.py:347 | Any two positions of the sorted listing are in key order `(is_file(), name.lower())`. |
| SortOrder.SortEntriesGroups | main.py:347 | No regular file comes before a non-regular entry. Within each group the lowercased names never decrease. |
| SortOrder.SortEntriesStable | main.py:347 | For every key, the entries with that key keep their listing order (Python's sort is stable). |
| SortOrder.SortEntriesUnique | main.py:347 | Any sequence that is sorted and keeps the listing order within every key equals `SortEntries`. |
| SortOrder.SortEntriesCharacterized | main.py:347 | A sequence is a stable key-sort of the listing if and only if it is `SortEntries` of the listing (both directions). |
| SortOrder.SortEntriesUniqueNames | main.py:347 | Sorting a listing with distinct names keeps the names distinct. |
| SortOrder.StrLeTotal | main.py:347 | Python's string `<=` is total. Reflexivity, transitivity and antisymmetry are proved beside it. |
| SortOrder.KeyLeTransitive | main.py:347 | The comparison of key tuples is transitive. |
| Scanner.Scan | main.py:344-354 | A scanned level has distinct keys. A refused listing gives exactly `{"Access Denied": None}`. |
| Scanner.ValueOf | main.py:348-351 | An entry's value is a sub-snapshot exactly when `is_dir()` holds, and `None` otherwise. A non-file, non-directory entry therefore sorts with the directories but is stored as a leaf. |
| Scanner.BuildTreeStructure | main.py:344-354 | Sorting the listing, running the loop over it and catching the permission error returns exactly `Scan(l)`. |
| Scanner.FillEntries | main.py:347-353 | The loop, recursing into every directory, returns the dict filled with the given entries in order. It holds `structure == Fill(l, xs[..i])`. |
| Scanner.FillAppends | main.py:347-353 | With distinct names, filling the dict in order stores the entries' names and values in that same order, one key each. |
| Scanner.ScanOrder | main.py:346-354 | For a listing with distinct names, there is one key per entry, in sorted order, with the entry's name and value. A subdirectory whose listing is refused holds `{"Access Denied": None}`, and its siblings are all still recorded. |
| Scanner.ScanWellFormed | main.py:344-354 | A scanned snapshot has distinct keys at every level. |
| Scanner.ScanCount | main.py:344-362 | The snapshot's count equals the number of entries at every depth, plus one "Access Denied" key per refused directory (the root included). |
| Scanner.ScanCountAllReadable | main.py:344-362 | When no listing is refused, the count equals the number of entries at every depth. |
| Renderer.StyleOf | main.py:401-409 | The style is classic exactly when the string is `"classic"`, and modern exactly when it is `"modern"`. Every other string selects minimal. |
| Renderer.Connector | main.py:401-408 | The connector is not blank at its start and ends in a space before the name. Which connector each style and position gets is stated in `ConnectorByPosition`. |
| Renderer.Label | main.py:411 | A key's display name (`DisplayName` applies this to a key) is its name, followed by one `/` exactly when its value is a sub-map. How that shows at the end of a line is stated in `SlashMarksSubMaps`. |
| Renderer.Join | main.py:419 | `"\n".join(lines)` is empty for no lines. It starts with the first line, followed by the separator when more lines follow. |
| Renderer.JoinLength | main.py:419 | The joined text is every line plus one separator between each two neighbours, and nothing more. |
| Renderer.Continuation | main.py:400-409 | The fragment handed to children is 3 characters in classic/modern and 2 in minimal. After a last sibling it is all spaces. |
| Renderer.TreeWalker.Walk | main.py:397-415 | `walk(subtree, prefix)` appends exactly `WalkLines(subtree, prefix, style)` to `lines` and changes nothing else. |
| Renderer.CreateTreeStringFromStructure | main.py:394-419 | The text is the root line `<rootName>/` followed by the walk's lines, joined with newlines. |
| Renderer.RenderLineCount | main.py:394-419 | There are exactly `1 + Count(structure)` lines. The first is `<rootName>/`. An empty structure gives only the root line. |
| Renderer.PreOrder | main.py:397-415 | A key's line is followed at once by all the lines of its sub-map, drawn with the extended prefix, and then by the next sibling's line. Siblings keep the map's order, and the walk ends after the last sibling. |
| Renderer.ConnectorByPosition | main.py:401-409 | In modern style the last sibling gets `└─ ` and the others `├─ `. Classic always uses `+-- ` and minimal always `• `. |
| Renderer.WalkRows | main.py:397-415 | The k-th line of the walk is the k-th pre-order row drawn by `FormatRow`: the prefix, one fragment per ancestor, the connector and the display name. |
| Renderer.FormatRowIndent | main.py:400-412 | A row's line is the walk's prefix, then one fragment per ancestor (outermost first), then the row's connector and display name. |
| Renderer.IndentAt | main.py:403-409 | Fragment j of an indent sits at characters `w*j .. w*(j+1)` and is that ancestor's continuation. |
| Renderer.LinePrefix | main.py:400-412 | A line at depth d starts with d fragments, `3*d` characters in classic/modern and `2*d` in minimal. A fragment is all spaces when that ancestor was a last sibling. |
| Renderer.SlashMarksSubMaps | main.py:411-412 | A line ends in `/` exactly when its key holds a sub-map, unless the name itself ends in `/`. |
| Renderer.FlatCount | main.py:356-362 | The pre-order enumeration has exactly `count_structure_items` rows. |
| Scenarios.ExampleSnapshot | main.py:344-354 | A root listing `B/`, `a.txt`, `A/` is scanned as `A` and `B` (both empty sub-maps) followed by the leaf `a.txt`. |
| Scenarios.ExampleModern | main.py:394-419 | That snapshot renders in modern style as `root/`, `├─ A/`, `├─ B/`, `└─ a.txt`. |
| Scenarios.ExampleClassic | main.py:394-419 | The classic rendering is `root/`, `+-- A/`, `+-- B/`, `+-- a.txt`. |

## Left out

- Tk/ttk user interface: widgets, icons, the status bar, populating the tree
  view in `insert_from_structure`, and the selection handler. These are
  presentation only.
- Threads and the `root.after` hand-offs. They only move work between
  threads, and concurrency is not modelled.
- Real file-system calls (`iterdir`, `is_dir`, `is_file`, `stat`). They become
  the finite datatype `FileSystem.Listing`.
  - Symbolic links and cycles are not modelled, because the tree is finite.
  - A listing, or an `is_file()` call, refused with a permission error is
    modelled by `PermissionDenied`. `is_file()` runs only inside the sort key,
    and the sort finishes before any key is stored, so the dict then holds
    exactly `{"Access Denied": None}`.
  - An `is_dir()` call refused partway through the loop is not modelled. The
    same handler catches it after some keys are already stored, so the dict
    would hold those keys and then "Access Denied".
  - Other `OSError`s are not caught by the source, and they are not modelled.
- Python's recursion limit (`sys.getrecursionlimit()`, 1000 by default) is not
  modelled. A directory nested deeper than that makes `build_tree_structure`
  raise `RecursionError`, which its `except PermissionError` does not catch,
  so no snapshot is produced. `count_structure_items` and `walk` recurse the
  same way. The model's `Scan`, `Count` and `WalkLines` are defined for trees
  of any finite depth.
- `get_path_info`: it formats sizes with floating point and reads `stat`.
- The clipboard, the `strip()` in `copy_to_clipboard`, and the UI's
  `split("\n")` line count. The line count is stated over the list of lines
  instead, in `RenderLineCount`.
- SortOrder.Lower: it lowercases ASCII letters only. Python's `str.lower` also
  maps non-ASCII letters, so names that differ only in non-ASCII case can sort
  differently here.
- Renderer.CreateTreeStringFromStructure: it takes the root's display name as
  a parameter. The source reads it from the path currently shown,
  `Path(self.current_path).name`.
- The "neither file nor directory" entry kind stands for anything for which
  both `is_file()` and `is_dir()` are false. The operating system's reasons
  for that are not modelled.
