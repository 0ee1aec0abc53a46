/**
 * The renderer `create_tree_string_from_structure` (main.py:394-419): the
 * line `<root>/`, then one line per key in depth-first pre-order, each
 * `prefix + connector + name`, with a trailing `/` for a sub-map. The
 * connector and the prefix handed to an entry's children depend on the style
 * and on whether the entry is the last of its siblings:
 *
 *   style      connector (other / last)   child prefix fragment (other / last)
 *   "classic"  "+-- " / "+-- "            "|  " / "   "
 *   "modern"   U+251C U+2500 " " / U+2514 U+2500 " "   U+2502 "  " / "   "
 *   any other  U+2022 " " / U+2022 " "     "  " / "  "
 */
module Renderer {
  import opened Wrappers
  import opened Snapshot
  import opened SeqFacts

  /** The three ways of drawing the tree. */
  datatype TreeStyle = Classic | Modern | Minimal

  /** The style a selector value stands for: "classic", "modern", and the minimal one for every other value. */
  function StyleOf(name: string): (k: TreeStyle)
    ensures k == Classic <==> name == "classic"
    ensures k == Modern <==> name == "modern"
  {
    if name == "classic" then Classic else if name == "modern" then Modern else Minimal
  }

  /** The text in front of an entry's name: never blank at its start, and a space before the name. */
  function Connector(style: TreeStyle, isLast: bool): (r: string)
    ensures |r| > 0 && r[0] != ' ' && r[|r| - 1] == ' '
  {
    match style
    case Classic => "+-- "
    case Modern => if isLast then "\U{2514}\U{2500} " else "\U{251C}\U{2500} "
    case Minimal => "\U{2022} "
  }

  /** Width of one prefix fragment: three characters, or two in the minimal style. */
  function Width(style: TreeStyle): nat
  {
    if style == Minimal then 2 else 3
  }

  /** `n` spaces. */
  function Blank(n: nat): string
  {
    seq(n, _ => ' ')
  }

  /** The fragment an entry adds to the prefix of its children. */
  function Continuation(style: TreeStyle, isLast: bool): (r: string)
    ensures |r| == Width(style)
    ensures isLast ==> r == Blank(Width(style))
  {
    match style
    case Classic => if isLast then "   " else "|  "
    case Modern => if isLast then "   " else "\U{2502}  "
    case Minimal => "  "
  }

  /** A name as drawn: followed by `/` when it holds a sub-map, unchanged otherwise. */
  function Label(name: string, isDir: bool): (r: string)
    ensures |r| == |name| + (if isDir then 1 else 0)
    ensures r[..|name|] == name
    ensures isDir ==> r[|r| - 1] == '/'
  {
    if isDir then name + "/" else name
  }

  /** The label of a key: a trailing `/` exactly when its value is a sub-map. */
  function DisplayName(item: Item): string
  {
    Label(item.name, item.child.Some?)
  }

  /** The lines `walk(s, prefix)` appends. */
  function WalkLines(s: Structure, prefix: string, style: TreeStyle): seq<string>
    decreases s, 1
  {
    WalkFrom(s, 0, prefix, style)
  }

  /** The lines the walk's loop appends from position `i` on. */
  function WalkFrom(s: Structure, i: nat, prefix: string, style: TreeStyle): seq<string>
    decreases s, 0, |s.items| - i, 1
  {
    if i >= |s.items| then [] else Block(s, i, prefix, style) + WalkFrom(s, i + 1, prefix, style)
  }

  /** The lines of the key at position `i`: its own line, then those of its sub-map. */
  function Block(s: Structure, i: nat, prefix: string, style: TreeStyle): seq<string>
    requires i < |s.items|
    decreases s, 0, |s.items| - i, 0
  {
    var item := s.items[i];
    var isLast := i == |s.items| - 1;
    [prefix + Connector(style, isLast) + DisplayName(item)]
      + (if item.child.Some? then WalkLines(item.child.value, prefix + Continuation(style, isLast), style) else [])
  }

  /** The `lines` list before the join. */
  function RenderLines(s: Structure, style: TreeStyle, rootName: string): seq<string>
  {
    [rootName + "/"] + WalkLines(s, "", style)
  }

  /** `sep.join(lines)`: the text starts with the first line, followed by the separator when more lines follow. */
  function Join(lines: seq<string>, sep: string): (r: string)
    ensures lines == [] ==> r == ""
    ensures lines != [] ==> |lines[0]| <= |r| && r[..|lines[0]|] == lines[0]
    ensures |lines| > 1 ==> |lines[0]| + |sep| <= |r| && r[|lines[0]| .. |lines[0]| + |sep|] == sep
  {
    if lines == [] then ""
    else if |lines| == 1 then lines[0]
    else lines[0] + sep + Join(lines[1..], sep)
  }

  /** The number of characters in all the lines together. */
  function TotalLength(lines: seq<string>): nat
  {
    if lines == [] then 0 else |lines[0]| + TotalLength(lines[1..])
  }

  /** The joined text holds every line and one separator between each two neighbours, and nothing else. */
  lemma {:induction false} JoinLength(lines: seq<string>, sep: string)
    requires lines != []
    ensures |Join(lines, sep)| == TotalLength(lines) + |sep| * (|lines| - 1)
  {
    if |lines| == 1 {
      assert lines[1..] == [];
    } else {
      JoinLength(lines[1..], sep);
      MulSucc(|sep|, |lines| - 2);
    }
  }

  /**
   * The state the inner `walk` closes over: the selected style and the
   * shared `lines` list. `kind` is what the chain of `style == "classic"` /
   * `style == "modern"` tests in the loop decides.
   */
  class TreeWalker {
    const style: string
    const kind: TreeStyle
    var lines: seq<string>

    constructor (style: string)
      ensures this.style == style && kind == StyleOf(style) && lines == []
    {
      this.style := style;
      kind := StyleOf(style);
      lines := [];
    }

    /** walk(subtree, prefix): append the lines of `subtree`, recursing into sub-maps. */
    method Walk(subtree: Structure, prefix: string)
      modifies this
      ensures lines == old(lines) + WalkLines(subtree, prefix, kind)
      decreases subtree
    {
      var items := subtree.items;
      var idx := 0;
      while idx < |items|
        invariant 0 <= idx <= |items|
        invariant lines + WalkFrom(subtree, idx, prefix, kind) == old(lines) + WalkLines(subtree, prefix, kind)
      {
        var item := items[idx];
        var isLast := idx == |items| - 1;
        var connector := Connector(kind, isLast);
        var nextPrefix := prefix + Continuation(kind, isLast);
        var displayName := DisplayName(item);
        var line := prefix + connector + displayName;
        ghost var before := lines;
        ghost var sub := if item.child.Some? then WalkLines(item.child.value, nextPrefix, kind) else [];
        lines := lines + [line];
        if item.child.Some? {
          Walk(item.child.value, nextPrefix);
        }
        WalkFromUnfold(subtree, idx, prefix, kind);
        AppendStep(before, [line], sub, WalkFrom(subtree, idx + 1, prefix, kind));
        idx := idx + 1;
      }
    }
  }

  /** One turn of the walk's loop: the key's line, its sub-map's lines, then the rest. */
  lemma WalkFromUnfold(s: Structure, i: nat, prefix: string, style: TreeStyle)
    requires i < |s.items|
    ensures var item := s.items[i];
      var isLast := i == |s.items| - 1;
      WalkFrom(s, i, prefix, style) ==
        [prefix + Connector(style, isLast) + DisplayName(item)]
        + (if item.child.Some? then WalkLines(item.child.value, prefix + Continuation(style, isLast), style) else [])
        + WalkFrom(s, i + 1, prefix, style)
  {
  }

  /** create_tree_string_from_structure, with the root's display name as a parameter. */
  method CreateTreeStringFromStructure(structure: Structure, style: string, rootName: string) returns (text: string)
    ensures text == Join(RenderLines(structure, StyleOf(style), rootName), "\n")
  {
    var walker := new TreeWalker(style);
    walker.lines := walker.lines + [rootName + "/"];
    walker.Walk(structure, "");
    text := Join(walker.lines, "\n");
  }

  // ---------------------------------------------------------------------
  // Line count

  lemma {:induction false} WalkLength(s: Structure, prefix: string, style: TreeStyle)
    ensures |WalkLines(s, prefix, style)| == Count(s)
    decreases s, 1
  {
    WalkFromLength(s, 0, prefix, style);
  }

  lemma {:induction false} WalkFromLength(s: Structure, i: nat, prefix: string, style: TreeStyle)
    ensures |WalkFrom(s, i, prefix, style)| == CountFrom(s, i)
    decreases s, 0, |s.items| - i
  {
    if i < |s.items| {
      var item := s.items[i];
      if item.child.Some? {
        WalkLength(item.child.value, prefix + Continuation(style, i == |s.items| - 1), style);
      }
      WalkFromLength(s, i + 1, prefix, style);
    }
  }

  /** The root line comes first and is followed by exactly one line per key at every depth. */
  lemma RenderLineCount(s: Structure, style: TreeStyle, rootName: string)
    ensures |RenderLines(s, style, rootName)| == 1 + Count(s)
    ensures RenderLines(s, style, rootName)[0] == rootName + "/"
    ensures s.items == [] ==> RenderLines(s, style, rootName) == [rootName + "/"]
  {
    WalkLength(s, "", style);
  }

  // ---------------------------------------------------------------------
  // Pre-order

  /** Lines a key occupies beneath its own line. */
  function SubCount(item: Item): nat
  {
    if item.child.Some? then Count(item.child.value) else 0
  }

  /** Index, within the walk of `s`, of the line of the key at position `i`. */
  function SiblingStart(s: Structure, i: nat): nat
    requires i <= |s.items|
  {
    if i == 0 then 0 else SiblingStart(s, i - 1) + 1 + SubCount(s.items[i - 1])
  }

  lemma {:induction false} WalkSuffix(s: Structure, prefix: string, style: TreeStyle, i: nat)
    requires i <= |s.items|
    ensures SiblingStart(s, i) <= |WalkLines(s, prefix, style)|
    ensures WalkLines(s, prefix, style)[SiblingStart(s, i)..] == WalkFrom(s, i, prefix, style)
  {
    if i > 0 {
      WalkSuffix(s, prefix, style, i - 1);
      SuffixStep(s, prefix, style, i);
    } else {
      assert WalkLines(s, prefix, style)[0..] == WalkLines(s, prefix, style);
    }
  }

  /** From the lines of sibling `i - 1` on to those of sibling `i` on. */
  lemma SuffixStep(s: Structure, prefix: string, style: TreeStyle, i: nat)
    requires 0 < i <= |s.items|
    requires SiblingStart(s, i - 1) <= |WalkLines(s, prefix, style)|
    requires WalkLines(s, prefix, style)[SiblingStart(s, i - 1)..] == WalkFrom(s, i - 1, prefix, style)
    ensures SiblingStart(s, i) <= |WalkLines(s, prefix, style)|
    ensures WalkLines(s, prefix, style)[SiblingStart(s, i)..] == WalkFrom(s, i, prefix, style)
  {
    BlockSplit(s, i - 1, prefix, style);
    DropPrefix(WalkLines(s, prefix, style), SiblingStart(s, i - 1), SiblingStart(s, i), WalkFrom(s, i - 1, prefix, style),
      Block(s, i - 1, prefix, style), WalkFrom(s, i, prefix, style));
  }

  lemma BlockSplit(s: Structure, i: nat, prefix: string, style: TreeStyle)
    requires i < |s.items|
    ensures WalkFrom(s, i, prefix, style) == Block(s, i, prefix, style) + WalkFrom(s, i + 1, prefix, style)
    ensures |Block(s, i, prefix, style)| == 1 + SubCount(s.items[i])
    ensures SiblingStart(s, i + 1) == SiblingStart(s, i) + |Block(s, i, prefix, style)|
  {
    var item := s.items[i];
    SubLength(item, prefix + Continuation(style, i == |s.items| - 1), style);
    WalkFromUnfold(s, i, prefix, style);
  }

  lemma SubLength(item: Item, prefix: string, style: TreeStyle)
    ensures |if item.child.Some? then WalkLines(item.child.value, prefix, style) else []| == SubCount(item)
  {
    if item.child.Some? {
      WalkLength(item.child.value, prefix, style);
    }
  }

  /**
   * Depth-first pre-order: the line of the key at position `i` is followed at
   * once by all the lines of its sub-map, rendered with the prefix extended by
   * its fragment, and then by the line of the next sibling; the siblings'
   * lines come in the map's stored order and the walk ends after the last.
   */
  lemma PreOrder(s: Structure, prefix: string, style: TreeStyle, i: nat)
    requires i < |s.items|
    ensures var w := WalkLines(s, prefix, style);
      var o := SiblingStart(s, i);
      var item := s.items[i];
      var isLast := i == |s.items| - 1;
      o < SiblingStart(s, i + 1) <= |w| &&
      w[o] == prefix + Connector(style, isLast) + DisplayName(item) &&
      w[o + 1 .. SiblingStart(s, i + 1)] ==
        (if item.child.Some? then WalkLines(item.child.value, prefix + Continuation(style, isLast), style) else [])
    ensures SiblingStart(s, |s.items|) == |WalkLines(s, prefix, style)|
  {
    WalkSuffix(s, prefix, style, i);
    WalkSuffix(s, prefix, style, |s.items|);
    BlockSplit(s, i, prefix, style);
    var item := s.items[i];
    var isLast := i == |s.items| - 1;
    var line := prefix + Connector(style, isLast) + DisplayName(item);
    var sub := if item.child.Some? then WalkLines(item.child.value, prefix + Continuation(style, isLast), style) else [];
    assert Block(s, i, prefix, style) == [line] + sub;
    BlockAt(WalkLines(s, prefix, style), SiblingStart(s, i), SiblingStart(s, i + 1),
      Block(s, i, prefix, style), line, sub, WalkFrom(s, i + 1, prefix, style));
  }

  /**
   * The connector by position: in the modern style the last sibling gets
   * U+2514 U+2500 and every other one U+251C U+2500; the classic and the
   * minimal connectors do not depend on the position.
   */
  lemma ConnectorByPosition(s: Structure, prefix: string, style: TreeStyle, i: nat)
    requires i < |s.items|
    ensures SiblingStart(s, i) < |WalkLines(s, prefix, style)|
    ensures var line := WalkLines(s, prefix, style)[SiblingStart(s, i)];
      var rest := DisplayName(s.items[i]);
      (style == Modern && i == |s.items| - 1 ==> line == prefix + "\U{2514}\U{2500} " + rest) &&
      (style == Modern && i < |s.items| - 1 ==> line == prefix + "\U{251C}\U{2500} " + rest) &&
      (style == Classic ==> line == prefix + "+-- " + rest) &&
      (style == Minimal ==> line == prefix + "\U{2022} " + rest)
  {
    PreOrder(s, prefix, style, i);
  }

  // ---------------------------------------------------------------------
  // Every line, by depth

  /**
   * One key in pre-order: whether it and each of its ancestors was the last
   * of its siblings (outermost first, its own flag last), its name, and
   * whether its value is a sub-map.
   */
  datatype Row = Row(lastFlags: seq<bool>, name: string, isDir: bool)

  /** A row moved one level down, under an entry whose last-flag is `b`. */
  function Nest(b: bool, rows: seq<Row>): (r: seq<Row>)
    ensures |r| == |rows|
    ensures forall k | 0 <= k < |rows| :: r[k] == rows[k].(lastFlags := [b] + rows[k].lastFlags)
  {
    seq(|rows|, k requires 0 <= k < |rows| => rows[k].(lastFlags := [b] + rows[k].lastFlags))
  }

  /** All keys of `s` in depth-first pre-order, with their position flags. */
  function Flat(s: Structure): seq<Row>
    decreases s, 1
  {
    FlatFrom(s, 0)
  }

  function FlatFrom(s: Structure, i: nat): seq<Row>
    decreases s, 0, |s.items| - i
  {
    if i >= |s.items| then []
    else
      var item := s.items[i];
      var isLast := i == |s.items| - 1;
      [Row([isLast], item.name, item.child.Some?)]
        + (if item.child.Some? then Nest(isLast, Flat(item.child.value)) else [])
        + FlatFrom(s, i + 1)
  }

  /** The prefix contributed by the ancestors whose flags are `flags`. */
  function Indent(style: TreeStyle, flags: seq<bool>): string
  {
    if flags == [] then "" else Continuation(style, flags[0]) + Indent(style, flags[1..])
  }

  /** The line of a row at depth |lastFlags| - 1 below a walk started with `prefix`. */
  function FormatRow(prefix: string, style: TreeStyle, row: Row): string
    requires |row.lastFlags| > 0
    decreases |row.lastFlags|
  {
    if |row.lastFlags| == 1 then prefix + RowText(style, row.lastFlags[0], row)
    else FormatRow(prefix + Continuation(style, row.lastFlags[0]), style, row.(lastFlags := row.lastFlags[1..]))
  }

  /** The connector for a row whose own last-flag is `isLast`, then its display name. */
  function RowText(style: TreeStyle, isLast: bool, row: Row): string
  {
    Connector(style, isLast) + Label(row.name, row.isDir)
  }

  lemma FormatNest(prefix: string, style: TreeStyle, b: bool, row: Row)
    requires |row.lastFlags| > 0
    ensures FormatRow(prefix, style, row.(lastFlags := [b] + row.lastFlags))
      == FormatRow(prefix + Continuation(style, b), style, row)
  {
    var g := [b] + row.lastFlags;
    assert g[1..] == row.lastFlags;
    assert row.(lastFlags := g).(lastFlags := g[1..]) == row;
  }

  /** The line of a row is the prefix, the indent of its ancestors' fragments, then its connector and name. */
  lemma {:induction false} FormatRowIndent(prefix: string, style: TreeStyle, row: Row)
    requires |row.lastFlags| > 0
    ensures var d := |row.lastFlags| - 1;
      FormatRow(prefix, style, row) ==
        prefix + Indent(style, row.lastFlags[..d]) + RowText(style, row.lastFlags[d], row)
    decreases |row.lastFlags|
  {
    var f := row.lastFlags;
    var d := |f| - 1;
    if d == 0 {
      assert f[..0] == [];
      assert Indent(style, []) == "";
      assert prefix + "" == prefix;
    } else {
      var c := Continuation(style, f[0]);
      var next := row.(lastFlags := f[1..]);
      FormatRowIndent(prefix + c, style, next);
      assert f[1..][..d - 1] == f[..d][1..];
      assert f[1..][d - 1] == f[d];
      assert Indent(style, f[..d]) == c + Indent(style, f[..d][1..]);
      var ind := Indent(style, f[..d][1..]);
      var text := RowText(style, f[d], row);
      assert RowText(style, f[d], next) == text;
      assert FormatRow(prefix, style, row) == prefix + c + ind + text;
      Regroup(prefix, c, ind, text);
    }
  }

  lemma {:induction false} WalkRows(s: Structure, prefix: string, style: TreeStyle)
    ensures |WalkLines(s, prefix, style)| == |Flat(s)|
    ensures forall k | 0 <= k < |Flat(s)| ::
      |Flat(s)[k].lastFlags| > 0 && WalkLines(s, prefix, style)[k] == FormatRow(prefix, style, Flat(s)[k])
    decreases s, 1
  {
    WalkRowsFrom(s, 0, prefix, style);
  }

  lemma {:induction false} WalkRowsFrom(s: Structure, i: nat, prefix: string, style: TreeStyle)
    ensures Drawn(WalkFrom(s, i, prefix, style), FlatFrom(s, i), prefix, style)
    decreases s, 0, |s.items| - i
  {
    if i < |s.items| {
      var item := s.items[i];
      var isLast := i == |s.items| - 1;
      var head := [prefix + Connector(style, isLast) + DisplayName(item)];
      var headRow := [Row([isLast], item.name, item.child.Some?)];
      var sub: seq<string> := [];
      var subRows: seq<Row> := [];
      if item.child.Some? {
        var next := prefix + Continuation(style, isLast);
        sub := WalkLines(item.child.value, next, style);
        subRows := Nest(isLast, Flat(item.child.value));
        WalkRows(item.child.value, next, style);
        DrawnNest(sub, Flat(item.child.value), prefix, style, isLast);
      }
      WalkRowsFrom(s, i + 1, prefix, style);
      var rest := WalkFrom(s, i + 1, prefix, style);
      var restRows := FlatFrom(s, i + 1);
      WalkFromUnfold(s, i, prefix, style);
      FlatFromUnfold(s, i);
      DrawnHead(prefix, style, isLast, item);
      DrawnConcat(head, headRow, sub, subRows, prefix, style);
      DrawnConcat(head + sub, headRow + subRows, rest, restRows, prefix, style);
    } else {
      assert WalkFrom(s, i, prefix, style) == [] && FlatFrom(s, i) == [];
    }
  }

  /** The line of a key itself is its row at depth 0. */
  lemma DrawnHead(prefix: string, style: TreeStyle, isLast: bool, item: Item)
    ensures Drawn([prefix + Connector(style, isLast) + DisplayName(item)],
                  [Row([isLast], item.name, item.child.Some?)], prefix, style)
  {
    var row := Row([isLast], item.name, item.child.Some?);
    assert FormatRow(prefix, style, row) == prefix + RowText(style, isLast, row);
    assert RowText(style, isLast, row) == Connector(style, isLast) + DisplayName(item);
    Assoc(prefix, Connector(style, isLast), DisplayName(item));
  }

  lemma FlatFromUnfold(s: Structure, i: nat)
    requires i < |s.items|
    ensures var item := s.items[i];
      var isLast := i == |s.items| - 1;
      FlatFrom(s, i) ==
        [Row([isLast], item.name, item.child.Some?)]
        + (if item.child.Some? then Nest(isLast, Flat(item.child.value)) else [])
        + FlatFrom(s, i + 1)
  {
  }

  /** Lines drawn below an entry are its sub-map's rows, moved one level down. */
  lemma DrawnNest(sub: seq<string>, rows: seq<Row>, prefix: string, style: TreeStyle, b: bool)
    requires Drawn(sub, rows, prefix + Continuation(style, b), style)
    ensures Drawn(sub, Nest(b, rows), prefix, style)
  {
    forall k | 0 <= k < |rows|
      ensures |Nest(b, rows)[k].lastFlags| > 0 && sub[k] == FormatRow(prefix, style, Nest(b, rows)[k])
    {
      FormatNest(prefix, style, b, rows[k]);
    }
  }

  /** `lines` are the rows `rows`, drawn one by one. */
  predicate Drawn(lines: seq<string>, rows: seq<Row>, prefix: string, style: TreeStyle)
  {
    |lines| == |rows| &&
    forall k | 0 <= k < |rows| :: |rows[k].lastFlags| > 0 && lines[k] == FormatRow(prefix, style, rows[k])
  }

  lemma DrawnConcat(a: seq<string>, ra: seq<Row>, b: seq<string>, rb: seq<Row>, prefix: string, style: TreeStyle)
    requires Drawn(a, ra, prefix, style) && Drawn(b, rb, prefix, style)
    ensures Drawn(a + b, ra + rb, prefix, style)
  {
    forall k | 0 <= k < |ra + rb|
      ensures |(ra + rb)[k].lastFlags| > 0 && (a + b)[k] == FormatRow(prefix, style, (ra + rb)[k])
    {
      if k < |ra| {
        assert (ra + rb)[k] == ra[k] && (a + b)[k] == a[k];
      } else {
        assert (ra + rb)[k] == rb[k - |ra|] && (a + b)[k] == b[k - |a|];
      }
    }
  }

  lemma {:induction false} IndentLength(style: TreeStyle, flags: seq<bool>)
    ensures |Indent(style, flags)| == Width(style) * |flags|
  {
    if flags != [] { IndentLength(style, flags[1..]); }
  }

  /** The fragment at level `j` of an indent is the continuation chosen by that ancestor's flag. */
  lemma IndentAt(style: TreeStyle, flags: seq<bool>, j: nat)
    requires j < |flags|
    ensures Width(style) * (j + 1) <= |Indent(style, flags)|
    ensures Indent(style, flags)[Width(style) * j .. Width(style) * (j + 1)] == Continuation(style, flags[j])
  {
    var before := Indent(style, flags[..j]);
    var c := Continuation(style, flags[j]);
    IndentSplit(style, flags, j);
    IndentLength(style, flags[..j]);
    MulSucc(Width(style), j);
    MiddleSlice(before, c, Indent(style, flags[j + 1..]));
  }

  /** The indent of `flags` is that of the ancestors before `j`, fragment `j`, then the rest. */
  lemma {:induction false} IndentSplit(style: TreeStyle, flags: seq<bool>, j: nat)
    requires j < |flags|
    ensures Indent(style, flags) ==
      Indent(style, flags[..j]) + Continuation(style, flags[j]) + Indent(style, flags[j + 1..])
  {
    var c0 := Continuation(style, flags[0]);
    if j == 0 {
      assert flags[..0] == [] && flags[1..] == flags[j + 1..];
      assert Indent(style, flags[..j]) == "";
    } else {
      IndentSplit(style, flags[1..], j - 1);
      assert flags[1..][..j - 1] == flags[..j][1..];
      assert flags[1..][j - 1] == flags[j] && flags[1..][j..] == flags[j + 1..];
      assert Indent(style, flags[..j]) == c0 + Indent(style, flags[..j][1..]);
      Regroup3(c0, Indent(style, flags[..j][1..]), Continuation(style, flags[j]), Indent(style, flags[j + 1..]));
    }
  }

  /**
   * The prefix on a line at depth d is made of d fragments, 3·d characters in
   * the classic and modern styles and 2·d in the minimal one; the fragment of
   * an ancestor that was a last sibling is all spaces.
   */
  lemma LinePrefix(s: Structure, style: TreeStyle, k: nat)
    requires k < |Flat(s)|
    ensures |WalkLines(s, "", style)| == |Flat(s)|
    ensures var row := Flat(s)[k];
      var line := WalkLines(s, "", style)[k];
      var d := |row.lastFlags| - 1;
      var w := Width(style);
      d >= 0 && w * d <= |line| &&
      line[..w * d] == Indent(style, row.lastFlags[..d]) &&
      |line[..w * d]| == w * d &&
      forall j | 0 <= j < d ::
        line[w * j .. w * (j + 1)] == Continuation(style, row.lastFlags[j]) &&
        (row.lastFlags[j] ==> line[w * j .. w * (j + 1)] == Blank(w))
  {
    WalkRows(s, "", style);
    FormatRowPrefix(style, Flat(s)[k]);
  }

  lemma FormatRowPrefix(style: TreeStyle, row: Row)
    requires |row.lastFlags| > 0
    ensures var line := FormatRow("", style, row);
      var d := |row.lastFlags| - 1;
      var w := Width(style);
      w * d <= |line| &&
      line[..w * d] == Indent(style, row.lastFlags[..d]) &&
      |line[..w * d]| == w * d &&
      forall j | 0 <= j < d :: line[w * j .. w * (j + 1)] == Continuation(style, row.lastFlags[j])
  {
    var f := row.lastFlags;
    var d := |f| - 1;
    var w := Width(style);
    var ind := Indent(style, f[..d]);
    var tail := RowText(style, f[d], row);
    IndentLength(style, f[..d]);
    FormatRowIndent("", style, row);
    assert "" + ind == ind;
    assert (ind + tail)[..w * d] == ind;
    forall j | 0 <= j < d ensures (ind + tail)[w * j .. w * (j + 1)] == Continuation(style, f[j]) {
      FragmentOfLine(style, f[..d], tail, j);
    }
  }

  /** Fragment `j` of an indent is unchanged by what follows the indent on the line. */
  lemma FragmentOfLine(style: TreeStyle, flags: seq<bool>, tail: string, j: nat)
    requires j < |flags|
    ensures Width(style) * (j + 1) <= |Indent(style, flags) + tail|
    ensures (Indent(style, flags) + tail)[Width(style) * j .. Width(style) * (j + 1)] == Continuation(style, flags[j])
  {
    var w := Width(style);
    var ind := Indent(style, flags);
    IndentAt(style, flags, j);
    SliceBefore(ind, tail, w * j, w * (j + 1));
  }

  /** A line ends in `/` exactly when its key holds a sub-map, unless the name itself ends in `/`. */
  lemma SlashMarksSubMaps(s: Structure, prefix: string, style: TreeStyle, k: nat)
    requires k < |Flat(s)|
    ensures |WalkLines(s, prefix, style)| == |Flat(s)|
    ensures var row := Flat(s)[k];
      var line := WalkLines(s, prefix, style)[k];
      |line| > 0 &&
      (line[|line| - 1] == '/' <==> row.isDir || (|row.name| > 0 && row.name[|row.name| - 1] == '/'))
  {
    WalkRows(s, prefix, style);
    var row := Flat(s)[k];
    var d := |row.lastFlags| - 1;
    FormatRowIndent(prefix, style, row);
    RowTextLast(style, row.lastFlags[d], row);
    LastOfConcat(prefix + Indent(style, row.lastFlags[..d]), RowText(style, row.lastFlags[d], row));
  }

  /** The text of a row ends in `/` exactly when the row is a sub-map or its name ends in `/`. */
  lemma RowTextLast(style: TreeStyle, isLast: bool, row: Row)
    ensures var text := RowText(style, isLast, row);
      |text| > 0 &&
      (text[|text| - 1] == '/' <==> row.isDir || (|row.name| > 0 && row.name[|row.name| - 1] == '/'))
  {
    var conn := Connector(style, isLast);
    var shown := Label(row.name, row.isDir);
    if |shown| > 0 {
      LastOfConcat(conn, shown);
      if !row.isDir {
        assert shown == row.name;
      }
    } else {
      assert RowText(style, isLast, row) == conn + [];
    }
  }

  /** There is one row per key: the pre-order enumeration agrees with the counter. */
  lemma FlatCount(s: Structure)
    ensures |Flat(s)| == Count(s)
  {
    WalkRows(s, "", Classic);
    WalkLength(s, "", Classic);
  }
}
