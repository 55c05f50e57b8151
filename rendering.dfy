/**
 * What the table of contents shows for an outline and an expansion state:
 * either the "No outline available" placeholder, or the visible rows,
 * produced by a depth-first, pre-order walk that descends into an entry's
 * children only when the entry has children and its title is expanded.
 * The markup, class names and text styling are abstracted into rows.
 */
module Rendering {
  import opened Outline
  import opened Expansion

  /** The expand affordance of a row: none for a leaf, a right-pointing or a down-pointing triangle otherwise. */
  datatype Glyph = NoGlyph | Collapsed | Expanded

  /**
   * The text drawn for a glyph: nothing for a leaf, a right-pointing
   * triangle (U+25B6) for a collapsed entry, a down-pointing one (U+25BC)
   * for an expanded entry.
   */
  function GlyphText(g: Glyph): (text: string)
    ensures text == "" <==> g == NoGlyph
    ensures g == Collapsed ==> text == "\U{25B6}"
    ensures g == Expanded ==> text == "\U{25BC}"
  {
    match g
    case NoGlyph => ""
    case Collapsed => "\U{25B6}"
    case Expanded => "\U{25BC}"
  }

  /** Left margin, in pixels, added per nesting level. */
  const IndentPerLevel: nat := 20

  /** The text shown instead of a tree when the outline has no entries. */
  const PlaceholderText: string := "No outline available"

  /**
   * One visible row: the entry it shows (the target of a click on it),
   * its nesting level (0 for a top-level entry), the left margin of its
   * container, and its glyph.
   */
  datatype Row<D> = Row(item: Node<D>, level: nat, marginLeft: nat, glyph: Glyph)

  /** The whole view: the placeholder with its text, or the rows of a non-empty outline. */
  datatype View<D> = Placeholder(text: string) | Tree(rows: seq<Row<D>>)

  /** The gate for descending into an entry: it has children and its title is expanded. */
  predicate ShowsChildren<D>(n: Node<D>, expanded: set<string>)
  {
    HasSubItems(n) && n.title in expanded
  }

  /** The glyph of an entry: none for a leaf, otherwise by membership of its title. */
  function GlyphOf<D>(n: Node<D>, expanded: set<string>): (g: Glyph)
  {
    if !HasSubItems(n) then NoGlyph
    else if n.title in expanded then Expanded
    else Collapsed
  }

  /** The rows of one entry rendered at `level`: its own row, then, behind the gate, its children's rows. */
  function NodeRows<D>(n: Node<D>, level: nat, expanded: set<string>): (rows: seq<Row<D>>)
    decreases n
  {
    [Row(n, level, level * IndentPerLevel, GlyphOf(n, expanded))]
    + (if ShowsChildren(n, expanded) then ForestRows(n.items, level + 1, expanded) else [])
  }

  /** The rows of a sequence of sibling entries, each rendered at `level`, in stored order. */
  function ForestRows<D>(xs: seq<Node<D>>, level: nat, expanded: set<string>): (rows: seq<Row<D>>)
    decreases xs
  {
    if xs == [] then []
    else NodeRows(xs[0], level, expanded) + ForestRows(xs[1..], level, expanded)
  }

  /** The visible rows of an outline: its top-level entries start at level 0. */
  function VisibleRows<D>(outline: seq<Node<D>>, expanded: set<string>): (rows: seq<Row<D>>)
  {
    ForestRows(outline, 0, expanded)
  }

  /**
   * The view: the placeholder exactly when the outline is empty, and
   * otherwise a non-empty list of rows led by the first top-level entry.
   */
  function Render<D>(outline: seq<Node<D>>, expanded: set<string>): (v: View<D>)
    ensures v.Placeholder? <==> |outline| == 0
    ensures v.Placeholder? ==> v.text == "No outline available"
    ensures v.Tree? ==> |v.rows| > 0 && v.rows[0].item == outline[0] && v.rows[0].level == 0
    ensures v.Tree? ==> v.rows == VisibleRows(outline, expanded)
  {
    if |outline| == 0 then Placeholder(PlaceholderText)
    else
      VisibleRowsShape(outline, expanded, VisibleRows(outline, expanded));
      Tree(VisibleRows(outline, expanded))
  }

  // ---------------------------------------------------------------------
  // The shape of the row list

  /**
   * What holds of row `i` of a rendered row list whose first entry is at
   * `level`: it is not shallower than `level`; its margin is its level
   * times the indentation step and its glyph follows its entry; the next
   * row is deeper exactly when this row's entry shows its children, and it
   * is then that entry's first child, exactly one level deeper; and the
   * next row is never more than one level deeper.
   */
  ghost predicate RowFits<D>(rows: seq<Row<D>>, i: nat, level: nat, expanded: set<string>)
    requires i < |rows|
  {
    && level <= rows[i].level
    && rows[i].marginLeft == rows[i].level * IndentPerLevel
    && rows[i].glyph == GlyphOf(rows[i].item, expanded)
    && ((i + 1 < |rows| && rows[i].level < rows[i + 1].level) <==> ShowsChildren(rows[i].item, expanded))
    && (i + 1 < |rows| ==> rows[i + 1].level <= rows[i].level + 1)
    && (i + 1 < |rows| && ShowsChildren(rows[i].item, expanded) ==>
          rows[i + 1].item == rows[i].item.items[0] && rows[i + 1].level == rows[i].level + 1)
  }

  /** The shape every rendered row list has: it starts at `level` and every row fits. */
  ghost predicate Nested<D>(rows: seq<Row<D>>, level: nat, expanded: set<string>)
  {
    && (|rows| > 0 ==> rows[0].level == level)
    && forall i: nat :: i < |rows| ==> RowFits(rows, i, level, expanded)
  }

  /** Two row lists of that shape at the same level, one after the other, keep the shape. */
  lemma NestedAppend<D>(a: seq<Row<D>>, b: seq<Row<D>>, level: nat, expanded: set<string>)
    requires Nested(a, level, expanded) && Nested(b, level, expanded)
    ensures Nested(a + b, level, expanded)
  {
    var ab := a + b;
    forall i: nat | i < |ab|
      ensures RowFits(ab, i, level, expanded)
    {
      if i < |a| - 1 {
        assert RowFits(a, i, level, expanded);
        assert ab[i] == a[i] && ab[i + 1] == a[i + 1];
      } else if i == |a| - 1 {
        assert RowFits(a, i, level, expanded);
        assert ab[i] == a[i];
        if i + 1 < |ab| {
          assert ab[i + 1] == b[0];
        }
      } else {
        var j: nat := i - |a|;
        assert RowFits(b, j, level, expanded);
        assert ab[i] == b[j];
        if i + 1 < |ab| {
          assert ab[i + 1] == b[j + 1];
        }
      }
    }
  }

  /** The rows of one entry have the shape, and lead with the entry itself. */
  lemma {:induction false} NodeRowsNested<D>(n: Node<D>, level: nat, expanded: set<string>)
    ensures Nested(NodeRows(n, level, expanded), level, expanded)
    ensures NodeRows(n, level, expanded)[0].item == n
    decreases n
  {
    var head := Row(n, level, level * IndentPerLevel, GlyphOf(n, expanded));
    if ShowsChildren(n, expanded) {
      var kids := ForestRows(n.items, level + 1, expanded);
      ForestRowsNested(n.items, level + 1, expanded);
      assert kids == NodeRows(n.items[0], level + 1, expanded) + ForestRows(n.items[1..], level + 1, expanded);
      assert kids[0] == Row(n.items[0], level + 1, (level + 1) * IndentPerLevel, GlyphOf(n.items[0], expanded));
      var rows := [head] + kids;
      assert rows == NodeRows(n, level, expanded);
      forall i: nat | i < |rows|
        ensures RowFits(rows, i, level, expanded)
      {
        if i == 0 {
          assert rows[1] == kids[0];
        } else {
          assert RowFits(kids, i - 1, level + 1, expanded);
          assert rows[i] == kids[i - 1];
          if i + 1 < |rows| {
            assert rows[i + 1] == kids[i];
          }
        }
      }
    } else {
      assert NodeRows(n, level, expanded) == [head];
      assert RowFits([head], 0, level, expanded);
    }
  }

  /** The rows of a sequence of siblings have the shape. */
  lemma {:induction false} ForestRowsNested<D>(xs: seq<Node<D>>, level: nat, expanded: set<string>)
    ensures Nested(ForestRows(xs, level, expanded), level, expanded)
    decreases xs
  {
    if xs != [] {
      NodeRowsNested(xs[0], level, expanded);
      ForestRowsNested(xs[1..], level, expanded);
      NestedAppend(NodeRows(xs[0], level, expanded), ForestRows(xs[1..], level, expanded), level, expanded);
    }
  }

  /**
   * The visible rows of an outline: the first is the first top-level entry
   * at level 0; each row's margin is 20 pixels per level and its glyph is
   * none for a leaf, expanded or collapsed by its title's membership;
   * a row's children appear (the next row is deeper) exactly when its
   * entry has children and its title is expanded, and they start with its
   * first child one level deeper; no row is more than one level deeper
   * than the row before it.
   */
  lemma VisibleRowsShape<D>(outline: seq<Node<D>>, expanded: set<string>, rows: seq<Row<D>>)
    requires rows == VisibleRows(outline, expanded)
    ensures |rows| > 0 <==> |outline| > 0
    ensures |rows| > 0 ==> rows[0].item == outline[0] && rows[0].level == 0
    ensures forall i :: 0 <= i < |rows| ==>
      && rows[i].marginLeft == 20 * rows[i].level
      && (rows[i].glyph == NoGlyph <==> !HasSubItems(rows[i].item))
      && (rows[i].glyph == Expanded <==> HasSubItems(rows[i].item) && rows[i].item.title in expanded)
      && (rows[i].glyph == Collapsed <==> HasSubItems(rows[i].item) && rows[i].item.title !in expanded)
    ensures forall i :: 0 <= i < |rows| ==>
      ((i + 1 < |rows| && rows[i].level < rows[i + 1].level)
       <==> (HasSubItems(rows[i].item) && rows[i].item.title in expanded))
    ensures forall i :: 0 <= i < |rows| - 1 && HasSubItems(rows[i].item) && rows[i].item.title in expanded ==>
      rows[i + 1].item == rows[i].item.items[0] && rows[i + 1].level == rows[i].level + 1
    ensures forall i :: 0 <= i < |rows| - 1 ==> rows[i + 1].level <= rows[i].level + 1
  {
    ForestRowsNested(outline, 0, expanded);
    if outline != [] {
      assert rows == NodeRows(outline[0], 0, expanded) + ForestRows(outline[1..], 0, expanded);
      assert rows[0] == NodeRows(outline[0], 0, expanded)[0];
    }
    forall i | 0 <= i < |rows|
      ensures && rows[i].marginLeft == 20 * rows[i].level
              && (rows[i].glyph == NoGlyph <==> !HasSubItems(rows[i].item))
              && (rows[i].glyph == Expanded <==> HasSubItems(rows[i].item) && rows[i].item.title in expanded)
              && (rows[i].glyph == Collapsed <==> HasSubItems(rows[i].item) && rows[i].item.title !in expanded)
    {
      assert RowFits(rows, i, 0, expanded);
      GlyphMeaning(rows[i].item, expanded, rows[i].glyph);
    }
    forall i {:trigger rows[i]} | 0 <= i < |rows|
      ensures (i + 1 < |rows| && rows[i].level < rows[i + 1].level)
              <==> (HasSubItems(rows[i].item) && rows[i].item.title in expanded)
    {
      assert RowFits(rows, i, 0, expanded);
    }
    forall i | 0 <= i < |rows| - 1 && HasSubItems(rows[i].item) && rows[i].item.title in expanded
      ensures rows[i + 1].item == rows[i].item.items[0] && rows[i + 1].level == rows[i].level + 1
    {
      assert RowFits(rows, i, 0, expanded);
    }
    forall i | 0 <= i < |rows| - 1
      ensures rows[i + 1].level <= rows[i].level + 1
    {
      assert RowFits(rows, i, 0, expanded);
    }
  }

  /**
   * What is drawn in front of each visible row: a down-pointing triangle
   * exactly when the row's entry has children and its title is expanded,
   * a right-pointing one exactly when it has children and its title is not
   * expanded, and nothing exactly when it has no children. The two
   * triangles are distinct single characters.
   */
  lemma DrawnGlyphs<D>(outline: seq<Node<D>>, expanded: set<string>, rows: seq<Row<D>>)
    requires rows == VisibleRows(outline, expanded)
    ensures GlyphText(Collapsed) != GlyphText(Expanded)
    ensures |GlyphText(Collapsed)| == 1 && |GlyphText(Expanded)| == 1
    ensures forall i :: 0 <= i < |rows| ==>
      && (GlyphText(rows[i].glyph) == "\U{25BC}" <==> HasSubItems(rows[i].item) && rows[i].item.title in expanded)
      && (GlyphText(rows[i].glyph) == "\U{25B6}" <==> HasSubItems(rows[i].item) && rows[i].item.title !in expanded)
      && (GlyphText(rows[i].glyph) == "" <==> !HasSubItems(rows[i].item))
  {
    VisibleRowsShape(outline, expanded, rows);
    assert "\U{25BC}"[0] != "\U{25B6}"[0];
  }

  /** What a glyph tells about its entry. */
  lemma GlyphMeaning<D>(n: Node<D>, expanded: set<string>, g: Glyph)
    requires g == GlyphOf(n, expanded)
    ensures g == NoGlyph <==> !HasSubItems(n)
    ensures g == Expanded <==> HasSubItems(n) && n.title in expanded
    ensures g == Collapsed <==> HasSubItems(n) && n.title !in expanded
  {
  }

  // ---------------------------------------------------------------------
  // Pre-order and stored order

  /** The entries of the rows that sit at exactly `level`, in row order. */
  function AtLevel<D>(rows: seq<Row<D>>, level: nat): (entries: seq<Node<D>>)
  {
    if rows == [] then []
    else (if rows[0].level == level then [rows[0].item] else []) + AtLevel(rows[1..], level)
  }

  lemma {:induction false} AtLevelAppend<D>(a: seq<Row<D>>, b: seq<Row<D>>, level: nat)
    ensures AtLevel(a + b, level) == AtLevel(a, level) + AtLevel(b, level)
  {
    if a == [] {
      assert a + b == b;
    } else {
      var ab := a + b;
      assert ab[0] == a[0] && ab[1..] == a[1..] + b;
      var first := if a[0].level == level then [a[0].item] else [];
      AtLevelAppend(a[1..], b, level);
      calc {
        AtLevel(ab, level);
        first + AtLevel(a[1..] + b, level);
        first + (AtLevel(a[1..], level) + AtLevel(b, level));
        AtLevel(a, level) + AtLevel(b, level);
      }
    }
  }

  lemma {:induction false} AtLevelNoneDeeper<D>(rows: seq<Row<D>>, level: nat)
    requires forall i :: 0 <= i < |rows| ==> rows[i].level > level
    ensures AtLevel(rows, level) == []
  {
    if rows != [] {
      AtLevelNoneDeeper(rows[1..], level);
    }
  }

  /**
   * The rows at the forest's own level are exactly the forest's entries,
   * in their stored order, whatever is expanded: expansion only ever adds
   * deeper rows between them.
   */
  lemma {:induction false} SiblingsInStoredOrder<D>(xs: seq<Node<D>>, level: nat, expanded: set<string>)
    ensures AtLevel(ForestRows(xs, level, expanded), level) == xs
    decreases xs
  {
    if xs != [] {
      var n := xs[0];
      var head := Row(n, level, level * IndentPerLevel, GlyphOf(n, expanded));
      var kids := if ShowsChildren(n, expanded) then ForestRows(n.items, level + 1, expanded) else [];
      assert NodeRows(n, level, expanded) == [head] + kids;
      ForestRowsNested(n.items, level + 1, expanded);
      forall i | 0 <= i < |kids|
        ensures kids[i].level > level
      {
        assert RowFits(kids, i, level + 1, expanded);
      }
      AtLevelNoneDeeper(kids, level);
      AtLevelAppend([head], kids, level);
      AtLevelAppend([head] + kids, ForestRows(xs[1..], level, expanded), level);
      SiblingsInStoredOrder(xs[1..], level, expanded);
      assert AtLevel([head], level) == [n];
    }
  }

  /**
   * Top-level rows are the outline's entries in stored order, whatever
   * is expanded (nothing included).
   */
  lemma TopLevelInStoredOrder<D>(outline: seq<Node<D>>, expanded: set<string>)
    ensures AtLevel(VisibleRows(outline, expanded), 0) == outline
  {
    SiblingsInStoredOrder(outline, 0, expanded);
  }

  /**
   * Below an entry whose children are shown, the rows one level deeper,
   * up to the entry's next sibling, are its children in stored order.
   */
  lemma ChildrenInStoredOrder<D>(n: Node<D>, level: nat, expanded: set<string>)
    requires ShowsChildren(n, expanded)
    ensures NodeRows(n, level, expanded)[0].item == n
    ensures AtLevel(NodeRows(n, level, expanded)[1..], level + 1) == n.items
  {
    SiblingsInStoredOrder(n.items, level + 1, expanded);
    assert NodeRows(n, level, expanded)[1..] == ForestRows(n.items, level + 1, expanded);
  }

  /** The entry and depth of each row, in row order. */
  function Entries<D>(rows: seq<Row<D>>): (entries: seq<(Node<D>, nat)>)
  {
    seq(|rows|, i requires 0 <= i < |rows| => (rows[i].item, rows[i].level))
  }

  lemma EntriesAppend<D>(a: seq<Row<D>>, b: seq<Row<D>>)
    ensures Entries(a + b) == Entries(a) + Entries(b)
  {
    assert forall i :: 0 <= i < |a + b| ==> (a + b)[i] == if i < |a| then a[i] else b[i - |a|];
  }

  /** `a` is `b` with some elements left out (order kept). */
  ghost predicate IsSubsequence<T>(a: seq<T>, b: seq<T>)
    decreases |b|
  {
    a == [] || (b != [] && ((a[0] == b[0] && IsSubsequence(a[1..], b[1..])) || IsSubsequence(a, b[1..])))
  }

  lemma {:induction false} SubsequenceWiden<T>(a: seq<T>, b: seq<T>, c: seq<T>)
    requires IsSubsequence(a, b)
    ensures IsSubsequence(a, c + b)
    decreases |c|
  {
    if c != [] {
      SubsequenceWiden(a, b, c[1..]);
      assert (c + b)[1..] == c[1..] + b;
    } else {
      assert c + b == b;
    }
  }

  lemma {:induction false} SubsequenceAppend<T>(a1: seq<T>, b1: seq<T>, a2: seq<T>, b2: seq<T>)
    requires IsSubsequence(a1, b1) && IsSubsequence(a2, b2)
    ensures IsSubsequence(a1 + a2, b1 + b2)
    decreases |b1|
  {
    if a1 == [] {
      SubsequenceWiden(a2, b2, b1);
      assert a1 + a2 == a2;
    } else {
      assert (b1 + b2)[1..] == b1[1..] + b2;
      if a1[0] == b1[0] && IsSubsequence(a1[1..], b1[1..]) {
        SubsequenceAppend(a1[1..], b1[1..], a2, b2);
        assert (a1 + a2)[1..] == a1[1..] + a2;
      } else {
        SubsequenceAppend(a1, b1[1..], a2, b2);
      }
    }
  }

  /**
   * What is visible is the outline's full pre-order listing, entries and
   * depths alike, with some entries left out and the order kept.
   */
  lemma {:induction false} VisibleIsPartOfPreorder<D>(xs: seq<Node<D>>, level: nat, expanded: set<string>)
    ensures IsSubsequence(Entries(ForestRows(xs, level, expanded)), Preorder(xs, level))
    decreases xs
  {
    if xs != [] {
      var n := xs[0];
      var head := Row(n, level, level * IndentPerLevel, GlyphOf(n, expanded));
      var kids := if ShowsChildren(n, expanded) then ForestRows(n.items, level + 1, expanded) else [];
      var rest := ForestRows(xs[1..], level, expanded);
      assert ForestRows(xs, level, expanded) == [head] + kids + rest;
      EntriesAppend([head] + kids, rest);
      EntriesAppend([head], kids);
      assert Entries([head]) == [(n, level)];
      assert IsSubsequence([(n, level)], [(n, level)]) by {
        assert [(n, level)][1..] == [];
      }
      if ShowsChildren(n, expanded) {
        VisibleIsPartOfPreorder(n.items, level + 1, expanded);
      } else {
        assert Entries(kids) == [];
      }
      SubsequenceAppend([(n, level)], [(n, level)], Entries(kids), Preorder(n.items, level + 1));
      VisibleIsPartOfPreorder(xs[1..], level, expanded);
      SubsequenceAppend([(n, level)] + Entries(kids), [(n, level)] + Preorder(n.items, level + 1),
                        Entries(rest), Preorder(xs[1..], level));
    }
  }

  /** When every title that has children is expanded, everything is visible: the full pre-order listing. */
  lemma {:induction false} FullyExpandedIsPreorder<D>(xs: seq<Node<D>>, level: nat, expanded: set<string>)
    requires ExpandableTitles(xs) <= expanded
    ensures Entries(ForestRows(xs, level, expanded)) == Preorder(xs, level)
    decreases xs
  {
    if xs != [] {
      var n := xs[0];
      var head := Row(n, level, level * IndentPerLevel, GlyphOf(n, expanded));
      var kids := ForestRows(n.items, level + 1, expanded);
      var rest := ForestRows(xs[1..], level, expanded);
      if HasSubItems(n) {
        assert ShowsChildren(n, expanded);
      } else {
        assert n.items == [];
      }
      assert ForestRows(xs, level, expanded) == [head] + kids + rest;
      EntriesAppend([head] + kids, rest);
      EntriesAppend([head], kids);
      FullyExpandedIsPreorder(n.items, level + 1, expanded);
      FullyExpandedIsPreorder(xs[1..], level, expanded);
    }
  }

  // ---------------------------------------------------------------------
  // Dependence on the expansion state

  /**
   * When none of the siblings shows its children (in particular, with
   * nothing expanded), the rows are exactly the siblings at their level,
   * each collapsed or a leaf.
   */
  lemma {:induction false} CollapsedShowsOnlySiblings<D>(xs: seq<Node<D>>, level: nat, expanded: set<string>)
    requires forall i :: 0 <= i < |xs| ==> !ShowsChildren(xs[i], expanded)
    ensures var rows := ForestRows(xs, level, expanded);
      && |rows| == |xs|
      && forall i :: 0 <= i < |xs| ==>
           rows[i] == Row(xs[i], level, level * IndentPerLevel, if HasSubItems(xs[i]) then Collapsed else NoGlyph)
    decreases xs
  {
    if xs != [] {
      var n := xs[0];
      assert !ShowsChildren(n, expanded);
      assert forall i :: 0 <= i < |xs[1..]| ==> xs[1..][i] == xs[i + 1];
      CollapsedShowsOnlySiblings(xs[1..], level, expanded);
      var rows := ForestRows(xs, level, expanded);
      var rest := ForestRows(xs[1..], level, expanded);
      assert NodeRows(n, level, expanded) == [Row(n, level, level * IndentPerLevel, GlyphOf(n, expanded))];
      assert rows == [Row(n, level, level * IndentPerLevel, GlyphOf(n, expanded))] + rest;
      forall i | 1 <= i < |xs|
        ensures rows[i] == Row(xs[i], level, level * IndentPerLevel, if HasSubItems(xs[i]) then Collapsed else NoGlyph)
      {
        assert rows[i] == rest[i - 1] && xs[i] == xs[1..][i - 1];
      }
    }
  }

  /** With nothing expanded, exactly the top-level entries are visible, at level 0. */
  lemma NothingExpandedShowsTopLevel<D>(outline: seq<Node<D>>)
    ensures var rows := VisibleRows(outline, {});
      && |rows| == |outline|
      && forall i :: 0 <= i < |outline| ==> rows[i].item == outline[i] && rows[i].level == 0
  {
    CollapsedShowsOnlySiblings(outline, 0, {});
  }

  /**
   * The rows depend on the expansion state only through the titles of
   * entries that have children: two states that agree on those give the
   * same rows.
   */
  lemma {:induction false} OnlyExpandableTitlesMatter<D>(xs: seq<Node<D>>, level: nat, e1: set<string>, e2: set<string>)
    requires e1 * ExpandableTitles(xs) == e2 * ExpandableTitles(xs)
    ensures ForestRows(xs, level, e1) == ForestRows(xs, level, e2)
    decreases xs
  {
    if xs != [] {
      var n := xs[0];
      var all := ExpandableTitles(xs);
      if HasSubItems(n) {
        assert n.title in all;
        assert n.title in e1 * all <==> n.title in e2 * all;
      }
      AgreementNarrows(e1, e2, all, ExpandableTitles(n.items));
      AgreementNarrows(e1, e2, all, ExpandableTitles(xs[1..]));
      OnlyExpandableTitlesMatter(n.items, level + 1, e1, e2);
      OnlyExpandableTitlesMatter(xs[1..], level, e1, e2);
    }
  }

  lemma AgreementNarrows(e1: set<string>, e2: set<string>, wide: set<string>, narrow: set<string>)
    requires narrow <= wide && e1 * wide == e2 * wide
    ensures e1 * narrow == e2 * narrow
  {
    forall t | t in narrow
      ensures t in e1 <==> t in e2
    {
      assert t in e1 * wide <==> t in e2 * wide;
    }
  }

  /** Toggling a title that no entry with children carries changes nothing that is shown. */
  lemma ToggleUnseenTitle<D>(outline: seq<Node<D>>, expanded: set<string>, title: string)
    requires title !in ExpandableTitles(outline)
    ensures VisibleRows(outline, Toggled(expanded, title)) == VisibleRows(outline, expanded)
  {
    OnlyExpandableTitlesMatter(outline, 0, Toggled(expanded, title), expanded);
  }

  /**
   * The per-entry state machine: toggling `title` moves every entry with
   * children titled `title` between collapsed and expanded (so entries
   * sharing a title move together), and leaves leaves and every other
   * entry as they were.
   */
  lemma ToggleMovesGlyph<D>(n: Node<D>, expanded: set<string>, title: string)
    ensures GlyphOf(n, Toggled(expanded, title)) ==
      if HasSubItems(n) && n.title == title
      then (if GlyphOf(n, expanded) == Expanded then Collapsed else Expanded)
      else GlyphOf(n, expanded)
  {
  }
}
