/**
 * The table-of-contents component's state and its three state changes:
 * storing a freshly loaded outline, toggling a title, and reacting to a
 * click on a row. The document's own operations (fetching the outline,
 * resolving a destination) happen outside: the loader receives what the
 * fetch produced, and a click reports whether it asks for a destination
 * to be resolved.
 */
module TableOfContents {
  import opened Outline
  import opened Expansion
  import opened Rendering

  /**
   * How fetching the outline of a present document ended: it resolved to
   * undefined, to null, or to an array of entries, or it threw.
   */
  datatype Fetch<D> = Undefined | Null | Loaded(entries: seq<Node<D>>) | Failed

  /** The component: the stored outline and the set of expanded titles. */
  class Contents<D> {
    var outline: seq<Node<D>>
    var expanded: set<string>

    /** A new component shows no outline and has nothing expanded. */
    constructor ()
      ensures outline == [] && expanded == {}
    {
      outline := [];
      expanded := {};
    }

    /**
     * Stores the result of loading the outline. Without a document nothing
     * is fetched and nothing changes; a fetch that resolves to undefined or
     * null, or that fails, also leaves the stored outline as it was; an
     * array (an empty one included) replaces it. The expanded titles are
     * kept in every case.
     */
    method ApplyLoad(documentPresent: bool, result: Fetch<D>)
      modifies this
      ensures outline == if documentPresent && result.Loaded? then result.entries else old(outline)
      ensures expanded == old(expanded)
    {
      if !documentPresent {
        return;
      }
      match result {
        case Loaded(entries) =>
          outline := entries;
        case Undefined =>
        case Null =>
        case Failed =>
      }
    }

    /**
     * Flips the expansion of `title`: a new set equal to the old one with
     * `title` removed if it was there and added if it was not; no other
     * title and not the outline changes.
     */
    method ToggleExpand(title: string)
      modifies this
      ensures expanded == Toggled(old(expanded), title)
      ensures outline == old(outline)
    {
      var next := expanded;
      if title in next {
        next := next - {title};
      } else {
        next := next + {title};
      }
      expanded := next;
    }

    /**
     * A click on the row of `item`: an entry with at least one child has
     * its title toggled, any other click leaves the expanded titles alone;
     * independently, resolving the destination is requested exactly when
     * the entry has one and a document is present. One click may do both.
     */
    method Click(item: Node<D>, documentPresent: bool) returns (resolveRequested: bool)
      modifies this
      ensures expanded == if HasSubItems(item) then Toggled(old(expanded), item.title) else old(expanded)
      ensures resolveRequested <==> item.dest.Some? && documentPresent
      ensures outline == old(outline)
    {
      if HasSubItems(item) {
        ToggleExpand(item.title);
      }
      resolveRequested := item.dest.Some? && documentPresent;
    }
  }

  /**
   * Clicking the same row twice restores the expanded titles, and each
   * click asks for the same resolution as the other.
   */
  method ClickTwice<D>(c: Contents<D>, item: Node<D>, documentPresent: bool) returns (first: bool, second: bool)
    modifies c
    ensures c.expanded == old(c.expanded) && c.outline == old(c.outline)
    ensures first == second
  {
    first := c.Click(item, documentPresent);
    second := c.Click(item, documentPresent);
    ToggleTwice(old(c.expanded), item.title);
  }

  /**
   * A session on the outline [Ch1 [1.1], Ch2]: first everything is
   * collapsed, a click on Ch1 shows 1.1 beneath it, a second click hides it.
   */
  method Session(d: int)
  {
    var leaf := Node("1.1", Some(d), []);
    var ch1 := Node("Ch1", None, [leaf]);
    var ch2 := Node("Ch2", Some(d), []);
    var toc := new Contents<int>();
    assert Render(toc.outline, toc.expanded) == Placeholder(PlaceholderText);

    toc.ApplyLoad(true, Loaded([ch1, ch2]));
    assert [ch1, ch2][1..] == [ch2] && [ch2][1..] == [];
    assert ForestRows([ch2], 0, toc.expanded) == [Row(ch2, 0, 0, NoGlyph)];
    assert NodeRows(ch1, 0, toc.expanded) == [Row(ch1, 0, 0, Collapsed)];
    assert VisibleRows(toc.outline, toc.expanded) == [Row(ch1, 0, 0, Collapsed), Row(ch2, 0, 0, NoGlyph)];

    var resolve := toc.Click(ch1, true);
    assert !resolve && toc.expanded == {"Ch1"};
    assert [leaf][1..] == [];
    assert ForestRows([leaf], 1, toc.expanded) == [Row(leaf, 1, 20, NoGlyph)];
    assert ForestRows([ch2], 0, toc.expanded) == [Row(ch2, 0, 0, NoGlyph)];
    assert NodeRows(ch1, 0, toc.expanded) == [Row(ch1, 0, 0, Expanded), Row(leaf, 1, 20, NoGlyph)];
    assert VisibleRows(toc.outline, toc.expanded)
        == [Row(ch1, 0, 0, Expanded), Row(leaf, 1, 20, NoGlyph), Row(ch2, 0, 0, NoGlyph)];

    resolve := toc.Click(ch1, true);
    assert toc.expanded == {};

    resolve := toc.Click(ch2, true);
    assert resolve && toc.expanded == {};

    toc.ApplyLoad(true, Null);
    toc.ApplyLoad(false, Loaded([]));
    assert toc.outline == [ch1, ch2];
  }
}
