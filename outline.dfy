/**
 * The outline tree of a paginated document: the entries a document's
 * table of contents is made of, and the full pre-order listing of them
 * that the rendered view is a part of.
 */
module Outline {

  /** A value that is present (truthy) or absent (null, undefined or otherwise falsy). */
  datatype Option<+T> = None | Some(value: T)

  /**
   * One outline entry. The title is the text shown and also the key under
   * which the entry's expansion is remembered; the destination is an
   * opaque reference into the document; the children keep the document's
   * reading order. An entry whose `items` array is absent is represented
   * with no children, exactly like one whose array is empty.
   */
  datatype Node<D> = Node(title: string, dest: Option<D>, items: seq<Node<D>>)

  /** An entry that has at least one child (`hasSubItems`). */
  predicate HasSubItems<D>(n: Node<D>)
  {
    |n.items| > 0
  }

  /**
   * The titles of the entries of a forest, at any depth, that have at
   * least one child: the only titles whose expansion can be seen.
   */
  function ExpandableTitles<D>(xs: seq<Node<D>>): (ts: set<string>)
    ensures forall i :: 0 <= i < |xs| && HasSubItems(xs[i]) ==> xs[i].title in ts
    decreases xs
  {
    if xs == [] then {}
    else
      (if HasSubItems(xs[0]) then {xs[0].title} else {})
      + ExpandableTitles(xs[0].items) + ExpandableTitles(xs[1..])
  }

  /**
   * Every entry of a forest paired with its depth, in pre-order: an entry,
   * then its children's listings in stored order, then its next sibling.
   * `level` is the depth of the forest's own entries.
   */
  function Preorder<D>(xs: seq<Node<D>>, level: nat): (ps: seq<(Node<D>, nat)>)
    decreases xs
  {
    if xs == [] then []
    else [(xs[0], level)] + Preorder(xs[0].items, level + 1) + Preorder(xs[1..], level)
  }

  /** The titles of the listed entries that have at least one child. */
  ghost function TitlesWithChildren<D>(ps: seq<(Node<D>, nat)>): set<string>
  {
    set k | 0 <= k < |ps| && HasSubItems(ps[k].0) :: ps[k].0.title
  }

  lemma TitlesWithChildrenAppend<D>(a: seq<(Node<D>, nat)>, b: seq<(Node<D>, nat)>)
    ensures TitlesWithChildren(a + b) == TitlesWithChildren(a) + TitlesWithChildren(b)
  {
    var ab := a + b;
    forall t | t in TitlesWithChildren(ab)
      ensures t in TitlesWithChildren(a) + TitlesWithChildren(b)
    {
      var k :| 0 <= k < |ab| && HasSubItems(ab[k].0) && ab[k].0.title == t;
      if k < |a| {
        assert ab[k] == a[k];
      } else {
        assert ab[k] == b[k - |a|];
      }
    }
    forall t | t in TitlesWithChildren(a) + TitlesWithChildren(b)
      ensures t in TitlesWithChildren(ab)
    {
      if t in TitlesWithChildren(a) {
        var k :| 0 <= k < |a| && HasSubItems(a[k].0) && a[k].0.title == t;
        assert ab[k] == a[k];
      } else {
        var k :| 0 <= k < |b| && HasSubItems(b[k].0) && b[k].0.title == t;
        assert ab[|a| + k] == b[k];
      }
    }
  }

  /**
   * The expandable titles of a forest are exactly the titles of the
   * entries with children anywhere in its full pre-order listing.
   */
  lemma {:induction false} ExpandableTitlesInPreorder<D>(xs: seq<Node<D>>, level: nat)
    ensures ExpandableTitles(xs) == TitlesWithChildren(Preorder(xs, level))
    decreases xs
  {
    if xs != [] {
      var n := xs[0];
      var head := [(n, level)];
      ExpandableTitlesInPreorder(n.items, level + 1);
      ExpandableTitlesInPreorder(xs[1..], level);
      TitlesWithChildrenAppend(head + Preorder(n.items, level + 1), Preorder(xs[1..], level));
      TitlesWithChildrenAppend(head, Preorder(n.items, level + 1));
      assert TitlesWithChildren(head) == if HasSubItems(n) then {n.title} else {} by {
        assert head[0].0 == n;
      }
    }
  }
}
