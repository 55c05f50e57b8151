/**
 * The expansion state: the set of titles whose entries currently show
 * their children, and the one operation that changes it.
 */
module Expansion {

  /**
   * The set after toggling `title`: it is removed when present and added
   * when absent; no other title changes. Nothing checks that the title
   * belongs to an entry with children; that is the caller's business.
   */
  function Toggled(expanded: set<string>, title: string): (r: set<string>)
    ensures title in r <==> title !in expanded
    ensures forall t :: t != title ==> (t in r <==> t in expanded)
  {
    if title in expanded then expanded - {title} else expanded + {title}
  }

  /** Toggling the same title twice gives back the set one started from. */
  lemma ToggleTwice(expanded: set<string>, title: string)
    ensures Toggled(Toggled(expanded, title), title) == expanded
  {
  }
}
