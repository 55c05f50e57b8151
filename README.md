# Table of contents: outline tree, expansion state and visible rows

A Dafny model of the table-of-contents component of react-pdf-highlighter
(`src/components/TableOfContents.tsx`). The component shows the outline of a
PDF document as a collapsible tree: entries with children carry a
triangle glyph, clicking such an entry toggles whether its children are
shown, and clicking an entry with a destination asks the document to resolve
that destination.

The model has four modules:

- `Outline` (`outline.dfy`): the outline entry `Node<D>` (title, optional
  opaque destination, children in reading order), the `HasSubItems` test, the
  titles that can matter for expansion, and `Preorder`, the full depth-first
  listing of every entry with its depth, used as the reference the visible
  rows are compared with.
- `Expansion` (`expansion.dfy`): `Toggled`, the set of expanded titles after
  one title is flipped.
- `Rendering` (`rendering.dfy`): the JSX tree abstracted into rows.
  `NodeRows`/`ForestRows` follow `renderOutlineItem` and the `map` over
  siblings; `VisibleRows` starts the walk at level 0; `Render` yields the
  placeholder for an empty outline. The lemmas state the shape of the row
  list exactly: pre-order, stored order, levels, margins, glyphs and the gate
  that decides when children appear.
- `TableOfContents` (`table_of_contents.dfy`): the component state as the
  class `Contents` with fields `outline` and `expanded`, and the methods
  `ApplyLoad` (the state update in `loadOutline`), `ToggleExpand` and `Click`
  (the `onClick` handler). `Session` walks through a short usage: load
  `[Ch1 [1.1], Ch2]`, click `Ch1` twice, click `Ch2`.

The model follows the code as written, including these behaviours a reader
might not expect:

- A missing document does not clear the stored outline (line 25 returns early).
- A fetch that resolves to `null`/`undefined`, or that throws, leaves the
  previous outline in place rather than emptying it (lines 29-33).
- A fetch that resolves to an empty array replaces the outline with it, since
  an empty array passes the `if (outline)` test at line 29.
- The expanded titles are never reset when the document changes.
- Titles are the expansion keys, so all entries with children that share a
  title expand and collapse together (`Rendering.ToggleMovesGlyph`).
- A click asks for destination resolution only when the entry has a truthy
  destination AND a document is present, because the call at line 66 goes
  through `pdfDocument?.`.

## Model

| member | source | states |
|---|---|---|
| `Outline.ExpandableTitlesInPreorder` | src/components/TableOfContents.tsx:52-54 | the titles whose expansion can be seen are exactly the titles of the entries with at least one child anywhere in the outline's full pre-order listing |
| `Expansion.Toggled` | src/components/TableOfContents.tsx:40-49 | the toggled title is in the result exactly when it was not in the set; every other title keeps its membership |
| `Expansion.ToggleTwice` | src/components/TableOfContents.tsx:40-49 | toggling the same title twice gives back the original set |
| `TableOfContents.Contents.constructor` | src/components/TableOfContents.tsx:20-21 | a new component has an empty outline and no expanded titles |
| `TableOfContents.Contents.ApplyLoad` | src/components/TableOfContents.tsx:24-34 | the outline is replaced only when a document is present and the fetch resolved to an array (possibly empty); no document, a null or undefined result, or a failed fetch leave it unchanged; the expanded titles never change |
| `TableOfContents.Contents.ToggleExpand` | src/components/TableOfContents.tsx:40-49 | the new set is the old one toggled at the title (by `Toggled`'s contract: the title's membership flips, every other title keeps its membership); the outline stays as it was |
| `TableOfContents.Contents.Click` | src/components/TableOfContents.tsx:60-71 | an entry with at least one child has its title toggled, a leaf leaves the expanded titles unchanged; resolution is requested exactly when the entry has a destination and a document is present, independently of the toggle |
| `TableOfContents.ClickTwice` | src/components/TableOfContents.tsx:60-71 | two clicks on the same entry restore the expanded titles and request the same resolution both times |
| `Rendering.Render` | src/components/TableOfContents.tsx:97-105 | the placeholder, with the text "No outline available", is shown exactly when the outline is empty; otherwise the rows are non-empty and start with the first top-level entry at level 0 |
| `Rendering.VisibleRowsShape` | src/components/TableOfContents.tsx:52-95 | there are rows iff the outline has entries; the first row is the first entry at level 0; each row's margin is 20 px per level; its glyph is none iff its entry has no children, expanded iff it has children and its title is expanded, collapsed otherwise; the next row is deeper iff the row's entry has children and its title is expanded, and it is then the entry's first child one level deeper; no row is more than one level deeper than the row before |
| `Rendering.NodeRowsNested` | src/components/TableOfContents.tsx:52-95 | the rows of one entry, for any level and expansion state, start with the entry itself at that level and have the shape described above (gate, levels, margins, glyphs) |
| `Rendering.ForestRowsNested` | src/components/TableOfContents.tsx:88-92 | the rows of a list of siblings have that shape too: each sibling's block ends with a row whose children are hidden |
| `Rendering.SiblingsInStoredOrder` | src/components/TableOfContents.tsx:88-92 | the rows at the siblings' own level are exactly the siblings, in stored order, whatever is expanded |
| `Rendering.TopLevelInStoredOrder` | src/components/TableOfContents.tsx:101-105 | for every expansion state, the top-level rows are exactly the outline's entries in stored order |
| `Rendering.ChildrenInStoredOrder` | src/components/TableOfContents.tsx:88-92 | under an entry whose children are shown, its own row comes first and the rows one level deeper are exactly its children in stored order |
| `Rendering.VisibleIsPartOfPreorder` | src/components/TableOfContents.tsx:52-95 | the visible (entry, level) pairs are the full pre-order listing of the outline with some entries left out and the order kept |
| `Rendering.FullyExpandedIsPreorder` | src/components/TableOfContents.tsx:88-92 | when every title of an entry with children is expanded, the visible (entry, level) pairs are exactly the full pre-order listing |
| `Rendering.CollapsedShowsOnlySiblings` | src/components/TableOfContents.tsx:52-92 | when none of the siblings shows its children, the rows are exactly the siblings at their level, a collapsed glyph on each one with children and none on leaves |
| `Rendering.NothingExpandedShowsTopLevel` | src/components/TableOfContents.tsx:97-105 | with an empty expanded set, the rows are exactly the top-level entries, in order, at level 0 |
| `Rendering.OnlyExpandableTitlesMatter` | src/components/TableOfContents.tsx:52-92 | two expansion states that agree on the titles of entries with children give identical rows |
| `Rendering.ToggleUnseenTitle` | src/components/TableOfContents.tsx:40-49 | toggling a title that no entry with children carries leaves the visible rows unchanged |
| `Rendering.GlyphText` | src/components/TableOfContents.tsx:73-77 | the text drawn for a glyph is empty exactly for the no-glyph of an entry without children; a collapsed entry draws ▶ (U+25B6) and an expanded one ▼ (U+25BC) |
| `Rendering.DrawnGlyphs` | src/components/TableOfContents.tsx:53-77 | in front of each visible row, ▼ is drawn exactly when its entry has children and its title is expanded, ▶ exactly when it has children and its title is not expanded, nothing exactly when it has no children; the two triangles are distinct single characters |
| `Rendering.ToggleMovesGlyph` | src/components/TableOfContents.tsx:73-77 | toggling a title moves every entry with children of that title between collapsed and expanded, including distinct entries that share it, and leaves leaves and other entries as they were |

## Left out

- The JSX markup, CSS class names and the bold, italic and
  colour styling of titles (lines 56-94): only the row abstraction (entry,
  level, margin, glyph) is kept.
- The `key` attribute (line 57) is the title, so siblings that share a title
  share a key, and React leaves unspecified how it reconciles duplicate keys
  on an update. The rows model the element list a render returns, not the
  DOM after reconciliation.
- The on-screen offset of a row: `marginLeft` (line 57) is relative to the
  enclosing container and nested containers add up; the model records each
  row's own `marginLeft` value only.
- The document calls `getOutline` and `getDestination` (lines 28, 66): the
  loader receives the fetch outcome as the `Fetch` value, and a click returns
  whether resolution is requested. What happens with a resolved destination
  (line 68 only logs it) is not modelled.
- A failed destination lookup: the promise from `getDestination` at line 66
  has no rejection handler, so a failure is neither caught nor logged; the
  model only records that resolution was requested.
- `console.error` and `console.log` (lines 33, 68): logging only.
- React's `useState`/`useEffect` scheduling and re-rendering, and the race in
  which an outline fetched for an earlier document arrives after the document
  changed: these are about the ordering of asynchronous events. `ApplyLoad`
  models one load applied on its own.
- JavaScript truthiness of `dest` (line 64): every falsy value is represented
  by `None`, every other value by `Some`.
- An absent `items` array and an empty one are represented alike (no
  children), as line 53 treats them alike.
- The unused `expanded` field of `OutlineNode` (line 16).
- The `!outline` test at line 97: the stored outline is always an array in
  this model (it starts empty and only arrays are stored), so only its length
  is tested.
