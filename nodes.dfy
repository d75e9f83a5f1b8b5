/**
 * The parsed document as the transformer sees it: a sequence of sibling
 * nodes. Headings carry their level, their text and their class list; tables
 * and grids are the abstractions of the `Tables` module; a `Box` is a
 * `div.colorbox <tag>` container holding moved siblings.
 */
module Nodes {
  import opened Wrappers
  import opened Text
  import opened Headings
  import opened Tables

  datatype Node =
    | Heading(level: nat, text: string, classes: seq<string>)  // h1..h6; `text` is `get_text(" ", strip=True)`
    | Rule                                                   // hr
    | TextNode(content: string)                              // a text node, such as the whitespace between blocks
    | Other                                                  // any other element, opaque
    | TableNode(table: Table)
    | GridNode(grid: Grid)
    | Box(tag: SectionTag, children: seq<Node>)

  /** `heading_text`: the heading's text with whitespace runs collapsed and stripped. */
  function HeadingText(text: string): (r: string)
    ensures Trimmed(r) && SingleSpaced(r)
    ensures NonSpace(r) == NonSpace(text)
  {
    SingleSpacedStrip(CollapseSpaces(text));
    NonSpaceStrip(CollapseSpaces(text));
    Strip(CollapseSpaces(text))
  }

  /** `heading_text` is empty exactly when the heading holds nothing but whitespace. */
  lemma HeadingTextEmpty(text: string)
    ensures HeadingText(text) == [] <==> NonSpace(text) == []
  {
    TrimmedNonSpace(HeadingText(text));
  }

  /** `heading_text` is `" ".join(text.split())`: the heading's words joined by single spaces. */
  lemma HeadingTextWords(text: string)
    ensures HeadingText(text) == JoinWords(Words(text))
  {
    TrimmedJoinWords(HeadingText(text));
    WordsStrip(CollapseSpaces(text));
    CollapseWords(text);
  }

  /** The section a node opens: a classified heading's tag, or None. */
  function SectionOf(n: Node): Option<SectionTag> {
    if n.Heading? then ClassifySection(HeadingText(n.text)) else None
  }

  /** `is_topic_title_tag`: an h2 with text that is not a known section heading. */
  predicate IsTopicTitle(n: Node) {
    n.Heading? && n.level == 2 && HeadingText(n.text) != [] && SectionOf(n).None?
  }

  /** Where a box stops: an `hr`, a topic title, or a classified heading. */
  predicate IsBoundary(n: Node) {
    n.Rule? || IsTopicTitle(n) || SectionOf(n).Some?
  }

  /** Appending `topic-title` to the classes of a topic title, anywhere in the tree. */
  function TagTopic(n: Node): (r: Node)
    ensures r.Heading? == n.Heading? && r.Box? == n.Box?
    ensures n.Heading? ==> r.level == n.level && r.text == n.text
    ensures !n.Heading? && !n.Box? ==> r == n
    ensures n.Box? ==> r.tag == n.tag && |r.children| == |n.children|
    decreases n
  {
    match n
    case Heading(level, text, classes) =>
      if IsTopicTitle(n) then Heading(level, text, classes + ["topic-title"]) else n
    case Box(tag, children) => Box(tag, TagTopics(children))
    case _ => n
  }

  /** Tagging changes neither the section a node opens nor whether it is a topic title. */
  lemma TagTopicKeepsSection(n: Node)
    ensures SectionOf(TagTopic(n)) == SectionOf(n)
    ensures IsTopicTitle(TagTopic(n)) == IsTopicTitle(n)
  {
  }

  /** Tagging changes no box boundary. */
  lemma TagTopicKeepsBoundary(n: Node)
    ensures IsBoundary(TagTopic(n)) == IsBoundary(n)
  {
    TagTopicKeepsSection(n);
  }

  /** Exactly the topic titles get `topic-title` appended to their classes. */
  lemma TagTopicClasses(n: Node)
    requires n.Heading?
    ensures TagTopic(n).classes == n.classes + (if IsTopicTitle(n) then ["topic-title"] else [])
  {
  }

  /** The tagging loop of app.py:454-456 over a sibling sequence. */
  function TagTopics(ns: seq<Node>): (r: seq<Node>)
    ensures |r| == |ns|
    ensures forall i :: 0 <= i < |ns| ==> r[i] == TagTopic(ns[i])
    decreases ns
  {
    seq(|ns|, i requires 0 <= i < |ns| => TagTopic(ns[i]))
  }

  /**
   * Each table replaced by its grid, anywhere in the tree. `find_all` searches
   * every descendant, and `Box` is the only container the model sees into, so
   * the rewrite descends into boxes. In `md_to_full_html` the grid pass runs
   * before any box is made (app.py:501-503), so there the `Box` case never
   * arises; it only keeps the function total and its "no table left" promise
   * true for every tree.
   */
  function GridNodeOf(n: Node): (r: Node)
    ensures !n.TableNode? && !n.Box? ==> r == n
    ensures n.TableNode? ==> r == GridNode(ToGrid(n.table))
    decreases n
  {
    match n
    case TableNode(t) => GridNode(ToGrid(t))
    case Box(tag, children) => Box(tag, Gridded(children))
    case _ => n
  }

  /** Replacing tables by grids changes no decision of the partition. */
  lemma GridNodeKeepsDecisions(n: Node)
    ensures SectionOf(GridNodeOf(n)) == SectionOf(n)
    ensures IsBoundary(GridNodeOf(n)) == IsBoundary(n)
  {
  }

  function Gridded(ns: seq<Node>): (r: seq<Node>)
    ensures |r| == |ns|
    ensures forall i :: 0 <= i < |ns| ==> r[i] == GridNodeOf(ns[i])
    decreases ns
  {
    seq(|ns|, i requires 0 <= i < |ns| => GridNodeOf(ns[i]))
  }

  /** No table is left anywhere in the tree. */
  predicate NoTables(ns: seq<Node>)
    decreases ns
  {
    forall i :: 0 <= i < |ns| ==> !ns[i].TableNode? && (ns[i].Box? ==> NoTables(ns[i].children))
  }

  lemma {:induction false} GriddedNoTables(ns: seq<Node>)
    ensures NoTables(Gridded(ns))
    decreases ns
  {
    forall i | 0 <= i < |ns| && ns[i].Box?
      ensures NoTables(Gridded(ns)[i].children)
    {
      GriddedNoTables(ns[i].children);
    }
  }
}
