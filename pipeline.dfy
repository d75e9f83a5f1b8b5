/**
 * The in-place tree rewrites of `md_to_full_html` (app.py:497-506), on the
 * sibling sequence of a parsed document: tables become grids, topic titles
 * are tagged, sections are wrapped in boxes by moving siblings one at a time,
 * and the page title is chosen.
 */
module Pipeline {
  import opened Wrappers
  import opened Text
  import opened Headings
  import opened Tables
  import opened Nodes
  import opened Sections
  import opened Seqs

  /** The parsed document, rewritten in place. */
  class Soup {
    var nodes: seq<Node>

    constructor(parsed: seq<Node>)
      ensures nodes == parsed
    {
      nodes := parsed;
    }

    /** `tables_to_gridtables`: each table replaced by its grid. */
    method TablesToGridTables()
      modifies this
      ensures nodes == Gridded(old(nodes))
    {
      for i := 0 to |nodes|
        invariant |nodes| == |old(nodes)|
        invariant forall j :: 0 <= j < i ==> nodes[j] == GridNodeOf(old(nodes)[j])
        invariant forall j :: i <= j < |nodes| ==> nodes[j] == old(nodes)[j]
      {
        if nodes[i].TableNode? {
          var g := BuildGrid(nodes[i].table);
          nodes := nodes[i := GridNode(g)];
        } else if nodes[i].Box? {
          // A freshly parsed document holds no box yet (app.py:501-503); see `GridNodeOf`.
          nodes := nodes[i := GridNodeOf(nodes[i])];
        }
      }
    }

    /** The tagging loop of app.py:454-456. */
    method TagTopicTitles()
      modifies this
      ensures nodes == TagTopics(old(nodes))
    {
      for i := 0 to |nodes|
        invariant |nodes| == |old(nodes)|
        invariant forall j :: 0 <= j < i ==> nodes[j] == TagTopic(old(nodes)[j])
        invariant forall j :: i <= j < |nodes| ==> nodes[j] == old(nodes)[j]
      {
        nodes := nodes[i := TagTopic(nodes[i])];
      }
    }

    /**
     * `wrap_from`: insert an empty box before the heading at `start`, then move
     * the heading and each following sibling into it until a sibling stops it.
     * The box takes the run that `Extent` measures.
     */
    method WrapFrom(start: nat, tag: SectionTag, stops: Node -> bool)
      requires start < |nodes|
      modifies this
      ensures var k := Extent(old(nodes)[start..], stops);
        nodes == old(nodes)[..start] + [Box(tag, old(nodes)[start..start + k])] + old(nodes)[start + k..]
    {
      ghost var o := nodes;
      nodes := nodes[..start] + [Box(tag, [])] + nodes[start..];
      ghost var moved := 0;
      assert o[start..start + moved] == [] && o[start + moved..] == o[start..];
      var atStart := true;
      while start + 1 < |nodes|
        invariant 0 <= moved <= |o| - start
        invariant atStart <==> moved == 0
        invariant nodes == o[..start] + [Box(tag, o[start..start + moved])] + o[start + moved..]
        invariant forall i :: start + 1 <= i < start + moved ==> !stops(o[i])
        decreases |nodes| - start
      {
        MoveStep(o, start, tag, moved);
        var cur := nodes[start + 1];
        if !atStart && stops(cur) {
          break;
        }
        nodes := nodes[..start] + [Box(tag, nodes[start].children + [cur])] + nodes[start + 2..];
        moved := moved + 1;
        atStart := false;
      }
      ExtentIsMoved(o, start, moved, stops);
    }

    /** Moving the next sibling into the box extends the boxed run by one node. */
    static lemma MoveStep(o: seq<Node>, start: nat, tag: SectionTag, moved: nat)
      requires start + moved < |o|
      ensures var ns := o[..start] + [Box(tag, o[start..start + moved])] + o[start + moved..];
        |ns| == |o| + 1 - moved && ns[start + 1] == o[start + moved] && ns[start].children == o[start..start + moved] &&
        ns[..start] + [Box(tag, ns[start].children + [ns[start + 1]])] + ns[start + 2..] ==
        o[..start] + [Box(tag, o[start..start + moved + 1])] + o[start + moved + 1..]
    {
      var ns := o[..start] + [Box(tag, o[start..start + moved])] + o[start + moved..];
      assert ns[..start] == o[..start];
      assert ns[start + 2..] == o[start + moved + 1..];
      assert o[start..start + moved] + [o[start + moved]] == o[start..start + moved + 1];
    }

    /**
     * The main loop of app.py:489-494: visit the siblings in order and wrap
     * each one that opens a section. Nodes moved into a box are no longer
     * siblings, so they are not visited again.
     */
    method WrapAll(opens: Node -> Option<SectionTag>, stops: Node -> bool)
      modifies this
      ensures nodes == Partition(old(nodes), opens, stops)
    {
      ghost var o := nodes;
      var i := 0;
      LoopEnds(nodes, opens, stops);
      while i < |nodes|
        invariant i <= |nodes|
        invariant nodes[..i] + Partition(nodes[i..], opens, stops) == Partition(o, opens, stops)
        decreases |nodes| - i
      {
        var cls := opens(nodes[i]);
        ghost var before := nodes;
        if cls.Some? {
          WrapFrom(i, cls.value, stops);
          WrapStep(before, nodes, i, opens, stops);
        } else {
          UnwrappedStep(before, i, opens, stops);
        }
        i := i + 1;
      }
      LoopEnds(nodes, opens, stops);
    }

    /** `wrap_sections_and_tag_topics`: tag topic titles, then wrap the sections. */
    method WrapSectionsAndTagTopics()
      modifies this
      ensures nodes == WrapSections(old(nodes))
    {
      TagTopicTitles();
      WrapAll(SectionOf, IsBoundary);
    }
  }

  /** The count of moved siblings is the extent of the box. */
  lemma ExtentIsMoved(o: seq<Node>, start: nat, moved: nat, stops: Node -> bool)
    requires start < |o| && 1 <= moved <= |o| - start
    requires forall i :: start + 1 <= i < start + moved ==> !stops(o[i])
    requires start + moved == |o| || stops(o[start + moved])
    ensures Extent(o[start..], stops) == moved
  {
    var rest := o[start..][1..];
    assert rest == o[start + 1..];
    var r := RunLength(rest, stops);
    if start + moved < |o| {
      assert rest[moved - 1] == o[start + moved];
    }
    assert forall i :: 0 <= i < moved - 1 ==> rest[i] == o[start + 1 + i];
  }

  /** One step of the main loop at a node that opens a section. */
  lemma WrapStep(before: seq<Node>, after: seq<Node>, i: nat, opens: Node -> Option<SectionTag>, stops: Node -> bool)
    requires i < |before| && opens(before[i]).Some?
    requires var k := Extent(before[i..], stops);
      after == before[..i] + [Box(opens(before[i]).value, before[i..i + k])] + before[i + k..]
    ensures i < |after|
    ensures after[..i + 1] + Partition(after[i + 1..], opens, stops) == before[..i] + Partition(before[i..], opens, stops)
  {
    var k := Extent(before[i..], stops);
    var b := Box(opens(before[i]).value, before[i..i + k]);
    Splice(before, after, i, k, b);
    PartitionAtOpen(before, i, opens, stops);
    AppendAssoc(before[..i], [b], Partition(before[i + k..], opens, stops));
  }

  /** At a node that opens a section, the partition starts with that section's box. */
  lemma PartitionAtOpen(s: seq<Node>, i: nat, opens: Node -> Option<SectionTag>, stops: Node -> bool)
    requires i < |s| && opens(s[i]).Some?
    ensures var k := Extent(s[i..], stops);
      Partition(s[i..], opens, stops)
        == [Box(opens(s[i]).value, s[i..i + k])] + Partition(s[i + k..], opens, stops)
  {
    var k := Extent(s[i..], stops);
    SuffixPieces(s, i, k);
  }

  /** Before the main loop nothing is visited; after it nothing is left. */
  lemma LoopEnds(ns: seq<Node>, opens: Node -> Option<SectionTag>, stops: Node -> bool)
    ensures ns[..0] + Partition(ns[0..], opens, stops) == Partition(ns, opens, stops)
    ensures ns[..|ns|] + Partition(ns[|ns|..], opens, stops) == ns
  {
    assert ns[0..] == ns && ns[..|ns|] == ns && ns[|ns|..] == [];
  }

  /** One step of the main loop at a node that opens no section. */
  lemma UnwrappedStep(ns: seq<Node>, i: nat, opens: Node -> Option<SectionTag>, stops: Node -> bool)
    requires i < |ns| && opens(ns[i]).None?
    ensures ns[..i + 1] + Partition(ns[i + 1..], opens, stops) == ns[..i] + Partition(ns[i..], opens, stops)
  {
    assert ns[i..][0] == ns[i];
    assert ns[i..][1..] == ns[i + 1..];
    assert ns[..i + 1] == ns[..i] + [ns[i]];
  }

  // ---------------------------------------------------------------------------
  // Title (app.py:505-506)
  // ---------------------------------------------------------------------------

  /** `soup.find("h1")`: the text of the first h1 in document order, looking inside boxes. */
  function FirstH1(ns: seq<Node>): Option<string>
    decreases ns
  {
    if ns == [] then None
    else if ns[0].Heading? && ns[0].level == 1 then Some(ns[0].text)
    else if ns[0].Box? && FirstH1(ns[0].children).Some? then FirstH1(ns[0].children)
    else FirstH1(ns[1..])
  }

  /** The first h1's text uppercased, or the fallback uppercased. */
  function DocTitle(ns: seq<Node>, fallback: string): (title: string)
    ensures FirstH1(ns).Some? ==> Lower(title) == Lower(FirstH1(ns).value)
    ensures FirstH1(ns).None? ==> Lower(title) == Lower(fallback)
    ensures forall i :: 0 <= i < |title| ==> !IsAsciiLower(title[i])
  {
    var src := if FirstH1(ns).Some? then FirstH1(ns).value else fallback;
    UpperSameLetters(src);
    Upper(src)
  }

  lemma {:induction false} FirstH1Append(a: seq<Node>, b: seq<Node>)
    ensures FirstH1(a + b) == if FirstH1(a).Some? then FirstH1(a) else FirstH1(b)
  {
    if a == [] {
      assert a + b == b;
    } else {
      assert (a + b)[0] == a[0];
      assert (a + b)[1..] == a[1..] + b;
      FirstH1Append(a[1..], b);
    }
  }

  /** Wrapping siblings into boxes does not change which h1 comes first. */
  lemma {:induction false} FirstH1Partition(ns: seq<Node>, opens: Node -> Option<SectionTag>, stops: Node -> bool)
    ensures FirstH1(Partition(ns, opens, stops)) == FirstH1(ns)
    decreases |ns|
  {
    if ns != [] {
      if opens(ns[0]).Some? {
        var k := Extent(ns, stops);
        var b := Box(opens(ns[0]).value, ns[..k]);
        FirstH1Partition(ns[k..], opens, stops);
        FirstH1Append([b], Partition(ns[k..], opens, stops));
        FirstH1Append(ns[..k], ns[k..]);
        assert ns == ns[..k] + ns[k..];
        assert [b][1..] == [];
      } else {
        FirstH1Partition(ns[1..], opens, stops);
        FirstH1Append([ns[0]], Partition(ns[1..], opens, stops));
        FirstH1Append([ns[0]], ns[1..]);
        assert ns == [ns[0]] + ns[1..];
      }
    }
  }

  /** Replacing each node by one with the same h1 content keeps the first h1. */
  lemma {:induction false} FirstH1Tagged(ns: seq<Node>)
    ensures FirstH1(TagTopics(ns)) == FirstH1(ns)
    decreases ns
  {
    if ns != [] {
      var t := TagTopics(ns);
      assert t[1..] == TagTopics(ns[1..]);
      FirstH1Tagged(ns[1..]);
      if ns[0].Box? {
        FirstH1Tagged(ns[0].children);
      }
    }
  }

  lemma {:induction false} FirstH1Gridded(ns: seq<Node>)
    ensures FirstH1(Gridded(ns)) == FirstH1(ns)
    decreases ns
  {
    if ns != [] {
      var g := Gridded(ns);
      assert g[1..] == Gridded(ns[1..]);
      FirstH1Gridded(ns[1..]);
      if ns[0].Box? {
        FirstH1Gridded(ns[0].children);
      }
    }
  }

  /** The rewrites never change the title: it is the parsed document's first h1. */
  lemma TitleSurvivesRewrites(parsed: seq<Node>, fallback: string)
    ensures DocTitle(WrapSections(Gridded(parsed)), fallback) == DocTitle(parsed, fallback)
  {
    FirstH1Gridded(parsed);
    FirstH1Tagged(Gridded(parsed));
    FirstH1Partition(TagTopics(Gridded(parsed)), SectionOf, IsBoundary);
  }

  /** The tree rewrites of `md_to_full_html` on a parsed document, and the page title. */
  method Render(parsed: seq<Node>, fallback: string) returns (title: string, body: seq<Node>)
    ensures body == WrapSections(Gridded(parsed))
    ensures title == DocTitle(parsed, fallback)
  {
    var soup := new Soup(parsed);
    soup.TablesToGridTables();
    soup.WrapSectionsAndTagTopics();
    body := soup.nodes;
    TitleSurvivesRewrites(parsed, fallback);
    title := DocTitle(body, fallback);
  }
}
