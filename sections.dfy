/**
 * The section partition of `wrap_sections_and_tag_topics` (app.py:452-494),
 * stated on a sibling sequence: each classified heading that is not already
 * inside a box opens a box that takes it and the following siblings up to the
 * first boundary.
 *
 * The partition is written over its two decisions — the section a node opens
 * (`opens`) and whether a node ends a box (`stops`) — and `WrapSections`
 * instantiates them with `SectionOf` and `IsBoundary`. The structural facts
 * hold for any such pair; those that need the decisions to agree ask for
 * `Consistent`.
 */
module Sections {
  import opened Wrappers
  import opened Headings
  import opened Nodes
  import opened Seqs

  /** How many siblings at the front of `ns` come before the first node that stops a box. */
  function RunLength(ns: seq<Node>, stops: Node -> bool): (k: nat)
    ensures k <= |ns|
    ensures forall i :: 0 <= i < k ==> !stops(ns[i])
    ensures k == |ns| || stops(ns[k])
  {
    if ns == [] || stops(ns[0]) then 0 else 1 + RunLength(ns[1..], stops)
  }

  /** How many siblings the box opened by `ns[0]` takes: the heading and the run after it. */
  function Extent(ns: seq<Node>, stops: Node -> bool): (k: nat)
    requires ns != []
    ensures 1 <= k <= |ns|
  {
    1 + RunLength(ns[1..], stops)
  }

  /** The main loop over the siblings, with `wrap_from` for each node that opens a section. */
  function Partition(ns: seq<Node>, opens: Node -> Option<SectionTag>, stops: Node -> bool): seq<Node>
    decreases |ns|
  {
    if ns == [] then []
    else if opens(ns[0]).Some? then
      var k := Extent(ns, stops);
      [Box(opens(ns[0]).value, ns[..k])] + Partition(ns[k..], opens, stops)
    else [ns[0]] + Partition(ns[1..], opens, stops)
  }

  /** A node that opens a section also stops the box before it. */
  ghost predicate Consistent(opens: Node -> Option<SectionTag>, stops: Node -> bool) {
    forall n :: opens(n).Some? ==> stops(n)
  }

  /** The partition of app.py:489-494: classified headings open boxes, boundaries stop them. */
  function Wrap(ns: seq<Node>): seq<Node> {
    Partition(ns, SectionOf, IsBoundary)
  }

  /** `wrap_sections_and_tag_topics`: topic titles tagged first, then the sections wrapped. */
  function WrapSections(ns: seq<Node>): seq<Node> {
    Wrap(TagTopics(ns))
  }

  lemma SectionsConsistent()
    ensures Consistent(SectionOf, IsBoundary)
  {
  }

  /** Every box replaced by its children. */
  function Flatten(ns: seq<Node>): seq<Node> {
    if ns == [] then []
    else (if ns[0].Box? then ns[0].children else [ns[0]]) + Flatten(ns[1..])
  }

  predicate NoBox(ns: seq<Node>) {
    forall i :: 0 <= i < |ns| ==> !ns[i].Box?
  }

  lemma {:induction false} FlattenAppend(a: seq<Node>, b: seq<Node>)
    ensures Flatten(a + b) == Flatten(a) + Flatten(b)
  {
    if a == [] {
      assert a + b == b;
    } else {
      assert (a + b)[0] == a[0];
      assert (a + b)[1..] == a[1..] + b;
      FlattenAppend(a[1..], b);
    }
  }

  /** Partitioning loses and reorders nothing: unwrapping the boxes gives the siblings back. */
  lemma {:induction false} FlattenPartition(ns: seq<Node>, opens: Node -> Option<SectionTag>, stops: Node -> bool)
    requires NoBox(ns)
    ensures Flatten(Partition(ns, opens, stops)) == ns
    decreases |ns|
  {
    if ns != [] {
      var k, first := PartitionHead(ns, opens, stops);
      NoBoxSuffix(ns, k);
      FlattenPartition(ns[k..], opens, stops);
      FlattenAppend([first], Partition(ns[k..], opens, stops));
      assert ns == ns[..k] + ns[k..];
    }
  }

  /** The first node of a partition, and how many siblings it stands for. */
  lemma PartitionHead(ns: seq<Node>, opens: Node -> Option<SectionTag>, stops: Node -> bool) returns (k: nat, first: Node)
    requires NoBox(ns) && ns != []
    ensures 1 <= k <= |ns|
    ensures Partition(ns, opens, stops) == [first] + Partition(ns[k..], opens, stops)
    ensures Flatten([first]) == ns[..k]
  {
    k := if opens(ns[0]).Some? then Extent(ns, stops) else 1;
    first := if opens(ns[0]).Some? then Box(opens(ns[0]).value, ns[..k]) else ns[0];
    FlattenSingle(first);
    if k == 1 {
      assert ns[..1] == [ns[0]];
    }
  }

  lemma NoBoxSuffix(ns: seq<Node>, k: nat)
    requires NoBox(ns) && k <= |ns|
    ensures NoBox(ns[k..])
  {
    assert forall i :: 0 <= i < |ns| - k ==> ns[k..][i] == ns[k + i];
  }

  lemma FlattenSingle(n: Node)
    ensures Flatten([n]) == if n.Box? then n.children else [n]
  {
    assert [n][1..] == [];
  }

  /**
   * A box holds the node that opened it first, tagged with that node's
   * section, then siblings none of which stops a box, and no box.
   */
  predicate WellFormedBox(b: Node, opens: Node -> Option<SectionTag>, stops: Node -> bool)
    requires b.Box?
  {
    && b.children != []
    && opens(b.children[0]) == Some(b.tag)
    && (forall i :: 1 <= i < |b.children| ==> !stops(b.children[i]))
    && NoBox(b.children)
  }

  /**
   * The partition's shape: every box is well formed, no node that opens a
   * section is left outside a box, and what follows a box stops it or is
   * another box.
   */
  predicate Partitioned(out: seq<Node>, opens: Node -> Option<SectionTag>, stops: Node -> bool) {
    && (forall j :: 0 <= j < |out| && out[j].Box? ==> WellFormedBox(out[j], opens, stops))
    && (forall j :: 0 <= j < |out| && !out[j].Box? ==> opens(out[j]).None?)
    && (forall j :: 0 <= j < |out| - 1 && out[j].Box? ==> stops(out[j + 1]) || out[j + 1].Box?)
  }

  lemma PartitionedCons(n: Node, rest: seq<Node>, opens: Node -> Option<SectionTag>, stops: Node -> bool)
    requires Partitioned(rest, opens, stops)
    requires n.Box? ==> WellFormedBox(n, opens, stops)
    requires !n.Box? ==> opens(n).None?
    requires n.Box? && rest != [] ==> stops(rest[0]) || rest[0].Box?
    ensures Partitioned([n] + rest, opens, stops)
  {
    var out := [n] + rest;
    assert forall j :: 1 <= j < |out| ==> out[j] == rest[j - 1];
  }

  lemma BoxOfRun(ns: seq<Node>, opens: Node -> Option<SectionTag>, stops: Node -> bool)
    requires NoBox(ns) && ns != [] && opens(ns[0]).Some?
    ensures WellFormedBox(Box(opens(ns[0]).value, ns[..Extent(ns, stops)]), opens, stops)
    ensures Extent(ns, stops) < |ns| ==> stops(ns[Extent(ns, stops)])
  {
    var k := Extent(ns, stops);
    forall i | 1 <= i < k
      ensures !stops(ns[..k][i])
    {
      assert ns[..k][i] == ns[1..][i - 1];
    }
    if k < |ns| {
      assert ns[1..][k - 1] == ns[k];
    }
  }

  lemma {:induction false} PartitionShape(ns: seq<Node>, opens: Node -> Option<SectionTag>, stops: Node -> bool)
    requires NoBox(ns)
    ensures Partitioned(Partition(ns, opens, stops), opens, stops)
    ensures ns != [] ==> Partition(ns, opens, stops) != []
    ensures ns != [] && stops(ns[0]) ==> stops(Partition(ns, opens, stops)[0]) || Partition(ns, opens, stops)[0].Box?
    decreases |ns|
  {
    if ns != [] {
      if opens(ns[0]).Some? {
        var k := Extent(ns, stops);
        var b := Box(opens(ns[0]).value, ns[..k]);
        var rest := Partition(ns[k..], opens, stops);
        PartitionShape(ns[k..], opens, stops);
        BoxOfRun(ns, opens, stops);
        if k < |ns| {
          assert ns[k..][0] == ns[k];
        }
        PartitionedCons(b, rest, opens, stops);
      } else {
        PartitionShape(ns[1..], opens, stops);
        PartitionedCons(ns[0], Partition(ns[1..], opens, stops), opens, stops);
      }
    }
  }

  /** With no node that opens a section among the siblings, there is nothing to wrap. */
  lemma {:induction false} PartitionNothingOpens(ns: seq<Node>, opens: Node -> Option<SectionTag>, stops: Node -> bool)
    requires forall i :: 0 <= i < |ns| ==> opens(ns[i]).None?
    ensures Partition(ns, opens, stops) == ns
  {
    if ns != [] {
      PartitionNothingOpens(ns[1..], opens, stops);
    }
  }

  /** Boxes never open sections, so a second pass wraps nothing more: boxes never nest. */
  lemma PartitionIdempotent(ns: seq<Node>, opens: Node -> Option<SectionTag>, stops: Node -> bool)
    requires NoBox(ns)
    requires forall n: Node :: n.Box? ==> opens(n).None?
    ensures Partition(Partition(ns, opens, stops), opens, stops) == Partition(ns, opens, stops)
  {
    var out := Partition(ns, opens, stops);
    PartitionShape(ns, opens, stops);
    assert forall j :: 0 <= j < |out| ==> opens(out[j]).None?;
    PartitionNothingOpens(out, opens, stops);
  }

  /** A run of non-stopping nodes ends at the end of `a` at the latest when `b` starts with a stop. */
  lemma {:induction false} RunLengthStops(a: seq<Node>, b: seq<Node>, stops: Node -> bool)
    requires b != [] && stops(b[0])
    ensures RunLength(a + b, stops) == RunLength(a, stops)
  {
    if a == [] {
      assert a + b == b;
    } else {
      assert (a + b)[0] == a[0];
      assert (a + b)[1..] == a[1..] + b;
      RunLengthStops(a[1..], b, stops);
    }
  }

  /** One step of the partition: the first node, boxed if it opens a section, and how many siblings it takes. */
  lemma PartitionStep(ns: seq<Node>, opens: Node -> Option<SectionTag>, stops: Node -> bool) returns (k: nat, first: Node)
    requires ns != []
    ensures k == if opens(ns[0]).Some? then Extent(ns, stops) else 1
    ensures 1 <= k <= |ns|
    ensures first == if opens(ns[0]).Some? then Box(opens(ns[0]).value, ns[..k]) else ns[0]
    ensures Partition(ns, opens, stops) == [first] + Partition(ns[k..], opens, stops)
  {
    k := if opens(ns[0]).Some? then Extent(ns, stops) else 1;
    first := if opens(ns[0]).Some? then Box(opens(ns[0]).value, ns[..k]) else ns[0];
  }

  /** Partitioning a concatenation at a node that opens a section partitions each part. */
  lemma {:induction false} PartitionAppendAtSection(a: seq<Node>, b: seq<Node>, opens: Node -> Option<SectionTag>, stops: Node -> bool)
    requires Consistent(opens, stops)
    requires b != [] && opens(b[0]).Some?
    ensures Partition(a + b, opens, stops) == Partition(a, opens, stops) + Partition(b, opens, stops)
    decreases |a|
  {
    if a == [] {
      assert a + b == b;
    } else {
      var k, first := AppendStep(a, b, opens, stops);
      PartitionAppendAtSection(a[k..], b, opens, stops);
      AppendAssoc([first], Partition(a[k..], opens, stops), Partition(b, opens, stops));
    }
  }

  /** The first step of partitioning `a + b` is the first step of partitioning `a`. */
  lemma AppendStep(a: seq<Node>, b: seq<Node>, opens: Node -> Option<SectionTag>, stops: Node -> bool) returns (k: nat, first: Node)
    requires Consistent(opens, stops)
    requires a != [] && b != [] && opens(b[0]).Some?
    ensures 1 <= k <= |a|
    ensures Partition(a, opens, stops) == [first] + Partition(a[k..], opens, stops)
    ensures Partition(a + b, opens, stops) == [first] + Partition(a[k..] + b, opens, stops)
  {
    var ab := a + b;
    assert ab[0] == a[0];
    k, first := PartitionStep(a, opens, stops);
    var k2, first2 := PartitionStep(ab, opens, stops);
    if opens(a[0]).Some? {
      assert stops(b[0]);
      ExtentAppend(a, b, stops);
      assert k2 == k;
      assert ab[..k] == a[..k];
    }
    assert k2 == k && first2 == first;
    assert ab[k..] == a[k..] + b;
  }

  /** A box opened in `a` ends inside `a` when `b` starts with a stop. */
  lemma ExtentAppend(a: seq<Node>, b: seq<Node>, stops: Node -> bool)
    requires a != [] && b != [] && stops(b[0])
    ensures Extent(a + b, stops) == Extent(a, stops)
  {
    assert (a + b)[1..] == a[1..] + b;
    RunLengthStops(a[1..], b, stops);
  }

  lemma {:induction false} RunLengthNoStops(gap: seq<Node>, stops: Node -> bool)
    requires forall i :: 0 <= i < |gap| ==> !stops(gap[i])
    ensures RunLength(gap, stops) == |gap|
  {
    if gap != [] {
      RunLengthNoStops(gap[1..], stops);
    }
  }

  /**
   * A node that opens a section, followed by nodes that do not stop it and then
   * by one that does, makes a box of exactly the opener and those nodes.
   */
  lemma BoxEndsAtStop(h: Node, gap: seq<Node>, r: Node, rest: seq<Node>, opens: Node -> Option<SectionTag>, stops: Node -> bool)
    requires opens(h).Some?
    requires forall i :: 0 <= i < |gap| ==> !stops(gap[i])
    requires stops(r)
    ensures Partition([h] + gap + [r] + rest, opens, stops)
      == [Box(opens(h).value, [h] + gap)] + Partition([r] + rest, opens, stops)
  {
    var ns := [h] + gap + [r] + rest;
    var j := 1 + |gap|;
    assert ns[0] == h && ns[j] == r;
    assert forall i :: 1 <= i < j ==> ns[i] == gap[i - 1];
    BoxAt(ns, j, opens, stops);
    assert ns[..j] == [h] + gap;
    assert ns[j..] == [r] + rest;
  }

  /** The box opened by `ns[0]` ends at the first sibling `j` that stops it. */
  lemma BoxAt(ns: seq<Node>, j: nat, opens: Node -> Option<SectionTag>, stops: Node -> bool)
    requires 0 < j <= |ns| && opens(ns[0]).Some?
    requires forall i :: 1 <= i < j ==> !stops(ns[i])
    requires j == |ns| || stops(ns[j])
    ensures Partition(ns, opens, stops) == [Box(opens(ns[0]).value, ns[..j])] + Partition(ns[j..], opens, stops)
  {
    var k, first := PartitionStep(ns, opens, stops);
    RunLengthFrom(ns, 1, j, stops);
    assert k == j;
  }

  /** The run from `p` ends at the first stopping sibling `j`. */
  lemma {:induction false} RunLengthFrom(ns: seq<Node>, p: nat, j: nat, stops: Node -> bool)
    requires p <= j <= |ns|
    requires forall i :: p <= i < j ==> !stops(ns[i])
    requires j == |ns| || stops(ns[j])
    ensures RunLength(ns[p..], stops) == j - p
    decreases j - p
  {
    var t := ns[p..];
    if p < j {
      assert t[0] == ns[p] && t[1..] == ns[p + 1..];
      RunLengthFrom(ns, p + 1, j, stops);
    } else if j < |ns| {
      assert t[0] == ns[j];
    }
  }

  // ---------------------------------------------------------------------------
  // The partition with the source's decisions
  // ---------------------------------------------------------------------------

  /**
   * Wrapping keeps every node in order, leaves no classified heading outside a
   * box, puts each classified heading first in its own box with siblings that
   * are neither `hr`, topic titles nor classified headings, and never nests
   * boxes.
   */
  lemma WrapShape(ns: seq<Node>)
    requires NoBox(ns)
    ensures Flatten(Wrap(ns)) == ns
    ensures Partitioned(Wrap(ns), SectionOf, IsBoundary)
    ensures Wrap(Wrap(ns)) == Wrap(ns)
  {
    FlattenPartition(ns, SectionOf, IsBoundary);
    PartitionShape(ns, SectionOf, IsBoundary);
    PartitionIdempotent(ns, SectionOf, IsBoundary);
  }

  /**
   * The whole of `wrap_sections_and_tag_topics` on siblings without boxes:
   * unwrapping the boxes gives the tagged siblings back in order, and the
   * result has the partition's shape.
   */
  lemma WrapSectionsShape(ns: seq<Node>)
    requires NoBox(ns)
    ensures Flatten(WrapSections(ns)) == TagTopics(ns)
    ensures Partitioned(WrapSections(ns), SectionOf, IsBoundary)
  {
    var t := TagTopics(ns);
    assert NoBox(t) by {
      forall i | 0 <= i < |t|
        ensures !t[i].Box?
      {
        assert t[i] == TagTopic(ns[i]);
      }
    }
    WrapShape(t);
  }

  /**
   * A classified heading followed, after whitespace text only, by an `hr`
   * makes a box holding just the heading and that whitespace.
   */
  lemma HeadingBeforeRule(h: Node, gap: seq<Node>, rest: seq<Node>)
    requires SectionOf(h).Some?
    requires forall i :: 0 <= i < |gap| ==> gap[i].TextNode?
    ensures Wrap([h] + gap + [Rule] + rest) == [Box(SectionOf(h).value, [h] + gap)] + Wrap([Rule] + rest)
  {
    TextDoesNotStop(gap);
    assert IsBoundary(Rule);
    BoxEndsAtStop(h, gap, Rule, rest, SectionOf, IsBoundary);
  }

  lemma TextDoesNotStop(gap: seq<Node>)
    requires forall i :: 0 <= i < |gap| ==> gap[i].TextNode?
    ensures forall i :: 0 <= i < |gap| ==> !IsBoundary(gap[i])
  {
    forall i | 0 <= i < |gap|
      ensures !IsBoundary(gap[i])
    {
      WhatStopsABox(gap[i]);
    }
  }

  /**
   * An unclassified h1 or h3-h6, an unclassified h2 without text, and
   * whitespace do not stop a box; a topic title and a classified heading do.
   */
  lemma WhatStopsABox(n: Node)
    ensures n.Heading? && n.level != 2 && SectionOf(n).None? ==> !IsBoundary(n)
    ensures n.Heading? && HeadingText(n.text) == [] && SectionOf(n).None? ==> !IsBoundary(n)
    ensures n.TextNode? || n.Other? || n.GridNode? ==> !IsBoundary(n)
    ensures IsTopicTitle(n) ==> IsBoundary(n)
    ensures SectionOf(n).Some? ==> IsBoundary(n)
  {
    if n.Heading? {
      assert IsBoundary(n) == (IsTopicTitle(n) || SectionOf(n).Some?);
    }
  }

  /** Tagging topic titles changes no decision of the partition. */
  lemma TagTopicsKeepsSections(ns: seq<Node>)
    ensures forall i :: 0 <= i < |ns| ==>
      SectionOf(TagTopics(ns)[i]) == SectionOf(ns[i]) && IsBoundary(TagTopics(ns)[i]) == IsBoundary(ns[i])
  {
    forall i | 0 <= i < |ns|
      ensures SectionOf(TagTopics(ns)[i]) == SectionOf(ns[i]) && IsBoundary(TagTopics(ns)[i]) == IsBoundary(ns[i])
    {
      TagTopicKeepsSection(ns[i]);
      TagTopicKeepsBoundary(ns[i]);
    }
  }
}
