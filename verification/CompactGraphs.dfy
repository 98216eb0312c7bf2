/**
 The finished graph with all adjacency lists in one array: each node knows where
 its ranges start, each range where its links lie. Positions are 32-bit.
 */
module CompactGraphs {
  import opened Base
  import opened Bytes
  import opened HnswGraphs

  datatype LinkRange = LinkRange(start: nat, end: nat)

  /** `starts[i]` is the first range of node `i`. */
  datatype CompactGraph = CompactGraph(starts: seq<nat>, ranges: seq<LinkRange>, links: seq<nat>)

  /** The ranges of the first `i` nodes. */
  function RangeCount(nodes: seq<Node>, i: nat): nat
    requires i <= |nodes|
  {
    if i == 0 then 0 else RangeCount(nodes, i - 1) + |nodes[i - 1].neighbors|
  }

  /** The links of the first `l` lists. */
  function ListLinks(lists: seq<seq<nat>>, l: nat): nat
    requires l <= |lists|
  {
    if l == 0 then 0 else ListLinks(lists, l - 1) + |lists[l - 1]|
  }

  function LinkCount(nodes: seq<Node>, i: nat): nat
    requires i <= |nodes|
  {
    if i == 0 then 0 else LinkCount(nodes, i - 1) + ListLinks(nodes[i - 1].neighbors, |nodes[i - 1].neighbors|)
  }

  lemma {:induction false} CountsGrow(nodes: seq<Node>, i: nat, j: nat)
    requires i <= j <= |nodes|
    ensures RangeCount(nodes, i) <= RangeCount(nodes, j) && LinkCount(nodes, i) <= LinkCount(nodes, j)
    decreases j - i
  {
    if i < j { CountsGrow(nodes, i, j - 1); }
  }

  lemma {:induction false} ListLinksGrow(lists: seq<seq<nat>>, i: nat, j: nat)
    requires i <= j <= |lists|
    ensures ListLinks(lists, i) <= ListLinks(lists, j)
    decreases j - i
  {
    if i < j { ListLinksGrow(lists, i, j - 1); }
  }

  /** The truncating cast `as u32`. */
  function AsU32(n: nat): (r: nat)
    ensures n < U32_LIMIT ==> r == n
  {
    n % U32_LIMIT
  }

  /** Range `k` holds `list`. */
  ghost predicate HoldsList(ranges: seq<LinkRange>, links: seq<nat>, k: nat, list: seq<nat>) {
    && k < |ranges| && ranges[k].start <= ranges[k].end <= |links|
    && links[ranges[k].start..ranges[k].end] == list
  }

  /** Appending ranges and links leaves what is there in place. */
  lemma HoldsListStays(
      ranges: seq<LinkRange>, links: seq<nat>, more: seq<LinkRange>, tail: seq<nat>, k: nat, list: seq<nat>)
    requires HoldsList(ranges, links, k, list)
    ensures HoldsList(ranges + more, links + tail, k, list)
  {
  }

  /** A list appended together with its range is held. */
  lemma AppendedIsHeld(ranges: seq<LinkRange>, links: seq<nat>, list: seq<nat>)
    ensures HoldsList(ranges + [LinkRange(|links|, |links| + |list|)], links + list, |ranges|, list)
  {
    assert (links + list)[|links|..|links| + |list|] == list;
  }

  ghost predicate HoldsLists(ranges: seq<LinkRange>, links: seq<nat>, start: nat, lists: seq<seq<nat>>, l: nat) {
    forall layer: nat {:trigger lists[layer]} :: layer < l && layer < |lists| ==>
      HoldsList(ranges, links, start + layer, lists[layer])
  }

  lemma AppendedAreHeld(ranges: seq<LinkRange>, links: seq<nat>, base: nat, lists: seq<seq<nat>>, l: nat)
    requires l < |lists| && |ranges| == base + l && HoldsLists(ranges, links, base, lists, l)
    ensures var range := LinkRange(|links|, |links + lists[l]|);
      HoldsLists(ranges + [range], links + lists[l], base, lists, l + 1)
  {
    var range := LinkRange(|links|, |links + lists[l]|);
    AppendedIsHeld(ranges, links, lists[l]);
    forall layer: nat | layer < l ensures HoldsList(ranges + [range], links + lists[l], base + layer, lists[layer]) {
      HoldsListStays(ranges, links, [range], lists[l], base + layer, lists[layer]);
    }
  }

  /** The lists of one node, flattened behind what is there. */
  method FlattenNode(lists: seq<seq<nat>>, ranges: seq<LinkRange>, links: seq<nat>)
    returns (ranges': seq<LinkRange>, links': seq<nat>)
    requires |ranges| + |lists| < U32_LIMIT && |links| + ListLinks(lists, |lists|) < U32_LIMIT
    ensures ranges <= ranges' && links <= links'
    ensures |ranges'| == |ranges| + |lists| && |links'| == |links| + ListLinks(lists, |lists|)
    ensures HoldsLists(ranges', links', |ranges|, lists, |lists|)
  {
    ranges', links' := ranges, links;
    for l := 0 to |lists|
      invariant ranges <= ranges' && links <= links'
      invariant |ranges'| == |ranges| + l && |links'| == |links| + ListLinks(lists, l)
      invariant HoldsLists(ranges', links', |ranges|, lists, l)
    {
      ListLinksGrow(lists, l + 1, |lists|);
      AppendedAreHeld(ranges', links', |ranges|, lists, l);
      var range := LinkRange(AsU32(|links'|), AsU32(|links' + lists[l]|));
      ranges', links' := ranges' + [range], links' + lists[l];
    }
  }

  ghost predicate Flattened(c: CompactGraph, nodes: seq<Node>, i: nat) {
    && i <= |c.starts| && i <= |nodes|
    && forall j: nat {:trigger c.starts[j]} :: j < i ==>
      HoldsLists(c.ranges, c.links, c.starts[j], nodes[j].neighbors, |nodes[j].neighbors|)
  }

  lemma FlattenedStays(c: CompactGraph, d: CompactGraph, nodes: seq<Node>, i: nat)
    requires Flattened(c, nodes, i) && c.starts <= d.starts && c.ranges <= d.ranges && c.links <= d.links
    ensures Flattened(d, nodes, i)
  {
    var more, tail := d.ranges[|c.ranges|..], d.links[|c.links|..];
    assert d.ranges == c.ranges + more && d.links == c.links + tail;
    forall j: nat | j < i
      ensures HoldsLists(d.ranges, d.links, d.starts[j], nodes[j].neighbors, |nodes[j].neighbors|)
    {
      var lists := nodes[j].neighbors;
      assert HoldsLists(c.ranges, c.links, c.starts[j], lists, |lists|);
      forall layer: nat | layer < |lists| ensures HoldsList(d.ranges, d.links, d.starts[j] + layer, lists[layer]) {
        HoldsListStays(c.ranges, c.links, more, tail, c.starts[j] + layer, lists[layer]);
      }
    }
  }

  /** `neighbors` on the compact form. */
  function FlatNeighbors(c: CompactGraph, nodes: seq<Node>, i: nat, layer: nat): seq<nat>
    requires i < |nodes| && i < |c.starts|
    requires layer <= nodes[i].level ==>
      c.starts[i] + layer < |c.ranges| &&
      c.ranges[c.starts[i] + layer].start <= c.ranges[c.starts[i] + layer].end <= |c.links|
  {
    if layer > nodes[i].level then []
    else
      var range := c.ranges[c.starts[i] + layer];
      c.links[range.start..range.end]
  }

  /**
   `finalize_compact_graph` fails only when 32 bits do not suffice; otherwise the
   flattened form answers every neighbour query as the nested lists did.
   */
  method FinalizeCompactGraph(nodes: seq<Node>) returns (r: Result<CompactGraph>)
    ensures r.Ok? <==> RangeCount(nodes, |nodes|) < U32_LIMIT && LinkCount(nodes, |nodes|) < U32_LIMIT
    ensures r.Ok? ==> |r.value.starts| == |nodes| && Flattened(r.value, nodes, |nodes|)
  {
    if RangeCount(nodes, |nodes|) >= U32_LIMIT || LinkCount(nodes, |nodes|) >= U32_LIMIT {
      return Err(ResourceExhausted);
    }
    var c := CompactGraph([], [], []);
    for i := 0 to |nodes|
      invariant |c.starts| == i && |c.ranges| == RangeCount(nodes, i) && |c.links| == LinkCount(nodes, i)
      invariant Flattened(c, nodes, i)
    {
      CountsGrow(nodes, i + 1, |nodes|);
      var lists := nodes[i].neighbors;
      var ranges, links := FlattenNode(lists, c.ranges, c.links);
      var d := CompactGraph(c.starts + [AsU32(|c.ranges|)], ranges, links);
      FlattenedStays(c, d, nodes, i);
      c := d;
    }
    r := Ok(c);
  }

  /** The fast form refines the nested one. */
  lemma FlatIsNested(c: CompactGraph, nodes: seq<Node>, i: nat, layer: nat)
    requires Flattened(c, nodes, |nodes|) && |c.starts| == |nodes| && i < |nodes|
    requires |nodes[i].neighbors| == nodes[i].level + 1
    ensures layer <= nodes[i].level ==>
      c.starts[i] + layer < |c.ranges| &&
      c.ranges[c.starts[i] + layer].start <= c.ranges[c.starts[i] + layer].end <= |c.links|
    ensures FlatNeighbors(c, nodes, i, layer) == Adjacent(nodes, i, layer)
  {
    assert HoldsLists(c.ranges, c.links, c.starts[i], nodes[i].neighbors, |nodes[i].neighbors|);
    if layer <= nodes[i].level {
      assert HoldsList(c.ranges, c.links, c.starts[i] + layer, nodes[i].neighbors[layer]);
    }
  }
}
