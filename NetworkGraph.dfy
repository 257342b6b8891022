/** The relationship graph of couplets: `influencerNodes` counts, for every couplet that is
    the smaller endpoint of some link, how many links start there, and `NetworkGraph` fills
    the node and edge lists handed to the graph renderer. `data.links` is an input; the
    rendering and layout are not modelled. */
module NetworkGraph {
  import opened JsText

  /** An entry of `data.links`. */
  datatype Link = Link(from: int, to: int)

  /** `{ id, value }`: a link's endpoints, smaller first. */
  datatype KeyVal = KeyVal(id: int, value: int)

  /** `{ id, count }`: an element of `influencers`. */
  datatype Influencer = Influencer(id: int, count: nat)

  /** `{ data: { id, label } }`: a graph node; `caption` is the `label` field. */
  datatype NodeData = NodeData(id: string, caption: string)

  /** `{ data: { source, target } }`: a graph edge. */
  datatype EdgeData = EdgeData(source: string, target: string)

  /** The number of couplets, one node each. */
  const NodeCount: nat := 1331

  // ---------------------------------------------------------------------------------------
  // Specification of the counting

  /** `[from, to].sort((a, b) => a - b)` read as `{ id, value }`. */
  function Normalize(link: Link): (kv: KeyVal)
    ensures kv.id <= kv.value
    ensures (kv.id == link.from && kv.value == link.to) || (kv.id == link.to && kv.value == link.from)
  {
    if link.to < link.from then KeyVal(link.to, link.from) else KeyVal(link.from, link.to)
  }

  /** The smaller endpoint of a link. */
  function MinEnd(link: Link): int
  {
    if link.from <= link.to then link.from else link.to
  }

  /** The number of links whose smaller endpoint is `x`. */
  function CountMin(links: seq<Link>, x: int): nat
  {
    if links == [] then 0 else (if MinEnd(links[0]) == x then 1 else 0) + CountMin(links[1..], x)
  }

  /** The number of pairs whose `id` is `x`. */
  function CountId(kvs: seq<KeyVal>, x: int): nat
  {
    if kvs == [] then 0 else (if kvs[0].id == x then 1 else 0) + CountId(kvs[1..], x)
  }

  lemma {:induction false} CountIdAppend(a: seq<KeyVal>, b: seq<KeyVal>, x: int)
    ensures CountId(a + b, x) == CountId(a, x) + CountId(b, x)
  {
    if a == [] {
      assert a + b == b;
    } else {
      assert (a + b)[1..] == a[1..] + b;
      CountIdAppend(a[1..], b, x);
    }
  }

  lemma {:induction false} CountIdPositive(kvs: seq<KeyVal>, x: int)
    requires CountId(kvs, x) > 0
    ensures exists j :: 0 <= j < |kvs| && kvs[j].id == x
  {
    if kvs[0].id != x {
      CountIdPositive(kvs[1..], x);
      var j :| 0 <= j < |kvs[1..]| && kvs[1..][j].id == x;
      assert kvs[j + 1].id == x;
    }
  }

  lemma {:induction false} CountMinPositive(links: seq<Link>, x: int)
    requires CountMin(links, x) > 0
    ensures exists j :: 0 <= j < |links| && MinEnd(links[j]) == x
  {
    if MinEnd(links[0]) != x {
      CountMinPositive(links[1..], x);
      var j :| 0 <= j < |links[1..]| && MinEnd(links[1..][j]) == x;
      assert links[j + 1] == links[1..][j];
    }
  }

  lemma {:induction false} CountMinAt(links: seq<Link>, j: nat)
    requires j < |links|
    ensures CountMin(links, MinEnd(links[j])) > 0
  {
    if j > 0 {
      CountMinAt(links[1..], j - 1);
      assert links[1..][j - 1] == links[j];
    }
  }

  /** The pairs the first loop of `influencerNodes` pushes, one per link, in link order. */
  function NormalizeAll(links: seq<Link>): (kvs: seq<KeyVal>)
    ensures |kvs| == |links|
  {
    seq(|links|, i requires 0 <= i < |links| => Normalize(links[i]))
  }

  /** Normalising does not change how many links start at each endpoint. */
  lemma {:induction false} CountIdNormalizeAll(links: seq<Link>, x: int)
    ensures CountId(NormalizeAll(links), x) == CountMin(links, x)
  {
    if links != [] {
      CountIdNormalizeAll(links[1..], x);
      assert NormalizeAll(links)[1..] == NormalizeAll(links[1..]);
    }
  }

  /** One insertion step of the stable ascending sort by `id`. */
  function InsertById(e: KeyVal, sorted: seq<KeyVal>): (r: seq<KeyVal>)
    ensures |r| == |sorted| + 1
    ensures multiset(r) == multiset(sorted) + multiset{e}
  {
    if sorted == [] || e.id <= sorted[0].id then [e] + sorted
    else
      assert sorted == [sorted[0]] + sorted[1..];
      [sorted[0]] + InsertById(e, sorted[1..])
  }

  /** `keyVals.sort((a, b) => a.id - b.id)`: a stable sort by ascending `id`. */
  function SortById(kvs: seq<KeyVal>): (r: seq<KeyVal>)
    ensures |r| == |kvs| && multiset(r) == multiset(kvs)
  {
    if kvs == [] then []
    else
      assert kvs == [kvs[0]] + kvs[1..];
      InsertById(kvs[0], SortById(kvs[1..]))
  }

  predicate SortedById(kvs: seq<KeyVal>) {
    forall i, j :: 0 <= i < j < |kvs| ==> kvs[i].id <= kvs[j].id
  }

  lemma {:induction false} InsertByIdSorted(e: KeyVal, sorted: seq<KeyVal>)
    requires SortedById(sorted)
    ensures SortedById(InsertById(e, sorted))
  {
    if !(sorted == [] || e.id <= sorted[0].id) {
      InsertByIdSorted(e, sorted[1..]);
      var rest := InsertById(e, sorted[1..]);
      assert InsertById(e, sorted) == [sorted[0]] + rest;
      forall j | 0 <= j < |rest|
        ensures sorted[0].id <= rest[j].id
      {
        InsertedIdFrom(e, sorted[1..], j);
        if rest[j] != e {
          var k :| 0 <= k < |sorted[1..]| && sorted[1..][k] == rest[j];
          assert sorted[k + 1] == rest[j];
        }
      }
    }
  }

  /** Every pair after an insertion is the inserted pair or a pair of the list. */
  lemma InsertedIdFrom(e: KeyVal, sorted: seq<KeyVal>, j: nat)
    requires j < |sorted| + 1
    ensures var r := InsertById(e, sorted);
      r[j] == e || exists k :: 0 <= k < |sorted| && sorted[k] == r[j]
  {
    var r := InsertById(e, sorted);
    assert r[j] in multiset(r);
    if r[j] != e {
      assert r[j] in multiset(sorted);
    }
  }

  lemma {:induction false} InsertByIdCount(e: KeyVal, sorted: seq<KeyVal>, x: int)
    ensures CountId(InsertById(e, sorted), x) == CountId(sorted, x) + (if e.id == x then 1 else 0)
  {
    if !(sorted == [] || e.id <= sorted[0].id) {
      InsertByIdCount(e, sorted[1..], x);
      assert InsertById(e, sorted)[1..] == InsertById(e, sorted[1..]);
    } else {
      assert InsertById(e, sorted)[1..] == sorted;
    }
  }

  /** The sort orders by `id` and keeps, for every `id`, the number of pairs. */
  lemma {:induction false} SortByIdSpec(kvs: seq<KeyVal>)
    ensures SortedById(SortById(kvs))
    ensures forall x :: CountId(SortById(kvs), x) == CountId(kvs, x)
  {
    if kvs != [] {
      SortByIdSpec(kvs[1..]);
      InsertByIdSorted(kvs[0], SortById(kvs[1..]));
      forall x {
        InsertByIdCount(kvs[0], SortById(kvs[1..]), x);
      }
    }
  }

  /** The ids of a list of influencers. */
  function Ids(influencers: seq<Influencer>): set<int>
  {
    set k | 0 <= k < |influencers| :: influencers[k].id
  }

  /** The sum of the counts. */
  function TotalCount(influencers: seq<Influencer>): nat
  {
    if influencers == [] then 0 else influencers[0].count + TotalCount(influencers[1..])
  }

  lemma {:induction false} TotalCountAppend(a: seq<Influencer>, e: Influencer)
    ensures TotalCount(a + [e]) == TotalCount(a) + e.count
  {
    if a == [] {
      assert a + [e] == [e];
    } else {
      assert (a + [e])[1..] == a[1..] + [e];
      TotalCountAppend(a[1..], e);
    }
  }

  lemma IdsAppend(a: seq<Influencer>, e: Influencer)
    ensures Ids(a + [e]) == Ids(a) + {e.id}
  {
    assert forall k :: 0 <= k < |a| ==> (a + [e])[k] == a[k];
    assert (a + [e])[|a|] == e;
  }

  lemma IdsUpdate(a: seq<Influencer>, k: nat, count: nat)
    requires k < |a|
    ensures Ids(a[k := Influencer(a[k].id, count)]) == Ids(a)
  {
    var b := a[k := Influencer(a[k].id, count)];
    assert forall j :: 0 <= j < |a| ==> b[j].id == a[j].id;
    assert forall x :: x in Ids(b) ==> x in Ids(a);
    assert forall x :: x in Ids(a) ==> x in Ids(b);
  }

  lemma {:induction false} TotalCountIncrement(a: seq<Influencer>, k: nat)
    requires k < |a|
    ensures TotalCount(a[k := Influencer(a[k].id, a[k].count + 1)]) == TotalCount(a) + 1
  {
    if k > 0 {
      TotalCountIncrement(a[1..], k - 1);
      assert a[k := Influencer(a[k].id, a[k].count + 1)][1..]
          == a[1..][k - 1 := Influencer(a[k].id, a[k].count + 1)];
    }
  }

  // ---------------------------------------------------------------------------------------
  // The counting itself

  /** `influencers.find((influencer) => influencer.id === id)`, as the index of the first
      match, or -1 where `find` gives `undefined`. */
  method FindInfluencer(influencers: seq<Influencer>, id: int) returns (k: int)
    ensures -1 <= k < |influencers|
    ensures 0 <= k ==> influencers[k].id == id && forall j :: 0 <= j < k ==> influencers[j].id != id
    ensures k == -1 ==> id !in Ids(influencers)
  {
    k := 0;
    while k < |influencers|
      invariant 0 <= k <= |influencers|
      invariant forall j :: 0 <= j < k ==> influencers[j].id != id
    {
      if influencers[k].id == id {
        return;
      }
      k := k + 1;
    }
    k := -1;
  }

  /** What the second loop of `influencerNodes` keeps once it has read the pairs `seen`:
      one entry per id in `seen`, in ascending order, each counting that id's pairs, the
      last entry belonging to the last pair read. */
  ghost predicate Counted(influencers: seq<Influencer>, seen: seq<KeyVal>)
  {
    && (forall i, j :: 0 <= i < j < |influencers| ==> influencers[i].id < influencers[j].id)
    && (forall k :: 0 <= k < |influencers| ==>
         influencers[k].count == CountId(seen, influencers[k].id) && influencers[k].count >= 1)
    && (forall j :: 0 <= j < |seen| ==> seen[j].id in Ids(influencers))
    && (seen == [] <==> influencers == [])
    && (seen != [] ==> influencers[|influencers| - 1].id == seen[|seen| - 1].id)
    && TotalCount(influencers) == |seen|
  }

  /** Reading a pair whose id has no entry yet appends an entry counting 1. */
  lemma CountedNew(influencers: seq<Influencer>, seen: seq<KeyVal>, kv: KeyVal)
    requires Counted(influencers, seen) && SortedById(seen + [kv])
    requires kv.id !in Ids(influencers)
    ensures Counted(influencers + [Influencer(kv.id, 1)], seen + [kv])
  {
    var next := influencers + [Influencer(kv.id, 1)];
    if seen != [] {
      assert (seen + [kv])[|seen| - 1] == seen[|seen| - 1];
    }
    TotalCountAppend(influencers, Influencer(kv.id, 1));
    IdsAppend(influencers, Influencer(kv.id, 1));
    assert forall k :: 0 <= k < |influencers| ==> next[k] == influencers[k];
    assert (seen + [kv])[|seen|] == kv;
    forall j | 0 <= j < |seen + [kv]|
      ensures (seen + [kv])[j].id in Ids(next)
    {
      if j < |seen| {
        assert (seen + [kv])[j] == seen[j];
      }
    }
    assert forall i, j :: 0 <= i < j < |next| ==> next[i].id < next[j].id;
    CountedNewCounts(influencers, seen, kv);
  }

  /** The counts part of `CountedNew`: the new entry counts the one pair with its id, the old
      entries keep their counts. */
  lemma CountedNewCounts(influencers: seq<Influencer>, seen: seq<KeyVal>, kv: KeyVal)
    requires Counted(influencers, seen) && kv.id !in Ids(influencers)
    ensures var next := influencers + [Influencer(kv.id, 1)];
      forall k :: 0 <= k < |next| ==> next[k].count == CountId(seen + [kv], next[k].id) && next[k].count >= 1
  {
    var next := influencers + [Influencer(kv.id, 1)];
    assert CountId(seen, kv.id) == 0 by {
      if CountId(seen, kv.id) > 0 {
        CountIdPositive(seen, kv.id);
        assert false;
      }
    }
    forall k | 0 <= k < |next|
      ensures next[k].count == CountId(seen + [kv], next[k].id) && next[k].count >= 1
    {
      CountIdAppend(seen, [kv], next[k].id);
      if k < |influencers| {
        assert next[k] == influencers[k];
        assert influencers[k].id in Ids(influencers);
      }
    }
  }

  /** Reading a pair whose id has entry `k` adds one to that entry's count. */
  lemma CountedAgain(influencers: seq<Influencer>, seen: seq<KeyVal>, kv: KeyVal, k: nat)
    requires Counted(influencers, seen) && SortedById(seen + [kv])
    requires k < |influencers| && influencers[k].id == kv.id
    ensures Counted(influencers[k := Influencer(influencers[k].id, influencers[k].count + 1)], seen + [kv])
  {
    var next := influencers[k := Influencer(influencers[k].id, influencers[k].count + 1)];
    forall x {
      CountIdAppend(seen, [kv], x);
    }
    TotalCountIncrement(influencers, k);
    IdsUpdate(influencers, k, influencers[k].count + 1);
    var last := |influencers| - 1;
    assert seen != [];
    assert (seen + [kv])[|seen| - 1] == seen[|seen| - 1];
    assert (seen + [kv])[|seen|] == kv;
    assert influencers[last].id <= kv.id;
    // entries are strictly increasing, so the entry found is the last one
    assert k == last;
    forall j | 0 <= j < |seen + [kv]|
      ensures (seen + [kv])[j].id in Ids(next)
    {
      if j < |seen| {
        assert (seen + [kv])[j] == seen[j];
      }
    }
    assert forall i, j :: 0 <= i < j < |next| ==> next[i].id < next[j].id;
    forall m | 0 <= m < |next|
      ensures next[m].count == CountId(seen + [kv], next[m].id) && next[m].count >= 1
    {
      CountIdAppend(seen, [kv], next[m].id);
      if m != k {
        assert influencers[m].id < influencers[k].id;
      }
    }
    assert TotalCount(next) == |seen + [kv]|;
  }

  /** `influencerNodes`: one entry per distinct smaller endpoint, in ascending order, whose
      count is the number of links starting there; the counts add up to the number of links. */
  method InfluencerNodes(links: seq<Link>) returns (influencers: seq<Influencer>)
    ensures forall i, j :: 0 <= i < j < |influencers| ==> influencers[i].id < influencers[j].id
    ensures forall k :: 0 <= k < |influencers| ==>
      influencers[k].count == CountMin(links, influencers[k].id) && influencers[k].count >= 1
    ensures Ids(influencers) == set j | 0 <= j < |links| :: MinEnd(links[j])
    ensures TotalCount(influencers) == |links|
  {
    var keyVals := NormalizeLinks(links);
    ghost var normalized := keyVals;
    keyVals := SortById(keyVals);
    SortByIdSpec(normalized);
    influencers := CountSorted(keyVals);
    CountedAll(links, keyVals, influencers);
  }

  /** The first loop of `influencerNodes`: each link as a normalised pair, in link order. */
  method NormalizeLinks(links: seq<Link>) returns (keyVals: seq<KeyVal>)
    ensures keyVals == NormalizeAll(links)
  {
    keyVals := [];
    var index := 0;
    while index < |links|
      invariant 0 <= index <= |links|
      invariant keyVals == NormalizeAll(links[..index])
    {
      var element := links[index];
      keyVals := keyVals + [Normalize(element)];
      index := index + 1;
    }
    assert links[..index] == links;
  }

  /** The second loop of `influencerNodes` over the sorted pairs: equal ids are neighbours, so
      each id is either the last entry's or a new one. */
  method CountSorted(keyVals: seq<KeyVal>) returns (influencers: seq<Influencer>)
    requires SortedById(keyVals)
    ensures Counted(influencers, keyVals)
  {
    influencers := [];
    var index := 0;
    while index < |keyVals|
      invariant 0 <= index <= |keyVals|
      invariant Counted(influencers, keyVals[..index])
    {
      var kv := keyVals[index];
      SortedPrefix(keyVals, index);
      // `find` decides whether the id is new; a second `find` reaches the same entry
      var k := FindInfluencer(influencers, kv.id);
      if k < 0 {
        CountedNew(influencers, keyVals[..index], kv);
        influencers := influencers + [Influencer(kv.id, 1)];
      } else {
        CountedAgain(influencers, keyVals[..index], kv, k);
        influencers := influencers[k := Influencer(influencers[k].id, influencers[k].count + 1)];
      }
      index := index + 1;
    }
    assert keyVals[..index] == keyVals;
  }

  lemma SortedPrefix(kvs: seq<KeyVal>, n: nat)
    requires SortedById(kvs) && n < |kvs|
    ensures kvs[..n + 1] == kvs[..n] + [kvs[n]]
    ensures SortedById(kvs[..n] + [kvs[n]])
  {
    assert kvs[..n + 1] == kvs[..n] + [kvs[n]];
  }

  /** Once every sorted pair is read, the entries count the links by smaller endpoint. */
  lemma CountedAll(links: seq<Link>, keyVals: seq<KeyVal>, influencers: seq<Influencer>)
    requires forall x :: CountId(keyVals, x) == CountId(NormalizeAll(links), x)
    requires Counted(influencers, keyVals)
    ensures forall i, j :: 0 <= i < j < |influencers| ==> influencers[i].id < influencers[j].id
    ensures forall k :: 0 <= k < |influencers| ==>
      influencers[k].count == CountMin(links, influencers[k].id) && influencers[k].count >= 1
    ensures Ids(influencers) == set j | 0 <= j < |links| :: MinEnd(links[j])
    ensures TotalCount(influencers) == |links|
  {
    forall x {
      CountIdNormalizeAll(links, x);
    }
    IdsAreMinEnds(links, keyVals, influencers);
  }

  lemma {:induction false} IdsAreMinEnds(links: seq<Link>, keyVals: seq<KeyVal>, influencers: seq<Influencer>)
    requires forall x :: CountId(keyVals, x) == CountMin(links, x)
    requires forall k :: 0 <= k < |influencers| ==>
      influencers[k].count == CountId(keyVals, influencers[k].id) && influencers[k].count >= 1
    requires forall j :: 0 <= j < |keyVals| ==> keyVals[j].id in Ids(influencers)
    ensures Ids(influencers) == set j | 0 <= j < |links| :: MinEnd(links[j])
  {
    forall x | x in Ids(influencers)
      ensures x in set j | 0 <= j < |links| :: MinEnd(links[j])
    {
      var k :| 0 <= k < |influencers| && influencers[k].id == x;
      CountMinPositive(links, x);
    }
    forall j | 0 <= j < |links|
      ensures MinEnd(links[j]) in Ids(influencers)
    {
      CountMinAt(links, j);
      CountIdPositive(keyVals, MinEnd(links[j]));
    }
  }

  // ---------------------------------------------------------------------------------------
  // Nodes and edges

  /** The node of couplet `i`: id `${i}`, label `Kno ${i}`. */
  function Node(i: nat): NodeData
  {
    NodeData(NatToString(i), "Kno " + NatToString(i))
  }

  /** The edge of a link: its endpoints as template-literal text. */
  function Edge(link: Link): EdgeData
  {
    EdgeData(IntToString(link.from), IntToString(link.to))
  }

  /** The node list: one node per couplet number below `n`, in order. */
  function Nodes(n: nat): (nodes: seq<NodeData>)
    ensures |nodes| == n
  {
    seq(n, i requires 0 <= i < n => Node(i))
  }

  /** The edge list: one edge per link, in link order. */
  function Edges(links: seq<Link>): (edges: seq<EdgeData>)
    ensures |edges| == |links|
  {
    seq(|links|, i requires 0 <= i < |links| => Edge(links[i]))
  }

  /** Node ids are distinct, each reads back as the couplet number, and the label is the id
      after `Kno `. */
  lemma NodesWellFormed(n: nat)
    ensures forall i, j :: 0 <= i < j < n ==> Nodes(n)[i].id != Nodes(n)[j].id
    ensures forall i :: 0 <= i < n ==> DecimalValue(Nodes(n)[i].id) == i
    ensures forall i :: 0 <= i < n ==> Nodes(n)[i].caption == "Kno " + Nodes(n)[i].id
  {
    forall i, j | 0 <= i < j < n
      ensures Nodes(n)[i].id != Nodes(n)[j].id
    {
      NatToStringInjective(i, j);
    }
    forall i | 0 <= i < n
      ensures DecimalValue(Nodes(n)[i].id) == i
    {
      DecimalValueOfNatToString(i);
    }
  }

  /** Two edges have the same source (target) exactly when their links have the same `from`
      (`to`), and an edge whose endpoints are couplet numbers below `NodeCount` joins two
      nodes of the graph. */
  lemma EdgesMatchLinks(links: seq<Link>)
    ensures forall i, j :: 0 <= i < |links| && 0 <= j < |links| ==>
      (Edges(links)[i].source == Edges(links)[j].source <==> links[i].from == links[j].from)
    ensures forall i, j :: 0 <= i < |links| && 0 <= j < |links| ==>
      (Edges(links)[i].target == Edges(links)[j].target <==> links[i].to == links[j].to)
    ensures forall i :: 0 <= i < |links| && 0 <= links[i].from < NodeCount && 0 <= links[i].to < NodeCount ==>
      Edges(links)[i].source == Nodes(NodeCount)[links[i].from].id &&
      Edges(links)[i].target == Nodes(NodeCount)[links[i].to].id
  {
    forall i, j | 0 <= i < |links| && 0 <= j < |links| && links[i].from != links[j].from
      ensures Edges(links)[i].source != Edges(links)[j].source
    {
      IntToStringInjective(links[i].from, links[j].from);
    }
    forall i, j | 0 <= i < |links| && 0 <= j < |links| && links[i].to != links[j].to
      ensures Edges(links)[i].target != Edges(links)[j].target
    {
      IntToStringInjective(links[i].to, links[j].to);
    }
  }

  /** The graph data the component fills in: the links it reads, the nodes and edges it
      rebuilds on every render. */
  class GraphData {
    const links: seq<Link>
    var nodes: seq<NodeData>
    var edges: seq<EdgeData>

    constructor (links: seq<Link>)
      ensures this.links == links && nodes == [] && edges == []
    {
      this.links := links;
      nodes := [];
      edges := [];
    }

    /** The body of the `NetworkGraph` component before the renderer is created: empties the
        node and edge lists, pushes one node per couplet and one edge per link, and computes
        (and discards) the influencers. */
    method Populate()
      modifies this
      ensures nodes == Nodes(NodeCount)
      ensures edges == Edges(links)
    {
      nodes := [];
      edges := [];
      var i := 0;
      while i < NodeCount
        invariant 0 <= i <= NodeCount
        invariant nodes == Nodes(i) && edges == []
      {
        nodes := nodes + [Node(i)];
        i := i + 1;
      }
      var influencers := InfluencerNodes(links);
      i := 0;
      while i < |links|
        invariant 0 <= i <= |links|
        invariant nodes == Nodes(NodeCount)
        invariant edges == Edges(links[..i])
      {
        edges := edges + [Edge(links[i])];
        i := i + 1;
      }
      assert links[..i] == links;
    }
  }
}
