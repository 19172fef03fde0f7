/** Which Markdown documents can be reached from the entry documents by following links. */
module DocGraph {

  /** A document, known by its path. */
  datatype Doc = Doc(path: string)

  /** Link targets by source document; a document without links may be missing. The lists
      may repeat a target and come in any order: sorting them does not affect the result. */
  type Edges = map<Doc, seq<Doc>>

  function Targets(edges: Edges, doc: Doc): seq<Doc> { if doc in edges then edges[doc] else [] }

  /** A walk along link edges, one document or more. */
  predicate IsWalk(edges: Edges, walk: seq<Doc>) {
    && |walk| >= 1
    && (|walk| > 1 ==> var n := |walk| - 1; IsWalk(edges, walk[..n]) && walk[n] in Targets(edges, walk[n - 1]))
  }

  ghost predicate WalkTo(entries: seq<Doc>, edges: Edges, walk: seq<Doc>, doc: Doc) {
    IsWalk(edges, walk) && walk[0] in entries && walk[|walk| - 1] == doc
  }

  ghost predicate ReachableFrom(entries: seq<Doc>, edges: Edges, doc: Doc) {
    exists walk :: WalkTo(entries, edges, walk, doc)
  }

  lemma EntryIsReachable(entries: seq<Doc>, edges: Edges, doc: Doc)
    requires doc in entries
    ensures ReachableFrom(entries, edges, doc)
  {
    assert WalkTo(entries, edges, [doc], doc);
  }

  lemma TargetIsReachable(entries: seq<Doc>, edges: Edges, doc: Doc, target: Doc)
    requires ReachableFrom(entries, edges, doc) && target in Targets(edges, doc)
    ensures ReachableFrom(entries, edges, target)
  {
    var walk :| WalkTo(entries, edges, walk, doc);
    var longer := walk + [target];
    assert longer[..|walk|] == walk;
    assert WalkTo(entries, edges, longer, target);
  }

  /** A set that holds the entries and is closed under links holds every walk's end. */
  lemma {:induction false} ClosedHoldsWalks(entries: seq<Doc>, edges: Edges, docs: set<Doc>, walk: seq<Doc>)
    requires forall doc | doc in entries :: doc in docs
    requires forall doc, target | doc in docs && target in Targets(edges, doc) :: target in docs
    requires IsWalk(edges, walk) && walk[0] in entries
    ensures walk[|walk| - 1] in docs
  {
    if |walk| > 1 { ClosedHoldsWalks(entries, edges, docs, walk[..|walk| - 1]); }
  }

  /** Every document that can ever enter the queue. */
  ghost function Mentioned(entries: seq<Doc>, edges: Edges): set<Doc> {
    (set doc | doc in entries) + (set doc, target | doc in edges && target in edges[doc] :: target)
  }

  /** What every round of the worklist keeps: nothing unreachable was collected or queued, and
      whatever is still owed to the result waits in the queue. */
  ghost predicate WorklistInv(entries: seq<Doc>, edges: Edges, reachable: set<Doc>, queue: seq<Doc>) {
    && (forall doc | doc in reachable || doc in queue :: ReachableFrom(entries, edges, doc))
    && (forall doc | doc in entries :: doc in reachable || doc in queue)
    && (forall doc, target | doc in reachable && target in Targets(edges, doc) ::
          target in reachable || target in queue)
  }

  lemma WorklistStarts(entries: seq<Doc>, edges: Edges)
    ensures WorklistInv(entries, edges, {}, entries)
  {
    forall doc | doc in entries ensures ReachableFrom(entries, edges, doc) {
      EntryIsReachable(entries, edges, doc);
    }
  }

  /** Visiting a document and queueing its unvisited targets. */
  lemma VisitKeepsInv(entries: seq<Doc>, edges: Edges, reachable: set<Doc>, queue: seq<Doc>, longer: seq<Doc>)
    requires queue != [] && WorklistInv(entries, edges, reachable, queue)
    requires var current := queue[0];
             forall doc :: doc in longer <==>
               doc in queue[1..] || (doc in Targets(edges, current) && doc !in reachable + {current})
    ensures WorklistInv(entries, edges, reachable + {queue[0]}, longer)
  {
    var current := queue[0];
    assert queue == [current] + queue[1..];
    forall doc | doc in reachable + {current} || doc in longer ensures ReachableFrom(entries, edges, doc) {
      if doc !in reachable && doc !in queue { TargetIsReachable(entries, edges, current, doc); }
    }
    forall doc, target | doc in reachable + {current} && target in Targets(edges, doc)
      ensures target in reachable + {current} || target in longer
    {
      if doc != current && target !in reachable && target != current { assert target in queue[1..]; }
    }
    forall doc | doc in entries ensures doc in reachable + {current} || doc in longer {
      if doc !in reachable && doc != current { assert doc in queue[1..]; }
    }
  }

  lemma SkipKeepsInv(entries: seq<Doc>, edges: Edges, reachable: set<Doc>, queue: seq<Doc>)
    requires queue != [] && queue[0] in reachable && WorklistInv(entries, edges, reachable, queue)
    ensures WorklistInv(entries, edges, reachable, queue[1..])
  {
    assert queue == [queue[0]] + queue[1..];
  }

  lemma WorklistEnds(entries: seq<Doc>, edges: Edges, reachable: set<Doc>)
    requires WorklistInv(entries, edges, reachable, [])
    ensures forall doc :: doc in reachable <==> ReachableFrom(entries, edges, doc)
  {
    forall doc | ReachableFrom(entries, edges, doc) ensures doc in reachable {
      var walk :| WalkTo(entries, edges, walk, doc);
      ClosedHoldsWalks(entries, edges, reachable, walk);
    }
  }

  ghost predicate AllIn(queue: seq<Doc>, docs: set<Doc>) { forall doc | doc in queue :: doc in docs }

  /** A first visit leaves fewer documents to visit, and queues only mentioned ones. */
  lemma VisitShrinks(entries: seq<Doc>, edges: Edges, reachable: set<Doc>, queue: seq<Doc>, longer: seq<Doc>)
    requires queue != [] && queue[0] !in reachable && AllIn(queue, Mentioned(entries, edges))
    requires forall doc | doc in longer :: doc in queue[1..] || doc in Targets(edges, queue[0])
    ensures |Mentioned(entries, edges) - (reachable + {queue[0]})| < |Mentioned(entries, edges) - reachable|
    ensures AllIn(longer, Mentioned(entries, edges))
  {
    var mentioned, current := Mentioned(entries, edges), queue[0];
    assert mentioned - (reachable + {current}) == (mentioned - reachable) - {current};
    forall doc | doc in longer ensures doc in mentioned {
      if doc in queue[1..] { assert doc in queue; }
    }
  }

  /** `build_reachable_docs`: the worklist returns exactly the documents reachable from the
      entries, however often the queue repeats one of them. */
  method BuildReachableDocs(entries: seq<Doc>, edges: Edges) returns (reachable: set<Doc>)
    ensures forall doc :: doc in reachable <==> ReachableFrom(entries, edges, doc)
  {
    reachable := {};
    var queue := entries;
    ghost var mentioned := Mentioned(entries, edges);
    WorklistStarts(entries, edges);
    while queue != []
      invariant AllIn(queue, mentioned)
      invariant WorklistInv(entries, edges, reachable, queue)
      decreases |mentioned - reachable|, |queue|
    {
      var current, rest := queue[0], queue[1..];
      if current in reachable {
        SkipKeepsInv(entries, edges, reachable, queue);
        assert AllIn(rest, mentioned) by { assert forall doc | doc in rest :: doc in queue; }
        queue := rest;
      } else {
        var longer := Enqueue(rest, Targets(edges, current), reachable + {current});
        VisitKeepsInv(entries, edges, reachable, queue, longer);
        VisitShrinks(entries, edges, reachable, queue, longer);
        reachable, queue := reachable + {current}, longer;
      }
    }
    WorklistEnds(entries, edges, reachable);
  }

  /** The inner loop: the targets that have not been visited join the queue. */
  method Enqueue(queue: seq<Doc>, targets: seq<Doc>, reachable: set<Doc>) returns (longer: seq<Doc>)
    ensures forall doc :: doc in longer <==> doc in queue || (doc in targets && doc !in reachable)
  {
    longer := queue;
    for i := 0 to |targets|
      invariant forall doc :: doc in longer <==> doc in queue || (doc in targets[..i] && doc !in reachable)
    {
      assert targets[..i + 1] == targets[..i] + [targets[i]];
      if targets[i] !in reachable { longer := longer + [targets[i]]; }
    }
    assert targets[..|targets|] == targets;
  }
}
