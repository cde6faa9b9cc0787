/** The rollback journal of an insertion, on values: what it must record, and that replaying it on
    whatever an interrupted insertion left behind restores the state at entry. */
module InsertionJournal {
  import opened Ranking
  import opened Configuration
  import opened GraphLinks
  import opened HnswState

  /** The original contents of one adjacency list. */
  datatype Backup = Backup(node: nat, level: nat, neighbors: seq<nat>)

  datatype InsertedId = NotInserted | InsertedId(id: VectorId)

  predicate Recorded(backups: seq<Backup>, n: nat, c: nat) {
    exists i :: 0 <= i < |backups| && backups[i].node == n && backups[i].level == c
  }

  lemma RecordedJoin(a: seq<Backup>, b: seq<Backup>, n: nat, c: nat)
    ensures Recorded(a + b, n, c) <==> Recorded(a, n, c) || Recorded(b, n, c)
  {
    if Recorded(a, n, c) {
      var i :| 0 <= i < |a| && a[i].node == n && a[i].level == c;
      assert (a + b)[i] == a[i];
    }
    if Recorded(b, n, c) {
      var i :| 0 <= i < |b| && b[i].node == n && b[i].level == c;
      assert (a + b)[|a| + i] == b[i];
    }
  }

  /** Every list of an old node is either unchanged or in the journal, once, as it was. */
  ghost predicate Covers(before: Graph, now: Graph, backups: seq<Backup>) {
    && |before| <= |now|
    && (forall n :: 0 <= n < |before| ==>
          |now[n].levels| == |before[n].levels| && now[n].deleted == before[n].deleted)
    && (forall i :: 0 <= i < |backups| ==>
          && OnLayer(before, backups[i].node, backups[i].level)
          && backups[i].neighbors == Neighbours(before, backups[i].node, backups[i].level))
    && (forall i, j :: 0 <= i < j < |backups| ==>
          backups[i].node != backups[j].node || backups[i].level != backups[j].level)
    && (forall n, c :: OnLayer(before, n, c) && !Recorded(backups, n, c) ==>
          Neighbours(now, n, c) == Neighbours(before, n, c))
  }

  /** An insertion in progress: arrays have only grown, at most one ID was added to the map, and the
      journal covers the graph. Scalars may have any value. */
  ghost predicate InProgress(before: State, now: State, backups: seq<Backup>, inserted: InsertedId) {
    && before.vectors <= now.vectors
    && before.ids <= now.ids
    && Covers(before.graph, now.graph, backups)
    && now.deletedCount == before.deletedCount
    && match inserted
       case NotInserted => now.idToNode == before.idToNode
       case InsertedId(id) =>
         && id !in before.idToNode && id in now.idToNode
         && now.idToNode == before.idToNode[id := now.idToNode[id]]
  }

  /** The generator and the entry point need no journal. */
  lemma ScalarsAreFree(before: State, now: State, next: State, backups: seq<Backup>, inserted: InsertedId)
    requires InProgress(before, now, backups, inserted)
    requires next == now.(random := next.random, entryPoint := next.entryPoint, maxLevel := next.maxLevel)
    ensures InProgress(before, next, backups, inserted)
  {
  }

  /** The destructor's first loop: swap every recorded list back. */
  function PutBack(g: Graph, backups: seq<Backup>): (h: Graph)
    requires forall i :: 0 <= i < |backups| ==> OnLayer(g, backups[i].node, backups[i].level)
    ensures SameShape(g, h)
    decreases |backups|
  {
    if backups == [] then g else
      PutBack(SetNeighbours(g, backups[0].node, backups[0].level, backups[0].neighbors), backups[1..])
  }

  lemma {:induction false} PutBackCovers(before: Graph, now: Graph, backups: seq<Backup>)
    requires Covers(before, now, backups)
    ensures forall i :: 0 <= i < |backups| ==> OnLayer(now, backups[i].node, backups[i].level)
    ensures Covers(before, PutBack(now, backups), [])
    decreases |backups|
  {
    if backups != [] {
      var b := backups[0];
      var next := SetNeighbours(now, b.node, b.level, b.neighbors);
      forall n, c | OnLayer(before, n, c) && !Recorded(backups[1..], n, c)
        ensures Neighbours(next, n, c) == Neighbours(before, n, c)
      {
        RecordedJoin([b], backups[1..], n, c);
        assert backups == [b] + backups[1..];
      }
      PutBackCovers(before, next, backups[1..]);
    }
  }

  lemma CoveredPrefix(before: Graph, now: Graph)
    requires Covers(before, now, [])
    ensures before <= now
  {
    forall n | 0 <= n < |before| ensures now[n] == before[n] {
      forall c | 0 <= c < |before[n].levels| ensures now[n].levels[c] == before[n].levels[c] {
        assert OnLayer(before, n, c);
        assert !Recorded([], n, c);
        assert Neighbours(now, n, c) == Neighbours(before, n, c);
      }
      assert now[n].levels == before[n].levels;
    }
  }

  /** Rolling back restores the whole logical state, wherever the insertion stopped. */
  function RolledBack(now: State, backups: seq<Backup>, inserted: InsertedId, nodeCount: nat,
                      vectorCount: nat, random: Rng, entry: nat, level: nat): (r: State)
    requires forall i :: 0 <= i < |backups| ==> OnLayer(now.graph, backups[i].node, backups[i].level)
    requires nodeCount <= |now.graph| && nodeCount <= |now.ids| && vectorCount <= |now.vectors|
  {
    State(now.vectors[..vectorCount],
          now.ids[..nodeCount],
          PutBack(now.graph, backups)[..nodeCount],
          match inserted case NotInserted => now.idToNode case InsertedId(id) => now.idToNode - {id},
          random, entry, level, now.deletedCount)
  }

  lemma RollbackRestores(before: State, now: State, backups: seq<Backup>, inserted: InsertedId)
    requires InProgress(before, now, backups, inserted)
    requires |before.ids| == |before.graph|
    ensures forall i :: 0 <= i < |backups| ==> OnLayer(now.graph, backups[i].node, backups[i].level)
    ensures RolledBack(now, backups, inserted, |before.ids|, |before.vectors|,
                       before.random, before.entryPoint, before.maxLevel) == before
  {
    PutBackCovers(before.graph, now.graph, backups);
    CoveredPrefix(before.graph, PutBack(now.graph, backups));
    if inserted.InsertedId? {
      assert now.idToNode - {inserted.id} == before.idToNode;
    }
  }

  /** Recording a list that is still untouched keeps the journal exact. */
  lemma RecordKeepsCover(before: Graph, now: Graph, backups: seq<Backup>, n: nat, c: nat)
    requires Covers(before, now, backups) && OnLayer(before, n, c) && !Recorded(backups, n, c)
    ensures Covers(before, now, backups + [Backup(n, c, Neighbours(now, n, c))])
    ensures Recorded(backups + [Backup(n, c, Neighbours(now, n, c))], n, c)
  {
    var grown := backups + [Backup(n, c, Neighbours(now, n, c))];
    assert grown[|backups|].node == n;
    forall m, d | OnLayer(before, m, d) && !Recorded(grown, m, d)
      ensures Neighbours(now, m, d) == Neighbours(before, m, d)
    {
      RecordedJoin(backups, grown[|backups|..], m, d);
    }
  }

  /** Changing a list is safe once it is recorded, and always for the new node. */
  lemma WriteKeepsCover(before: Graph, now: Graph, backups: seq<Backup>, n: nat, c: nat, list: seq<nat>)
    requires Covers(before, now, backups) && OnLayer(now, n, c)
    requires n >= |before| || Recorded(backups, n, c)
    ensures Covers(before, SetNeighbours(now, n, c, list), backups)
  {
  }
}
