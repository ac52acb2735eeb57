/**
 The backlink index (`traverse.rs`): for each tracked target collection, who points at
 each document. Every change is stated as an exact change of the set of edges.
 */
module Backlinks {
  import opened Bytes
  import opened Values

  datatype Backlink = Backlink(srcCol: Str, srcId: Str, field: Str)
  datatype Edge = Edge(col: Str, id: Str, link: Backlink)

  type Buckets = map<Str, seq<Backlink>>
  type Edges = map<Str, Buckets>

  predicate Has(edges: Edges, e: Edge) {
    e.col in edges && e.id in edges[e.col] && e.link in edges[e.col][e.id]
  }

  predicate NoDuplicates(links: seq<Backlink>) {
    forall i, j | 0 <= i < j < |links| :: links[i] != links[j]
  }

  /** No empty bucket, no duplicate edge. */
  predicate BucketsOk(m: Buckets) {
    m != map[] && forall id | id in m :: m[id] != [] && NoDuplicates(m[id])
  }

  /** Only tracked targets have edges. */
  predicate EdgesOk(tracked: set<Str>, edges: Edges) {
    forall c | c in edges :: c in tracked && BucketsOk(edges[c])
  }

  /** Document `col/id` refers to the target of `e` in the field of `e`. */
  predicate Refers(col: Str, id: Str, fields: seq<Field>, e: Edge) {
    e.link.srcCol == col && e.link.srcId == id && Field(e.link.field, Reference(e.col, e.id)) in fields
  }

  /** Some field of the document refers to the target of `e`. */
  predicate RefersTo(fields: seq<Field>, e: Edge) {
    exists f :: f in fields && f.value == Reference(e.col, e.id)
  }

  // ---- Changes of one bucket ----

  /** Puts `links` under `col/id`; an empty list removes the bucket, and the last bucket its map. */
  function SetBucket(edges: Edges, col: Str, id: Str, links: seq<Backlink>): Edges {
    var m := if col in edges then edges[col] else map[];
    var m' := if links == [] then m - {id} else m[id := links];
    if m' == map[] then edges - {col} else edges[col := m']
  }

  function Bucket(edges: Edges, col: Str, id: Str): seq<Backlink> {
    if col in edges && id in edges[col] then edges[col][id] else []
  }

  lemma SetBucketOk(tracked: set<Str>, edges: Edges, col: Str, id: Str, links: seq<Backlink>)
    requires EdgesOk(tracked, edges) && NoDuplicates(links) && (links != [] ==> col in tracked)
    ensures EdgesOk(tracked, SetBucket(edges, col, id, links))
  {
    hide NoDuplicates;
    if col in edges {
      assert BucketsOk(edges[col]);
    }
  }

  lemma SetBucketHas(edges: Edges, col: Str, id: Str, links: seq<Backlink>, e: Edge)
    ensures Has(SetBucket(edges, col, id, links), e) <==>
            if e.col == col && e.id == id then e.link in links else Has(edges, e)
  {
    var m := if col in edges then edges[col] else map[];
    var m' := if links == [] then m - {id} else m[id := links];
    assert e.col == col && e.id != id && Has(edges, e) ==> e.id in m';
    assert e.col == col && e.id == id && links != [] ==> e.id in m';
  }

  function Retain(links: seq<Backlink>, keep: Backlink -> bool): (r: seq<Backlink>)
    ensures forall b :: b in r <==> b in links && keep(b)
    ensures |r| <= |links|
  {
    if links == [] then []
    else
      assert links == links[..|links| - 1] + [links[|links| - 1]];
      Retain(links[..|links| - 1], keep) + if keep(links[|links| - 1]) then [links[|links| - 1]] else []
  }

  lemma {:induction false} RetainDistinct(links: seq<Backlink>, keep: Backlink -> bool)
    requires NoDuplicates(links)
    ensures NoDuplicates(Retain(links, keep))
  {
    if links != [] {
      var init, last := links[..|links| - 1], links[|links| - 1];
      RetainDistinct(init, keep);
      var kept := Retain(init, keep);
      forall i | 0 <= i < |kept| ensures kept[i] != last {
        assert kept[i] in kept;
        var j :| 0 <= j < |init| && init[j] == kept[i];
        assert links[j] != links[|links| - 1];
      }
    }
  }

  lemma BucketDistinct(tracked: set<Str>, edges: Edges, col: Str, id: Str)
    requires EdgesOk(tracked, edges)
    ensures NoDuplicates(Bucket(edges, col, id)) && (Bucket(edges, col, id) != [] ==> col in tracked)
  {
    if col in edges {
      assert BucketsOk(edges[col]);
    }
  }

  class BacklinkIndex {
    var tracked: set<Str>
    var edges: Edges

    ghost predicate Valid()
      reads this
    {
      EdgesOk(tracked, edges)
    }

    constructor ()
      ensures Valid() && tracked == {} && edges == map[]
    {
      tracked, edges := {}, map[];
    }

    method Track(collection: Str)
      requires Valid()
      modifies this`tracked
      ensures Valid() && tracked == old(tracked) + {collection}
    {
      hide BucketsOk;
      tracked := tracked + {collection};
    }

    /** `index_doc`: adds every reference of the document to a tracked target. */
    method IndexDoc(col: Str, id: Str, doc: HakoDoc)
      requires Valid()
      modifies this`edges
      ensures Valid()
      ensures forall e :: Has(edges, e) <==> old(Has(edges, e)) || (e.col in tracked && Refers(col, id, doc.fields, e))
    {
      hide BucketsOk, Has;
      if tracked == {} {
        return;
      }
      for i := 0 to |doc.fields|
        invariant Valid()
        invariant forall e :: Has(edges, e) <==> old(Has(edges, e)) || (e.col in tracked && Refers(col, id, doc.fields[..i], e))
      {
        var f := doc.fields[i];
        assert doc.fields[..i + 1] == doc.fields[..i] + [f];
        if !f.value.Reference? || f.value.collection !in tracked {
          continue;
        }
        AddEdge(f.value.collection, f.value.docId, Backlink(col, id, f.key));
      }
      assert doc.fields[..|doc.fields|] == doc.fields;
    }

    method AddEdge(col: Str, id: Str, link: Backlink)
      requires Valid() && col in tracked
      modifies this`edges
      ensures Valid()
      ensures forall e :: Has(edges, e) <==> old(Has(edges, e)) || e == Edge(col, id, link)
    {
      hide BucketsOk, SetBucket;
      var links := Bucket(edges, col, id);
      ghost var before := edges;
      if link in links {
        return;
      }
      BucketDistinct(tracked, edges, col, id);
      SetBucketOk(tracked, edges, col, id, links + [link]);
      edges := SetBucket(edges, col, id, links + [link]);
      forall e ensures Has(edges, e) <==> Has(before, e) || e == Edge(col, id, link) {
        SetBucketHas(before, col, id, links + [link], e);
      }
    }

    /** `remove_doc`: drops the edges from the document's references and those pointing at it. */
    method RemoveDoc(col: Str, id: Str, doc: HakoDoc)
      requires Valid()
      modifies this`edges
      ensures Valid()
      ensures forall e :: Has(edges, e) <==> old(Has(edges, e)) && !Removes(col, id, doc.fields, e)
    {
      hide BucketsOk, SetBucket, NoDuplicates;
      if edges == map[] {
        return;
      }
      for i := 0 to |doc.fields|
        invariant Valid()
        invariant forall e :: Has(edges, e) <==> old(Has(edges, e)) && !(Source(e, col, id) && RefersTo(doc.fields[..i], e))
      {
        hide Has;
        var f := doc.fields[i];
        assert doc.fields[..i + 1] == doc.fields[..i] + [f];
        if f.value.Reference? {
          DropSource(f.value.collection, f.value.docId, col, id);
        }
      }
      assert doc.fields[..|doc.fields|] == doc.fields;
      ghost var before := edges;
      assert NoDuplicates([]) by { EmptyDistinct(); }
      SetBucketOk(tracked, edges, col, id, []);
      edges := SetBucket(edges, col, id, []);
      forall e ensures Has(edges, e) <==> Has(before, e) && !(e.col == col && e.id == id) {
        SetBucketHas(before, col, id, [], e);
      }
    }

    method DropSource(tgt: Str, tid: Str, col: Str, id: Str)
      requires Valid()
      modifies this`edges
      ensures Valid()
      ensures forall e :: Has(edges, e) <==> old(Has(edges, e)) && !(e.col == tgt && e.id == tid && Source(e, col, id))
    {
      hide BucketsOk, SetBucket, NoDuplicates;
      var keep := (b: Backlink) => !(b.srcCol == col && b.srcId == id);
      var links := Retain(Bucket(edges, tgt, tid), keep);
      ghost var before := edges;
      BucketDistinct(tracked, edges, tgt, tid);
      RetainDistinct(Bucket(edges, tgt, tid), keep);
      SetBucketOk(tracked, edges, tgt, tid, links);
      edges := SetBucket(edges, tgt, tid, links);
      forall e ensures Has(edges, e) <==> Has(before, e) && !(e.col == tgt && e.id == tid && Source(e, col, id)) {
        SetBucketHas(before, tgt, tid, links, e);
      }
    }

    /** `inbound` */
    method Inbound(col: Str, id: Str) returns (r: Option<seq<Backlink>>)
      requires Valid()
      ensures match r
              case None => forall b :: !Has(edges, Edge(col, id, b))
              case Some(links) => links != [] && NoDuplicates(links) && forall b :: b in links <==> Has(edges, Edge(col, id, b))
    {
      if col in edges {
        assert BucketsOk(edges[col]);
      }
      r := if col in edges && id in edges[col] then Some(edges[col][id]) else None;
    }

    /** `clear_collection`: drops every edge to or from the collection. */
    method ClearCollection(collection: Str)
      requires Valid()
      modifies this`edges
      ensures Valid() && collection !in edges
      ensures forall e :: Has(edges, e) <==> old(Has(edges, e)) && !Touches(e, collection)
    {
      hide BucketsOk, ClearedBuckets;
      edges := edges - {collection};
      ghost var before := edges;
      var targets := edges.Keys;
      while targets != {}
        invariant Valid() && targets <= before.Keys && collection !in edges
        invariant forall c | c in targets :: c in edges && edges[c] == before[c]
        invariant forall e :: Has(edges, e) <==> Has(before, e) && !(e.col !in targets && e.link.srcCol == collection)
        decreases targets
      {
        hide Has;
        var c :| c in targets;
        ghost var last := edges;
        ClearedOk(tracked, edges, c, collection);
        var m := ClearedBuckets(edges[c], collection);
        edges := if m == map[] then edges - {c} else edges[c := m];
        forall e ensures Has(edges, e) <==> Has(last, e) && !(e.col == c && e.link.srcCol == collection) {
          ClearedHas(last, c, collection, e);
        }
        targets := targets - {c};
      }
    }

    /** `untrack`: the registration goes with the edges. */
    method Untrack(collection: Str) returns (was: bool)
      requires Valid()
      modifies this
      ensures Valid() && tracked == old(tracked) - {collection} && was == (collection in old(tracked))
      ensures forall e :: Has(edges, e) <==> old(Has(edges, e)) && !Touches(e, collection)
    {
      hide BucketsOk;
      ClearCollection(collection);
      was := collection in tracked;
      tracked := tracked - {collection};
    }
  }

  predicate Source(e: Edge, col: Str, id: Str) { e.link.srcCol == col && e.link.srcId == id }

  predicate Touches(e: Edge, collection: Str) { e.col == collection || e.link.srcCol == collection }

  /** What `remove_doc` takes away. */
  predicate Removes(col: Str, id: Str, fields: seq<Field>, e: Edge) {
    (Source(e, col, id) && RefersTo(fields, e)) || (e.col == col && e.id == id)
  }

  lemma EmptyDistinct()
    ensures NoDuplicates([])
  {
  }

  function ClearedBuckets(m: Buckets, collection: Str): Buckets {
    map id | id in m && Retain(m[id], (b: Backlink) => b.srcCol != collection) != [] :: Retain(m[id], (b: Backlink) => b.srcCol != collection)
  }

  lemma ClearedOk(tracked: set<Str>, edges: Edges, c: Str, collection: Str)
    requires EdgesOk(tracked, edges) && c in edges
    ensures var m := ClearedBuckets(edges[c], collection); EdgesOk(tracked, if m == map[] then edges - {c} else edges[c := m])
  {
    assert BucketsOk(edges[c]);
    var m := ClearedBuckets(edges[c], collection);
    hide NoDuplicates, Retain;
    forall id | id in m ensures NoDuplicates(m[id]) {
      RetainDistinct(edges[c][id], (b: Backlink) => b.srcCol != collection);
    }
  }

  lemma ClearedHas(edges: Edges, c: Str, collection: Str, e: Edge)
    requires c in edges
    ensures var m := ClearedBuckets(edges[c], collection);
            Has(if m == map[] then edges - {c} else edges[c := m], e) <==> Has(edges, e) && !(e.col == c && e.link.srcCol == collection)
  {
    hide Retain;
    var m := ClearedBuckets(edges[c], collection);
    assert e.col == c && Has(edges, e) && e.link.srcCol != collection ==> e.id in m;
  }
}
