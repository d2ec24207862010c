/** Exact-position vertex lookup over a mesh's vertex list. Both lookups only
    read the list; absence is reported as `None` or an empty list, never as an
    error, so neither has a precondition. */
module Selection {
  import opened Wrappers
  import opened MeshTypes
  import opened Sequences

  /** `i` is the index of the earliest vertex of `vertices` sitting exactly at `p`. */
  ghost predicate IsFirstMatch(vertices: seq<Vertex>, p: Position, i: int)
  {
    && 0 <= i < |vertices|
    && vertices[i].position == p
    && forall k :: 0 <= k < i ==> vertices[k].position != p
  }

  /** The indices of all vertices sitting exactly at `p`. */
  ghost function MatchingIndices(vertices: seq<Vertex>, p: Position): set<int>
  {
    set i | 0 <= i < |vertices| && vertices[i].position == p
  }

  /** Every vertex at exactly position `p`, in list order: a filter of `vertices`.
      Coincident but distinct vertices are all reported (each as often as it
      occurs in the list: see `FindAllMultiplicity`). */
  function FindAllByPosition(vertices: seq<Vertex>, p: Position): (r: seq<Vertex>)
    ensures forall k :: 0 <= k < |r| ==> r[k].position == p
    ensures IsSubsequence(r, vertices)
    ensures forall k :: 0 <= k < |vertices| && vertices[k].position == p ==> vertices[k] in r
    decreases |vertices|
  {
    if |vertices| == 0 then []
    else
      var init := vertices[..|vertices| - 1];
      var last := vertices[|vertices| - 1];
      assert vertices == init + [last];
      var found := FindAllByPosition(init, p);
      if last.position == p then found + [last] else found
  }

  /** The first vertex at exactly position `p`, or `None` when no vertex is there. */
  method FindByPosition(vertices: seq<Vertex>, p: Position) returns (r: Option<Vertex>)
    ensures r.None? <==> forall k :: 0 <= k < |vertices| ==> vertices[k].position != p
    ensures r.Some? ==> r.value in vertices && r.value.position == p
    ensures r.Some? ==> exists i :: IsFirstMatch(vertices, p, i) && vertices[i] == r.value
    ensures r.None? <==> FindAllByPosition(vertices, p) == []
    ensures r.Some? ==> |FindAllByPosition(vertices, p)| > 0 && r.value == FindAllByPosition(vertices, p)[0]
  {
    for i := 0 to |vertices|
      invariant forall k :: 0 <= k < i ==> vertices[k].position != p
    {
      if vertices[i].position == p {
        assert IsFirstMatch(vertices, p, i);
        FirstMatchHeadsFindAll(vertices, p, i);
        return Some(vertices[i]);
      }
    }
    FindAllEmptyIff(vertices, p);
    return None;
  }

  /** Filtering distributes over concatenation of vertex lists. */
  lemma {:induction false} FindAllAppend(a: seq<Vertex>, b: seq<Vertex>, p: Position)
    ensures FindAllByPosition(a + b, p) == FindAllByPosition(a, p) + FindAllByPosition(b, p)
    decreases |b|
  {
    if |b| == 0 {
      assert a + b == a;
    } else {
      var b' := b[..|b| - 1];
      assert (a + b)[..|a + b| - 1] == a + b';
      assert (a + b)[|a + b| - 1] == b[|b| - 1];
      FindAllAppend(a, b', p);
    }
  }

  /** The filter is empty exactly when no vertex sits at `p`. */
  lemma {:induction false} FindAllEmptyIff(vertices: seq<Vertex>, p: Position)
    ensures FindAllByPosition(vertices, p) == [] <==>
            forall k :: 0 <= k < |vertices| ==> vertices[k].position != p
  {
    var r := FindAllByPosition(vertices, p);
    if r != [] {
      SubsequenceElements(r, vertices);
      assert r[0] in vertices;
      var k :| 0 <= k < |vertices| && vertices[k] == r[0];
      assert vertices[k].position == p;
    }
  }

  /** Each vertex at `p` is reported exactly as many times as it occurs in the list. */
  lemma {:induction false} FindAllMultiplicity(vertices: seq<Vertex>, p: Position, v: Vertex)
    requires v.position == p
    ensures multiset(FindAllByPosition(vertices, p))[v] == multiset(vertices)[v]
    decreases |vertices|
  {
    if |vertices| > 0 {
      var init := vertices[..|vertices| - 1];
      var last := vertices[|vertices| - 1];
      assert vertices == init + [last];
      FindAllMultiplicity(init, p, v);
    }
  }

  /** When the earliest vertex at `p` has index `i`, the filter starts with it. */
  lemma {:induction false} FirstMatchHeadsFindAll(vertices: seq<Vertex>, p: Position, i: int)
    requires IsFirstMatch(vertices, p, i)
    ensures FindAllByPosition(vertices, p) != []
    ensures FindAllByPosition(vertices, p)[0] == vertices[i]
  {
    var before := vertices[..i];
    var rest := vertices[i + 1..];
    assert vertices == before + [vertices[i]] + rest;
    FindAllEmptyIff(before, p);
    assert FindAllByPosition(before, p) == [];
    FindAllAppend(before, [vertices[i]], p);
    assert FindAllByPosition([vertices[i]], p) == [vertices[i]] by {
      assert [vertices[i]][..0] == [];
    }
    FindAllAppend(before + [vertices[i]], rest, p);
  }

  /** The number of vertices reported equals the number of list entries at `p`,
      which never exceeds the length of the list. */
  lemma {:induction false} FindAllCount(vertices: seq<Vertex>, p: Position)
    ensures |FindAllByPosition(vertices, p)| == |MatchingIndices(vertices, p)|
    ensures |FindAllByPosition(vertices, p)| <= |vertices|
    decreases |vertices|
  {
    if |vertices| == 0 {
      assert MatchingIndices(vertices, p) == {};
    } else {
      var n := |vertices| - 1;
      FindAllCount(vertices[..n], p);
      MatchingIndicesSnoc(vertices, p);
    }
  }

  /** Adding one entry at the end adds its index to the matches exactly when it sits at `p`. */
  lemma MatchingIndicesSnoc(vertices: seq<Vertex>, p: Position)
    requires |vertices| > 0
    ensures var n := |vertices| - 1;
            var before := MatchingIndices(vertices[..n], p);
            && n !in before
            && MatchingIndices(vertices, p) == (if vertices[n].position == p then before + {n} else before)
  {
  }

  /** Filtering an already filtered list changes nothing. */
  lemma {:induction false} FindAllIdempotent(vertices: seq<Vertex>, p: Position)
    ensures FindAllByPosition(FindAllByPosition(vertices, p), p) == FindAllByPosition(vertices, p)
  {
    FindAllKeepsAllMatching(FindAllByPosition(vertices, p), p);
  }

  /** A list whose every vertex sits at `p` is its own filter. */
  lemma {:induction false} FindAllKeepsAllMatching(vertices: seq<Vertex>, p: Position)
    requires forall k :: 0 <= k < |vertices| ==> vertices[k].position == p
    ensures FindAllByPosition(vertices, p) == vertices
    decreases |vertices|
  {
    if |vertices| > 0 {
      var init := vertices[..|vertices| - 1];
      FindAllKeepsAllMatching(init, p);
      assert init + [vertices[|vertices| - 1]] == vertices;
    }
  }

  /** A list holding each vertex once yields a result holding each vertex once. */
  lemma {:induction false} FindAllDistinct(vertices: seq<Vertex>, p: Position)
    requires DistinctIds(vertices)
    ensures DistinctIds(FindAllByPosition(vertices, p))
    decreases |vertices|
  {
    if |vertices| > 0 {
      var n := |vertices| - 1;
      var init := vertices[..n];
      var last := vertices[n];
      FindAllDistinct(init, p);
      var found := FindAllByPosition(init, p);
      if last.position == p {
        SubsequenceElements(found, init);
        forall v | v in found ensures v.id != last.id {
          var k :| 0 <= k < n && init[k] == v;
          assert vertices[k] == v;
        }
        DistinctIdsSnoc(found, last);
      }
    }
  }

  /** Appending a vertex whose id is new keeps the ids of a list distinct. */
  lemma {:induction false} DistinctIdsSnoc(vertices: seq<Vertex>, v: Vertex)
    requires DistinctIds(vertices)
    requires forall u :: u in vertices ==> u.id != v.id
    ensures DistinctIds(vertices + [v])
  {
  }

  /** When exactly one entry sits at `p`, both lookups report exactly that vertex. */
  lemma {:induction false} SoleVertexAtPosition(vertices: seq<Vertex>, p: Position, i: int)
    requires 0 <= i < |vertices| && vertices[i].position == p
    requires forall k :: 0 <= k < |vertices| && k != i ==> vertices[k].position != p
    ensures IsFirstMatch(vertices, p, i)
    ensures FindAllByPosition(vertices, p) == [vertices[i]]
  {
    FirstMatchHeadsFindAll(vertices, p, i);
    FindAllCount(vertices, p);
    assert MatchingIndices(vertices, p) == {i};
  }
}
