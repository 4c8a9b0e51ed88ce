/**
 * Splitting the vertex list of one polygon part into rings. The list holds
 * vertices and `None` markers; every maximal run of vertices between
 * markers becomes one ring, and empty runs produce nothing.
 */
module RingSplit {
  import opened Wrappers
  import opened Records

  /** The rings still to come when `current` has already been collected. */
  function SplitFrom(round: Rounding, items: seq<Option<Point>>, current: seq<Position>): seq<seq<Position>>
    decreases |items|
  {
    if items == [] then Close(current)
    else match items[0]
      case None => Close(current) + SplitFrom(round, items[1..], [])
      case Some(p) => SplitFrom(round, items[1..], current + [RoundPoint(round, p)])
  }

  /** A ring that has been collected is emitted only when it is non-empty. */
  function Close(current: seq<Position>): seq<seq<Position>>
  {
    if current == [] then [] else [current]
  }

  /** The rings of one polygon part. */
  function SplitAtNones(round: Rounding, items: seq<Option<Point>>): seq<seq<Position>>
  {
    SplitFrom(round, items, [])
  }

  /**
   * The generator `part_split_at_nones`: one pass over the items with a
   * ring under construction; the rings it yields are returned in order.
   */
  method PartSplitAtNones(round: Rounding, items: seq<Option<Point>>) returns (rings: seq<seq<Position>>)
    ensures rings == SplitAtNones(round, items)
    ensures forall k :: 0 <= k < |rings| ==> rings[k] != []
    ensures Flatten(rings) == RoundPoints(round, Present(items))
    ensures |rings| == RunCount(items)
  {
    var current: seq<Position> := [];
    rings := [];
    for i := 0 to |items|
      invariant rings + SplitFrom(round, items[i..], current) == SplitAtNones(round, items)
    {
      assert items[i..][1..] == items[i + 1..];
      match items[i]
      case None =>
        if current != [] {
          rings := rings + [current];
        }
        current := [];
      case Some(p) =>
        current := current + [RoundPoint(round, p)];
    }
    if current != [] {
      rings := rings + [current];
    }
    SplitNeverEmpty(round, items);
    SplitFlattens(round, items);
    SplitCountsRuns(round, items);
  }

  /** The rings laid end to end. */
  function Flatten(rings: seq<seq<Position>>): seq<Position>
  {
    if rings == [] then [] else rings[0] + Flatten(rings[1..])
  }

  /** The vertices of an item list, markers dropped, in their order. */
  function Present(items: seq<Option<Point>>): seq<Point>
  {
    if items == [] then []
    else (if items[0].Some? then [items[0].value] else []) + Present(items[1..])
  }

  /**
   * The number of maximal runs of vertices, counted at the vertex that ends
   * each run (the last item, or one followed by a marker).
   */
  function RunCount(items: seq<Option<Point>>): nat
  {
    if items == [] then 0
    else (if items[0].Some? && (|items| == 1 || items[1].None?) then 1 else 0) + RunCount(items[1..])
  }

  /** Vertex lists written with a single marker between consecutive rings. */
  function JoinRings(rings: seq<seq<Point>>): seq<Option<Point>>
  {
    if rings == [] then []
    else if |rings| == 1 then Vertices(rings[0])
    else Vertices(rings[0]) + [None] + JoinRings(rings[1..])
  }

  function Vertices(ps: seq<Point>): seq<Option<Point>>
  {
    seq(|ps|, i requires 0 <= i < |ps| => Some(ps[i]))
  }

  lemma {:induction false} FlattenAppend(a: seq<seq<Position>>, b: seq<seq<Position>>)
    ensures Flatten(a + b) == Flatten(a) + Flatten(b)
  {
    if a == [] {
      assert a + b == b;
    } else {
      assert (a + b)[1..] == a[1..] + b;
      FlattenAppend(a[1..], b);
    }
  }

  lemma {:induction false} SplitFromNeverEmpty(round: Rounding, items: seq<Option<Point>>, current: seq<Position>)
    ensures forall k :: 0 <= k < |SplitFrom(round, items, current)| ==> SplitFrom(round, items, current)[k] != []
    decreases |items|
  {
    if items != [] {
      match items[0]
      case None => SplitFromNeverEmpty(round, items[1..], []);
      case Some(p) => SplitFromNeverEmpty(round, items[1..], current + [RoundPoint(round, p)]);
    }
  }

  /** A marker with nothing collected, and an empty tail, yield no ring. */
  lemma SplitNeverEmpty(round: Rounding, items: seq<Option<Point>>)
    ensures forall k :: 0 <= k < |SplitAtNones(round, items)| ==> SplitAtNones(round, items)[k] != []
  {
    SplitFromNeverEmpty(round, items, []);
  }

  lemma RoundPointsAppend(round: Rounding, a: seq<Point>, b: seq<Point>)
    ensures RoundPoints(round, a + b) == RoundPoints(round, a) + RoundPoints(round, b)
  {
  }

  lemma FlattenClose(current: seq<Position>)
    ensures Flatten(Close(current)) == current
  {
    if current != [] {
      assert Flatten([current]) == current + Flatten([]);
    }
  }

  /** A marker closes the ring under construction and starts afresh. */
  lemma FlattensAtMarker(round: Rounding, items: seq<Option<Point>>, current: seq<Position>)
    requires items != [] && items[0].None?
    requires Flatten(SplitFrom(round, items[1..], [])) == RoundPoints(round, Present(items[1..]))
    ensures Flatten(SplitFrom(round, items, current)) == current + RoundPoints(round, Present(items))
  {
    var rest := items[1..];
    assert Present(items) == Present(rest);
    assert SplitFrom(round, items, current) == Close(current) + SplitFrom(round, rest, []);
    FlattenAppend(Close(current), SplitFrom(round, rest, []));
    FlattenClose(current);
  }

  /** A vertex extends the ring under construction. */
  lemma FlattensAtVertex(round: Rounding, items: seq<Option<Point>>, current: seq<Position>)
    requires items != [] && items[0].Some?
    requires Flatten(SplitFrom(round, items[1..], current + [RoundPoint(round, items[0].value)]))
      == (current + [RoundPoint(round, items[0].value)]) + RoundPoints(round, Present(items[1..]))
    ensures Flatten(SplitFrom(round, items, current)) == current + RoundPoints(round, Present(items))
  {
    var rest := items[1..];
    var q := RoundPoint(round, items[0].value);
    assert SplitFrom(round, items, current) == SplitFrom(round, rest, current + [q]);
    assert Present(items) == [items[0].value] + Present(rest);
    RoundPointsAppend(round, [items[0].value], Present(rest));
  }

  lemma {:induction false} SplitFromFlattens(round: Rounding, items: seq<Option<Point>>, current: seq<Position>)
    ensures Flatten(SplitFrom(round, items, current)) == current + RoundPoints(round, Present(items))
    decreases |items|
  {
    if items == [] {
      FlattenClose(current);
    } else if items[0].None? {
      SplitFromFlattens(round, items[1..], []);
      FlattensAtMarker(round, items, current);
    } else {
      SplitFromFlattens(round, items[1..], current + [RoundPoint(round, items[0].value)]);
      FlattensAtVertex(round, items, current);
    }
  }

  /** The rings, laid end to end, are the rounded vertices of the input in order. */
  lemma SplitFlattens(round: Rounding, items: seq<Option<Point>>)
    ensures Flatten(SplitAtNones(round, items)) == RoundPoints(round, Present(items))
  {
    SplitFromFlattens(round, items, []);
  }

  lemma {:induction false} SplitFromCountsRuns(round: Rounding, items: seq<Option<Point>>, current: seq<Position>)
    ensures |SplitFrom(round, items, current)| ==
            RunCount(items) + (if current != [] && (items == [] || items[0].None?) then 1 else 0)
    decreases |items|
  {
    if items != [] {
      match items[0]
      case None => SplitFromCountsRuns(round, items[1..], []);
      case Some(p) => SplitFromCountsRuns(round, items[1..], current + [RoundPoint(round, p)]);
    }
  }

  /** One ring per maximal run of vertices. */
  lemma SplitCountsRuns(round: Rounding, items: seq<Option<Point>>)
    ensures |SplitAtNones(round, items)| == RunCount(items)
  {
    SplitFromCountsRuns(round, items, []);
  }

  /** An empty list, or one holding only markers, has no ring. */
  lemma {:induction false} NoVerticesNoRings(round: Rounding, items: seq<Option<Point>>)
    requires forall i :: 0 <= i < |items| ==> items[i].None?
    ensures SplitAtNones(round, items) == []
    decreases |items|
  {
    if items != [] {
      NoVerticesNoRings(round, items[1..]);
    }
  }

  lemma {:induction false} SplitFromVertices(round: Rounding, ps: seq<Point>, rest: seq<Option<Point>>, current: seq<Position>)
    ensures SplitFrom(round, Vertices(ps) + rest, current) == SplitFrom(round, rest, current + RoundPoints(round, ps))
    decreases |ps|
  {
    if ps == [] {
      assert Vertices(ps) + rest == rest;
      assert current + RoundPoints(round, ps) == current;
    } else {
      var items := Vertices(ps) + rest;
      assert items[0] == Some(ps[0]);
      assert items[1..] == Vertices(ps[1..]) + rest;
      SplitFromVertices(round, ps[1..], rest, current + [RoundPoint(round, ps[0])]);
      assert current + [RoundPoint(round, ps[0])] + RoundPoints(round, ps[1..]) == current + RoundPoints(round, ps);
    }
  }

  /**
   * Splitting undoes joining: rings written with one marker between them
   * come back as those rings, rounded, one for one and in order.
   */
  lemma {:induction false} SplitJoinRoundTrip(round: Rounding, rings: seq<seq<Point>>)
    requires forall k :: 0 <= k < |rings| ==> rings[k] != []
    ensures SplitAtNones(round, JoinRings(rings)) == RoundParts(round, rings)
    decreases |rings|
  {
    if rings == [] {
    } else if |rings| == 1 {
      SplitFromVertices(round, rings[0], [], []);
      assert Vertices(rings[0]) + [] == Vertices(rings[0]);
      assert [] + RoundPoints(round, rings[0]) == RoundPoints(round, rings[0]) != [];
      assert RoundParts(round, rings) == [RoundPoints(round, rings[0])];
    } else {
      var tail := JoinRings(rings[1..]);
      SplitFromVertices(round, rings[0], [None] + tail, []);
      assert Vertices(rings[0]) + [None] + tail == Vertices(rings[0]) + ([None] + tail);
      assert ([None] + tail)[1..] == tail;
      var first := RoundPoints(round, rings[0]);
      assert [] + first == first != [];
      assert SplitFrom(round, [None] + tail, first) == [first] + SplitFrom(round, tail, []);
      SplitJoinRoundTrip(round, rings[1..]);
      assert RoundParts(round, rings) == [RoundPoints(round, rings[0])] + RoundParts(round, rings[1..]);
    }
  }
}
