/**
 Closed rings of corners as open sequences: their edges, counts and sums over the edges, and what
 changing the starting corner or the direction does to them. Properties change evenly often round.
 */
module Rings {
  import opened Folds
  import opened Plane

  /** The corner after corner i of n, wrapping round. */
  function Next(i: nat, n: nat): (j: nat)
    requires i < n
    ensures j == (i + 1) % n
  {
    if i + 1 == n then 0 else i + 1
  }

  function Edges(ring: seq<Point>): (es: seq<Edge>)
    ensures |es| == |ring|
  {
    seq(|ring|, i requires 0 <= i < |ring| => Edge(ring[i], ring[Next(i, |ring|)]))
  }

  function Flip(e: Edge): Edge { Edge(e.b, e.a) }

  // ---- Edges under a change of start or direction ------------------------------------

  lemma EdgesRotate(ring: seq<Point>, k: nat)
    requires k <= |ring|
    ensures Edges(Rotate(ring, k)) == Rotate(Edges(ring), k)
  {
    var n := |ring|;
    forall i | 0 <= i < n ensures Edges(Rotate(ring, k))[i] == Rotate(Edges(ring), k)[i] {
      if i < n - k {
        assert Rotate(ring, k)[i] == ring[k + i];
      }
    }
  }

  /** Walking the ring backwards visits the same edges, each flipped. */
  lemma EdgeReverse(ring: seq<Point>, i: nat)
    requires i < |ring|
    ensures Edges(Reverse(ring))[i] == Flip(Edges(ring)[if i == |ring| - 1 then i else |ring| - 2 - i])
  {
  }

  lemma EdgesReverse(ring: seq<Point>)
    requires ring != []
    ensures multiset(Edges(Reverse(ring))) == multiset(Map(Flip, Edges(ring)))
  {
    var n := |ring|;
    var flipped := Map(Flip, Edges(ring));
    var back := Edges(Reverse(ring));
    forall i | 0 <= i < n - 1 ensures back[i] == flipped[n - 2 - i] {
      EdgeReverse(ring, i);
    }
    EdgeReverse(ring, n - 1);
    assert back[..n - 1] == Reverse(flipped[..n - 1]);
    assert back == back[..n - 1] + [flipped[n - 1]];
    assert flipped == flipped[..n - 1] + [flipped[n - 1]];
    ReverseMultiset(flipped[..n - 1]);
  }

  /** A measure of the edges that ignores their direction is a measure of the ring. */
  lemma CountOfRing(ring: seq<Point>, k: nat, p: Edge -> bool)
    requires k <= |ring|
    requires forall e {:trigger Flip(e)} :: p(Flip(e)) == p(e)
    ensures Count(Edges(Rotate(ring, k)), p) == Count(Edges(ring), p)
    ensures Count(Edges(Reverse(ring)), p) == Count(Edges(ring), p)
  {
    EdgesRotate(ring, k);
    RotateMultiset(Edges(ring), k);
    CountPermutes(Edges(Rotate(ring, k)), Edges(ring), p);
    if ring == [] {
      assert Reverse(ring) == ring;
    } else {
      EdgesReverse(ring);
      CountPermutes(Edges(Reverse(ring)), Map(Flip, Edges(ring)), p);
      CountMap(Edges(ring), Flip, p, p);
    }
  }

  /** A sum over the edges keeps its value from another starting corner. */
  lemma SumRotated(ring: seq<Point>, k: nat, f: Edge -> real)
    requires k <= |ring|
    ensures Sum(Edges(Rotate(ring, k)), f) == Sum(Edges(ring), f)
  {
    EdgesRotate(ring, k);
    RotateMultiset(Edges(ring), k);
    SumPermutes(Edges(Rotate(ring, k)), Edges(ring), f);
  }

  /** It changes sign backwards, when flipping an edge changes the sign of its term. */
  lemma SumReversed(ring: seq<Point>, f: Edge -> real)
    requires forall e {:trigger Flip(e)} :: f(Flip(e)) == -f(e)
    ensures Sum(Edges(Reverse(ring)), f) == -Sum(Edges(ring), f)
  {
    if ring == [] {
      assert Reverse(ring) == ring;
    } else {
      EdgesReverse(ring);
      SumPermutes(Edges(Reverse(ring)), Map(Flip, Edges(ring)), f);
      SumMap(Edges(ring), Flip, f, f, -1.0);
    }
  }

  // ---- A closed ring changes side an even number of times -----------------------------

  /** The edges that satisfy q are those at which p changes. */
  ghost predicate MarksChanges(q: Edge -> bool, p: Point -> bool) {
    forall e :: q(e) <==> p(e.a) != p(e.b)
  }

  lemma {:induction false} PathParity(ring: seq<Point>, k: nat, p: Point -> bool, q: Edge -> bool)
    requires k < |ring| && MarksChanges(q, p)
    ensures Count(Edges(ring)[..k], q) % 2 == if p(ring[0]) != p(ring[k]) then 1 else 0
  {
    if k > 0 {
      PathParity(ring, k - 1, p, q);
      assert Edges(ring)[..k][..k - 1] == Edges(ring)[..k - 1];
      assert Edges(ring)[..k][k - 1] == Edge(ring[k - 1], ring[k]);
    }
  }

  /** Round a closed ring any yes-or-no property of the corners changes an even number of times. */
  lemma RingParity(ring: seq<Point>, p: Point -> bool, q: Edge -> bool)
    requires MarksChanges(q, p)
    ensures Count(Edges(ring), q) % 2 == 0
  {
    if ring != [] {
      var n := |ring|;
      PathParity(ring, n - 1, p, q);
      assert Edges(ring)[n - 1] == Edge(ring[n - 1], ring[0]);
    }
  }

  /** A property that holds at one corner and fails at another changes at least twice. */
  lemma ChangesTwice(ring: seq<Point>, p: Point -> bool, q: Edge -> bool, i: nat, j: nat)
    requires MarksChanges(q, p)
    requires i < |ring| && j < |ring| && p(ring[i]) && !p(ring[j])
    ensures Count(Edges(ring), q) >= 2
  {
    RingParity(ring, p, q);
    if Count(Edges(ring), q) == 0 {
      NoChange(ring, i, p, q);
      NoChange(ring, j, p, q);
    }
  }

  lemma NoChange(ring: seq<Point>, k: nat, p: Point -> bool, q: Edge -> bool)
    requires MarksChanges(q, p)
    requires k < |ring| && Count(Edges(ring), q) == 0
    ensures p(ring[k]) == p(ring[0])
  {
    PathParity(ring, k, p, q);
    CountPrefix(Edges(ring), k, q);
  }
}
