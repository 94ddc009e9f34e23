/**
 * The point quadtree: a node holds up to `size` points of its boundary box;
 * when it is full it divides lazily into four quarter-size children and
 * passes further points to them; range queries prune by box overlap.
 *
 * A node owns its four boxed children exclusively, so the tree is a value:
 * the operations that update a node in place return the updated node.
 */
module QuadTree {
  import opened Wrappers
  import opened Geometry
  import opened Bounds
  import opened Config

  /** The four children, in the order in which `insert` and `query` visit them. */
  datatype Quadrant = NorthEast | NorthWest | SouthEast | SouthWest

  /**
   * The boundary `subdivide` gives each child: half the parent's
   * half-extents, centred at the four diagonal offsets of the parent's centre.
   */
  function ChildBoundary(b: Rect, q: Quadrant): Rect
  {
    var w, h := b.width / 2.0, b.height / 2.0;
    var x, y := b.pos.x, b.pos.y;
    match q
    case NorthEast => Rect(Vec2(x - w, y - h), w, h)
    case NorthWest => Rect(Vec2(x + w, y - h), w, h)
    case SouthEast => Rect(Vec2(x - w, y + h), w, h)
    case SouthWest => Rect(Vec2(x + w, y + h), w, h)
  }

  /**
   * The child that receives a point `insert` passes down: the first of
   * NE, NW, SE, SW whose box holds it. Over exact reals the four closed
   * child boxes cover the parent's box, so there always is one.
   */
  function CoveringQuadrant<D>(b: Rect, p: Point<D>): (q: Quadrant)
    requires b.Contains(p)
    ensures ChildBoundary(b, q).Contains(p)
    ensures forall q' :: Index(q') < Index(q) ==> !ChildBoundary(b, q').Contains(p)
  {
    if ChildBoundary(b, NorthEast).Contains(p) then NorthEast
    else if ChildBoundary(b, NorthWest).Contains(p) then NorthWest
    else if ChildBoundary(b, SouthEast).Contains(p) then SouthEast
    else SouthWest
  }

  /**
   * Each child box lies inside its parent's (a box with a negative
   * half-extent contains no point, and neither do its children).
   */
  lemma ChildInsideParent<D>(b: Rect, q: Quadrant, p: Point<D>)
    requires ChildBoundary(b, q).Contains(p)
    ensures b.Contains(p)
  {
  }

  /** The points of `s` that `rect` contains, in their order in `s`. */
  function Matching<D>(rect: Rect, s: seq<Point<D>>): seq<Point<D>>
  {
    if s == [] then []
    else
      var last := s[|s| - 1];
      Matching(rect, s[..|s| - 1]) + if rect.Contains(last) then [last] else []
  }

  lemma {:induction false} MatchingConcat<D>(rect: Rect, a: seq<Point<D>>, b: seq<Point<D>>)
    ensures Matching(rect, a + b) == Matching(rect, a) + Matching(rect, b)
  {
    if b != [] {
      assert (a + b)[..|a + b| - 1] == a + b[..|b| - 1];
      MatchingConcat(rect, a, b[..|b| - 1]);
    } else {
      assert a + b == a;
    }
  }

  /** A query keeps each contained point as many times as it is stored, and no other. */
  lemma {:induction false} MatchingCount<D>(rect: Rect, s: seq<Point<D>>, p: Point<D>)
    ensures multiset(Matching(rect, s))[p] == if rect.Contains(p) then multiset(s)[p] else 0
  {
    if s != [] {
      var init := s[..|s| - 1];
      MatchingCount(rect, init, p);
      assert s == init + [s[|s| - 1]];
    }
  }

  /** No point of `s` in `rect`: the query is empty. */
  lemma {:induction false} MatchingNone<D>(rect: Rect, s: seq<Point<D>>)
    requires forall p :: p in s ==> !rect.Contains(p)
    ensures Matching(rect, s) == []
  {
    if s != [] {
      var init := s[..|s| - 1];
      assert forall p :: p in init ==> p in s;
      MatchingNone(rect, init);
    }
  }

  /** Every point of `s` in `rect`: the query returns `s` itself. */
  lemma {:induction false} MatchingAll<D>(rect: Rect, s: seq<Point<D>>)
    requires forall p :: p in s ==> rect.Contains(p)
    ensures Matching(rect, s) == s
  {
    if s != [] {
      var init := s[..|s| - 1];
      assert forall p :: p in init ==> p in s;
      MatchingAll(rect, init);
      assert s == init + [s[|s| - 1]];
    }
  }

  /**
   * A node: the four optional children, the centre, the capacity, the
   * node's own points, its boundary and whether it is divided. The children
   * of an undivided node are left over from before a `Clear`; they are not
   * part of the tree.
   */
  datatype QTree<D> = QTree(
    northeast: Option<QTree<D>>,
    northwest: Option<QTree<D>>,
    southeast: Option<QTree<D>>,
    southwest: Option<QTree<D>>,
    center: Vec2,
    size: nat,
    points: seq<Point<D>>,
    boundary: Rect,
    isDivided: bool)

  /** The child in quadrant `q`. */
  function Child<D>(t: QTree<D>, q: Quadrant): Option<QTree<D>>
  {
    match q
    case NorthEast => t.northeast
    case NorthWest => t.northwest
    case SouthEast => t.southeast
    case SouthWest => t.southwest
  }

  /** The node is divided and has all four children. */
  predicate HasChildren<D>(t: QTree<D>)
  {
    t.isDivided && t.northeast.Some? && t.northwest.Some? && t.southeast.Some? && t.southwest.Some?
  }

  /**
   * Every point stored in the tree, in the order `query` reports them:
   * the node's own points, then those of NE, NW, SE and SW.
   */
  function Contents<D>(t: QTree<D>): seq<Point<D>>
  {
    if HasChildren(t) then
      t.points + Contents(t.northeast.value) + Contents(t.northwest.value) +
      Contents(t.southeast.value) + Contents(t.southwest.value)
    else t.points
  }

  /**
   * How many levels `Insert` may still descend from the node: a divided
   * node is one above its deepest child, a full undivided node is about to
   * divide, and any other node takes the point itself.
   */
  function Rank<D>(t: QTree<D>): nat
  {
    if HasChildren(t) then
      1 + MaxNat(MaxNat(Rank(t.northeast.value), Rank(t.northwest.value)),
                 MaxNat(Rank(t.southeast.value), Rank(t.southwest.value)))
    else if |t.points| >= t.size then 1
    else 0
  }

  function MaxNat(a: nat, b: nat): nat
  {
    if a <= b then b else a
  }

  /** Child `c` has the box and the capacity `subdivide` gives quadrant `q` of `t`. */
  predicate ChildFits<D>(t: QTree<D>, c: QTree<D>, q: Quadrant)
  {
    c.boundary == ChildBoundary(t.boundary, q) && c.size == t.size
  }

  /**
   * The node invariant: the boundary is centred at `center`, the node's own
   * points lie inside the boundary and never exceed the capacity, and a
   * divided node is full and has four valid children with the quarter boxes.
   */
  ghost predicate Valid<D>(t: QTree<D>)
  {
    t.boundary.pos == t.center &&
    |t.points| <= t.size &&
    (forall p :: p in t.points ==> t.boundary.Contains(p)) &&
    (t.isDivided ==>
      HasChildren(t) && |t.points| == t.size &&
      ChildFits(t, t.northeast.value, NorthEast) && ChildFits(t, t.northwest.value, NorthWest) &&
      ChildFits(t, t.southeast.value, SouthEast) && ChildFits(t, t.southwest.value, SouthWest) &&
      Valid(t.northeast.value) && Valid(t.northwest.value) &&
      Valid(t.southeast.value) && Valid(t.southwest.value))
  }

  /** Every point stored anywhere in a valid tree lies inside the root's boundary. */
  lemma {:induction false} ContentsInBoundary<D>(t: QTree<D>)
    requires Valid(t)
    ensures forall p :: p in Contents(t) ==> t.boundary.Contains(p)
  {
    if HasChildren(t) {
      forall q: Quadrant
        ensures forall p :: p in Contents(Child(t, q).value) ==> t.boundary.Contains(p)
      {
        var c := Child(t, q).value;
        ContentsInBoundary(c);
        forall p | p in Contents(c)
          ensures t.boundary.Contains(p)
        {
          ChildInsideParent(t.boundary, q, p);
        }
      }
      assert forall p :: p in Contents(t) ==>
        p in t.points || p in Contents(Child(t, NorthEast).value) || p in Contents(Child(t, NorthWest).value) ||
        p in Contents(Child(t, SouthEast).value) || p in Contents(Child(t, SouthWest).value);
    }
  }

  /** `QTree::new`: an empty undivided node with no children. */
  function New<D>(center: Vec2, size: nat, width: real, height: real): (t: QTree<D>)
    ensures Valid(t) && Contents(t) == []
    ensures t.boundary == Rect(center, width, height) && t.center == center && t.size == size
    ensures t.points == [] && !t.isDivided
    ensures t.northeast.None? && t.northwest.None? && t.southeast.None? && t.southwest.None?
  {
    QTree(None, None, None, None, center, size, [], Rect(center, width, height), false)
  }

  /** `c` is a new empty undivided child for quadrant `q` of `t`. */
  predicate EmptyChild<D>(t: QTree<D>, c: Option<QTree<D>>, q: Quadrant)
  {
    c.Some? && ChildFits(t, c.value, q) && c.value.center == c.value.boundary.pos &&
    c.value.points == [] && !c.value.isDivided
  }

  /**
   * Marks a full node divided and gives it four new empty children with
   * the quarter boxes; only `Insert` calls it, on a full undivided node.
   */
  function Subdivide<D>(t: QTree<D>): (r: QTree<D>)
    requires Valid(t) && !t.isDivided && |t.points| == t.size
    ensures Valid(r) && HasChildren(r) && Contents(r) == Contents(t)
    ensures t.size >= 1 ==> Rank(r) == 1
    ensures r.boundary == t.boundary && r.center == t.center && r.size == t.size && r.points == t.points
    ensures forall q :: EmptyChild(t, Child(r, q), q)
  {
    var x := t.boundary.pos.x;
    var y := t.boundary.pos.y;
    var w := t.boundary.width / 2.0;
    var h := t.boundary.height / 2.0;
    var r := t.(
      isDivided := true,
      northeast := Some(New(Vec2(x - w, y - h), t.size, w, h)),
      northwest := Some(New(Vec2(x + w, y - h), t.size, w, h)),
      southeast := Some(New(Vec2(x - w, y + h), t.size, w, h)),
      southwest := Some(New(Vec2(x + w, y + h), t.size, w, h)));
    assert Contents(r) == t.points;
    r
  }

  /** `t` with the child of quadrant `q` replaced by `c`. */
  function WithChild<D>(t: QTree<D>, q: Quadrant, c: QTree<D>): QTree<D>
  {
    match q
    case NorthEast => t.(northeast := Some(c))
    case NorthWest => t.(northwest := Some(c))
    case SouthEast => t.(southeast := Some(c))
    case SouthWest => t.(southwest := Some(c))
  }

  /**
   * Replacing a child of a valid divided node by a valid child with the
   * same box that holds one more point `p` keeps the node valid and adds
   * exactly `p` to the node's stored points.
   */
  lemma ReplaceChild<D>(t: QTree<D>, q: Quadrant, c: QTree<D>, p: Point<D>)
    requires Valid(t) && HasChildren(t)
    requires Valid(c) && ChildFits(t, c, q)
    requires multiset(Contents(c)) == multiset(Contents(Child(t, q).value)) + multiset{p}
    ensures Valid(WithChild(t, q, c)) && HasChildren(WithChild(t, q, c))
    ensures multiset(Contents(WithChild(t, q, c))) == multiset(Contents(t)) + multiset{p}
  {
    var ne, nw, se, sw := Contents(t.northeast.value), Contents(t.northwest.value),
      Contents(t.southeast.value), Contents(t.southwest.value);
    var r := WithChild(t, q, c);
    assert Contents(t) == t.points + ne + nw + se + sw;
    match q
    case NorthEast =>
      assert Contents(r) == t.points + Contents(c) + nw + se + sw;
    case NorthWest =>
      assert Contents(r) == t.points + ne + Contents(c) + se + sw;
    case SouthEast =>
      assert Contents(r) == t.points + ne + nw + Contents(c) + sw;
    case SouthWest =>
      assert Contents(r) == t.points + ne + nw + se + Contents(c);
  }

  /** The position of a quadrant in the order NE, NW, SE, SW. */
  function Index(q: Quadrant): nat
  {
    match q
    case NorthEast => 0
    case NorthWest => 1
    case SouthEast => 2
    case SouthWest => 3
  }

  /** The quadrant after `q` in the order NE, NW, SE, SW. */
  function Next(q: Quadrant): (n: Quadrant)
    requires q != SouthWest
    ensures Index(n) == Index(q) + 1
  {
    match q
    case NorthEast => NorthWest
    case NorthWest => SouthEast
    case SouthEast => SouthWest
  }

  /**
   * A full node as `insert` descends into it: divided first if it is not
   * yet. Each child is valid with its quarter box and the node's capacity.
   */
  function Divided<D>(t: QTree<D>): (s: QTree<D>)
    requires Valid(t) && |t.points| == t.size
    ensures Valid(s) && HasChildren(s) && Contents(s) == Contents(t)
    ensures s.boundary == t.boundary && s.center == t.center && s.size == t.size && s.points == t.points
    ensures t.size >= 1 ==> Rank(s) == Rank(t)
    ensures t.isDivided ==> s == t
    ensures forall q :: Valid(Child(s, q).value) && ChildFits(s, Child(s, q).value, q)
  {
    if !t.isDivided then Subdivide(t) else t
  }

  /**
   * `insert`: a point outside the boundary is refused and nothing changes;
   * otherwise it is appended to the node's own points while there is room,
   * and else passed to the first child (NE, NW, SE, SW) that accepts it,
   * dividing first if needed. Over exact reals the children cover the
   * node's box, so every point of the boundary is accepted. Capacity 0 is
   * excluded: each new child would be full at once and the descent would
   * never end.
   */
  function Insert<D>(t: QTree<D>, p: Point<D>): (r: (QTree<D>, bool))
    requires Valid(t) && t.size >= 1
    ensures Valid(r.0) && r.0.boundary == t.boundary && r.0.center == t.center && r.0.size == t.size
    ensures r.1 == t.boundary.Contains(p)
    ensures multiset(Contents(r.0)) == multiset(Contents(t)) + if r.1 then multiset{p} else multiset{}
    ensures !r.1 ==> r.0 == t
    ensures r.1 && |t.points| < t.size ==> r.0 == t.(points := t.points + [p])
    ensures r.1 && |t.points| == t.size ==> r.0.points == t.points && HasChildren(r.0)
    decreases Rank(t), 5
  {
    if !t.boundary.Contains(p) then (t, false)
    else if |t.points| < t.size then
      (t.(points := t.points + [p]), true)
    else
      (InsertFrom(Divided(t), p, NorthEast), true)
  }

  /**
   * The descent of `insert` into a divided node: the children from
   * quadrant `q` on are offered `p` in turn, and the first that accepts it
   * is replaced by its updated self. The covering child is not before `q`,
   * so some child accepts.
   */
  function InsertFrom<D>(s: QTree<D>, p: Point<D>, q: Quadrant): (r: QTree<D>)
    requires Valid(s) && HasChildren(s) && s.size >= 1 && s.boundary.Contains(p)
    requires Index(q) <= Index(CoveringQuadrant(s.boundary, p))
    ensures Valid(r) && HasChildren(r) && multiset(Contents(r)) == multiset(Contents(s)) + multiset{p}
    ensures r.boundary == s.boundary && r.center == s.center && r.size == s.size && r.points == s.points
    decreases Rank(s), 4 - Index(q)
  {
    var (c, accepted) := Insert(Child(s, q).value, p);
    if accepted then
      ReplaceChild(s, q, c, p);
      WithChild(s, q, c)
    else if q == SouthWest then
      assert false; s
    else
      InsertFrom(s, p, Next(q))
  }

  /**
   * The child that takes the point in the descent is the covering one: the
   * children before it refuse the point, since their boxes miss it; the
   * other three children stay as they were. (The first clause, that each
   * child is valid with its quarter box, is what lets the second apply
   * `Insert` to the covering child.)
   */
  lemma {:induction false} InsertFromRoutes<D>(s: QTree<D>, p: Point<D>, q: Quadrant)
    requires Valid(s) && HasChildren(s) && s.size >= 1 && s.boundary.Contains(p)
    requires Index(q) <= Index(CoveringQuadrant(s.boundary, p))
    ensures forall q' :: Valid(Child(s, q').value) && ChildFits(s, Child(s, q').value, q')
    ensures
      var cq := CoveringQuadrant(s.boundary, p);
      InsertFrom(s, p, q) == WithChild(s, cq, Insert(Child(s, cq).value, p).0)
    decreases 4 - Index(q)
  {
    forall q' ensures Valid(Child(s, q').value) && ChildFits(s, Child(s, q').value, q') {
      match q'
      case NorthEast =>
      case NorthWest =>
      case SouthEast =>
      case SouthWest =>
    }
    var (c, accepted) := Insert(Child(s, q).value, p);
    if accepted {
      assert Child(s, q).value.boundary == ChildBoundary(s.boundary, q);
    } else {
      assert q != SouthWest;
      InsertFromRoutes(s, p, Next(q));
    }
  }

  /**
   * Where `insert` puts a point a full node cannot hold: the node is
   * divided first if it is not yet, then the first child in NE, NW, SE, SW
   * order whose box holds the point takes it, and the other three children
   * and the node's own points stay as they were.
   */
  lemma InsertRoutes<D>(t: QTree<D>, p: Point<D>)
    requires Valid(t) && t.size >= 1 && t.boundary.Contains(p) && |t.points| == t.size
    ensures
      var s, cq := Divided(t), CoveringQuadrant(t.boundary, p);
      Insert(t, p).0 == WithChild(s, cq, Insert(Child(s, cq).value, p).0)
  {
    InsertFromRoutes(Divided(t), p, NorthEast);
  }

  /**
   * `query`: the stored points that `rect` contains, the node's own
   * matches first, then those of NE, NW, SE and SW; a node whose boundary
   * misses `rect` is skipped with everything below it.
   */
  method Query<D>(t: QTree<D>, rect: Rect) returns (found: seq<Point<D>>)
    requires Valid(t)
    ensures found == Matching(rect, Contents(t))
    ensures !t.boundary.IntersectsR(rect) ==> found == []
    decreases t
  {
    if !t.boundary.IntersectsR(rect) {
      ContentsInBoundary(t);
      forall p | p in Contents(t)
        ensures !rect.Contains(p)
      {
        if rect.Contains(p) {
          CommonPointIntersects(t.boundary, rect, p);
        }
      }
      MatchingNone(rect, Contents(t));
      return [];
    }
    found := [];
    var i := 0;
    while i < |t.points|
      invariant 0 <= i <= |t.points|
      invariant found == Matching(rect, t.points[..i])
    {
      var p := t.points[i];
      if rect.Contains(p) {
        found := found + [p];
      }
      assert t.points[..i + 1][..i] == t.points[..i];
      i := i + 1;
    }
    assert t.points[..i] == t.points;
    if t.isDivided {
      var ne := Query(t.northeast.value, rect);
      var nw := Query(t.northwest.value, rect);
      var se := Query(t.southeast.value, rect);
      var sw := Query(t.southwest.value, rect);
      var a, b, c, d := Contents(t.northeast.value), Contents(t.northwest.value),
        Contents(t.southeast.value), Contents(t.southwest.value);
      MatchingConcat(rect, t.points + a + b + c, d);
      MatchingConcat(rect, t.points + a + b, c);
      MatchingConcat(rect, t.points + a, b);
      MatchingConcat(rect, t.points, a);
      found := found + ne + nw + se + sw;
    }
  }

  /**
   * `clear`: the node and, if it is divided, its four children are emptied
   * and marked undivided. The emptied children stay attached; the next
   * division replaces them.
   */
  function Clear<D>(t: QTree<D>): (r: QTree<D>)
    requires Valid(t)
    ensures Valid(r) && Contents(r) == [] && r.points == [] && !r.isDivided
    ensures r.boundary == t.boundary && r.center == t.center && r.size == t.size
    ensures forall q :: Child(r, q).Some? == Child(t, q).Some?
    decreases t
  {
    if t.isDivided then
      t.(points := [], isDivided := false,
         northeast := Some(Clear(t.northeast.value)), northwest := Some(Clear(t.northwest.value)),
         southeast := Some(Clear(t.southeast.value)), southwest := Some(Clear(t.southwest.value)))
    else t.(points := [])
  }

  /** Clearing a cleared tree changes nothing. */
  lemma ClearIdempotent<D>(t: QTree<D>)
    requires Valid(t)
    ensures Clear(Clear(t)) == Clear(t)
  {
  }

  /** After `clear` every query is empty. */
  lemma QueryAfterClear<D>(t: QTree<D>, rect: Rect)
    requires Valid(t)
    ensures Matching(rect, Contents(Clear(t))) == []
  {
  }

  /**
   * A query returns each stored point that `rect` contains exactly as many
   * times as it is stored, and nothing else.
   */
  lemma QueryCounts<D>(t: QTree<D>, rect: Rect, p: Point<D>)
    ensures multiset(Matching(rect, Contents(t)))[p] == if rect.Contains(p) then multiset(Contents(t))[p] else 0
  {
    MatchingCount(rect, Contents(t), p);
  }

  /** A point accepted by `insert` is found by every query whose box holds it. */
  lemma InsertThenQuery<D>(t: QTree<D>, p: Point<D>, rect: Rect)
    requires Valid(t) && t.size >= 1 && t.boundary.Contains(p) && rect.Contains(p)
    ensures Insert(t, p).1
    ensures p in Matching(rect, Contents(Insert(t, p).0))
  {
    var r := Insert(t, p).0;
    MatchingCount(rect, Contents(r), p);
    assert multiset(Contents(r))[p] >= 1;
    assert multiset(Matching(rect, Contents(r)))[p] >= 1;
  }

  /** Inserting into a node with room and then clearing gives the same as clearing alone. */
  lemma InsertThenClear<D>(t: QTree<D>, p: Point<D>)
    requires Valid(t) && t.size >= 1 && |t.points| < t.size
    ensures Clear(Insert(t, p).0) == Clear(t)
  {
  }

  /**
   * The map's tree: centred at the origin, capacity 4, half-extents half
   * the window's size (400 by 300).
   */
  function MapTree<D>(): (t: QTree<D>)
    ensures Valid(t) && t.size == 4 && Contents(t) == []
    ensures t.boundary == Rect(Vec2(0.0, 0.0), 400.0, 300.0)
  {
    New(Vec2(0.0, 0.0), 4, WIDTH as real / 2.0, HEIGHT as real / 2.0)
  }

  /** The five points of the scenario below: (0,0) to (4,0) on the x-axis. */
  function Row<D>(data: D): (ps: seq<Point<D>>)
    ensures |ps| == 5 && forall p :: p in ps ==> MapTree<D>().boundary.Contains(p)
  {
    [Point(Vec2(0.0, 0.0), data), Point(Vec2(1.0, 0.0), data), Point(Vec2(2.0, 0.0), data),
     Point(Vec2(3.0, 0.0), data), Point(Vec2(4.0, 0.0), data)]
  }

  /** The first four points of the row fill the root without dividing it. */
  lemma FirstFour<D>(data: D)
    ensures
      var ps, t0 := Row(data), MapTree<D>();
      Insert(Insert(Insert(Insert(t0, ps[0]).0, ps[1]).0, ps[2]).0, ps[3]).0 == t0.(points := ps[..4])
  {
    var ps, t0 := Row(data), MapTree<D>();
    var t1 := Insert(t0, ps[0]).0;
    assert t1 == t0.(points := ps[..1]);
    var t2 := Insert(t1, ps[1]).0;
    assert t2 == t0.(points := ps[..2]);
    var t3 := Insert(t2, ps[2]).0;
    assert t3 == t0.(points := ps[..3]);
  }

  /**
   * The fifth point divides the full root, and a query over the root's box
   * returns each of the five points exactly once.
   */
  lemma FifthDivides<D>(data: D)
    ensures
      var ps, t0 := Row(data), MapTree<D>();
      var t4 := t0.(points := ps[..4]);
      Valid(t4) &&
      var (t5, accepted) := Insert(t4, ps[4]);
      accepted && t5.isDivided && t5.points == ps[..4] &&
      multiset(Matching(t0.boundary, Contents(t5))) == multiset(ps)
  {
    var ps, t0 := Row(data), MapTree<D>();
    var t4 := t0.(points := ps[..4]);
    assert forall p :: p in ps[..4] ==> p in ps;
    var t5 := Insert(t4, ps[4]).0;
    assert ps == ps[..4] + [ps[4]];
    ContentsInBoundary(t5);
    MatchingAll(t0.boundary, Contents(t5));
  }
}
