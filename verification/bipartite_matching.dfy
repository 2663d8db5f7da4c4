/**
 The maximum bipartite matching behind the unordered-elements matcher: a
 Ford-Fulkerson search that updates its two assignment vectors in place.

 Maximality is proved with a set of "dead" matchers that failed searches leave
 behind.  The set is closed under alternating paths and contains no free
 matcher, so no later augmentation touches it; together with the elements
 matched outside it, it is a vertex cover of the size of the matching.
 */
module BipartiteMatching {
  import opened Common

  /** The value no index takes; marks an unmatched node. */
  const UNUSED := -1

  /** The offset of an entry in element-major order. */
  function SpaceIndex(matchers: nat, l: nat, r: nat): nat {
    l * matchers + r
  }

  /** The connectivity matrix, stored flat in element-major order. */
  datatype MatchMatrix = MatchMatrix(elements: nat, matchers: nat, matched: seq<bool>) {
    ghost predicate Valid() {
      |matched| == elements * matchers
    }

    predicate HasEdge(l: nat, r: nat)
      requires Valid()
      requires l < elements && r < matchers
    {
      SpaceIndexInRange(elements, matchers, l, r);
      matched[SpaceIndex(matchers, l, r)]
    }

    function SetEdge(l: nat, r: nat, b: bool): (g: MatchMatrix)
      requires Valid()
      requires l < elements && r < matchers
      ensures g.Valid() && g.elements == elements && g.matchers == matchers && g.HasEdge(l, r) == b
    {
      SpaceIndexInRange(elements, matchers, l, r);
      MatchMatrix(elements, matchers, matched[SpaceIndex(matchers, l, r) := b])
    }
  }

  lemma SpaceIndexInRange(elements: nat, matchers: nat, l: nat, r: nat)
    requires l < elements && r < matchers
    ensures 0 <= SpaceIndex(matchers, l, r) < elements * matchers
  {
    assert l * matchers + matchers == (l + 1) * matchers <= elements * matchers;
  }

  lemma SpaceIndexInjective(matchers: nat, i: nat, j: nat, l: nat, r: nat)
    requires j < matchers && r < matchers && i < l
    ensures SpaceIndex(matchers, i, j) < SpaceIndex(matchers, l, r)
  {
    assert l * matchers == i * matchers + (l - i) * matchers;
    TimesAtLeast(l - i, matchers);
  }

  /** Setting one edge leaves every other one alone. */
  lemma SetEdgeElsewhere(g: MatchMatrix, l: nat, r: nat, b: bool, i: nat, j: nat)
    requires g.Valid() && l < g.elements && r < g.matchers && i < g.elements && j < g.matchers
    requires i != l || j != r
    ensures g.SetEdge(l, r, b).HasEdge(i, j) == g.HasEdge(i, j)
  {
    SpaceIndexInRange(g.elements, g.matchers, i, j);
    if i < l {
      SpaceIndexInjective(g.matchers, i, j, l, r);
    } else if l < i {
      SpaceIndexInjective(g.matchers, l, r, i, j);
    }
  }

  /** Initially there are no edges. */
  function NoEdges(elements: nat, matchers: nat): (g: MatchMatrix)
    ensures g.Valid() && g.elements == elements && g.matchers == matchers
  {
    MatchMatrix(elements, matchers, seq(elements * matchers, _ => false))
  }

  lemma NoEdgesAnywhere(elements: nat, matchers: nat, l: nat, r: nat)
    requires l < elements && r < matchers
    ensures !NoEdges(elements, matchers).HasEdge(l, r)
  {
    SpaceIndexInRange(elements, matchers, l, r);
  }

  // ---------------------------------------------------------------------
  // Matchings, as a set of pairs and as two assignment vectors
  // ---------------------------------------------------------------------

  type Pair = (nat, nat)

  /** A matching: edges of the graph, no two of which share a node. */
  ghost predicate IsMatching(g: MatchMatrix, m: set<Pair>)
    requires g.Valid()
  {
    && (forall e | e in m :: e.0 < g.elements && e.1 < g.matchers && g.HasEdge(e.0, e.1))
    && (forall e, f | e in m && f in m && (e.0 == f.0 || e.1 == f.1) :: e == f)
  }

  /** Every matcher r has its own accepted element owner[r]. */
  ghost predicate IsPairing(g: MatchMatrix, owner: seq<nat>)
    requires g.Valid()
  {
    && |owner| == g.matchers
    && (forall r | 0 <= r < |owner| :: owner[r] < g.elements && g.HasEdge(owner[r], r))
    && (forall r, s | 0 <= r < s < |owner| :: owner[r] != owner[s])
  }

  /** Both vectors refer to each other along edges, except that the entry of
      `right` at `hole` may be stale. */
  ghost predicate MutualExcept(g: MatchMatrix, left: seq<int>, right: seq<int>, hole: int)
    requires g.Valid()
  {
    && |left| == g.elements && |right| == g.matchers
    && (forall l | 0 <= l < |left| ::
          left[l] == UNUSED
          || (0 <= left[l] < |right| && right[left[l]] == l && g.HasEdge(l, left[l])))
    && (forall r | 0 <= r < |right| ::
          right[r] == UNUSED
          || (0 <= right[r] < |left| && (r == hole || left[right[r]] == r)))
  }

  ghost predicate Mutual(g: MatchMatrix, left: seq<int>, right: seq<int>)
    requires g.Valid()
  {
    MutualExcept(g, left, right, UNUSED)
  }

  ghost predicate NeighborsIn(g: MatchMatrix, l: nat, s: set<int>)
    requires g.Valid() && l < g.elements
  {
    forall r | 0 <= r < g.matchers && g.HasEdge(l, r) :: r in s
  }

  /** Every matcher of s is taken, by an element all of whose edges lead back into s. */
  ghost predicate Closed(g: MatchMatrix, right: seq<int>, s: set<int>)
    requires g.Valid()
  {
    forall r | r in s ::
      && 0 <= r < |right| && 0 <= right[r] < g.elements
      && NeighborsIn(g, right[r], s)
  }

  ghost function Marked(seen: seq<bool>): set<int> {
    set r | 0 <= r < |seen| && seen[r]
  }

  ghost function Unmarked(seen: seq<bool>): set<int> {
    set r | 0 <= r < |seen| && !seen[r]
  }

  /** What a failed search leaves: the marks added since `before` are matchers
      taken by elements whose every edge is marked. */
  ghost predicate MarksClosed(g: MatchMatrix, right: seq<int>, before: seq<bool>, after: seq<bool>)
    requires g.Valid() && |before| == |after| == |right|
  {
    forall r | 0 <= r < |after| && after[r] && !before[r] ::
      0 <= right[r] < g.elements && NeighborsIn(g, right[r], Marked(after))
  }

  ghost predicate MarksKept(before: seq<bool>, after: seq<bool>) {
    |before| == |after| && forall r | 0 <= r < |before| && before[r] :: after[r]
  }

  /** What a successful search from `l` leaves: `l` becomes matched, nobody else
      gains or loses a partner, and what was marked or dead is not reassigned. */
  ghost predicate Augmented(g: MatchMatrix, l: nat, left: seq<int>, right: seq<int>,
                            left': seq<int>, right': seq<int>, seen: seq<bool>, dead: set<int>)
    requires g.Valid() && |left| == g.elements && |right| == |seen| == g.matchers && l < g.elements
  {
    && MutualExcept(g, left', right', left[l])
    && left'[l] != UNUSED && left'[l] != left[l]
    && (forall k | 0 <= k < |left| && k != l :: left'[k] == UNUSED <==> left[k] == UNUSED)
    && (forall r | 0 <= r < |right| && right[r] != UNUSED :: right'[r] != UNUSED)
    && (forall r | 0 <= r < |right| && (seen[r] || r in dead) :: right'[r] == right[r])
    && (forall k | 0 <= k < |left| && k != l && 0 <= left[k] < |seen| && seen[left[k]] ::
          left'[k] == left[k])
  }

  /** A search that has reached a free matcher links it. */
  lemma LinkFree(g: MatchMatrix, l: nat, r: nat, left: seq<int>, right: seq<int>,
                 seen: seq<bool>, dead: set<int>)
    requires g.Valid() && Mutual(g, left, right) && Closed(g, right, dead)
    requires l < g.elements && r < g.matchers == |seen| && g.HasEdge(l, r) && !seen[r]
    requires left[l] == UNUSED || seen[left[l]]
    requires right[r] == UNUSED
    ensures Augmented(g, l, left, right, left[l := r], right[r := l], seen, dead)
    ensures r !in dead && exists path :: AugmentingPath(g, right, l, path)
  {
    assert AugmentingPath(g, right, l, [r]);
  }

  /** A search whose nested search has moved the owner of `r` elsewhere takes `r` over. */
  lemma LinkMoved(g: MatchMatrix, l: nat, r: nat, left: seq<int>, right: seq<int>,
                  left': seq<int>, right': seq<int>, before: seq<bool>, seen: seq<bool>, dead: set<int>)
    requires g.Valid() && Mutual(g, left, right)
    requires l < g.elements && r < g.matchers == |seen| && g.HasEdge(l, r)
    requires MarksKept(before, seen) && !before[r] && seen[r] && r !in dead
    requires left[l] == UNUSED || before[left[l]]
    requires right[r] != UNUSED
    requires Augmented(g, right[r], left, right, left', right', seen, dead)
    ensures Augmented(g, l, left, right, left'[l := r], right'[r := l], before, dead)
  {
  }

  /** The marks of a nested failed search add up with those made before it. */
  lemma MarksCompose(g: MatchMatrix, right: seq<int>, before: seq<bool>, mid: seq<bool>, r: nat, after: seq<bool>)
    requires g.Valid() && |before| == |mid| == |after| == |right| && r < |mid|
    requires MarksKept(before, mid) && MarksClosed(g, right, before, mid)
    requires MarksKept(mid[r := true], after) && MarksClosed(g, right, mid[r := true], after)
    requires 0 <= right[r] < g.elements && NeighborsIn(g, right[r], Marked(after))
    ensures MarksKept(before, after) && MarksClosed(g, right, before, after)
    ensures Marked(mid) <= Marked(after)
  {
  }

  // ---------------------------------------------------------------------
  // Why the result is maximum
  // ---------------------------------------------------------------------

  lemma {:induction false} InjectionBound<T, U>(m: map<T, U>, t: set<U>)
    requires forall x | x in m :: m[x] in t
    requires forall x, y | x in m && y in m && m[x] == m[y] :: x == y
    ensures |m| <= |t|
    decreases |m|
  {
    if |m| > 0 {
      var x :| x in m;
      var rest := m - {x};
      assert m.Keys == rest.Keys + {x};
      InjectionBound(rest, t - {m[x]});
    }
  }

  /** The elements of `left` that have a partner. */
  ghost function MatchedElements(left: seq<int>): set<int> {
    set l | 0 <= l < |left| && left[l] != UNUSED
  }

  /** Every unmatched element among the first n was searched in vain: all its
      matchers are dead. */
  ghost predicate Exhausted(g: MatchMatrix, left: seq<int>, n: nat, dead: set<int>)
    requires g.Valid() && |left| == g.elements
  {
    forall l | 0 <= l < n && l < |left| && left[l] == UNUSED :: NeighborsIn(g, l, dead)
  }

  /** At most |dead| edges of a matching end in a dead matcher. */
  lemma DeadEdgesBound(g: MatchMatrix, dead: set<int>, m: set<Pair>)
    requires g.Valid() && IsMatching(g, m) && forall e | e in m :: e.1 in dead
    ensures |m| <= |dead|
  {
    var ends := map e: Pair | e in m :: e.1 as int;
    InjectionBound(ends, dead);
    assert ends.Keys == m;
  }

  /** Every dead matcher has its own partner. */
  lemma DeadMatchersBound(g: MatchMatrix, left: seq<int>, right: seq<int>, dead: set<int>, inside: set<int>)
    requires g.Valid() && Mutual(g, left, right) && Closed(g, right, dead)
    requires inside == set l | l in MatchedElements(left) && left[l] in dead
    ensures |dead| <= |inside|
  {
    var partners := map r | r in dead :: right[r];
    InjectionBound(partners, inside);
    assert partners.Keys == dead;
  }

  /** The other edges of a matching start at elements matched outside the dead set. */
  lemma LiveEdgesBound(g: MatchMatrix, left: seq<int>, right: seq<int>, dead: set<int>,
                       m: set<Pair>, outside: set<int>)
    requires g.Valid() && Mutual(g, left, right)
    requires Closed(g, right, dead) && Exhausted(g, left, g.elements, dead)
    requires IsMatching(g, m) && forall e | e in m :: e.1 !in dead
    requires outside == set l | l in MatchedElements(left) && left[l] !in dead
    ensures |m| <= |outside|
  {
    var starts := map e: Pair | e in m :: e.0 as int;
    InjectionBound(starts, outside);
    assert starts.Keys == m;
  }

  /** The dead matchers and the elements matched outside them cover every edge,
      so no matching is larger than the one held by the vectors. */
  lemma DeadSetCertifiesMaximum(g: MatchMatrix, left: seq<int>, right: seq<int>, dead: set<int>, m: set<Pair>)
    requires g.Valid() && Mutual(g, left, right)
    requires Closed(g, right, dead) && Exhausted(g, left, g.elements, dead)
    requires IsMatching(g, m)
    ensures |m| <= |MatchedElements(left)|
  {
    var inside := set l | l in MatchedElements(left) && left[l] in dead;
    var outside := set l | l in MatchedElements(left) && left[l] !in dead;
    var mDead := set e | e in m && e.1 in dead;
    var mLive := set e | e in m && e.1 !in dead;
    SubMatching(g, m, mDead);
    SubMatching(g, m, mLive);
    DeadEdgesBound(g, dead, mDead);
    DeadMatchersBound(g, left, right, dead, inside);
    LiveEdgesBound(g, left, right, dead, mLive, outside);
    PartitionSize(m, mDead, mLive);
    PartitionSize(MatchedElements(left), inside, outside);
  }

  lemma PartitionSize<T>(s: set<T>, a: set<T>, b: set<T>)
    requires a <= s && b <= s && forall x | x in s :: x in a <==> x !in b
    ensures |s| == |a| + |b|
  {
    assert s == a + b && a !! b;
  }

  lemma SubMatching(g: MatchMatrix, m: set<Pair>, part: set<Pair>)
    requires g.Valid() && IsMatching(g, m) && part <= m
    ensures IsMatching(g, part)
  {
  }

  /** A walk from element l over the matchers of `path`, following each taken
      matcher to its owner, that ends in a free matcher. */
  ghost predicate AugmentingPath(g: MatchMatrix, right: seq<int>, l: nat, path: seq<nat>)
    requires g.Valid() && l < g.elements && |right| == g.matchers
    decreases |path|
  {
    && |path| > 0 && path[0] < g.matchers && g.HasEdge(l, path[0])
    && (if |path| == 1 then right[path[0]] == UNUSED
        else 0 <= right[path[0]] < g.elements && AugmentingPath(g, right, right[path[0]], path[1..]))
  }

  /** An element whose matchers are all dead has no augmenting path. */
  lemma {:induction false} DeadEndHasNoPath(g: MatchMatrix, right: seq<int>, dead: set<int>, l: nat, path: seq<nat>)
    requires g.Valid() && l < g.elements && |right| == g.matchers
    requires Closed(g, right, dead) && NeighborsIn(g, l, dead)
    ensures !AugmentingPath(g, right, l, path)
    decreases |path|
  {
    if |path| > 1 && path[0] < g.matchers && g.HasEdge(l, path[0]) {
      DeadEndHasNoPath(g, right, dead, right[path[0]], path[1..]);
    }
  }

  lemma LongerPath(g: MatchMatrix, right: seq<int>, l: nat, r: nat)
    requires g.Valid() && l < g.elements && r < g.matchers == |right| && g.HasEdge(l, r)
    requires 0 <= right[r] < g.elements && exists path :: AugmentingPath(g, right, right[r], path)
    ensures exists path :: AugmentingPath(g, right, l, path)
  {
    var path :| AugmentingPath(g, right, right[r], path);
    assert ([r] + path)[1..] == path;
    assert AugmentingPath(g, right, l, [r] + path);
  }

  /** Later augmentations leave the dead set dead: an element that failed once
      never gets an augmenting path, so one pass over the elements is enough. */
  lemma AugmentationKeepsDead(g: MatchMatrix, l: nat, left: seq<int>, right: seq<int>,
                              left': seq<int>, right': seq<int>, dead: set<int>)
    requires g.Valid() && |left| == g.elements && |right| == g.matchers && l < g.elements
    requires Closed(g, right, dead) && Exhausted(g, left, l, dead) && left[l] == UNUSED
    requires Augmented(g, l, left, right, left', right', seq(g.matchers, _ => false), dead)
    ensures Mutual(g, left', right') && Closed(g, right', dead) && Exhausted(g, left', l + 1, dead)
  {
  }

  lemma FailureExtendsDead(g: MatchMatrix, l: nat, left: seq<int>, right: seq<int>,
                           seen: seq<bool>, dead: set<int>)
    requires g.Valid() && |left| == g.elements && |right| == |seen| == g.matchers && l < g.elements
    requires Closed(g, right, dead) && Exhausted(g, left, l, dead)
    requires MarksClosed(g, right, seq(g.matchers, _ => false), seen)
    requires NeighborsIn(g, l, Marked(seen))
    ensures Closed(g, right, dead + Marked(seen)) && Exhausted(g, left, l + 1, dead + Marked(seen))
  {
  }

  /** `pairs` holds exactly the assignments of the first n elements. */
  ghost predicate Collected(g: MatchMatrix, left: seq<int>, n: nat, pairs: seq<Pair>)
    requires g.Valid() && n <= |left|
  {
    && IsMatching(g, PairSet(pairs)) && |PairSet(pairs)| == |pairs|
    && |pairs| == |MatchedElements(left[..n])|
    && forall e | e in pairs :: e.0 < n && left[e.0] == e.1
  }

  lemma CollectNext(g: MatchMatrix, left: seq<int>, right: seq<int>, n: nat, pairs: seq<Pair>)
    requires g.Valid() && Mutual(g, left, right) && n < |left| && left[n] != UNUSED
    requires Collected(g, left, n, pairs)
    ensures Collected(g, left, n + 1, pairs + [(n, left[n])])
  {
    var e: Pair := (n, left[n]);
    forall f | f in PairSet(pairs)
      ensures f.0 != e.0 && f.1 != e.1
    {
      assert right[left[f.0]] == f.0;
    }
    ExtendMatching(g, PairSet(pairs), e);
    PairSetSnoc(pairs, e);
    MatchedSnoc(left, n);
  }

  lemma CollectSkip(g: MatchMatrix, left: seq<int>, n: nat, pairs: seq<Pair>)
    requires g.Valid() && n < |left| && left[n] == UNUSED
    requires Collected(g, left, n, pairs)
    ensures Collected(g, left, n + 1, pairs)
  {
    MatchedSnoc(left, n);
  }

  lemma CollectNone(g: MatchMatrix, left: seq<int>)
    requires g.Valid()
    ensures Collected(g, left, 0, [])
  {
    assert PairSet([]) == {};
    assert MatchedElements(left[..0]) == {};
  }

  lemma PairSetSnoc(pairs: seq<Pair>, e: Pair)
    ensures PairSet(pairs + [e]) == PairSet(pairs) + {e}
  {
  }

  lemma MatchedSnoc(left: seq<int>, n: nat)
    requires n < |left|
    ensures |MatchedElements(left[..n + 1])| == |MatchedElements(left[..n])| + (if left[n] == UNUSED then 0 else 1)
  {
    if left[n] == UNUSED {
      assert MatchedElements(left[..n + 1]) == MatchedElements(left[..n]);
    } else {
      assert MatchedElements(left[..n + 1]) == MatchedElements(left[..n]) + {n};
    }
  }

  ghost function PairSet(pairs: seq<Pair>): set<Pair> {
    set e | e in pairs
  }

  /** The first n indices. */
  ghost function Indices(n: nat): (s: set<int>)
    ensures |s| == n && forall r :: r in s <==> 0 <= r < n
  {
    if n == 0 then {} else Indices(n - 1) + {n - 1}
  }

  lemma ExtendMatching(g: MatchMatrix, m: set<Pair>, e: Pair)
    requires g.Valid() && IsMatching(g, m)
    requires e.0 < g.elements && e.1 < g.matchers && g.HasEdge(e.0, e.1)
    requires forall f | f in m :: f.0 != e.0 && f.1 != e.1
    ensures IsMatching(g, m + {e}) && |m + {e}| == |m| + 1
  {
    assert e !in m;
  }

  /** No matching has more edges than there are matchers. */
  lemma MatchingBound(g: MatchMatrix, m: set<Pair>)
    requires g.Valid() && IsMatching(g, m)
    ensures |m| <= g.matchers
  {
    DeadEdgesBound(g, Indices(g.matchers), m);
  }

  /** The edges a pairing assigns to the first n matchers form a matching. */
  lemma {:induction false} PairingIsMatching(g: MatchMatrix, owner: seq<nat>, n: nat) returns (m: set<Pair>)
    requires g.Valid() && IsPairing(g, owner) && n <= g.matchers
    ensures IsMatching(g, m) && |m| == n
    ensures forall e | e in m :: e.1 < n && owner[e.1] == e.0
  {
    if n == 0 {
      m := {};
    } else {
      var before := PairingIsMatching(g, owner, n - 1);
      ExtendMatching(g, before, (owner[n - 1], n - 1));
      m := before + {(owner[n - 1], n - 1)};
    }
  }

  lemma EveryMatcherTaken(g: MatchMatrix, m: set<Pair>, r: nat) returns (l: nat)
    requires g.Valid() && IsMatching(g, m) && |m| == g.matchers && r < g.matchers
    ensures (l, r) in m
  {
    if exists k: nat :: (k, r) in m {
      l :| (l, r) in m;
    } else {
      forall e | e in m
        ensures e.1 in Indices(g.matchers) - {r}
      {
        assert e == (e.0, e.1);
      }
      DeadEdgesBound(g, Indices(g.matchers) - {r}, m);
      assert false;
    }
  }

  /** A matching with as many edges as matchers names an element for each of them. */
  lemma {:induction false} FullMatchingIsPairing(g: MatchMatrix, m: set<Pair>, n: nat) returns (owner: seq<nat>)
    requires g.Valid() && IsMatching(g, m) && |m| == g.matchers && n <= g.matchers
    ensures |owner| == n && forall r: nat | r < n :: (owner[r], r) in m
    ensures n == g.matchers ==> IsPairing(g, owner)
  {
    if n == 0 {
      owner := [];
    } else {
      var before := FullMatchingIsPairing(g, m, n - 1);
      var l := EveryMatcherTaken(g, m, n - 1);
      owner := before + [l];
    }
    OwnersDistinct(g, m, owner);
  }

  lemma OwnersDistinct(g: MatchMatrix, m: set<Pair>, owner: seq<nat>)
    requires g.Valid() && IsMatching(g, m) && |owner| <= g.matchers
    requires forall r: nat | r < |owner| :: (owner[r], r) in m
    ensures forall r | 0 <= r < |owner| :: owner[r] < g.elements && g.HasEdge(owner[r], r)
    ensures forall r, s | 0 <= r < s < |owner| :: owner[r] != owner[s]
  {
    forall r: nat, s: nat | r < s < |owner|
      ensures owner[r] != owner[s]
    {
      assert (owner[r], r) in m && (owner[s], s) in m;
    }
  }

  // ---------------------------------------------------------------------
  // The search
  // ---------------------------------------------------------------------

  class MaxBipartiteMatchState {
    const graph: MatchMatrix
    const left: array<int>
    const right: array<int>

    constructor (g: MatchMatrix)
      requires g.Valid()
      ensures graph == g && left != right && fresh(left) && fresh(right)
      ensures left.Length == g.elements && right.Length == g.matchers
      ensures forall l | 0 <= l < left.Length :: left[l] == UNUSED
      ensures forall r | 0 <= r < right.Length :: right[r] == UNUSED
    {
      graph := g;
      left := new int[g.elements](_ => UNUSED);
      right := new int[g.matchers](_ => UNUSED);
    }

    ghost predicate Valid()
      reads left, right
    {
      graph.Valid() && left != right && Mutual(graph, left[..], right[..])
    }

    /** Adds flow from element l to matcher r. */
    method Link(l: nat, r: nat)
      requires left != right && l < left.Length && r < right.Length
      modifies left, right
      ensures left[..] == old(left[..])[l := r] && right[..] == old(right[..])[r := l]
    {
      left[l] := r;
      right[r] := l;
    }

    /** Depth-first search for an augmenting path from `ilhs`.  `dead` is any
        closed set of matchers; the search never changes an assignment in it. */
    method TryAugment(ilhs: nat, seen: array<bool>, ghost dead: set<int>) returns (ok: bool)
      requires Valid()
      requires ilhs < graph.elements && seen.Length == graph.matchers
      requires left[ilhs] == UNUSED || seen[left[ilhs]]
      requires Closed(graph, right[..], dead)
      modifies left, right, seen
      decreases Unmarked(seen[..])
      ensures MarksKept(old(seen[..]), seen[..])
      ensures !ok ==> left[..] == old(left[..]) && right[..] == old(right[..])
      ensures !ok ==> NeighborsIn(graph, ilhs, Marked(seen[..]))
      ensures !ok ==> MarksClosed(graph, right[..], old(seen[..]), seen[..])
      ensures ok ==> Augmented(graph, ilhs, old(left[..]), old(right[..]), left[..], right[..],
                               old(seen[..]), dead)
      ensures ok ==> !NeighborsIn(graph, ilhs, dead)
      ensures ok ==> exists path :: AugmentingPath(graph, old(right[..]), ilhs, path)
    {
      var irhs := 0;
      ghost var lt, rt, sn := left[..], right[..], seen[..];
      while irhs < graph.matchers
        invariant 0 <= irhs <= graph.matchers
        invariant left[..] == lt && right[..] == rt
        invariant MarksKept(sn, seen[..])
        invariant forall r | 0 <= r < irhs && graph.HasEdge(ilhs, r) :: r in Marked(seen[..])
        invariant MarksClosed(graph, rt, sn, seen[..])
      {
        if !seen[irhs] && graph.HasEdge(ilhs, irhs) {
          ghost var before := seen[..];
          seen[irhs] := true;
          assert seen[..] == before[irhs := true];
          if right[irhs] == UNUSED {
            LinkFree(graph, ilhs, irhs, lt, rt, sn, dead);
            Link(ilhs, irhs);
            return true;
          }
          ghost var marked := seen[..];
          assert irhs in Unmarked(sn) && irhs !in Unmarked(marked) && Unmarked(marked) <= Unmarked(sn);
          var found := TryAugment(right[irhs], seen, dead);
          if found {
            ghost var lt', rt' := left[..], right[..];
            LinkMoved(graph, ilhs, irhs, lt, rt, lt', rt', sn, marked, dead);
            LongerPath(graph, rt, ilhs, irhs);
            Link(ilhs, irhs);
            return true;
          }
          MarksCompose(graph, rt, sn, before, irhs, seen[..]);
        }
        irhs := irhs + 1;
      }
      return false;
    }

    /** One search from every element, then the pairs in element order. */
    method Compute() returns (result: seq<Pair>)
      requires Valid()
      requires forall l | 0 <= l < left.Length :: left[l] == UNUSED
      requires forall r | 0 <= r < right.Length :: right[r] == UNUSED
      modifies left, right
      ensures Valid()
      ensures IsMatching(graph, PairSet(result)) && |PairSet(result)| == |result|
      ensures forall m | IsMatching(graph, m) :: |m| <= |result|
      ensures forall l: nat, path | l < graph.elements && left[l] == UNUSED ::
                !AugmentingPath(graph, right[..], l, path)
    {
      ghost var dead: set<int> := {};
      for ilhs := 0 to graph.elements
        invariant Valid()
        invariant forall l | ilhs <= l < left.Length :: left[l] == UNUSED
        invariant Closed(graph, right[..], dead) && Exhausted(graph, left[..], ilhs, dead)
      {
        assert left[ilhs] == UNUSED;
        var seen := new bool[graph.matchers](_ => false);
        ghost var lt, rt := left[..], right[..];
        var ok := TryAugment(ilhs, seen, dead);
        if ok {
          AugmentationKeepsDead(graph, ilhs, lt, rt, left[..], right[..], dead);
        } else {
          FailureExtendsDead(graph, ilhs, lt, rt, seen[..], dead);
          dead := dead + Marked(seen[..]);
        }
      }
      result := CollectPairs();
      forall m | IsMatching(graph, m)
        ensures |m| <= |result|
      {
        DeadSetCertifiesMaximum(graph, left[..], right[..], dead, m);
      }
      forall l: nat, path | l < graph.elements && left[l] == UNUSED
        ensures !AugmentingPath(graph, right[..], l, path)
      {
        DeadEndHasNoPath(graph, right[..], dead, l, path);
      }
    }

    method CollectPairs() returns (result: seq<Pair>)
      requires Valid()
      ensures IsMatching(graph, PairSet(result)) && |PairSet(result)| == |result|
      ensures |result| == |MatchedElements(left[..])|
      ensures forall e | e in result :: left[e.0] == e.1
    {
      result := [];
      ghost var lt, rt := left[..], right[..];
      CollectNone(graph, lt);
      for ilhs := 0 to left.Length
        invariant Collected(graph, lt, ilhs, result)
      {
        assert left[ilhs] == lt[ilhs];
        if left[ilhs] != UNUSED {
          CollectNext(graph, lt, rt, ilhs, result);
          result := result + [(ilhs, left[ilhs])];
        } else {
          CollectSkip(graph, lt, ilhs, result);
        }
      }
      assert lt[..left.Length] == lt;
    }
  }

  /** Which elements which matchers accept. */
  type Relation = (nat, nat) -> bool

  /** The matrix has an edge exactly where a matcher accepts an element. */
  ghost predicate Represents(g: MatchMatrix, accepts: Relation)
    requires g.Valid()
  {
    forall l: nat, r: nat | l < g.elements && r < g.matchers :: g.HasEdge(l, r) <==> accepts(l, r)
  }

  /** Every matcher r accepts its own element owner[r]. */
  ghost predicate IsAssignment(elements: nat, matchers: nat, accepts: Relation, owner: seq<nat>) {
    && |owner| == matchers
    && (forall r | 0 <= r < |owner| :: owner[r] < elements && accepts(owner[r], r))
    && (forall r, s | 0 <= r < s < |owner| :: owner[r] != owner[s])
  }

  /** Accepted elements and their matchers, none of either twice. */
  ghost predicate IsAcceptedMatching(elements: nat, matchers: nat, accepts: Relation, m: set<Pair>) {
    && (forall e | e in m :: e.0 < elements && e.1 < matchers && accepts(e.0, e.1))
    && (forall e, f | e in m && f in m && (e.0 == f.0 || e.1 == f.1) :: e == f)
  }

  lemma MatchingOfFilled(g: MatchMatrix, accepts: Relation, m: set<Pair>)
    requires g.Valid() && Represents(g, accepts)
    ensures IsMatching(g, m) <==> IsAcceptedMatching(g.elements, g.matchers, accepts, m)
  {
    hide MatchMatrix.HasEdge;
  }

  /** On a filled matrix a pairing is an assignment of accepted elements. */
  lemma PairingOfFilled(g: MatchMatrix, accepts: Relation, owner: seq<nat>)
    requires g.Valid() && Represents(g, accepts)
    ensures IsPairing(g, owner) <==> IsAssignment(g.elements, g.matchers, accepts, owner)
  {
    hide MatchMatrix.HasEdge;
  }

  method FindMaxBipartiteMatching(g: MatchMatrix) returns (result: seq<Pair>)
    requires g.Valid()
    ensures IsMatching(g, PairSet(result)) && |PairSet(result)| == |result|
    ensures forall m | IsMatching(g, m) :: |m| <= |result|
    ensures forall accepts | Represents(g, accepts) :: IsAcceptedMatching(g.elements, g.matchers, accepts, PairSet(result))
    ensures forall accepts, m | Represents(g, accepts) && IsAcceptedMatching(g.elements, g.matchers, accepts, m) ::
              |m| <= |result|
  {
    var state := new MaxBipartiteMatchState(g);
    result := state.Compute();
    forall accepts, m | Represents(g, accepts)
      ensures IsMatching(g, m) <==> IsAcceptedMatching(g.elements, g.matchers, accepts, m)
    {
      MatchingOfFilled(g, accepts, m);
    }
  }

  /** True exactly when every matcher can be given its own accepted element. */
  method FindPairing(g: MatchMatrix) returns (result: bool)
    requires g.Valid()
    ensures result <==> exists owner: seq<nat> :: IsPairing(g, owner)
    ensures forall accepts | Represents(g, accepts) ::
              result <==> exists owner: seq<nat> :: IsAssignment(g.elements, g.matchers, accepts, owner)
  {
    forall accepts, owner: seq<nat> | Represents(g, accepts)
      ensures IsPairing(g, owner) <==> IsAssignment(g.elements, g.matchers, accepts, owner)
    {
      PairingOfFilled(g, accepts, owner);
    }
    var matches := FindMaxBipartiteMatching(g);
    result := |matches| == g.matchers;
    if result {
      var owner := FullMatchingIsPairing(g, PairSet(matches), g.matchers);
    } else {
      forall owner: seq<nat> | IsPairing(g, owner)
        ensures false
      {
        var m := PairingIsMatching(g, owner, g.matchers);
        MatchingBound(g, PairSet(matches));
      }
    }
  }

  // ---------------------------------------------------------------------
  // Unordered elements
  // ---------------------------------------------------------------------

  /** Asks every matcher about every element, row by row, and fills the matrix edge by
      edge with the answers. */
  method AnalyzeElements(elements: nat, matchers: nat, accepts: Relation) returns (matrix: MatchMatrix)
    ensures matrix.Valid() && matrix.elements == elements && matrix.matchers == matchers
    ensures Represents(matrix, accepts)
  {
    hide *;
    var didMatch: seq<bool> := [];
    RowsNone(matchers, accepts);
    for l := 0 to elements
      invariant Rows(matchers, accepts, l, 0, didMatch)
    {
      for r := 0 to matchers
        invariant Rows(matchers, accepts, l, r, didMatch)
      {
        RowsNext(matchers, accepts, l, r, didMatch);
        didMatch := didMatch + [accepts(l, r)];
      }
      RowsEnd(matchers, accepts, l, didMatch);
    }
    matrix := NoEdges(elements, matchers);
    var k: nat := 0;
    IndexNext(matchers, 0);
    FilledNone(matrix, accepts);
    for l := 0 to elements
      invariant matrix.Valid() && matrix.elements == elements && matrix.matchers == matchers
      invariant k == SpaceIndex(matchers, l, 0) && Filled(matrix, accepts, l, 0)
    {
      for r := 0 to matchers
        invariant matrix.Valid() && matrix.elements == elements && matrix.matchers == matchers
        invariant k == SpaceIndex(matchers, l, r) && Filled(matrix, accepts, l, r)
      {
        RowsAt(matchers, accepts, elements, didMatch, l, r);
        FilledNext(matrix, accepts, l, r);
        matrix := matrix.SetEdge(l, r, didMatch[k]);
        k := k + 1;
      }
      IndexNext(matchers, l);
      FilledRow(matrix, accepts, l);
    }
    FilledAll(matrix, accepts);
  }

  /** The answers for the first l elements, and for the first r matchers on the next. */
  ghost predicate Rows(matchers: nat, accepts: Relation, l: nat, r: nat, d: seq<bool>) {
    && |d| == SpaceIndex(matchers, l, r)
    && forall i: nat, j: nat | j < matchers && (i < l || (i == l && j < r)) :: AnswerAt(matchers, accepts, d, i, j)
  }

  ghost predicate AnswerAt(matchers: nat, accepts: Relation, d: seq<bool>, i: nat, j: nat) {
    SpaceIndex(matchers, i, j) < |d| && (d[SpaceIndex(matchers, i, j)] <==> accepts(i, j))
  }

  lemma RowsNone(matchers: nat, accepts: Relation)
    ensures Rows(matchers, accepts, 0, 0, [])
  {
  }

  lemma IndexNext(matchers: nat, l: nat)
    ensures SpaceIndex(matchers, 0, 0) == 0 && SpaceIndex(matchers, l + 1, 0) == SpaceIndex(matchers, l, matchers)
    ensures forall r: nat :: SpaceIndex(matchers, l, r + 1) == SpaceIndex(matchers, l, r) + 1
  {
    assert (l + 1) * matchers == l * matchers + matchers;
  }

  lemma RowsNext(matchers: nat, accepts: Relation, l: nat, r: nat, d: seq<bool>)
    requires Rows(matchers, accepts, l, r, d) && r < matchers
    ensures Rows(matchers, accepts, l, r + 1, d + [accepts(l, r)])
  {
    hide SpaceIndex, AnswerAt;
    IndexNext(matchers, l);
    forall i: nat, j: nat | j < matchers && (i < l || (i == l && j < r + 1))
      ensures AnswerAt(matchers, accepts, d + [accepts(l, r)], i, j)
    {
      if i == l && j == r {
        AnswerLast(matchers, accepts, d, i, j);
      } else {
        AnswerKept(matchers, accepts, d, i, j, accepts(l, r));
      }
    }
  }

  lemma AnswerLast(matchers: nat, accepts: Relation, d: seq<bool>, i: nat, j: nat)
    requires |d| == SpaceIndex(matchers, i, j)
    ensures AnswerAt(matchers, accepts, d + [accepts(i, j)], i, j)
  {
    hide SpaceIndex;
  }

  lemma AnswerKept(matchers: nat, accepts: Relation, d: seq<bool>, i: nat, j: nat, b: bool)
    requires AnswerAt(matchers, accepts, d, i, j)
    ensures AnswerAt(matchers, accepts, d + [b], i, j)
  {
    hide SpaceIndex;
  }

  lemma RowsEnd(matchers: nat, accepts: Relation, l: nat, d: seq<bool>)
    requires Rows(matchers, accepts, l, matchers, d)
    ensures Rows(matchers, accepts, l + 1, 0, d)
  {
    hide SpaceIndex, AnswerAt;
    IndexNext(matchers, l);
  }

  lemma RowsAt(matchers: nat, accepts: Relation, elements: nat, d: seq<bool>, l: nat, r: nat)
    requires Rows(matchers, accepts, elements, 0, d) && l < elements && r < matchers
    ensures SpaceIndex(matchers, l, r) < |d| && (d[SpaceIndex(matchers, l, r)] <==> accepts(l, r))
    ensures SpaceIndex(matchers, l, r + 1) == SpaceIndex(matchers, l, r) + 1
  {
    hide SpaceIndex;
    IndexNext(matchers, l);
    assert AnswerAt(matchers, accepts, d, l, r);
  }

  /** The edges as far as the matrix is filled. */
  ghost predicate Filled(g: MatchMatrix, accepts: Relation, l: nat, r: nat)
    requires g.Valid()
  {
    forall i: nat, j: nat | i < g.elements && j < g.matchers && (i < l || (i == l && j < r)) ::
      g.HasEdge(i, j) <==> accepts(i, j)
  }

  lemma FilledNone(g: MatchMatrix, accepts: Relation)
    requires g.Valid()
    ensures Filled(g, accepts, 0, 0)
  {
  }

  lemma FilledNext(g: MatchMatrix, accepts: Relation, l: nat, r: nat)
    requires g.Valid() && Filled(g, accepts, l, r) && l < g.elements && r < g.matchers
    ensures Filled(g.SetEdge(l, r, accepts(l, r)), accepts, l, r + 1)
  {
    hide MatchMatrix.HasEdge, MatchMatrix.SetEdge;
    var h := g.SetEdge(l, r, accepts(l, r));
    forall i: nat, j: nat | i < g.elements && j < g.matchers && (i < l || (i == l && j < r + 1))
      ensures h.HasEdge(i, j) <==> accepts(i, j)
    {
      if i != l || j != r {
        SetEdgeElsewhere(g, l, r, accepts(l, r), i, j);
      }
    }
  }

  lemma FilledRow(g: MatchMatrix, accepts: Relation, l: nat)
    requires g.Valid() && Filled(g, accepts, l, g.matchers)
    ensures Filled(g, accepts, l + 1, 0)
  {
    hide MatchMatrix.HasEdge;
  }

  lemma FilledAll(g: MatchMatrix, accepts: Relation)
    requires g.Valid() && Filled(g, accepts, g.elements, 0)
    ensures Represents(g, accepts)
  {
    hide MatchMatrix.HasEdge;
  }

  /** Whether every matcher accepts some element and every element is accepted by some
      matcher. */
  method VerifyAllElementsAndMatchersAreMatched(matrix: MatchMatrix) returns (result: bool)
    requires matrix.Valid()
    ensures result <==> (forall r: nat | r < matrix.matchers :: MatcherMatched(matrix, r, matrix.elements))
                        && (forall l: nat | l < matrix.elements :: ElementMatched(matrix, l, matrix.matchers))
  {
    var elementMatched := new bool[matrix.elements](_ => false);
    var matcherMatched := new bool[matrix.matchers](_ => false);
    for l := 0 to matrix.elements
      invariant forall i: nat | i < matrix.elements ::
                  elementMatched[i] <==> i < l && ElementMatched(matrix, i, matrix.matchers)
      invariant forall j: nat | j < matrix.matchers :: matcherMatched[j] <==> MatcherMatched(matrix, j, l)
    {
      for r := 0 to matrix.matchers
        invariant forall i: nat | i < matrix.elements ::
                    elementMatched[i] <==> if i == l then ElementMatched(matrix, i, r)
                                           else i < l && ElementMatched(matrix, i, matrix.matchers)
        invariant forall j: nat | j < matrix.matchers ::
                    matcherMatched[j] <==> MatcherMatched(matrix, j, if j < r then l + 1 else l)
      {
        MatchedNext(matrix, l, r);
        var matched := matrix.HasEdge(l, r);
        elementMatched[l] := elementMatched[l] || matched;
        matcherMatched[r] := matcherMatched[r] || matched;
      }
    }
    result := true;
    for r := 0 to matrix.matchers
      invariant result <==> forall j: nat | j < r :: matcherMatched[j]
    {
      if !matcherMatched[r] {
        result := false;
      }
    }
    ghost var matchersOk := result;
    for l := 0 to matrix.elements
      invariant result <==> matchersOk && forall i: nat | i < l :: elementMatched[i]
    {
      if !elementMatched[l] {
        result := false;
      }
    }
  }

  ghost predicate ElementMatched(g: MatchMatrix, l: nat, n: nat)
    requires g.Valid() && l < g.elements && n <= g.matchers
  {
    exists r: nat | r < n :: g.HasEdge(l, r)
  }

  ghost predicate MatcherMatched(g: MatchMatrix, r: nat, n: nat)
    requires g.Valid() && r < g.matchers && n <= g.elements
  {
    exists l: nat | l < n :: g.HasEdge(l, r)
  }

  lemma MatchedNext(g: MatchMatrix, l: nat, r: nat)
    requires g.Valid() && l < g.elements && r < g.matchers
    ensures ElementMatched(g, l, r + 1) <==> ElementMatched(g, l, r) || g.HasEdge(l, r)
    ensures MatcherMatched(g, r, l + 1) <==> MatcherMatched(g, r, l) || g.HasEdge(l, r)
  {
  }

  /** Whether the elements can be put in an order in which each is accepted by its
      matcher. */
  method MatchAndExplain(elements: nat, matchers: nat, accepts: Relation) returns (result: bool)
    ensures result <==> elements == matchers && exists owner: seq<nat> :: IsAssignment(elements, matchers, accepts, owner)
  {
    var matrix := AnalyzeElements(elements, matchers, accepts);
    if elements == 0 && matchers == 0 {
      assert IsAssignment(0, 0, accepts, []);
      return true;
    }
    if elements != matchers {
      return false;
    }
    result := VerifyAllElementsAndMatchersAreMatched(matrix);
    if result {
      result := FindPairing(matrix);
    } else {
      forall owner: seq<nat> | IsAssignment(elements, matchers, accepts, owner)
        ensures false
      {
        PairingOfFilled(matrix, accepts, owner);
        PairingMatchesAll(matrix, owner);
      }
    }
  }

  /** A pairing of as many elements as matchers leaves none of either out. */
  lemma PairingMatchesAll(g: MatchMatrix, owner: seq<nat>)
    requires g.Valid() && IsPairing(g, owner) && g.elements == g.matchers
    ensures forall r: nat | r < g.matchers :: MatcherMatched(g, r, g.elements)
    ensures forall l: nat | l < g.elements :: ElementMatched(g, l, g.matchers)
  {
    forall r: nat | r < g.matchers
      ensures MatcherMatched(g, r, g.elements)
    {
      assert g.HasEdge(owner[r], r);
    }
    forall l: nat | l < g.elements
      ensures ElementMatched(g, l, g.matchers)
    {
      var r := OwnerOnto(owner, g.elements, l);
      assert g.HasEdge(l, r);
    }
  }

  /** Distinct owners among as many elements are all of them. */
  lemma OwnerOnto(owner: seq<nat>, n: nat, l: nat) returns (r: nat)
    requires |owner| == n && l < n && (forall i | 0 <= i < n :: owner[i] < n)
    requires forall i, j | 0 <= i < j < n :: owner[i] != owner[j]
    ensures r < n && owner[r] == l
  {
    OwnersCount(owner, n, l);
    r :| r < n && owner[r] == l;
  }

  lemma OwnersCount(owner: seq<nat>, n: nat, l: nat)
    requires |owner| == n && l < n && (forall i | 0 <= i < n :: owner[i] < n)
    requires forall i, j | 0 <= i < j < n :: owner[i] != owner[j]
    ensures l in owner
  {
    hide Indices;
    var others := Indices(n) - {l};
    IndicesWithout(n, l);
    if l !in owner {
      OwnersBound(owner, n, others);
    }
  }

  lemma IndicesWithout(n: nat, l: nat)
    requires l < n
    ensures |Indices(n) - {l}| == n - 1
  {
    hide Indices;
    assert Indices(n) == (Indices(n) - {l}) + {l};
  }

  lemma OwnersBound(owner: seq<nat>, n: nat, s: set<int>)
    requires |owner| == n && forall i | 0 <= i < n :: owner[i] in s
    requires forall i, j | 0 <= i < j < n :: owner[i] != owner[j]
    ensures n <= |s|
  {
    hide Indices;
    var owners := map i | i in Indices(n) :: owner[i] as int;
    assert owners.Keys == Indices(n);
    InjectionBound(owners, s);
  }
}
