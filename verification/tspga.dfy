/**
  The genome of the genetic travelling-salesman search in Week3/tsp-ga.cc:
  an order in which the points are visited, its two constructors, and the
  two variation operators, mutate and crosslink.

  The random numbers the source draws become parameters: the shuffle reads a
  stream `rand(k)`, mutate takes its two distinct positions, and crosslink
  takes its cut point.
 */
module TspGenome {

  /** A visiting order; the circuit length the source caches is not modelled. */
  datatype Genome = Genome(order: seq<int>)

  /** No value occurs twice. */
  predicate NoDup(s: seq<int>)
  {
    forall i, j :: 0 <= i < j < |s| ==> s[i] != s[j]
  }

  /** `s` is a rearrangement of `t`. */
  predicate IsPermutationOf(s: seq<int>, t: seq<int>)
  {
    multiset(s) == multiset(t)
  }

  /** 0, 1, ..., n-1. */
  function Iota(n: nat): (s: seq<int>)
    ensures |s| == n
    ensures forall k :: 0 <= k < n ==> s[k] == k
  {
    seq(n, k => k)
  }

  /**
    `a` is obtained from `b` by deleting elements: each step either keeps the
    head of `b` as the head of `a` or skips it.
   */
  predicate IsSubsequence(a: seq<int>, b: seq<int>)
    decreases |b|
  {
    if b == [] then a == []
    else (|a| > 0 && a[0] == b[0] && IsSubsequence(a[1..], b[1..])) || IsSubsequence(a, b[1..])
  }

  // ---------------------------------------------------------------------------
  // Multiplicities of duplicate-free sequences
  // ---------------------------------------------------------------------------

  /** In a duplicate-free sequence every value occurs at most once. */
  lemma {:induction false} NoDupCounts(s: seq<int>)
    requires NoDup(s)
    ensures forall v :: multiset(s)[v] == if v in s then 1 else 0
  {
    if s != [] {
      var t := s[1..];
      assert s == [s[0]] + t;
      assert NoDup(t) by {
        forall i, j | 0 <= i < j < |t| ensures t[i] != t[j] {
          assert t[i] == s[i + 1] && t[j] == s[j + 1];
        }
      }
      NoDupCounts(t);
      assert s[0] !in t by {
        forall k | 0 <= k < |t| ensures t[k] != s[0] {
          assert t[k] == s[k + 1];
        }
      }
      forall v ensures multiset(s)[v] == if v in s then 1 else 0 {
        assert multiset(s) == multiset{s[0]} + multiset(t);
      }
    }
  }

  /** A sequence in which no value occurs twice is duplicate-free. */
  lemma CountsNoDup(s: seq<int>)
    requires forall v :: multiset(s)[v] <= 1
    ensures NoDup(s)
  {
    forall i, j | 0 <= i < j < |s| ensures s[i] != s[j] {
      assert s == s[..j] + s[j..];
      assert s[i] in s[..j];
      assert s[j] in s[j..];
      assert multiset(s)[s[j]] == multiset(s[..j])[s[j]] + multiset(s[j..])[s[j]];
    }
  }

  /** A rearrangement of a duplicate-free sequence is duplicate-free. */
  lemma PermutationKeepsNoDup(s: seq<int>, t: seq<int>)
    requires NoDup(t) && IsPermutationOf(s, t)
    ensures NoDup(s)
  {
    NoDupCounts(t);
    CountsNoDup(s);
  }

  /** Two duplicate-free sequences with the same values are rearrangements of each other. */
  lemma SameValuesPermutation(s: seq<int>, t: seq<int>)
    requires NoDup(s) && NoDup(t)
    requires forall v :: v in s <==> v in t
    ensures IsPermutationOf(s, t)
  {
    NoDupCounts(s);
    NoDupCounts(t);
    assert forall v :: multiset(s)[v] == multiset(t)[v];
  }

  // ---------------------------------------------------------------------------
  // Constructors and accessor
  // ---------------------------------------------------------------------------

  /** TSPGenome(order): a genome holding exactly the given order. */
  function FromOrder(order: seq<int>): (g: Genome)
    ensures GetOrder(g) == order
  {
    Genome(order)
  }

  /** getOrder: the genome's visiting order. */
  function GetOrder(g: Genome): seq<int>
  {
    g.order
  }

  /** Exchange the values at positions `i` and `j`. */
  function Swap(s: seq<int>, i: int, j: int): (r: seq<int>)
    requires 0 <= i < |s| && 0 <= j < |s|
    ensures |r| == |s|
    ensures r[i] == s[j] && r[j] == s[i]
    ensures forall k :: 0 <= k < |s| && k != i && k != j ==> r[k] == s[k]
    ensures IsPermutationOf(r, s)
  {
    s[i := s[j]][j := s[i]]
  }

  /**
    TSPGenome(numPoints): the order 0, ..., numPoints-1 (empty when numPoints
    is not positive), shuffled.  The shuffle is the sweep of random_shuffle:
    for k = 1, ..., n-1 the value at k is exchanged with the one at
    `rand(k - 1) % (k + 1)`.  Whatever the stream, the order is a
    permutation of 0, ..., n-1.
   */
  method NewGenome(numPoints: int, rand: nat -> nat) returns (g: Genome)
    ensures var n := if numPoints > 0 then numPoints else 0;
      && |g.order| == n
      && IsPermutationOf(g.order, Iota(n))
      && (forall v :: v in g.order <==> 0 <= v < n)
      && NoDup(g.order)
  {
    var n := if numPoints > 0 then numPoints else 0;
    var order: seq<int> := [];
    var i := 0;
    while i < numPoints
      invariant 0 <= i <= n
      invariant order == Iota(i)
    {
      order := order + [i];
      i := i + 1;
    }
    if n > 0 {
      var k := 1;
      while k < n
        invariant 1 <= k <= n
        invariant |order| == n
        invariant IsPermutationOf(order, Iota(n))
      {
        var j := rand(k - 1) % (k + 1);
        order := Swap(order, k, j);
        k := k + 1;
      }
    }
    assert NoDup(Iota(n));
    PermutationKeepsNoDup(order, Iota(n));
    forall v ensures v in order <==> 0 <= v < n {
      assert v in order <==> v in multiset(Iota(n));
      if 0 <= v < n {
        assert Iota(n)[v] == v;
      }
    }
    g := Genome(order);
  }

  // ---------------------------------------------------------------------------
  // Variation operators
  // ---------------------------------------------------------------------------

  /**
    mutate, once its retry loop has drawn two different positions `i` and
    `j`: the two values change places and nothing else changes.
   */
  function Mutate(g: Genome, i: int, j: int): (r: Genome)
    requires 0 <= i < |g.order| && 0 <= j < |g.order| && i != j
    ensures |r.order| == |g.order|
    ensures r.order[i] == g.order[j] && r.order[j] == g.order[i]
    ensures forall k :: 0 <= k < |g.order| && k != i && k != j ==> r.order[k] == g.order[k]
    ensures IsPermutationOf(r.order, g.order)
  {
    Genome(Swap(g.order, i, j))
  }

  /** Mutating twice at the same positions restores the genome. */
  lemma MutateInvolution(g: Genome, i: int, j: int)
    requires 0 <= i < |g.order| && 0 <= j < |g.order| && i != j
    ensures Mutate(Mutate(g, i, j), i, j) == g
  {
    var r := Mutate(Mutate(g, i, j), i, j);
    assert forall k :: 0 <= k < |g.order| ==> r.order[k] == g.order[k];
  }

  /** Mutation turns a tour into a tour: duplicate-freedom is kept. */
  lemma MutateKeepsTour(g: Genome, i: int, j: int)
    requires 0 <= i < |g.order| && 0 <= j < |g.order| && i != j
    requires NoDup(g.order)
    ensures NoDup(Mutate(g, i, j).order)
  {
    PermutationKeepsNoDup(Mutate(g, i, j).order, g.order);
  }

  /**
    The second loop of crosslink: walk `xs` in order and append each value
    not yet in the sequence built so far.
   */
  function AppendMissing(acc: seq<int>, xs: seq<int>): (r: seq<int>)
    decreases |xs|
    ensures |acc| <= |r| && r[..|acc|] == acc
    ensures forall v :: v in r <==> v in acc || v in xs
    ensures forall k :: |acc| <= k < |r| ==> r[k] !in r[..k]
  {
    if xs == [] then acc
    else
      var acc' := if xs[0] in acc then acc else acc + [xs[0]];
      var r := AppendMissing(acc', xs[1..]);
      assert r[..|acc|] == r[..|acc'|][..|acc|];
      assert xs == [xs[0]] + xs[1..];
      r
  }

  /** The appended values appear in the order they have in `xs`. */
  lemma {:induction false} AppendMissingInOrder(acc: seq<int>, xs: seq<int>)
    decreases |xs|
    ensures IsSubsequence(AppendMissing(acc, xs)[|acc|..], xs)
  {
    if xs == [] {
      assert AppendMissing(acc, xs)[|acc|..] == [];
    } else {
      var x := xs[0];
      var acc' := if x in acc then acc else acc + [x];
      var r := AppendMissing(acc', xs[1..]);
      assert AppendMissing(acc, xs) == r;
      AppendMissingInOrder(acc', xs[1..]);
      var a := r[|acc|..];
      if x in acc {
        assert IsSubsequence(a, xs[1..]);
      } else {
        assert |r| >= |acc'| && r[..|acc'|] == acc';
        assert a[0] == r[..|acc'|][|acc|] == x;
        assert a[1..] == r[|acc'|..];
        assert IsSubsequence(a[1..], xs[1..]);
      }
    }
  }

  /** Appending only missing values keeps a duplicate-free sequence duplicate-free. */
  lemma AppendMissingNoDup(acc: seq<int>, xs: seq<int>)
    requires NoDup(acc)
    ensures NoDup(AppendMissing(acc, xs))
  {
    var r := AppendMissing(acc, xs);
    forall i, j | 0 <= i < j < |r| ensures r[i] != r[j] {
      if j < |acc| {
        assert r[i] == acc[i] && r[j] == acc[j];
      } else {
        assert r[i] in r[..j];
      }
    }
  }

  /**
    crosslink with cut point `cut` (the source's `rand() % |g1|`): the first
    `cut` values of `g1`, then the values of `g2` not already present, in
    their order in `g2`.
   */
  function Crosslink(g1: Genome, g2: Genome, cut: int): (child: Genome)
    requires 0 <= cut < |g1.order|
    ensures |child.order| >= cut && child.order[..cut] == g1.order[..cut]
    ensures forall v :: v in child.order <==> v in g1.order[..cut] || v in g2.order
    ensures forall k :: cut <= k < |child.order| ==> child.order[k] !in child.order[..k]
    ensures IsSubsequence(child.order[cut..], g2.order)
  {
    AppendMissingInOrder(g1.order[..cut], g2.order);
    Genome(AppendMissing(g1.order[..cut], g2.order))
  }

  /** The child of two tours over the same points is again a tour over those points. */
  lemma CrosslinkPermutation(g1: Genome, g2: Genome, cut: int)
    requires 0 <= cut < |g1.order|
    requires NoDup(g1.order) && IsPermutationOf(g2.order, g1.order)
    ensures NoDup(Crosslink(g1, g2, cut).order)
    ensures IsPermutationOf(Crosslink(g1, g2, cut).order, g1.order)
  {
    var prefix := g1.order[..cut];
    var child := Crosslink(g1, g2, cut).order;
    assert NoDup(prefix) by {
      forall i, j | 0 <= i < j < |prefix| ensures prefix[i] != prefix[j] {
        assert prefix[i] == g1.order[i] && prefix[j] == g1.order[j];
      }
    }
    AppendMissingNoDup(prefix, g2.order);
    forall v | v in prefix ensures v in g1.order {
      var k :| 0 <= k < |prefix| && prefix[k] == v;
      assert g1.order[k] == v;
    }
    assert forall v :: v in g2.order <==> v in multiset(g1.order);
    assert forall v :: v in child <==> v in g1.order;
    SameValuesPermutation(child, g1.order);
  }
}
