/**
 * A directed graph with a fixed number of vertices, a generic label per vertex
 * and one adjacency list of target ids per vertex (`Graphe<T>` of the
 * namespace `labGrapheAlgorithmes`).
 */
module LabGrapheAlgorithmes {
  import opened Listes

  /** The reasons for which an operation throws `std::logic_error`. */
  datatype Error =
    | InvalidVertex   // a vertex id is not below the number of vertices
    | DuplicateArc    // `ajouterArc` on an arc that already exists
    | MissingArc      // `enleverArc` on an arc that does not exist

  /** Outcome of an operation that returns nothing: it succeeds or throws. */
  datatype Outcome = Pass | Fail(error: Error)

  /** Outcome of an operation that returns a value: the value, or the error thrown. */
  datatype Result<R> = Ok(value: R) | Err(error: Error)

  // ---------------------------------------------------------------------------
  // Specification functions over the adjacency lists
  // ---------------------------------------------------------------------------

  /** Number of arcs entering `v`: its occurrences summed over all the lists. */
  function InDegree(adj: seq<seq<nat>>, v: nat): nat
  {
    if adj == [] then 0
    else InDegree(adj[..|adj| - 1], v) + Count(adj[|adj| - 1], v)
  }

  /** Number of arcs of the graph: the out-degrees (list lengths) summed over all vertices. */
  function TotalArcs(adj: seq<seq<nat>>): nat
  {
    if adj == [] then 0
    else TotalArcs(adj[..|adj| - 1]) + |adj[|adj| - 1]|
  }

  /** The in-degrees of the vertices `0 .. k-1`, summed. */
  function SumInDegrees(adj: seq<seq<nat>>, k: nat): nat
  {
    if k == 0 then 0 else SumInDegrees(adj, k - 1) + InDegree(adj, k - 1)
  }

  /** The occurrences in `l` of the vertices `0 .. k-1`, summed. */
  function SumCounts(l: seq<nat>, k: nat): nat
  {
    if k == 0 then 0 else SumCounts(l, k - 1) + Count(l, k - 1)
  }

  /** The vertices that have an arc to `v`. */
  function Predecessors(adj: seq<seq<nat>>, v: nat): set<nat>
  {
    set u | 0 <= u < |adj| && v in adj[u]
  }

  /** Every target in every list is a vertex id below `n`. */
  predicate TargetsBelow(adj: seq<seq<nat>>, n: nat)
  {
    forall u, j :: 0 <= u < |adj| && 0 <= j < |adj[u]| ==> adj[u][j] < n
  }

  /** No list holds the same target twice. */
  predicate ListsDistinct(adj: seq<seq<nat>>)
  {
    forall u :: 0 <= u < |adj| ==> NoDuplicates(adj[u])
  }

  // ---------------------------------------------------------------------------
  // Lemmas about the specification functions
  // ---------------------------------------------------------------------------

  /** Replacing one list changes the in-degree of `v` by the change in that list's count of `v`. */
  lemma {:induction false} InDegreeUpdate(adj: seq<seq<nat>>, a: nat, l: seq<nat>, v: nat)
    requires a < |adj|
    ensures InDegree(adj[a := l], v) == InDegree(adj, v) - Count(adj[a], v) + Count(l, v)
  {
    var m := |adj| - 1;
    var adj' := adj[a := l];
    if a == m {
      assert adj'[..m] == adj[..m];
    } else {
      assert adj'[..m] == adj[..m][a := l];
      InDegreeUpdate(adj[..m], a, l, v);
    }
  }

  /** Replacing one list changes the number of arcs by the change in that list's length. */
  lemma {:induction false} TotalArcsUpdate(adj: seq<seq<nat>>, a: nat, l: seq<nat>)
    requires a < |adj|
    ensures TotalArcs(adj[a := l]) == TotalArcs(adj) - |adj[a]| + |l|
  {
    var m := |adj| - 1;
    var adj' := adj[a := l];
    if a == m {
      assert adj'[..m] == adj[..m];
    } else {
      assert adj'[..m] == adj[..m][a := l];
      TotalArcsUpdate(adj[..m], a, l);
    }
  }

  /** One more element `x` adds one to the sum of counts exactly when `x < k`. */
  lemma {:induction false} SumCountsAppend(l: seq<nat>, x: nat, k: nat)
    ensures SumCounts(l + [x], k) == SumCounts(l, k) + (if x < k then 1 else 0)
  {
    if k > 0 {
      SumCountsAppend(l, x, k - 1);
      assert (l + [x])[..|l + [x]| - 1] == l;
    }
  }

  /** When every element of `l` is below `k`, every element is counted once. */
  lemma {:induction false} SumCountsInRange(l: seq<nat>, k: nat)
    requires forall j :: 0 <= j < |l| ==> l[j] < k
    ensures SumCounts(l, k) == |l|
  {
    if l == [] {
      if k > 0 {
        assert forall w :: Count(l, w) == 0;
        SumCountsEmpty(k);
      }
    } else {
      var p := l[..|l| - 1];
      SumCountsInRange(p, k);
      assert l == p + [l[|l| - 1]];
      SumCountsAppend(p, l[|l| - 1], k);
    }
  }

  /** The empty list contributes nothing. */
  lemma {:induction false} SumCountsEmpty(k: nat)
    ensures SumCounts([], k) == 0
  {
    if k > 0 {
      SumCountsEmpty(k - 1);
    }
  }

  /** One more list adds its counts to the sum of in-degrees. */
  lemma {:induction false} SumInDegreesAppend(adj: seq<seq<nat>>, l: seq<nat>, k: nat)
    ensures SumInDegrees(adj + [l], k) == SumInDegrees(adj, k) + SumCounts(l, k)
  {
    if k > 0 {
      SumInDegreesAppend(adj, l, k - 1);
      assert (adj + [l])[..|adj + [l]| - 1] == adj;
    }
  }

  /** With no list, every in-degree is zero. */
  lemma {:induction false} SumInDegreesEmpty(k: nat)
    ensures SumInDegrees([], k) == 0
  {
    if k > 0 {
      SumInDegreesEmpty(k - 1);
    }
  }

  /**
   * Sum of the out-degrees equals the sum of the in-degrees over the vertices
   * `0 .. n-1`, when every target is below `n`: both count every arc once.
   */
  lemma {:induction false} DegreeSum(adj: seq<seq<nat>>, n: nat)
    requires TargetsBelow(adj, n)
    ensures TotalArcs(adj) == SumInDegrees(adj, n)
  {
    if adj == [] {
      SumInDegreesEmpty(n);
    } else {
      var p := adj[..|adj| - 1];
      var l := adj[|adj| - 1];
      assert TargetsBelow(p, n);
      DegreeSum(p, n);
      assert adj == p + [l];
      SumInDegreesAppend(p, l, n);
      SumCountsInRange(l, n);
    }
  }

  /** When no list repeats a target, the in-degree of `v` is the number of vertices with an arc to `v`. */
  lemma {:induction false} InDegreeCountsPredecessors(adj: seq<seq<nat>>, v: nat)
    requires ListsDistinct(adj)
    ensures InDegree(adj, v) == |Predecessors(adj, v)|
  {
    if adj != [] {
      var m := |adj| - 1;
      var p := adj[..m];
      assert ListsDistinct(p);
      InDegreeCountsPredecessors(p, v);
      CountDistinct(adj[m], v);
      assert m !in Predecessors(p, v);
      if v in adj[m] {
        assert Predecessors(adj, v) == Predecessors(p, v) + {m};
      } else {
        assert Predecessors(adj, v) == Predecessors(p, v);
      }
    }
  }

  /**
   * Erasing the first occurrence of a present target `b` from list `a` keeps
   * the targets in range and the lists free of duplicates, removes the arc,
   * lowers the in-degree of `b` by one and no other, and removes one arc.
   */
  lemma {:induction false} RemoveArcEffect(adj: seq<seq<nat>>, n: nat, a: nat, b: nat)
    requires TargetsBelow(adj, n) && ListsDistinct(adj) && a < |adj| && b in adj[a]
    ensures var adj' := adj[a := RemoveFirst(adj[a], b)];
      && TargetsBelow(adj', n) && ListsDistinct(adj') && b !in adj'[a]
      && (forall v :: InDegree(adj', v) == InDegree(adj, v) - (if v == b then 1 else 0))
      && TotalArcs(adj') == TotalArcs(adj) - 1
  {
    var l := adj[a];
    var r := RemoveFirst(l, b);
    var adj' := adj[a := r];
    RemoveFirstDistinct(l, b);
    CountDistinct(l, b);
    forall v ensures InDegree(adj', v) == InDegree(adj, v) - (if v == b then 1 else 0) {
      InDegreeUpdate(adj, a, r, v);
      RemoveFirstCount(l, b, v);
    }
    RemoveFirstCount(l, b, b);
    TotalArcsUpdate(adj, a, r);
    forall u, j | 0 <= u < |adj'| && 0 <= j < |adj'[u]|
      ensures adj'[u][j] < n
    {
      if u == a {
        assert r[j] in r;
      }
    }
  }

  // ---------------------------------------------------------------------------
  // The graph
  // ---------------------------------------------------------------------------

  /**
   * `Graphe<T>`: `nbSommets` vertices numbered `0 .. nbSommets-1`, a label
   * `noms[s]` per vertex and a list `listesAdj[s]` of targets per vertex.
   * `T(0)` because the labels are default-initialised at construction.
   */
  class Graphe<T(0)> {
    const nbSommets: nat
    var noms: seq<T>
    var listesAdj: seq<seq<nat>>

    /** The two checks of `verifieInvariant`: one label and one list per vertex. */
    predicate VerifieInvariant()
      reads this
      ensures VerifieInvariant() ==> |noms| == |listesAdj| == nbSommets
    {
      |noms| == nbSommets && |listesAdj| == nbSommets
    }

    /**
     * The object invariant: `verifieInvariant`, plus the facts the guards of
     * `ajouterArc` maintain (targets are vertex ids, no arc is stored twice).
     */
    predicate Valid()
      reads this
      ensures Valid() ==> VerifieInvariant()
      ensures Valid() ==> forall a, b :: 0 <= a < nbSommets && b in listesAdj[a] ==> b < nbSommets
      ensures Valid() ==> forall a :: 0 <= a < nbSommets ==> NoDuplicates(listesAdj[a])
    {
      VerifieInvariant() && TargetsBelow(listesAdj, nbSommets) && ListsDistinct(listesAdj)
    }

    /** Arc `a -> b` is stored. */
    predicate HasArc(a: nat, b: nat)
      reads this
      requires Valid() && a < nbSommets
    {
      b in listesAdj[a]
    }

    /** Construction: `p_nbSommets` default labels and as many empty lists. */
    constructor (p_nbSommets: nat)
      ensures Valid()
      ensures nbSommets == p_nbSommets
      ensures |noms| == nbSommets
      ensures forall i, j :: 0 <= i < j < |noms| ==> noms[i] == noms[j]
      ensures listesAdj == seq(nbSommets, _ => [])
      ensures TotalArcs(listesAdj) == 0
      ensures forall v :: InDegree(listesAdj, v) == 0
    {
      var defaut: T := *;
      nbSommets := p_nbSommets;
      noms := seq(p_nbSommets, _ => defaut);
      listesAdj := seq(p_nbSommets, _ => []);
      new;
      EmptyListsHaveNoArc(listesAdj);
    }

    /** A graph whose lists are all empty has no arc, and no vertex has an entering arc. */
    static lemma {:induction false} EmptyListsHaveNoArc(adj: seq<seq<nat>>)
      requires forall u :: 0 <= u < |adj| ==> adj[u] == []
      ensures TotalArcs(adj) == 0
      ensures forall v :: InDegree(adj, v) == 0
    {
      if adj != [] {
        EmptyListsHaveNoArc(adj[..|adj| - 1]);
      }
    }

    /** `nommer`: label vertex `s` with `x`; throws on an invalid vertex. */
    method Nommer(s: nat, x: T) returns (r: Outcome)
      requires Valid()
      modifies this
      ensures Valid()
      ensures r == if s < nbSommets then Pass else Fail(InvalidVertex)
      ensures r.Pass? ==> noms == old(noms)[s := x] && ReqNom(s) == Ok(x)
      ensures r.Fail? ==> noms == old(noms)
      ensures forall t: nat :: t < nbSommets && t != s ==> ReqNom(t) == old(ReqNom(t))
      ensures listesAdj == old(listesAdj)
    {
      if s >= nbSommets {
        return Fail(InvalidVertex);
      }
      noms := noms[s := x];
      r := Pass;
    }

    /**
     * `ajouterArc`: add arc `a -> b` at the end of `a`'s list; throws on an
     * invalid vertex or when the arc already exists.
     */
    method AjouterArc(a: nat, b: nat) returns (r: Outcome)
      requires Valid()
      modifies this
      ensures Valid()
      ensures r == if a >= nbSommets || b >= nbSommets then Fail(InvalidVertex)
                   else if b in old(listesAdj[a]) then Fail(DuplicateArc)
                   else Pass
      ensures r.Pass? ==> listesAdj == old(listesAdj)[a := old(listesAdj[a]) + [b]]
      ensures r.Pass? ==> ArcExiste(a, b) == Ok(true)
      ensures r.Pass? ==> forall v :: InDegree(listesAdj, v) == old(InDegree(listesAdj, v)) + (if v == b then 1 else 0)
      ensures r.Pass? ==> TotalArcs(listesAdj) == old(TotalArcs(listesAdj)) + 1
      ensures r.Fail? ==> listesAdj == old(listesAdj)
      ensures noms == old(noms)
    {
      if a >= nbSommets || b >= nbSommets {
        return Fail(InvalidVertex);
      }
      if ArcExiste(a, b) == Ok(true) {
        return Fail(DuplicateArc);
      }
      var liste := listesAdj[a];
      AppendDistinct(liste, b);
      forall v ensures InDegree(listesAdj[a := liste + [b]], v) == InDegree(listesAdj, v) + (if v == b then 1 else 0) {
        InDegreeUpdate(listesAdj, a, liste + [b], v);
        CountAppend(liste, [b], v);
        assert [b][..0] == [];
      }
      TotalArcsUpdate(listesAdj, a, liste + [b]);
      listesAdj := listesAdj[a := liste + [b]];
      r := Pass;
    }

    /**
     * `enleverArc`: erase the first occurrence of `b` from `a`'s list; throws
     * on an invalid vertex or when the arc does not exist.
     */
    method EnleverArc(a: nat, b: nat) returns (r: Outcome)
      requires Valid()
      modifies this
      ensures Valid()
      ensures r == if a >= nbSommets || b >= nbSommets then Fail(InvalidVertex)
                   else if b !in old(listesAdj[a]) then Fail(MissingArc)
                   else Pass
      ensures r.Pass? ==> listesAdj == old(listesAdj)[a := RemoveFirst(old(listesAdj[a]), b)]
      ensures r.Pass? ==> ArcExiste(a, b) == Ok(false)
      ensures r.Pass? ==> forall v :: InDegree(listesAdj, v) == old(InDegree(listesAdj, v)) - (if v == b then 1 else 0)
      ensures r.Pass? ==> TotalArcs(listesAdj) == old(TotalArcs(listesAdj)) - 1
      ensures r.Fail? ==> listesAdj == old(listesAdj)
      ensures noms == old(noms)
    {
      if a >= nbSommets || b >= nbSommets {
        return Fail(InvalidVertex);
      }
      var liste := listesAdj[a];
      var it := Find(liste, b);
      if it == |liste| {
        return Fail(MissingArc);
      }
      var reste := liste[..it] + liste[it + 1..];
      RemoveFirstIsEraseFind(liste, b);
      RemoveArcEffect(listesAdj, nbSommets, a, b);
      listesAdj := listesAdj[a := reste];
      r := Pass;
    }

    /** `reqNom`: the label of vertex `s`; throws on an invalid vertex. */
    function ReqNom(s: nat): (r: Result<T>)
      reads this
      requires Valid()
      ensures r.Ok? <==> s < nbSommets
      ensures r.Ok? ==> r.value == noms[s]
      ensures r.Err? ==> r.error == InvalidVertex
    {
      if s >= nbSommets then Err(InvalidVertex) else Ok(noms[s])
    }

    /**
     * `arcExiste`: whether `b` occurs in `a`'s list, found with `std::find`;
     * throws on an invalid vertex.
     */
    function ArcExiste(a: nat, b: nat): (r: Result<bool>)
      reads this
      requires Valid()
      ensures r == if a < nbSommets && b < nbSommets then Ok(HasArc(a, b)) else Err(InvalidVertex)
    {
      if a >= nbSommets then Err(InvalidVertex)
      else if b >= nbSommets then Err(InvalidVertex)
      else
        var liste := listesAdj[a];
        Ok(Find(liste, b) != |liste|)
    }

    /** `reqNbSommets`: the number of vertices, which is the number of labels and of lists. */
    function ReqNbSommets(): (r: nat)
      reads this
      requires Valid()
      ensures r == |noms| && r == |listesAdj|
    {
      nbSommets
    }

    /**
     * `listerSommetsAdjacents`: a copy of `s`'s list, in list order, built one
     * element at a time; throws on an invalid vertex.
     */
    method ListerSommetsAdjacents(s: nat) returns (r: Result<seq<nat>>)
      requires Valid()
      ensures r == if s < nbSommets then Ok(listesAdj[s]) else Err(InvalidVertex)
      ensures r.Ok? ==> OrdreSortieSommet(s) == Ok(|r.value|)
      ensures r.Ok? ==> forall t: nat :: t in r.value <==> t < nbSommets && HasArc(s, t)
    {
      if s >= nbSommets {
        return Err(InvalidVertex);
      }
      var liste := listesAdj[s];
      var v: seq<nat> := [];
      var j := 0;
      while j < |liste|
        invariant j <= |liste|
        invariant v == liste[..j]
      {
        v := v + [liste[j]];
        j := j + 1;
      }
      assert liste[..|liste|] == liste;
      r := Ok(v);
    }

    /**
     * `ordreEntreeSommet`: the number of arcs entering `s`, counted by scanning
     * every list; throws on an invalid vertex.
     */
    method OrdreEntreeSommet(s: nat) returns (r: Result<nat>)
      requires Valid()
      ensures r == if s < nbSommets then Ok(InDegree(listesAdj, s)) else Err(InvalidVertex)
      ensures r.Ok? ==> r.value == |Predecessors(listesAdj, s)|
    {
      if s >= nbSommets {
        return Err(InvalidVertex);
      }
      var cpt := 0;
      var i := 0;
      while i < nbSommets
        invariant i <= nbSommets
        invariant cpt == InDegree(listesAdj[..i], s)
      {
        var liste := listesAdj[i];
        var j := 0;
        while j < |liste|
          invariant j <= |liste|
          invariant cpt == InDegree(listesAdj[..i], s) + Count(liste[..j], s)
        {
          if liste[j] == s {
            cpt := cpt + 1;
          }
          assert liste[..j + 1][..j] == liste[..j];
          j := j + 1;
        }
        assert liste[..j] == liste;
        assert listesAdj[..i + 1][..i] == listesAdj[..i];
        i := i + 1;
      }
      assert listesAdj[..i] == listesAdj;
      InDegreeCountsPredecessors(listesAdj, s);
      r := Ok(cpt);
    }

    /**
     * `ordreSortieSommet`: the number of arcs leaving `s`, the length of its
     * list; throws on an invalid vertex.
     */
    function OrdreSortieSommet(s: nat): (r: Result<nat>)
      reads this
      requires Valid()
      ensures r.Ok? <==> s < nbSommets
      ensures r.Err? ==> r.error == InvalidVertex
      ensures r.Ok? ==> r.value == |listesAdj[s]|
      ensures r.Ok? ==> r.value == |set t: nat | t < nbSommets && HasArc(s, t)|
    {
      if s >= nbSommets then Err(InvalidVertex)
      else
        DistinctCard(listesAdj[s]);
        assert (set t: nat | t < nbSommets && HasArc(s, t)) == Elements(listesAdj[s]);
        Ok(|listesAdj[s]|)
    }

    /** Every arc leaves one vertex and enters one: the out-degrees and the in-degrees have the same sum. */
    lemma DegreeSumHolds()
      requires Valid()
      ensures TotalArcs(listesAdj) == SumInDegrees(listesAdj, nbSommets)
    {
      DegreeSum(listesAdj, nbSommets);
    }
  }
}
