# Graphe&lt;T&gt;: a directed graph with adjacency lists

This project models the class template `Graphe<T>` of the namespace
`labGrapheAlgorithmes` and proves properties of the model. The class is a
directed graph. Its number of vertices, `nbSommets`, is fixed at construction.
Each vertex has a label of the generic type `T` (`noms`) and a list of the
targets of its outgoing arcs (`listesAdj`).

- `Listes.dfy` (module `Listes`) models the `std::list<unsigned int>` values as
  `seq<nat>`. It gives `std::find` (`Find`) and the erase of the position it
  returns, and compares that erase with a reference definition, `RemoveFirst`.
- `Graphe.dfy` (module `LabGrapheAlgorithmes`) holds the class `Graphe<T(0)>`.
  It also holds the specification functions `InDegree` (occurrences of a vertex
  over all lists), `TotalArcs` (sum of the list lengths), `SumInDegrees` and
  `Predecessors`, with the lemmas about them.

The class keeps its fields and changes them in place. Every method that throws
`std::logic_error` in the source returns an error value instead.
`Outcome = Pass | Fail(error)` is used for the `void` operations and
`Result<R> = Ok(value) | Err(error)` for the others. The error kinds are
`InvalidVertex`, `DuplicateArc` and `MissingArc`. A failing mutator leaves the
graph unchanged. A query method has no `modifies` clause, so it cannot change
the graph.

`Valid()` is the object invariant. It holds the two size checks of
`verifieInvariant` (the predicate `VerifieInvariant`: one label and one list per
vertex). It adds two properties that the guards of `ajouterArc` maintain but
the source never checks: every target is a vertex id, and no list holds a
target twice. The constructor establishes `Valid()` and every mutator keeps it.

Two places where the model follows what the code does rather than what its
comments say:
- The comment above the `push_back` in `ajouterArc` says that the outgoing arcs
  of a vertex have no order. Yet `push_back` appends at the end of the list, and
  the copy loop of `listerSommetsAdjacents` returns the list in that order. The
  model keeps the insertion order.
- The documentation of `enleverArc` lists valid vertex ids among its
  preconditions, but its body has no range guard. Only its
  `PRECONDITION(arcExiste(...))` rejects an out-of-range id, because
  `arcExiste` throws on one. The model therefore returns `InvalidVertex` for an
  out-of-range id and `MissingArc` for an absent arc. This follows a build in
  which the contract macros are active. In a build where they are compiled out,
  an out-of-range source is indexed unchecked, and an in-range source with an
  out-of-range target reaches the "arc does not exist" throw (`MissingArc`).

## Model

| member | source | states |
|---|---|---|
| `LabGrapheAlgorithmes.Graphe.constructor` | Lab5/Graphe/src/main/Graphe.hpp:13-17 | `nbSommets` is the argument; there are that many labels, all the same default value, and that many empty lists; `Valid()` holds, the graph has no arc and every in-degree is zero |
| `LabGrapheAlgorithmes.Graphe.VerifieInvariant` | Lab5/Graphe/src/main/Graphe.hpp:319-323 | one label and one adjacency list per vertex |
| `LabGrapheAlgorithmes.Graphe.Valid` | Lab5/Graphe/src/main/Graphe.hpp:319-323 | `VerifieInvariant`, plus every target below `nbSommets` and no target repeated in a list; the constructor sets it up and `Nommer`, `AjouterArc` and `EnleverArc` keep it |
| `LabGrapheAlgorithmes.Graphe.Nommer` | Lab5/Graphe/src/main/Graphe.hpp:43-54 | fails with `InvalidVertex` exactly when `s >= nbSommets` and then changes nothing; otherwise only label `s` becomes `x`, so `ReqNom(s) == Ok(x)` while every other label and all lists are unchanged; `Valid()` is kept |
| `LabGrapheAlgorithmes.Graphe.AjouterArc` | Lab5/Graphe/src/main/Graphe.hpp:70-98 | fails with `InvalidVertex` on an out-of-range id and with `DuplicateArc` when `b` is already in `a`'s list, changing nothing; otherwise `b` is appended to `a`'s list and no other list changes, `ArcExiste(a, b) == Ok(true)`, the in-degree of `b` rises by one and no other in-degree changes, the arc count rises by one; labels are unchanged and `Valid()` (in range, no duplicate) is kept |
| `LabGrapheAlgorithmes.Graphe.EnleverArc` | Lab5/Graphe/src/main/Graphe.hpp:114-131 | fails with `InvalidVertex` on an out-of-range id and with `MissingArc` when `b` is not in `a`'s list, changing nothing; otherwise `a`'s list becomes `RemoveFirst` of it and no other list changes, `ArcExiste(a, b) == Ok(false)` afterwards (which needs the no-duplicate invariant), the in-degree of `b` drops by one and no other in-degree changes, the arc count drops by one; `Valid()` is kept |
| `LabGrapheAlgorithmes.Graphe.ReqNom` | Lab5/Graphe/src/main/Graphe.hpp:146-156 | succeeds exactly for a vertex id below `nbSommets` and then gives that vertex's label; otherwise fails with `InvalidVertex` |
| `LabGrapheAlgorithmes.Graphe.ArcExiste` | Lab5/Graphe/src/main/Graphe.hpp:170-191 | on two valid ids, the `std::find` scan answers whether `b` occurs in `a`'s list; on an invalid id it fails with `InvalidVertex` |
| `LabGrapheAlgorithmes.Graphe.ReqNbSommets` | Lab5/Graphe/src/main/Graphe.hpp:201-204 | the vertex count equals the number of labels and the number of adjacency lists |
| `LabGrapheAlgorithmes.Graphe.ListerSommetsAdjacents` | Lab5/Graphe/src/main/Graphe.hpp:240-256 | the copying loop returns exactly `s`'s list, in list order, or `InvalidVertex`; its length is `OrdreSortieSommet(s)`; a vertex occurs in it exactly when it is a valid id with an arc from `s` |
| `LabGrapheAlgorithmes.Graphe.OrdreEntreeSommet` | Lab5/Graphe/src/main/Graphe.hpp:270-291 | the nested counting loop returns `InDegree(listesAdj, s)`, the occurrences of `s` summed over all lists, or `InvalidVertex`; that count is the number of vertices with an arc to `s` |
| `LabGrapheAlgorithmes.Graphe.OrdreSortieSommet` | Lab5/Graphe/src/main/Graphe.hpp:305-316 | succeeds exactly for a valid id, with the length of its list, which is the number of valid ids `t` with an arc `s -> t`; otherwise fails with `InvalidVertex` |
| `LabGrapheAlgorithmes.Graphe.DegreeSumHolds` | Lab5/Graphe/src/main/Graphe.hpp:259-316 | on a valid graph the out-degrees (list lengths) and the in-degrees have the same sum |
| `LabGrapheAlgorithmes.DegreeSum` | Lab5/Graphe/src/main/Graphe.hpp:279-290 | when every target is below `n`, the sum of the list lengths equals the sum of `InDegree` over the vertices `0 .. n-1` |
| `LabGrapheAlgorithmes.InDegreeCountsPredecessors` | Lab5/Graphe/src/main/Graphe.hpp:279-290 | when no list repeats a target, the in-degree of `v` is the number of vertices whose list contains `v` |
| `LabGrapheAlgorithmes.RemoveArcEffect` | Lab5/Graphe/src/main/Graphe.hpp:119-130 | erasing the first occurrence of a present target keeps targets in range and lists free of repeats, leaves the arc absent, lowers the target's in-degree by one and no other, and removes exactly one arc |
| `LabGrapheAlgorithmes.InDegreeUpdate` | Lab5/Graphe/src/main/Graphe.hpp:91-94 | replacing one list changes an in-degree by the difference of that list's counts, and leaves the rest of the sum alone |
| `LabGrapheAlgorithmes.TotalArcsUpdate` | Lab5/Graphe/src/main/Graphe.hpp:119-127 | replacing one list changes the arc count by the difference of that list's lengths |
| `Listes.Find` | Lab5/Graphe/src/main/Graphe.hpp:186-190 | `std::find` returns the position of the first occurrence of the value, or the end position exactly when the value is absent |
| `Listes.RemoveFirstIsEraseFind` | Lab5/Graphe/src/main/Graphe.hpp:119-127 | erasing the position that `std::find` found equals removing the first occurrence; on an absent value the list is unchanged |
| `Listes.RemoveFirstCount` | Lab5/Graphe/src/main/Graphe.hpp:127 | removing the first occurrence of a present value shortens the list by one and lowers that value's count by one and no other count |
| `Listes.RemoveFirstDistinct` | Lab5/Graphe/src/main/Graphe.hpp:127-129 | on a list without duplicates, removal keeps it free of duplicates, keeps only values it had, and leaves no occurrence of the removed value |
| `Listes.AppendDistinct` | Lab5/Graphe/src/main/Graphe.hpp:86-94 | appending a value that is absent keeps the list free of duplicates, and the value then occurs once |
| `Listes.CountDistinct` | Lab5/Graphe/src/main/Graphe.hpp:283-286 | in a list without duplicates a value is counted once when present and zero times otherwise |
| `Listes.DistinctCard` | Lab5/Graphe/src/main/Graphe.hpp:315 | a list without duplicates has as many distinct values as entries |

## Left out

- `affiche` writes the graph to `std::cout`. It is console output only.
- `parcoursProfondeur`, `parcoursLargeur`, `estConnexe` and `triTopologique` have empty bodies in the source. There is no behaviour to model, so no traversal or sort is invented.
- The `PRECONDITION`, `POSTCONDITION` and `INVARIANT` macros of `ContratException.h` are not part of this model. They appear as `requires Valid()`, as `ensures` clauses and as the `Valid()` predicate. A failed precondition is modelled like the explicit guard after it (the same error value, no state change).
- The destructor does nothing and is not modelled. Every field is a value.
- The texts of the `std::logic_error` messages are not modelled. Only the kind of error is kept.
- `unsigned int` and `size_t` are modelled as unbounded `nat`. A wrap-around of the counter `cpt` in `ordreEntreeSommet` cannot happen in the model.
- The default value that `resize` gives each label cannot be named for a generic `T`. The constructor states only that all labels start equal.
