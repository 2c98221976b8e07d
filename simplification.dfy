/**
 * The simplification rules of Functions.py: the unit-clause rule, the
 * pure-literal rule, and their alternation to a fixpoint. Each rule is a
 * method whose loops follow the Python code; its postconditions relate the
 * result to the input through the specification functions and lemmas below.
 */
module Simplification {

  import opened Clauses
  import opened Wrappers

  // ---------------------------------------------------------------------------
  // One application of a unit literal
  // ---------------------------------------------------------------------------

  /** Striking literal x from every clause of S. */
  function Strike(S: Formula, x: Literal): Formula
  {
    set c | c in S :: c - {x}
  }

  /**
   * The formula after making literal l true, when no clause becomes empty:
   * the clauses holding l are satisfied and dropped, and -l is struck from the rest.
   */
  function Propagate(F: Formula, l: Literal): (G: Formula)
    ensures forall c :: c in G ==> l !in c && -l !in c
    ensures Subsumed(G, F)
  {
    Strike(set c | c in F && l !in c, -l)
  }

  /** Striking -l empties some kept clause exactly when the unit clause {-l} is present. */
  predicate Conflicts(F: Formula, l: Literal)
  {
    l != 0 && {-l} in F
  }

  lemma {:induction false} StrikeShrinks(S: Formula, x: Literal)
    ensures |Strike(S, x)| <= |S|
    decreases S
  {
    if S != {} {
      var d :| d in S;
      StrikeShrinks(S - {d}, x);
      assert Strike(S, x) == Strike(S - {d}, x) + {d - {x}};
    }
  }

  /** Propagating a literal never adds clauses. */
  lemma PropagateShrinks(F: Formula, l: Literal)
    ensures |Propagate(F, l)| <= |F|
  {
    var kept := set c | c in F && l !in c;
    StrikeShrinks(kept, -l);
    assert F == kept + (F - kept);
  }

  lemma SubsumedLiterals(G: Formula, F: Formula)
    requires Subsumed(G, F)
    ensures Literals(G) <= Literals(F)
  {
    forall l | l in Literals(G)
      ensures l in Literals(F)
    {
      var c :| c in G && l in c;
      var d :| d in F && c <= d;
    }
  }

  lemma SubsumedTransitive(H: Formula, G: Formula, F: Formula)
    requires Subsumed(H, G) && Subsumed(G, F)
    ensures Subsumed(H, F)
  {
    forall c | c in H
      ensures exists d :: d in F && c <= d
    {
      var e :| e in G && c <= e;
      var d :| d in F && e <= d;
    }
  }

  /** Applying a unit literal of F keeps exactly F's satisfiability. */
  lemma PropagatePreservesSatisfiability(F: Formula, l: Literal)
    requires WellFormed(F) && {l} in F && !Conflicts(F, l)
    ensures Satisfiable(Propagate(F, l)) <==> Satisfiable(F)
  {
    assert l != 0 by { assert l in {l}; }
    var G := Propagate(F, l);
    if Satisfiable(F) {
      var a :| Models(a, F);
      assert ClauseTrue(a, {l});
      forall e | e in G
        ensures ClauseTrue(a, e)
      {
        var c :| c in F && l !in c && e == c - {-l};
        var m :| m in c && LiteralTrue(a, m);
        assert m in e;
      }
      assert Models(a, G);
    }
    if Satisfiable(G) {
      var a :| Models(a, G);
      var b := MakeTrue(a, l);
      forall c | c in F
        ensures ClauseTrue(b, c)
      {
        if l in c {
          assert LiteralTrue(b, l);
        } else {
          assert c - {-l} in G;
          var m :| m in c - {-l} && LiteralTrue(a, m);
          assert LiteralTrue(b, m);
        }
      }
      assert Models(b, F);
    }
  }

  /** Complementary unit clauses cannot both be satisfied. */
  lemma ConflictUnsatisfiable(F: Formula, l: Literal)
    requires {l} in F && Conflicts(F, l)
    ensures !Satisfiable(F)
  {
    forall a: Assignment
      ensures !Models(a, F)
    {
      if ClauseTrue(a, {l}) {
        assert !ClauseTrue(a, {-l});
      }
    }
  }

  /**
   * The body of the for-loop of unit_clause_rule for one unit literal: drop
   * the clauses holding lit, strike -lit from the others, and report a
   * conflict as soon as a clause is struck to nothing.
   */
  method ApplyUnitLiteral(clauses: Formula, lit: Literal) returns (result: Formula, conflict: bool)
    ensures conflict <==> Conflicts(clauses, lit)
    ensures conflict ==> result == {{}}
    ensures !conflict ==> result == Propagate(clauses, lit)
  {
    var kept := set c | c in clauses && lit !in c;
    var negLiteral := -lit;
    var newClauses: Formula := {};
    var rest := kept;
    while rest != {}
      invariant rest <= kept
      invariant newClauses == Strike(kept - rest, negLiteral)
      invariant {negLiteral} !in kept - rest
      decreases rest
    {
      var clause :| clause in rest;
      assert kept - (rest - {clause}) == (kept - rest) + {clause};
      assert Strike((kept - rest) + {clause}, negLiteral)
          == Strike(kept - rest, negLiteral) + {clause - {negLiteral}};
      if negLiteral in clause {
        var newClause := set l | l in clause && l != negLiteral;
        assert newClause == clause - {negLiteral};
        if newClause == {} {
          assert clause == {negLiteral};
          return {{}}, true;
        }
        newClauses := newClauses + {newClause};
      } else {
        newClauses := newClauses + {clause - {negLiteral}};
      }
      rest := rest - {clause};
    }
    return newClauses, false;
  }

  /** What every intermediate formula of the unit-clause rule keeps of its input F. */
  ghost predicate DerivedFrom(G: Formula, F: Formula)
  {
    && Subsumed(G, F)
    && |G| <= |F|
    && (WellFormed(F) ==> WellFormed(G) && (Satisfiable(G) <==> Satisfiable(F)))
  }

  lemma SubsumedWellFormed(G: Formula, F: Formula)
    requires Subsumed(G, F) && WellFormed(F)
    ensures WellFormed(G)
  {
    forall c, l | c in G && l in c
      ensures l != 0
    {
      var d :| d in F && c <= d;
    }
  }

  lemma DerivedFromReflexive(F: Formula)
    ensures DerivedFrom(F, F)
  {
    forall c | c in F
      ensures exists d :: d in F && c <= d
    {
      assert c <= c;
    }
  }

  lemma DerivedFromTransitive(H: Formula, G: Formula, F: Formula)
    requires DerivedFrom(H, G) && DerivedFrom(G, F)
    ensures DerivedFrom(H, F)
  {
    SubsumedTransitive(H, G, F);
  }

  /** No clause of F mentions a literal of L, in either polarity. */
  predicate Avoids(F: Formula, L: set<Literal>)
  {
    forall l, c :: l in L && c in F ==> l !in c && -l !in c
  }

  lemma SubsumedAvoids(G: Formula, F: Formula, L: set<Literal>)
    requires Subsumed(G, F) && Avoids(F, L)
    ensures Avoids(G, L)
  {
    forall l, c | l in L && c in G
      ensures l !in c && -l !in c
    {
      var d :| d in F && c <= d;
    }
  }

  /** One non-conflicting application of a unit literal keeps DerivedFrom and loses the literal. */
  lemma PropagateStep(G: Formula, lit: Literal)
    requires {lit} in G && !Conflicts(G, lit)
    ensures DerivedFrom(Propagate(G, lit), G)
    ensures Literals(Propagate(G, lit)) <= Literals(G) - {lit}
    ensures lit in Literals(G)
  {
    var H := Propagate(G, lit);
    PropagateShrinks(G, lit);
    SubsumedLiterals(H, G);
    assert lit in {lit};
    if WellFormed(G) {
      PropagatePreservesSatisfiability(G, lit);
      SubsumedWellFormed(H, G);
    }
  }

  // ---------------------------------------------------------------------------
  // The for-loop of unit_clause_rule as a specification function
  // ---------------------------------------------------------------------------

  /**
   * One turn of the for-loop of unit_clause_rule: nothing happens once the
   * formula is empty or {∅}; a conflict gives {∅} (where Python returns at
   * once, every later turn would keep {∅}); otherwise lit is propagated.
   */
  function UnitStep(G: Formula, lit: Literal): Formula
  {
    if G == {} || G == {{}} then G
    else if Conflicts(G, lit) then {{}}
    else Propagate(G, lit)
  }

  /** The turns of the for-loop for the unit literals in the order they are visited. */
  function UnitPass(G0: Formula, order: seq<Literal>): Formula
    decreases |order|
  {
    if order == [] then G0
    else UnitStep(UnitPass(G0, order[..|order| - 1]), order[|order| - 1])
  }

  /** order visits distinct literals, each of them in U. */
  predicate DistinctIn(order: seq<Literal>, U: set<Literal>)
  {
    && (forall i :: 0 <= i < |order| ==> order[i] in U)
    && (forall i, j :: 0 <= i < j < |order| ==> order[i] != order[j])
  }

  lemma DistinctInPrefix(order: seq<Literal>, U: set<Literal>)
    requires DistinctIn(order, U) && order != []
    ensures DistinctIn(order[..|order| - 1], U)
    ensures order[|order| - 1] in U && order[|order| - 1] !in order[..|order| - 1]
  {
    var n := |order| - 1;
    forall i | 0 <= i < n
      ensures order[..n][i] != order[n]
    {
      assert order[..n][i] == order[i];
    }
  }

  /** One more turn: the pass visits lit after order. */
  lemma UnitPassStep(G0: Formula, order: seq<Literal>, lit: Literal, U: set<Literal>)
    requires DistinctIn(order, U) && lit in U && lit !in order
    ensures DistinctIn(order + [lit], U)
    ensures UnitPass(G0, order + [lit]) == UnitStep(UnitPass(G0, order), lit)
  {
    assert (order + [lit])[..|order|] == order;
  }

  /** A step keeps every other unit clause, unless it ends in {∅}. */
  lemma UnitStepKeepsUnits(G: Formula, lit: Literal, V: set<Literal>)
    requires forall x :: x in V ==> {x} in G
    requires lit !in V
    ensures UnitStep(G, lit) == {{}} || forall x :: x in V ==> {x} in UnitStep(G, lit)
  {
    if G != {} && G != {{}} && !Conflicts(G, lit) {
      forall x | x in V
        ensures {x} in Propagate(G, lit)
      {
        assert {x} in G;
        assert x != -lit || lit == 0;
        assert {x} - {-lit} == {x};
      }
    }
  }

  /** A step derives its result from G, provided the unit clause {lit} is still there. */
  lemma UnitStepDerived(G: Formula, lit: Literal)
    requires G == {} || G == {{}} || {lit} in G
    ensures DerivedFrom(UnitStep(G, lit), G)
    ensures Literals(UnitStep(G, lit)) <= Literals(G)
    ensures G != {} && G != {{}} ==> Literals(UnitStep(G, lit)) < Literals(G)
  {
    if G == {} || G == {{}} {
      DerivedFromReflexive(G);
    } else if Conflicts(G, lit) {
      var d :| d in G;
      assert {} <= d;
      assert lit in Literals(G) by { assert lit in {lit}; }
      if WellFormed(G) {
        ConflictUnsatisfiable(G, lit);
        EmptyClauseUnsatisfiable({{}});
      }
    } else {
      PropagateStep(G, lit);
    }
  }

  /** After a step no clause mentions lit, and whatever G avoided stays avoided. */
  lemma UnitStepAvoids(G: Formula, lit: Literal, L: set<Literal>)
    requires Avoids(G, L)
    ensures Avoids(UnitStep(G, lit), L + {lit})
  {
    if G != {} && G != {{}} && !Conflicts(G, lit) {
      SubsumedAvoids(Propagate(G, lit), G, L);
    }
  }

  /** The unit clauses of G0 not yet visited are still unit clauses, unless the pass gave {∅}. */
  lemma {:induction false} UnitPassKeepsUnits(G0: Formula, U: set<Literal>, order: seq<Literal>)
    requires U == FindUnitClauses(G0) && DistinctIn(order, U)
    ensures UnitPass(G0, order) == {{}} ||
      forall x :: x in U && x !in order ==> {x} in UnitPass(G0, order)
    decreases |order|
  {
    if order != [] {
      var n := |order| - 1;
      var prefix := order[..n];
      DistinctInPrefix(order, U);
      UnitPassKeepsUnits(G0, U, prefix);
      var G := UnitPass(G0, prefix);
      if G != {{}} {
        var V := set x | x in U && x !in order;
        assert order[n] !in V;
        UnitStepKeepsUnits(G, order[n], V);
      }
    }
  }

  /** A pass derives its result from G0 and never introduces a literal. */
  lemma {:induction false} UnitPassDerived(G0: Formula, U: set<Literal>, order: seq<Literal>)
    requires U == FindUnitClauses(G0) && DistinctIn(order, U)
    ensures DerivedFrom(UnitPass(G0, order), G0)
    ensures Literals(UnitPass(G0, order)) <= Literals(G0)
    ensures order != [] ==> Literals(UnitPass(G0, order)) < Literals(G0)
    decreases |order|
  {
    if order == [] {
      DerivedFromReflexive(G0);
    } else {
      var n := |order| - 1;
      var prefix := order[..n];
      DistinctInPrefix(order, U);
      UnitPassDerived(G0, U, prefix);
      UnitPassKeepsUnits(G0, U, prefix);
      var G := UnitPass(G0, prefix);
      UnitStepDerived(G, order[n]);
      DerivedFromTransitive(UnitPass(G0, order), G, G0);
      if prefix == [] {
        assert {order[n]} in G0;
      }
    }
  }

  /** After a pass no clause mentions a visited literal, in either polarity. */
  lemma {:induction false} UnitPassAvoids(G0: Formula, order: seq<Literal>)
    ensures Avoids(UnitPass(G0, order), set x | x in order)
    decreases |order|
  {
    if order != [] {
      var n := |order| - 1;
      var prefix := order[..n];
      UnitPassAvoids(G0, prefix);
      UnitStepAvoids(UnitPass(G0, prefix), order[n], set x | x in prefix);
      assert (set x | x in order) == (set x | x in prefix) + {order[n]} by {
        assert order == prefix + [order[n]];
      }
    }
  }

  /** Two complementary unit literals: the pass ends in {∅} once it has visited either. */
  lemma {:induction false} UnitPassClash(G0: Formula, U: set<Literal>, order: seq<Literal>, x: Literal)
    requires U == FindUnitClauses(G0) && DistinctIn(order, U)
    requires x != 0 && x in U && -x in U && (x in order || -x in order)
    ensures UnitPass(G0, order) == {{}}
    decreases |order|
  {
    var n := |order| - 1;
    var prefix := order[..n];
    var lit := order[n];
    assert order == prefix + [lit];
    DistinctInPrefix(order, U);
    if x in prefix || -x in prefix {
      UnitPassClash(G0, U, prefix, x);
    } else {
      assert lit == x || lit == -x;
      UnitPassKeepsUnits(G0, U, prefix);
      var G := UnitPass(G0, prefix);
      if G != {{}} {
        assert {x} in G && {-x} in G;
        assert {lit} in G && {-lit} in G;
        assert G != {};
      }
    }
  }

  // ---------------------------------------------------------------------------
  // Unit propagation in closed form
  // ---------------------------------------------------------------------------

  /** The literals a sequence visits. */
  function Elems(s: seq<Literal>): set<Literal>
  {
    set x | x in s
  }

  /** c holds no literal of A. */
  predicate Clear(c: Clause, A: set<Literal>)
  {
    forall l :: l in A ==> l !in c
  }

  /**
   * F with every literal of A made true: the clauses holding a literal of A
   * are dropped and the complements of A are struck from the others.
   */
  function Reduce(F: Formula, A: set<Literal>): Formula
  {
    set c | c in F && Clear(c, A) :: c - Negation(A)
  }

  /** Clause c reduces to the unit clause {l} once the literals of A are true. */
  predicate ForcedBy(c: Clause, l: Literal, A: set<Literal>)
  {
    l in c && forall x :: x in c && x != l ==> -x in A
  }

  /**
   * s is a run of unit propagation from F: each literal is forced by a clause
   * of F once the literals before it are true.
   */
  ghost predicate UnitDerivation(F: Formula, s: seq<Literal>)
  {
    forall i :: 0 <= i < |s| ==> ForcedAt(F, s, i)
  }

  /** Some clause of F forces s[i] once the literals before it are true. */
  ghost predicate ForcedAt(F: Formula, s: seq<Literal>, i: nat)
    requires i < |s|
  {
    exists c :: c in F && ForcedBy(c, s[i], Elems(s[..i]))
  }

  lemma ReduceNothing(F: Formula)
    ensures Reduce(F, {}) == F
  {
    assert Negation({}) == {};
    forall c | c in F
      ensures c in Reduce(F, {})
    {
      assert c - {} == c;
    }
    forall e | e in Reduce(F, {})
      ensures e in F
    {
      var c :| c in F && Clear(c, {}) && e == c - Negation({});
      assert c - {} == c;
    }
  }

  /** A clause of F mentioning no literal of A, in either polarity, survives unchanged. */
  lemma ReduceKeepsUntouched(F: Formula, A: set<Literal>, c: Clause)
    requires c in F && Clear(c, A) && Clear(c, Negation(A))
    ensures c in Reduce(F, A)
  {
    assert c - Negation(A) == c;
  }

  /**
   * When the literals of A touch the clauses of D, which they satisfy, and
   * no other clause of F, reducing F by A just drops D.
   */
  lemma ReduceDropsSatisfied(F: Formula, A: set<Literal>, D: Formula)
    requires forall c :: c in D ==> c in F && !Clear(c, A)
    requires forall c :: c in F && c !in D ==> Clear(c, A) && Clear(c, Negation(A))
    ensures Reduce(F, A) == F - D
  {
    forall c | c in F - D
      ensures c in Reduce(F, A)
    {
      ReduceKeepsUntouched(F, A, c);
    }
    forall c | c in Reduce(F, A)
      ensures c in F - D
    {
      var d :| d in F && Clear(d, A) && c == d - Negation(A);
      assert d - Negation(A) == d;
    }
  }

  /** A unit clause {l} of the reduced formula was forced by A, and A does not hold -l. */
  lemma ReduceUnit(F: Formula, A: set<Literal>, l: Literal)
    requires {l} in Reduce(F, A)
    ensures -l !in A
    ensures exists c :: c in F && ForcedBy(c, l, A)
  {
    var c :| c in F && Clear(c, A) && {l} == c - Negation(A);
    assert l in c - Negation(A);
    forall x | x in c && x != l
      ensures -x in A
    {
      assert x !in c - Negation(A);
    }
    assert ForcedBy(c, l, A);
  }

  /** Propagating one more literal l, whose complement is not already true, extends the reduction. */
  lemma PropagateReduce(F: Formula, A: set<Literal>, l: Literal)
    requires -l !in A
    ensures Propagate(Reduce(F, A), l) == Reduce(F, A + {l})
  {
    var NA := Negation(A);
    var NB := Negation(A + {l});
    assert NB == NA + {-l};
    var R := Reduce(F, A);
    forall e | e in Propagate(R, l)
      ensures e in Reduce(F, A + {l})
    {
      var d :| d in R && l !in d && e == d - {-l};
      var c :| c in F && Clear(c, A) && d == c - NA;
      assert l !in c;
      assert Clear(c, A + {l});
      assert e == c - NB;
    }
    forall e | e in Reduce(F, A + {l})
      ensures e in Propagate(R, l)
    {
      var c :| c in F && Clear(c, A + {l}) && e == c - NB;
      var d := c - NA;
      assert d in R && l !in d;
      assert e == d - {-l};
    }
  }

  /** F after propagating the literals of s one after the other. */
  function PropagateAll(F: Formula, s: seq<Literal>): Formula
    decreases |s|
  {
    if s == [] then F else Propagate(PropagateAll(F, s[..|s| - 1]), s[|s| - 1])
  }

  /** No literal of s comes after its own complement. */
  predicate Consistent(s: seq<Literal>)
  {
    forall i :: 0 <= i < |s| ==> -s[i] !in s[..i]
  }

  lemma {:induction false} PropagateAllAppend(F: Formula, s: seq<Literal>, t: seq<Literal>)
    ensures PropagateAll(PropagateAll(F, s), t) == PropagateAll(F, s + t)
    decreases |t|
  {
    if t == [] {
      assert s + t == s;
    } else {
      var n := |t| - 1;
      PropagateAllAppend(F, s, t[..n]);
      assert (s + t)[..|s + t| - 1] == s + t[..n];
      assert (s + t)[|s + t| - 1] == t[n];
    }
  }

  /**
   * Propagating a consistent run literal by literal is the same as making
   * all of its literals true at once.
   */
  lemma {:induction false} PropagateAllReduce(F: Formula, s: seq<Literal>)
    requires Consistent(s)
    ensures PropagateAll(F, s) == Reduce(F, Elems(s))
    decreases |s|
  {
    if s == [] {
      assert Elems(s) == {};
      ReduceNothing(F);
    } else {
      var n := |s| - 1;
      var prefix := s[..n];
      forall i | 0 <= i < |prefix|
        ensures -prefix[i] !in prefix[..i]
      {
        assert prefix[..i] == s[..i];
      }
      PropagateAllReduce(F, prefix);
      assert -s[n] !in Elems(prefix);
      PropagateReduce(F, Elems(prefix), s[n]);
      assert s == prefix + [s[n]];
      assert Elems(s) == Elems(prefix) + {s[n]};
    }
  }

  /** A pass of the for-loop ends in {∅} or propagates every visited literal. */
  lemma {:induction false} UnitPassPropagates(G: Formula, order: seq<Literal>)
    ensures UnitPass(G, order) == {{}} || UnitPass(G, order) == PropagateAll(G, order)
    decreases |order|
  {
    if order != [] {
      var n := |order| - 1;
      UnitPassPropagates(G, order[..n]);
      var H := UnitPass(G, order[..n]);
      if H == {} {
        assert Propagate(H, order[n]) == {};
      }
    }
  }

  /** A pass that does not end in {∅} never visits a literal after its complement. */
  lemma UnitPassConsistent(G: Formula, order: seq<Literal>)
    requires DistinctIn(order, FindUnitClauses(G))
    requires UnitPass(G, order) != {{}}
    ensures Consistent(order)
  {
    var U := FindUnitClauses(G);
    forall k | 0 <= k < |order|
      ensures -order[k] !in order[..k]
    {
      if -order[k] in order[..k] {
        assert order[k] != 0;
        UnitPassClash(G, U, order, order[k]);
      }
    }
  }

  /** The unit literals of Reduce(F, A) do not contradict A. */
  lemma ReduceUnitsClear(F: Formula, A: set<Literal>, order: seq<Literal>)
    requires forall k :: 0 <= k < |order| ==> order[k] in FindUnitClauses(Reduce(F, A))
    ensures forall k :: 0 <= k < |order| ==> -order[k] !in A
  {
    forall k | 0 <= k < |order|
      ensures -order[k] !in A
    {
      ReduceUnit(F, A, order[k]);
    }
  }

  /** Appending a consistent round that does not contradict a consistent run keeps it consistent. */
  lemma ConsistentExtend(s: seq<Literal>, order: seq<Literal>)
    requires Consistent(s) && Consistent(order)
    requires forall k :: 0 <= k < |order| ==> -order[k] !in Elems(s)
    ensures Consistent(s + order)
  {
    var t := s + order;
    forall i | 0 <= i < |t|
      ensures -t[i] !in t[..i]
    {
      if i < |s| {
        assert t[..i] == s[..i] && t[i] == s[i];
      } else {
        var k := i - |s|;
        assert t[i] == order[k] && t[..i] == s + order[..k];
      }
    }
  }

  lemma ForcedByMonotone(c: Clause, l: Literal, A: set<Literal>, B: set<Literal>)
    requires ForcedBy(c, l, A) && A <= B
    ensures ForcedBy(c, l, B)
  {
  }

  /** The unit literals of the reduction by a derivation s extend the derivation. */
  lemma UnitDerivationExtend(F: Formula, s: seq<Literal>, order: seq<Literal>)
    requires UnitDerivation(F, s)
    requires forall k :: 0 <= k < |order| ==> order[k] in FindUnitClauses(Reduce(F, Elems(s)))
    ensures UnitDerivation(F, s + order)
  {
    var t := s + order;
    forall i | 0 <= i < |t|
      ensures ForcedAt(F, t, i)
    {
      if i < |s| {
        assert t[..i] == s[..i] && t[i] == s[i];
        assert ForcedAt(F, s, i);
      } else {
        var k := i - |s|;
        assert t[i] == order[k];
        ReduceUnit(F, Elems(s), order[k]);
        var c :| c in F && ForcedBy(c, order[k], Elems(s));
        assert t[..i] == s + order[..k];
        ForcedByMonotone(c, order[k], Elems(s), Elems(t[..i]));
      }
    }
  }

  /** Without a conflict, propagation never creates the empty clause. */
  lemma PropagateNoNewEmpty(G: Formula, l: Literal)
    requires !Conflicts(G, l)
    ensures {} in Propagate(G, l) ==> {} in G
  {
    if {} in Propagate(G, l) {
      var c :| c in G && l !in c && c - {-l} == {};
      assert c == {} || c == {-l};
    }
  }

  /** The empty formula and {∅} are left alone by propagation. */
  lemma PropagateFixed(G: Formula, l: Literal)
    requires G == {} || G == {{}}
    ensures Propagate(G, l) == G
  {
    if G == {{}} {
      assert {} - {-l} == {};
    }
  }

  /** One turn of the for-loop without a conflict extends the propagation. */
  lemma PropagateStepKeeps(G0: Formula, order: seq<Literal>, G: Formula, lit: Literal)
    requires G == PropagateAll(G0, order) && ({} in G ==> {} in G0)
    requires G == {} || G == {{}} || !Conflicts(G, lit)
    ensures UnitStep(G, lit) == PropagateAll(G0, order + [lit])
    ensures {} in UnitStep(G, lit) ==> {} in G0
  {
    assert (order + [lit])[..|order|] == order;
    if G == {} || G == {{}} {
      PropagateFixed(G, lit);
    } else {
      PropagateNoNewEmpty(G, lit);
    }
  }

  /** No literal of order meets a conflict when it is propagated from G0. */
  ghost predicate ConflictFree(G0: Formula, order: seq<Literal>)
    decreases |order|
  {
    || order == []
    || (&& ConflictFree(G0, order[..|order| - 1])
        && !Conflicts(PropagateAll(G0, order[..|order| - 1]), order[|order| - 1]))
  }

  /** A pass of the for-loop that does not end in {∅} met no conflict. */
  lemma {:induction false} UnitPassConflictFree(G0: Formula, order: seq<Literal>)
    requires UnitPass(G0, order) != {{}}
    ensures ConflictFree(G0, order)
    decreases |order|
  {
    if order != [] {
      var n := |order| - 1;
      var prefix := order[..n];
      assert UnitPass(G0, prefix) != {{}};
      UnitPassConflictFree(G0, prefix);
      UnitPassPropagates(G0, prefix);
      assert !Conflicts(UnitPass(G0, prefix), order[n]) by {
        assert {-order[n]} != {} by {
          assert -order[n] in {-order[n]};
        }
      }
    }
  }

  /** Two conflict-free runs one after the other make a conflict-free run. */
  lemma {:induction false} ConflictFreeAppend(F: Formula, s: seq<Literal>, t: seq<Literal>)
    requires ConflictFree(F, s) && ConflictFree(PropagateAll(F, s), t)
    ensures ConflictFree(F, s + t)
    decreases |t|
  {
    if t == [] {
      assert s + t == s;
    } else {
      var n := |t| - 1;
      ConflictFreeAppend(F, s, t[..n]);
      PropagateAllAppend(F, s, t[..n]);
      assert (s + t)[..|s + t| - 1] == s + t[..n];
      assert (s + t)[|s + t| - 1] == t[n];
    }
  }

  /**
   * No clause of F other than the empty clause is struck to nothing when
   * the literals of A are made true.
   */
  predicate NoClauseEmptied(F: Formula, A: set<Literal>)
  {
    forall c :: c in F && c != {} && Clear(c, A) ==> c - Negation(A) != {}
  }

  /** Making one more literal true without a conflict empties no clause. */
  lemma NoClauseEmptiedStep(F: Formula, A: set<Literal>, l: Literal)
    requires NoClauseEmptied(F, A) && !Conflicts(Reduce(F, A), l)
    ensures NoClauseEmptied(F, A + {l})
  {
    forall c | c in F && c != {} && Clear(c, A + {l})
      ensures c - Negation(A + {l}) != {}
    {
      var d := c - Negation(A);
      assert d in Reduce(F, A);
      assert -l !in d || l != 0;
      assert d != {-l};
      NonEmptyHasMember(d);
      var x :| x in d;
      if x == -l {
        assert d - {-l} != {} by {
          assert d != {-l};
        }
        NonEmptyHasMember(d - {-l});
        var y :| y in d - {-l};
        assert y in c - Negation(A + {l});
      } else {
        assert x in c - Negation(A + {l});
      }
    }
  }

  /**
   * A consistent run in which no literal meets a conflict strikes no
   * nonempty clause of F to nothing.
   */
  lemma {:induction false} ConflictFreeNoEmptied(F: Formula, s: seq<Literal>)
    requires Consistent(s) && ConflictFree(F, s)
    ensures NoClauseEmptied(F, Elems(s))
    decreases |s|
  {
    if s == [] {
      assert Elems(s) == {};
      assert Negation({}) == {};
    } else {
      var n := |s| - 1;
      var prefix := s[..n];
      forall i | 0 <= i < n
        ensures -prefix[i] !in prefix[..i]
      {
        assert prefix[..i] == s[..i];
      }
      ConflictFreeNoEmptied(F, prefix);
      assert Consistent(prefix);
      PropagateAllReduce(F, prefix);
      NoClauseEmptiedStep(F, Elems(prefix), s[n]);
      assert s == prefix + [s[n]];
      assert Elems(s) == Elems(prefix) + {s[n]};
    }
  }

  /**
   * The last literal of order is where the for-loop stops on a conflict:
   * the formula before it is neither empty nor {∅}, and striking its
   * complement empties a clause.
   */
  predicate ConflictAtLast(G0: Formula, order: seq<Literal>)
    requires order != []
  {
    var before := UnitPass(G0, order[..|order| - 1]);
    before != {} && before != {{}} && Conflicts(before, order[|order| - 1])
  }

  /**
   * The for-loop of unit_clause_rule: apply the unit literals U found in G0,
   * one after the other in any order, skipping them once the formula is
   * empty or {∅}; stop at the first conflict.
   */
  method ApplyUnitLiterals(G0: Formula, U: set<Literal>)
    returns (G: Formula, conflict: bool, ghost order: seq<Literal>)
    ensures DistinctIn(order, U) && G == UnitPass(G0, order)
    ensures conflict ==> G == {{}} && order != [] && ConflictAtLast(G0, order)
    ensures !conflict ==> forall x :: x in U ==> x in order
    ensures !conflict ==> G == PropagateAll(G0, order) && ({} in G ==> {} in G0)
  {
    G := G0;
    order := [];
    var todo := U;
    while todo != {}
      invariant todo <= U
      invariant DistinctIn(order, U) && G == UnitPass(G0, order)
      invariant forall x :: x in U ==> (x in order <==> x !in todo)
      invariant G == PropagateAll(G0, order) && ({} in G ==> {} in G0)
      decreases todo
    {
      NonEmptyHasMember(todo);
      var lit :| lit in todo;
      assert lit !in order;
      UnitPassStep(G0, order, lit, U);
      ghost var visited := order;
      if G != {} && G != {{}} {
        var result, conflicting := ApplyUnitLiteral(G, lit);
        if conflicting {
          G, conflict, order := {{}}, true, order + [lit];
          assert order[..|order| - 1] == visited;
          return;
        }
        PropagateStepKeeps(G0, order, G, lit);
        G := result;
      } else {
        PropagateStepKeeps(G0, order, G, lit);
      }
      order := order + [lit];
      assert order[..|order| - 1] == visited;
      todo := todo - {lit};
    }
    conflict := false;
  }

  // ---------------------------------------------------------------------------
  // unit_clause_rule
  // ---------------------------------------------------------------------------

  /** Some unit literal of F also occurs as a unit negated. */
  predicate ComplementaryUnits(F: Formula)
  {
    exists l :: l != 0 && l in FindUnitClauses(F) && -l in FindUnitClauses(F)
  }

  /** What a complete pass over the unit literals of G achieves. */
  lemma UnitRound(G: Formula, order: seq<Literal>)
    requires FindUnitClauses(G) != {} && DistinctIn(order, FindUnitClauses(G))
    requires forall x :: x in FindUnitClauses(G) ==> x in order
    ensures DerivedFrom(UnitPass(G, order), G)
    ensures Literals(UnitPass(G, order)) < Literals(G)
    ensures Avoids(UnitPass(G, order), FindUnitClauses(G))
    ensures ComplementaryUnits(G) ==> UnitPass(G, order) == {{}}
  {
    var U := FindUnitClauses(G);
    NonEmptyHasMember(U);
    var u :| u in U;
    assert order != [] by { assert u in order; }
    UnitPassDerived(G, U, order);
    UnitPassAvoids(G, order);
    assert U <= set x | x in order;
    if ComplementaryUnits(G) {
      var x :| x != 0 && x in U && -x in U;
      UnitPassClash(G, U, order, x);
    }
  }

  /**
   * The state of the outer loop of unit_clause_rule: first holds until the
   * first round of unit literals has been applied.
   */
  ghost predicate UnitRuleInv(F: Formula, G: Formula, first: bool)
  {
    && (first ==> G == F)
    && (NoUnitClause(F) ==> first)
    && (ComplementaryUnits(F) ==> first || G == {{}})
    && DerivedFrom(G, F)
    && (!first ==> Avoids(G, FindUnitClauses(F)))
  }

  lemma UnitRuleInit(F: Formula)
    ensures UnitRuleInv(F, F, true)
  {
    DerivedFromReflexive(F);
  }

  /** A complete round of unit literals keeps the outer state and loses a literal. */
  lemma UnitRuleStep(F: Formula, G: Formula, first: bool, order: seq<Literal>)
    requires UnitRuleInv(F, G, first)
    requires FindUnitClauses(G) != {} && DistinctIn(order, FindUnitClauses(G))
    requires forall x :: x in FindUnitClauses(G) ==> x in order
    ensures UnitRuleInv(F, UnitPass(G, order), false)
    ensures Literals(UnitPass(G, order)) < Literals(G)
  {
    var R := UnitPass(G, order);
    UnitRound(G, order);
    DerivedFromTransitive(R, G, F);
    NoUnitClauseIffNoneFound(F);
    if !first {
      SubsumedAvoids(R, G, FindUnitClauses(F));
      assert G != {{}};
    }
  }

  /** Leaving the outer loop: no unit clause is left. */
  lemma UnitRuleExit(F: Formula, G: Formula, first: bool)
    requires UnitRuleInv(F, G, first) && FindUnitClauses(G) == {}
    ensures NoUnitClause(G)
    ensures ComplementaryUnits(F) ==> G == {{}}
    ensures Subsumed(G, F)
    ensures |G| <= |F|
    ensures Avoids(G, FindUnitClauses(F))
    ensures NoUnitClause(F) ==> G == F
    ensures WellFormed(F) ==> WellFormed(G) && (Satisfiable(G) <==> Satisfiable(F))
  {
    NoUnitClauseIffNoneFound(G);
  }

  /** A conflict in some round: the input was unsatisfiable and {∅} stands for it. */
  lemma UnitRuleConflict(F: Formula, G: Formula, first: bool, order: seq<Literal>)
    requires UnitRuleInv(F, G, first)
    requires FindUnitClauses(G) != {} && DistinctIn(order, FindUnitClauses(G))
    requires UnitPass(G, order) == {{}}
    ensures DerivedFrom({{}}, F)
    ensures Avoids({{}}, FindUnitClauses(F))
  {
    UnitPassDerived(G, FindUnitClauses(G), order);
    DerivedFromTransitive({{}}, G, F);
  }

  /** Inside the outer loop with unit clauses still found, F had a unit clause. */
  lemma UnitRuleHadUnits(F: Formula, G: Formula, first: bool)
    requires UnitRuleInv(F, G, first) && FindUnitClauses(G) != {}
    ensures !NoUnitClause(F)
  {
    NoUnitClauseIffNoneFound(G);
  }

  /**
   * The ghost state of the outer loop of unit_clause_rule: applied is a run
   * of unit propagation from F, G is F propagated along it, G holds the
   * empty clause only if F does, and after the first round every unit
   * literal of F is in the run.
   */
  ghost predicate UnitTrace(F: Formula, G: Formula, applied: seq<Literal>, first: bool)
  {
    && UnitDerivation(F, applied)
    && G == PropagateAll(F, applied)
    && (G != {{}} ==> Consistent(applied))
    && ({} in G ==> {} in F)
    && (G != {{}} ==> ConflictFree(F, applied))
    && (first ==> applied == [])
    && (!first ==> FindUnitClauses(F) <= Elems(applied))
  }

  lemma UnitTraceInit(F: Formula)
    ensures UnitTrace(F, F, [], true)
  {
  }

  /** A complete round of unit literals without a conflict extends the run. */
  lemma UnitTraceStep(F: Formula, G: Formula, applied: seq<Literal>, first: bool, order: seq<Literal>)
    requires UnitTrace(F, G, applied, first)
    requires FindUnitClauses(G) != {} && DistinctIn(order, FindUnitClauses(G))
    requires forall x :: x in FindUnitClauses(G) ==> x in order
    requires UnitPass(G, order) == PropagateAll(G, order)
    requires {} in UnitPass(G, order) ==> {} in G
    ensures UnitTrace(F, UnitPass(G, order), applied + order, false)
  {
    var U := FindUnitClauses(G);
    NonEmptyHasMember(U);
    var u :| u in U;
    assert {u} in G && {u} != {};
    RunExtend(F, G, applied, order);
    if UnitPass(G, order) != {{}} {
      UnitPassConflictFree(G, order);
      ConflictFreeAppend(F, applied, order);
    }
    UnitRoundCovers(F, G, applied, first, order);
  }

  /**
   * Appending unit literals of the current formula G = F propagated along
   * applied gives a longer run, consistent unless the pass ends in {∅}.
   */
  lemma RunExtend(F: Formula, G: Formula, applied: seq<Literal>, order: seq<Literal>)
    requires UnitDerivation(F, applied) && Consistent(applied) && G == PropagateAll(F, applied)
    requires DistinctIn(order, FindUnitClauses(G))
    ensures UnitDerivation(F, applied + order)
    ensures PropagateAll(G, order) == PropagateAll(F, applied + order)
    ensures UnitPass(G, order) != {{}} ==> Consistent(applied + order)
  {
    PropagateAllReduce(F, applied);
    UnitDerivationExtend(F, applied, order);
    PropagateAllAppend(F, applied, order);
    if UnitPass(G, order) != {{}} {
      UnitPassConsistent(G, order);
      ReduceUnitsClear(F, Elems(applied), order);
      ConsistentExtend(applied, order);
    }
  }

  /**
   * A round that stops on a conflict: the run up to the conflicting literal
   * leaves a formula with complementary unit clauses.
   */
  lemma UnitTraceConflict(F: Formula, G: Formula, applied: seq<Literal>, first: bool, order: seq<Literal>)
    requires UnitTrace(F, G, applied, first)
    requires FindUnitClauses(G) != {} && DistinctIn(order, FindUnitClauses(G))
    requires order != [] && ConflictAtLast(G, order)
    ensures PropagatedBy(F, {{}}, applied + order[..|order| - 1])
  {
    assert G != {{}} by {
      var U := FindUnitClauses(G);
      NonEmptyHasMember(U);
      var u :| u in U;
      assert {u} in G && {u} != {};
    }
    var prefix := order[..|order| - 1];
    ConflictingUnits(G, order);
    RunExtend(F, G, applied, prefix);
    var run := applied + prefix;
    assert UnitPass(G, prefix) == PropagateAll(F, run);
    assert Consistent(run) && ComplementaryUnits(PropagateAll(F, run));
  }

  /** Before a conflicting literal, the pass has propagated and holds complementary unit clauses. */
  lemma ConflictingUnits(G: Formula, order: seq<Literal>)
    requires DistinctIn(order, FindUnitClauses(G))
    requires order != [] && ConflictAtLast(G, order)
    ensures DistinctIn(order[..|order| - 1], FindUnitClauses(G))
    ensures UnitPass(G, order[..|order| - 1]) == PropagateAll(G, order[..|order| - 1])
    ensures ComplementaryUnits(UnitPass(G, order[..|order| - 1]))
  {
    var U := FindUnitClauses(G);
    var n := |order| - 1;
    var prefix, lit := order[..n], order[n];
    DistinctInPrefix(order, U);
    var H := UnitPass(G, prefix);
    assert H != {{}} && lit != 0 && {-lit} in H;
    UnitPassPropagates(G, prefix);
    assert {lit} in H by {
      UnitPassKeepsUnits(G, U, prefix);
    }
    assert lit in FindUnitClauses(H) && -lit in FindUnitClauses(H);
  }

  /** After a round, every unit literal of F has been applied. */
  lemma UnitRoundCovers(F: Formula, G: Formula, applied: seq<Literal>, first: bool, order: seq<Literal>)
    requires first ==> applied == [] && G == F
    requires !first ==> FindUnitClauses(F) <= Elems(applied)
    requires forall x :: x in FindUnitClauses(G) ==> x in order
    ensures FindUnitClauses(F) <= Elems(applied + order)
  {
  }

  /**
   * G is what unit propagation from F along applied gives. applied is a run
   * of unit propagation. Either G is F propagated along it, with every unit
   * literal of F applied, no empty clause that F did not have and no
   * nonempty clause of F struck to nothing; or G is the sentinel {∅} and
   * the run has reached complementary unit clauses.
   */
  ghost predicate PropagatedBy(F: Formula, G: Formula, applied: seq<Literal>)
  {
    && UnitDerivation(F, applied)
    && (|| (&& G == PropagateAll(F, applied)
            && (G != {{}} ==> Consistent(applied))
            && ({} in G ==> {} in F)
            && (G != {{}} ==> NoClauseEmptied(F, Elems(applied)))
            && FindUnitClauses(F) <= Elems(applied))
        || (&& G == {{}}
            && Consistent(applied)
            && ComplementaryUnits(PropagateAll(F, applied))))
  }

  /** Leaving the outer loop without a conflict. */
  lemma UnitTraceExit(F: Formula, G: Formula, applied: seq<Literal>, first: bool)
    requires UnitTrace(F, G, applied, first) && FindUnitClauses(G) == {}
    requires first ==> G == F
    ensures PropagatedBy(F, G, applied)
  {
    if G != {{}} {
      ConflictFreeNoEmptied(F, applied);
    }
  }

  /**
   * Unless it ends in {∅}, unit propagation leaves F with every applied
   * literal made true, and every clause the applied literals do not touch
   * survives unchanged.
   */
  lemma UnitClosedForm(F: Formula, G: Formula, applied: seq<Literal>)
    requires PropagatedBy(F, G, applied) && G != {{}}
    ensures G == Reduce(F, Elems(applied))
    ensures forall c :: c in F && Clear(c, Elems(applied)) && Clear(c, Negation(Elems(applied))) ==> c in G
  {
    PropagateAllReduce(F, applied);
    forall c | c in F && Clear(c, Elems(applied)) && Clear(c, Negation(Elems(applied)))
      ensures c in G
    {
      ReduceKeepsUntouched(F, Elems(applied), c);
    }
  }

  /**
   * When every clause of F other than {l} has two literals other than -l,
   * l is the only literal unit propagation can ever force.
   */
  lemma {:induction false} RunOfOneLiteral(F: Formula, l: Literal, s: seq<Literal>)
    requires forall c :: c in F && c != {l} ==> exists x, y :: x in c && y in c && x != y && x != -l && y != -l
    requires UnitDerivation(F, s)
    ensures forall i :: 0 <= i < |s| ==> s[i] == l
    decreases |s|
  {
    if s != [] {
      var n := |s| - 1;
      var prefix := s[..n];
      forall i | 0 <= i < |prefix|
        ensures ForcedAt(F, prefix, i)
      {
        assert ForcedAt(F, s, i);
        assert prefix[..i] == s[..i];
      }
      RunOfOneLiteral(F, l, prefix);
      assert Elems(prefix) <= {l};
      assert ForcedAt(F, s, n);
      var c :| c in F && ForcedBy(c, s[n], Elems(s[..n]));
      assert s[..n] == prefix;
      assert c <= {s[n], -l};
      assert c == {l};
    }
  }

  lemma ExampleReduce()
    ensures Reduce({{1}, {2, 3}}, {1}) == {{2, 3}}
  {
    assert Negation({1}) == {-1};
    assert !Clear({1}, {1}) && Clear({2, 3}, {1});
    assert {2, 3} - {-1} == {2, 3};
  }

  /**
   * A result that meets the contract of UnitClauseRule on {{1}, {2, 3}} is
   * {{2, 3}}: the unit clause goes and the untouched clause stays.
   */
  lemma UnitRuleExample(G: Formula, applied: seq<Literal>)
    requires DerivedFrom(G, {{1}, {2, 3}}) && PropagatedBy({{1}, {2, 3}}, G, applied)
    ensures G == {{2, 3}}
  {
    var F: Formula := {{1}, {2, 3}};
    assert G != {{}} by {
      assert WellFormed(F);
      assert LiteralTrue({1, 2}, 1) && LiteralTrue({1, 2}, 2);
      assert Models({1, 2}, F);
      var a: Assignment :| Models(a, G);
      assert {} !in G;
    }
    assert 2 in {2, 3} && 3 in {2, 3};
    RunOfOneLiteral(F, 1, applied);
    assert 1 in FindUnitClauses(F);
    assert Elems(applied) == {1};
    UnitClosedForm(F, G, applied);
    ExampleReduce();
  }

  /**
   * What unit_clause_rule promises about its result G on input F, given the
   * run applied of the unit literals it applied: G is {∅} or has no unit
   * clause; complementary unit clauses give {∅}; G is derived from F and
   * mentions no unit literal of F; F without unit clauses comes back
   * unchanged; G is what propagation along applied gives (PropagatedBy);
   * and G holds the empty clause, other than as {∅}, only if F does.
   */
  ghost predicate UnitRuleSpec(F: Formula, G: Formula, applied: seq<Literal>)
  {
    && (G == {{}} || NoUnitClause(G))
    && (ComplementaryUnits(F) ==> G == {{}})
    && DerivedFrom(G, F)
    && Avoids(G, FindUnitClauses(F))
    && (NoUnitClause(F) ==> G == F)
    && PropagatedBy(F, G, applied)
    && (G != {{}} && {} in G ==> {} in F)
  }

  /**
   * A formula whose only unit clause is {l}, every other clause holding two
   * literals and neither l nor -l: its unit literals are exactly l, and none
   * are left once l is made true.
   */
  ghost predicate SingleUnit(F: Formula, l: Literal)
  {
    && l != 0 && {l} in F
    && forall c :: c in F && c != {l} ==> l !in c && -l !in c && TwoLiterals(c)
  }

  /** Clause c holds at least two distinct literals. */
  predicate TwoLiterals(c: Clause)
  {
    exists x, y :: x in c && y in c && x != y
  }

  lemma SingleUnitUnits(F: Formula, l: Literal)
    requires SingleUnit(F, l)
    ensures FindUnitClauses(F) == {l}
  {
    forall m | {m} in F
      ensures m == l
    {
      assert !TwoLiterals({m});
      assert m in {l};
    }
  }

  lemma SingleUnitDrop(F: Formula, l: Literal)
    requires SingleUnit(F, l)
    ensures Reduce(F, {l}) == F - {{l}} && FindUnitClauses(F - {{l}}) == {}
  {
    assert Negation({l}) == {-l};
    ReduceDropsSatisfied(F, {l}, {{l}});
    forall m
      ensures {m} !in F - {{l}}
    {
      assert !TwoLiterals({m});
    }
  }

  /** Making at most l true in such a formula never yields complementary unit clauses. */
  lemma SingleUnitNoConflict(F: Formula, l: Literal, A: set<Literal>)
    requires SingleUnit(F, l) && A <= {l}
    ensures !ComplementaryUnits(Reduce(F, A))
  {
    if A == {} {
      ReduceNothing(F);
      SingleUnitUnits(F, l);
    } else {
      assert A == {l};
      SingleUnitDrop(F, l);
    }
  }

  /**
   * On a formula whose only unit clause is {l}, unit propagation ends with
   * the formula without {l}: only l can be forced, so no conflict arises
   * however the rest of the formula looks.
   */
  lemma UnitRuleSingleUnit(F: Formula, l: Literal, G: Formula, applied: seq<Literal>)
    requires SingleUnit(F, l) && PropagatedBy(F, G, applied)
    ensures G == F - {{l}}
  {
    forall c | c in F && c != {l}
      ensures exists x, y :: x in c && y in c && x != y && x != -l && y != -l
    {
      var x, y :| x in c && y in c && x != y;
      assert x != -l && y != -l;
    }
    RunOfOneLiteral(F, l, applied);
    assert Elems(applied) <= {l};
    assert Consistent(applied);
    PropagateAllReduce(F, applied);
    SingleUnitNoConflict(F, l, Elems(applied));
    SingleUnitUnits(F, l);
    assert l in Elems(applied);
    assert Elems(applied) == {l};
    SingleUnitDrop(F, l);
  }

  /** {{1}, {2, 3}, {-2, 3}, {2, -3}, {-2, -3}} has {1} as its only unit clause. */
  lemma ExampleSingleUnit()
    ensures SingleUnit({{1}, {2, 3}, {-2, 3}, {2, -3}, {-2, -3}}, 1)
  {
    forall c | c in {{1}, {2, 3}, {-2, 3}, {2, -3}, {-2, -3}} && c != {1}
      ensures 1 !in c && -1 !in c && TwoLiterals(c)
    {
      if c == {2, 3} {
        assert 2 in c && 3 in c;
      } else if c == {-2, 3} {
        assert -2 in c && 3 in c;
      } else if c == {2, -3} {
        assert 2 in c && -3 in c;
      } else {
        assert -2 in c && -3 in c;
      }
    }
  }

  /**
   * On {{1}, {2, 3}, {-2, 3}, {2, -3}, {-2, -3}}, which is unsatisfiable,
   * unit propagation ends with the four 2-clauses and no conflict.
   */
  lemma UnitRuleNoConflictExample(G: Formula, applied: seq<Literal>)
    requires PropagatedBy({{1}, {2, 3}, {-2, 3}, {2, -3}, {-2, -3}}, G, applied)
    ensures G == {{2, 3}, {-2, 3}, {2, -3}, {-2, -3}}
  {
    ExampleSingleUnit();
    UnitRuleSingleUnit({{1}, {2, 3}, {-2, 3}, {2, -3}, {-2, -3}}, 1, G, applied);
    ExampleDropUnit();
  }

  lemma ExampleDropUnit()
    ensures {{1}, {2, 3}, {-2, 3}, {2, -3}, {-2, -3}} - {{1}} == {{2, 3}, {-2, 3}, {2, -3}, {-2, -3}}
  {
    assert {1} !in {{2, 3}, {-2, 3}, {2, -3}, {-2, -3}} by {
      assert 1 in {1};
    }
  }

  /** A consistent run never holds a literal together with its complement. */
  lemma ConsistentElems(s: seq<Literal>, x: Literal)
    requires Consistent(s) && x != 0 && x in Elems(s)
    ensures -x !in Elems(s)
  {
    var i :| 0 <= i < |s| && s[i] == x;
    forall j | 0 <= j < |s|
      ensures s[j] != -x
    {
      if i < j {
        assert s[..j][i] == x;
      } else if j < i {
        assert s[..i][j] == s[j];
      }
    }
  }

  /**
   * A formula with a unit clause {l} and the clauses {-l, m} and {-l, -m}:
   * whichever way the unit literals are applied, the unit rule ends in {∅},
   * even when the formula already holds the empty clause.
   */
  lemma UnitRuleForcedConflict(F: Formula, l: Literal, m: Literal, G: Formula, applied: seq<Literal>)
    requires l != 0 && m != 0 && m != l && m != -l
    requires {l} in F && {-l, m} in F && {-l, -m} in F
    requires PropagatedBy(F, G, applied) && (G == {{}} || NoUnitClause(G))
    ensures G == {{}}
  {
    if G != {{}} {
      var A := Elems(applied);
      UnitClosedForm(F, G, applied);
      assert l in A;
      ConsistentElems(applied, l);
      if m in A {
        ConsistentElems(applied, m);
      }
      ReducePairOfClauses(F, A, l, m);
      assert IsUnitClause({m});
      assert false;
    }
  }

  /**
   * With l true and -l false, the clauses {-l, m} and {-l, -m} leave either
   * a clause struck to nothing or the unit clause {m}.
   */
  lemma ReducePairOfClauses(F: Formula, A: set<Literal>, l: Literal, m: Literal)
    requires l != 0 && m != 0 && m != l && m != -l
    requires {-l, m} in F && {-l, -m} in F
    requires l in A && -l !in A && !(m in A && -m in A)
    ensures !NoClauseEmptied(F, A) || {m} in Reduce(F, A)
  {
    if m in A {
      assert Clear({-l, -m}, A);
      assert {-l, -m} - Negation(A) == {};
    } else if -m in A {
      assert Clear({-l, m}, A);
      assert {-l, m} - Negation(A) == {};
    } else {
      assert Clear({-l, m}, A);
      assert {-l, m} - Negation(A) == {m};
    }
  }

  /**
   * The unit rule on {{}, {1}, {-1, 2}, {-1, -2}, {5, -5}} gives {∅}: applying
   * 1 and then 2 strikes {-1, -2} to nothing, although the input already
   * holds the empty clause.
   */
  lemma UnitRuleStrayEmptyExample(G: Formula, applied: seq<Literal>)
    requires UnitRuleSpec({{}, {1}, {-1, 2}, {-1, -2}, {5, -5}}, G, applied)
    ensures G == {{}}
  {
    UnitRuleForcedConflict({{}, {1}, {-1, 2}, {-1, -2}, {5, -5}}, 1, 2, G, applied);
  }

  /** Leaving the outer loop when no unit clause is left. */
  lemma UnitRuleDone(F: Formula, G: Formula, applied: seq<Literal>, first: bool)
    requires UnitRuleInv(F, G, first) && UnitTrace(F, G, applied, first)
    requires FindUnitClauses(G) == {}
    ensures UnitRuleSpec(F, G, applied)
  {
    UnitRuleExit(F, G, first);
    UnitTraceExit(F, G, applied, first);
  }

  /** Leaving the outer loop at a conflict. */
  lemma UnitConflictExit(F: Formula, G: Formula, applied: seq<Literal>, first: bool,
                         order: seq<Literal>, run: seq<Literal>)
    requires UnitRuleInv(F, G, first) && UnitTrace(F, G, applied, first)
    requires FindUnitClauses(G) != {} && DistinctIn(order, FindUnitClauses(G))
    requires UnitPass(G, order) == {{}} && order != [] && ConflictAtLast(G, order)
    requires run == applied + order[..|order| - 1]
    ensures UnitRuleSpec(F, {{}}, run)
  {
    UnitRuleConflict(F, G, first, order);
    UnitRuleHadUnits(F, G, first);
    UnitTraceConflict(F, G, applied, first, order);
  }

  /** A round of the outer loop without a conflict keeps both loop invariants. */
  lemma UnitLoopStep(F: Formula, G: Formula, applied: seq<Literal>, first: bool, order: seq<Literal>)
    requires UnitRuleInv(F, G, first) && UnitTrace(F, G, applied, first)
    requires FindUnitClauses(G) != {} && DistinctIn(order, FindUnitClauses(G))
    requires forall x :: x in FindUnitClauses(G) ==> x in order
    requires UnitPass(G, order) == PropagateAll(G, order)
    requires {} in UnitPass(G, order) ==> {} in G
    ensures UnitRuleInv(F, UnitPass(G, order), false)
    ensures UnitTrace(F, UnitPass(G, order), applied + order, false)
    ensures Literals(UnitPass(G, order)) < Literals(G)
  {
    UnitRuleStep(F, G, first, order);
    UnitTraceStep(F, G, applied, first, order);
  }

  /**
   * unit_clause_rule: while unit clauses remain, apply each unit literal in
   * turn; stop with {∅} as soon as a clause is struck to nothing. The ghost
   * result applied lists the unit literals applied, in order.
   */
  method UnitClauseRule(F: Formula) returns (G: Formula, ghost applied: seq<Literal>)
    ensures UnitRuleSpec(F, G, applied)
  {
    G := F;
    applied := [];
    UnitRuleInit(F);
    UnitTraceInit(F);
    ghost var first := true;
    while true
      invariant UnitRuleInv(F, G, first)
      invariant UnitTrace(F, G, applied, first)
      decreases Literals(G)
    {
      var unitLiterals := FindUnitClauses(G);
      if unitLiterals == {} {
        UnitRuleDone(F, G, applied, first);
        return;
      }
      var result, conflict, order := ApplyUnitLiterals(G, unitLiterals);
      if conflict {
        ghost var run := applied + order[..|order| - 1];
        UnitConflictExit(F, G, applied, first, order, run);
        return {{}}, run;
      }
      UnitLoopStep(F, G, applied, first, order);
      G := result;
      applied := applied + order;
      first := false;
    }
  }

  // ---------------------------------------------------------------------------
  // pure_literal_rule
  // ---------------------------------------------------------------------------

  /** The clauses of F that hold no literal of L. */
  function RemoveClausesWith(F: Formula, L: set<Literal>): Formula
  {
    set c | c in F && forall l :: l in L ==> l !in c
  }

  /** Once {} or {∅} is reached, removing the clauses of more literals changes nothing. */
  lemma RemoveClausesWithSettled(F: Formula, V: set<Literal>, L: set<Literal>)
    requires V <= L
    requires RemoveClausesWith(F, V) == {} || RemoveClausesWith(F, V) == {{}}
    ensures RemoveClausesWith(F, L) == RemoveClausesWith(F, V)
  {
    if RemoveClausesWith(F, V) == {{}} {
      assert {} in RemoveClausesWith(F, L);
    }
  }

  /**
   * The for-loop of pure_literal_rule: drop every clause holding a pure
   * literal of P, one literal after the other; stop is set where Python
   * returns early, at {∅} or once no clause is left.
   */
  method RemovePureLiterals(G0: Formula, P: set<Literal>) returns (G: Formula, stop: bool)
    ensures G == RemoveClausesWith(G0, P)
    ensures stop ==> G == {} || G == {{}}
  {
    G := G0;
    var todo := P;
    while todo != {}
      invariant todo <= P
      invariant G == RemoveClausesWith(G0, P - todo)
      decreases todo
    {
      NonEmptyHasMember(todo);
      var lit :| lit in todo;
      if G == {{}} {
        RemoveClausesWithSettled(G0, P - todo, P);
        return G, true;
      }
      G := set clause | clause in G && lit !in clause;
      assert P - (todo - {lit}) == (P - todo) + {lit};
      todo := todo - {lit};
      if G == {} {
        RemoveClausesWithSettled(G0, P - todo, P);
        return G, true;
      }
    }
    assert P - todo == P;
    stop := false;
  }

  /** The pure literals of G, made true all at once (they never clash with each other). */
  function SetPure(a: Assignment, P: set<Literal>): (b: Assignment)
    requires forall l :: l in P ==> l != 0 && -l !in P
    ensures forall l :: l in P ==> LiteralTrue(b, l)
    ensures forall m :: m !in P && -m !in P ==> (LiteralTrue(b, m) <==> LiteralTrue(a, m))
  {
    (a - (set l | l in P && l < 0 :: -l)) + (set l | l in P && l > 0)
  }

  /** Dropping the clauses of the pure literals keeps satisfiability. */
  lemma RemovePureSatisfiable(G: Formula)
    requires WellFormed(G)
    ensures Satisfiable(RemoveClausesWith(G, FindPureLiterals(G))) <==> Satisfiable(G)
  {
    var P := FindPureLiterals(G);
    var R := RemoveClausesWith(G, P);
    if Satisfiable(G) {
      SubsetSatisfiable(G, R);
    }
    if Satisfiable(R) {
      var a :| Models(a, R);
      forall l | l in P
        ensures l != 0 && -l !in P
      {
        var c :| c in G && l in c;
      }
      var b := SetPure(a, P);
      forall c | c in G
        ensures ClauseTrue(b, c)
      {
        if c in R {
          var m :| m in c && LiteralTrue(a, m);
          assert m !in P;
          assert -m !in P;
          assert LiteralTrue(b, m);
        } else {
          var l :| l in P && l in c;
          assert LiteralTrue(b, l);
        }
      }
      assert Models(b, G);
    }
  }

  /** c holds a literal whose complement occurs nowhere in G. */
  predicate HasUnopposedLiteral(c: Clause, G: Formula)
  {
    exists l :: l in c && -l !in Literals(G)
  }

  /**
   * The state of the outer loop of pure_literal_rule: G is part of F, every
   * dropped clause holds a literal whose complement occurs nowhere in G, and
   * satisfiability is unchanged.
   */
  ghost predicate PureRuleInv(F: Formula, G: Formula)
  {
    && G <= F
    && (forall c :: c in F - G ==> HasUnopposedLiteral(c, G))
    && (WellFormed(F) ==> (Satisfiable(G) <==> Satisfiable(F)))
    && ContainsPureFreeParts(G, F)
  }

  /** Every part of F in which no literal is pure lies inside G. */
  ghost predicate ContainsPureFreeParts(G: Formula, F: Formula)
  {
    forall H :: H <= F && NoPureLiteral(H) ==> H <= G
  }

  /**
   * A part H of G without pure literals survives the removal of G's pure
   * literals: a clause of H holding a pure literal of G would bring that
   * literal into H, and with it (H having none pure) its complement into G.
   */
  lemma PureFreePartKept(G: Formula, H: Formula)
    requires H <= G && NoPureLiteral(H)
    ensures H <= RemoveClausesWith(G, FindPureLiterals(G))
  {
    var P := FindPureLiterals(G);
    forall c | c in H
      ensures c in RemoveClausesWith(G, P)
    {
      if c !in RemoveClausesWith(G, P) {
        var m :| m in P && m in c;
        assert m in Literals(H);
        NoPureLiteralOpposed(H, m);
        LiteralsMonotone(G, H);
        PureLiteralUnopposed(G, m);
        assert false;
      }
    }
  }

  /** Every clause dropped for a pure literal holds that literal. */
  lemma PureDropped(G: Formula)
    ensures forall c :: c in G - RemoveClausesWith(G, FindPureLiterals(G)) ==> HasUnopposedLiteral(c, G)
  {
    var P := FindPureLiterals(G);
    forall c | c in G - RemoveClausesWith(G, P)
      ensures HasUnopposedLiteral(c, G)
    {
      var m :| m in P && m in c;
      PureLiteralUnopposed(G, m);
    }
  }

  /** A clause with an unopposed literal in G keeps it in every part of G. */
  lemma UnopposedInPart(c: Clause, G: Formula, R: Formula)
    requires R <= G && HasUnopposedLiteral(c, G)
    ensures HasUnopposedLiteral(c, R)
  {
    LiteralsMonotone(G, R);
  }

  /** A round over the pure literals keeps the outer state and drops a clause. */
  lemma PureRuleStep(F: Formula, G: Formula)
    requires PureRuleInv(F, G) && FindPureLiterals(G) != {}
    ensures PureRuleInv(F, RemoveClausesWith(G, FindPureLiterals(G)))
    ensures RemoveClausesWith(G, FindPureLiterals(G)) < G
  {
    var P := FindPureLiterals(G);
    var R := RemoveClausesWith(G, P);
    NonEmptyHasMember(P);
    var l :| l in P;
    var d :| d in G && l in d;
    assert d !in R;
    PureDropped(G);
    forall c | c in F - R
      ensures HasUnopposedLiteral(c, R)
    {
      UnopposedInPart(c, G, R);
    }
    forall H | H <= F && NoPureLiteral(H)
      ensures H <= R
    {
      PureFreePartKept(G, H);
    }
    if WellFormed(F) {
      assert WellFormed(G);
      RemovePureSatisfiable(G);
    }
  }

  /**
   * A result that meets the contract of PureLiteralRule on
   * {{1, 2}, {-2, 3}, {-3, 2}} is {{-2, 3}, {-3, 2}}: the clause with the
   * pure literal 1 goes and the rest, which has no pure literal, stays.
   */
  lemma PureRuleExample(G: Formula)
    requires G <= {{1, 2}, {-2, 3}, {-3, 2}} && NoPureLiteral(G)
    requires forall H :: H <= {{1, 2}, {-2, 3}, {-3, 2}} && NoPureLiteral(H) ==> H <= G
    ensures G == {{-2, 3}, {-3, 2}}
  {
    ExamplePureFree();
    if {1, 2} in G {
      ExamplePureOne(G);
    }
  }

  lemma ExamplePureFree()
    ensures NoPureLiteral({{-2, 3}, {-3, 2}})
  {
    var H: Formula := {{-2, 3}, {-3, 2}};
    LiteralsIsUnion(H);
    assert Literals(H) == {-2, 3, -3, 2};
  }

  lemma ExamplePureOne(G: Formula)
    requires {1, 2} in G && G <= {{1, 2}, {-2, 3}, {-3, 2}}
    ensures 1 in FindPureLiterals(G)
  {
    LiteralsIsUnion(G);
    assert -1 !in Literals(G);
  }

  /**
   * What pure_literal_rule promises about its result G on input F: G is a
   * part of F with no pure literal that contains every such part (so it is
   * the largest), F without pure literals comes back unchanged, every
   * removed clause holds a literal whose complement no longer occurs, and
   * satisfiability is kept.
   */
  ghost predicate PureRuleSpec(F: Formula, G: Formula)
  {
    && G <= F
    && NoPureLiteral(G)
    && (NoPureLiteral(F) ==> G == F)
    && (forall c :: c in F - G ==> exists l :: l in c && -l !in Literals(G))
    && (WellFormed(F) ==> (Satisfiable(G) <==> Satisfiable(F)))
    && (forall H :: H <= F && NoPureLiteral(H) ==> H <= G)
  }

  /**
   * pure_literal_rule: while pure literals remain, drop every clause that
   * holds one; stop early once the formula is empty or {∅}.
   */
  method PureLiteralRule(F: Formula) returns (G: Formula)
    ensures PureRuleSpec(F, G)
  {
    G := F;
    while true
      invariant PureRuleInv(F, G)
      invariant NoPureLiteral(F) ==> G == F
      decreases G
    {
      if G == {} {
        return;
      }
      var pureLiterals := FindPureLiterals(G);
      if pureLiterals == {} {
        return;
      }
      PureRuleStep(F, G);
      var stop;
      G, stop := RemovePureLiterals(G, pureLiterals);
      if stop {
        return;
      }
    }
  }

  // ---------------------------------------------------------------------------
  // apply_simplifications
  // ---------------------------------------------------------------------------

  /** A part of F with the same satisfiability is derived from F. */
  lemma SubsetDerived(G: Formula, F: Formula)
    requires G <= F
    requires WellFormed(F) ==> (Satisfiable(G) <==> Satisfiable(F))
    ensures DerivedFrom(G, F)
  {
    forall c | c in G
      ensures exists d :: d in F && c <= d
    {
      assert c in F && c <= c;
    }
    assert |G| <= |F| by {
      assert F == G + (F - G);
    }
  }

  /** A round that keeps the clause count leaves a formula both rules keep. */
  lemma SimplifyRoundFixpoint(G: Formula, afterUnit: Formula, afterPure: Formula)
    requires |afterUnit| <= |G| && NoUnitClause(afterUnit)
    requires afterPure <= afterUnit && NoPureLiteral(afterPure)
    ensures |afterPure| <= |G|
    ensures |afterPure| == |G| ==> NoUnitClause(afterPure) && NoPureLiteral(afterPure)
  {
    SubsetSize(afterPure, afterUnit);
    if |afterPure| == |G| {
      SubsetSameSize(afterPure, afterUnit);
    }
  }

  /** A formula both rules keep comes through a round unchanged. */
  lemma SimplifyRoundKeeps(G: Formula, afterUnit: Formula, afterPure: Formula)
    requires NoUnitClause(G) ==> afterUnit == G
    requires NoPureLiteral(afterUnit) ==> afterPure == afterUnit
    ensures (G == {{}} || (NoUnitClause(G) && NoPureLiteral(G))) ==> afterPure == G
  {
    BottomIsSimplified();
  }

  /**
   * One round of apply_simplifications takes G to H: the unit-clause rule
   * gives some U, and H is U when U is {∅} and otherwise what the
   * pure-literal rule gives on U.
   */
  ghost predicate RoundSpec(G: Formula, H: Formula)
  {
    exists U: Formula, applied: seq<Literal> :: UnitRuleSpec(G, U, applied) &&
      (U == {{}} ==> H == U) && (U != {{}} ==> PureRuleSpec(U, H))
  }

  /** Each formula of rounds is one round away from the one before it. */
  ghost predicate RoundChain(rounds: seq<Formula>)
  {
    forall i :: 0 < i < |rounds| ==> RoundSpec(rounds[i - 1], rounds[i])
  }

  /**
   * The body of the loop of apply_simplifications: the unit-clause rule,
   * then (unless it gave {∅}) the pure-literal rule.
   */
  method SimplifyRound(G: Formula) returns (H: Formula)
    ensures RoundSpec(G, H)
    ensures DerivedFrom(H, G)
    ensures H != {{}} && |H| == |G| ==> NoUnitClause(H) && NoPureLiteral(H)
    ensures (G == {{}} || (NoUnitClause(G) && NoPureLiteral(G))) ==> H == G
  {
    var afterUnit;
    ghost var applied;
    afterUnit, applied := UnitClauseRule(G);
    if afterUnit == {{}} {
      SimplifyRoundKeeps(G, afterUnit, afterUnit);
      assert UnitRuleSpec(G, afterUnit, applied);
      return afterUnit;
    }
    var afterPure := PureLiteralRule(afterUnit);
    assert UnitRuleSpec(G, afterUnit, applied) && PureRuleSpec(afterUnit, afterPure);

    SubsetDerived(afterPure, afterUnit);
    DerivedFromTransitive(afterPure, afterUnit, G);
    SimplifyRoundFixpoint(G, afterUnit, afterPure);
    SimplifyRoundKeeps(G, afterUnit, afterPure);
    return afterPure;
  }

  lemma RoundChainExtend(rounds: seq<Formula>, H: Formula)
    requires rounds != [] && RoundChain(rounds) && RoundSpec(rounds[|rounds| - 1], H)
    ensures RoundChain(rounds + [H])
  {
    var longer := rounds + [H];
    forall i | 0 < i < |longer|
      ensures RoundSpec(longer[i - 1], longer[i])
    {
      if i < |rounds| {
        assert longer[i - 1] == rounds[i - 1] && longer[i] == rounds[i];
      } else {
        assert longer[i - 1] == rounds[|rounds| - 1] && longer[i] == H;
      }
    }
  }

  /** rounds is a chain of rounds from F to G. */
  ghost predicate ChainFromTo(rounds: seq<Formula>, F: Formula, G: Formula)
  {
    |rounds| >= 1 && rounds[0] == F && rounds[|rounds| - 1] == G && RoundChain(rounds)
  }

  lemma ChainFromToExtend(rounds: seq<Formula>, F: Formula, G: Formula, H: Formula)
    requires ChainFromTo(rounds, F, G) && RoundSpec(G, H)
    ensures ChainFromTo(rounds + [H], F, H) && |rounds + [H]| >= 2
  {
    RoundChainExtend(rounds, H);
  }

  /**
   * apply_simplifications: alternate the unit-clause rule and the
   * pure-literal rule until a round leaves the number of clauses unchanged,
   * returning {∅} as soon as either rule produces it. The ghost rounds
   * record every intermediate formula.
   */
  method ApplySimplifications(F: Formula) returns (G: Formula, ghost rounds: seq<Formula>)
    ensures |rounds| >= 2 && rounds[0] == F && rounds[|rounds| - 1] == G && RoundChain(rounds)
    ensures G == {{}} || (NoUnitClause(G) && NoPureLiteral(G))
    ensures F == {{}} ==> G == F
    ensures NoUnitClause(F) && NoPureLiteral(F) ==> G == F
    ensures Subsumed(G, F)
    ensures |G| <= |F|
    ensures WellFormed(F) ==> WellFormed(G) && (Satisfiable(G) <==> Satisfiable(F))
  {
    G := F;
    rounds := [F];
    DerivedFromReflexive(F);
    var prevLen: Option<nat> := None;
    while prevLen != Some(|G|)
      invariant ChainFromTo(rounds, F, G)
      invariant prevLen.Some? ==> |rounds| >= 2
      invariant DerivedFrom(G, F)
      invariant prevLen.Some? ==> |G| <= prevLen.value
      invariant prevLen.Some? && prevLen.value == |G| ==> NoUnitClause(G) && NoPureLiteral(G)
      invariant (F == {{}} || (NoUnitClause(F) && NoPureLiteral(F))) ==> G == F
      decreases if prevLen.None? then |G| + 1 else prevLen.value
    {
      prevLen := Some(|G|);
      var H := SimplifyRound(G);
      DerivedFromTransitive(H, G, F);
      ChainFromToExtend(rounds, F, G, H);
      G, rounds := H, rounds + [H];
      if G == {{}} {
        break;
      }
    }
  }

  /** {{2, 3}, {-2, -3}} has neither a unit clause nor a pure literal. */
  lemma ExampleSimplified()
    ensures NoUnitClause({{2, 3}, {-2, -3}}) && NoPureLiteral({{2, 3}, {-2, -3}})
    ensures {{2, 3}, {-2, -3}} != {{}}
  {
    var U: Formula := {{2, 3}, {-2, -3}};
    assert 2 in {2, 3} && 3 in {2, 3} && -2 in {-2, -3} && -3 in {-2, -3};
    forall c | c in U
      ensures !IsUnitClause(c)
    {
    }
    forall l
      ensures l !in FindPureLiterals(U)
    {
      if l in {2, 3} {
        assert -l in {-2, -3};
      } else if l in {-2, -3} {
        assert -l in {2, 3};
      }
    }
    assert {2, 3} in U;
  }

  /** {{1}, {2, 3}, {-2, -3}} has {1} as its only unit clause. */
  lemma ExampleSingleUnitSmall()
    ensures SingleUnit({{1}, {2, 3}, {-2, -3}}, 1)
  {
    forall c | c in {{1}, {2, 3}, {-2, -3}} && c != {1}
      ensures 1 !in c && -1 !in c && TwoLiterals(c)
    {
      if c == {2, 3} {
        assert 2 in c && 3 in c;
      } else {
        assert -2 in c && -3 in c;
      }
    }
  }

  /** Unit propagation on {{1}, {2, 3}, {-2, -3}} makes 1 true and leaves the two 2-clauses. */
  lemma ExampleFirstUnit(U: Formula, applied: seq<Literal>)
    requires PropagatedBy({{1}, {2, 3}, {-2, -3}}, U, applied)
    ensures U == {{2, 3}, {-2, -3}}
  {
    ExampleSingleUnitSmall();
    UnitRuleSingleUnit({{1}, {2, 3}, {-2, -3}}, 1, U, applied);
    assert {1} !in {{2, 3}, {-2, -3}} by {
      assert 1 in {1};
    }
  }

  /**
   * The first round on {{1}, {2, 3}, {-2, -3}}: unit propagation leaves
   * {{2, 3}, {-2, -3}}, where no literal is pure.
   */
  lemma ExampleFirstRound(H: Formula)
    requires RoundSpec({{1}, {2, 3}, {-2, -3}}, H)
    ensures H == {{2, 3}, {-2, -3}}
  {
    var U, applied :| UnitRuleSpec({{1}, {2, 3}, {-2, -3}}, U, applied) &&
      (U == {{}} ==> H == U) && (U != {{}} ==> PureRuleSpec(U, H));
    ExampleFirstUnit(U, applied);
    ExampleSimplified();
  }

  /** Every later round leaves {{2, 3}, {-2, -3}} as it is. */
  lemma ExampleLaterRound(H: Formula)
    requires RoundSpec({{2, 3}, {-2, -3}}, H)
    ensures H == {{2, 3}, {-2, -3}}
  {
    ExampleSimplified();
  }

  /**
   * Every chain of rounds from {{1}, {2, 3}, {-2, -3}} ends in
   * {{2, 3}, {-2, -3}}: apply_simplifications returns that formula.
   */
  lemma {:induction false} SimplifyExample(rounds: seq<Formula>)
    requires |rounds| >= 2 && rounds[0] == {{1}, {2, 3}, {-2, -3}} && RoundChain(rounds)
    ensures rounds[|rounds| - 1] == {{2, 3}, {-2, -3}}
    decreases |rounds|
  {
    if |rounds| == 2 {
      ExampleFirstRound(rounds[1]);
    } else {
      var prefix := rounds[..|rounds| - 1];
      forall i | 0 < i < |prefix|
        ensures RoundSpec(prefix[i - 1], prefix[i])
      {
        assert prefix[i - 1] == rounds[i - 1] && prefix[i] == rounds[i];
      }
      SimplifyExample(prefix);
      ExampleLaterRound(rounds[|rounds| - 1]);
    }
  }

  /** apply_simplifications on {{1}, {2, 3}, {-2, -3}} returns {{2, 3}, {-2, -3}}. */
  method SimplifyExampleRun() returns (G: Formula)
    ensures G == {{2, 3}, {-2, -3}}
  {
    ghost var rounds;
    G, rounds := ApplySimplifications({{1}, {2, 3}, {-2, -3}});
    SimplifyExample(rounds);
  }

  /** Simplifying an already simplified formula changes nothing. */
  method SimplifyTwice(F: Formula) returns (once: Formula, twice: Formula)
    ensures twice == once
  {
    ghost var rounds;
    once, rounds := ApplySimplifications(F);
    twice, rounds := ApplySimplifications(once);
  }
}
