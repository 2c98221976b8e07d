/**
 * The clause model of the CNF solvers: literals are signed integers, a clause
 * is a set of literals, a formula (clause set) is a set of clauses read as the
 * conjunction of its clauses. Besides the operations of Functions.py this
 * module gives the propositional meaning of a formula, so that the rules
 * built on it can be proved sound.
 */
module Clauses {

  type Literal = int
  type Clause = set<Literal>
  type Formula = set<Clause>

  /** Literals are nonzero (the loader drops the `0` line terminator). */
  predicate WellFormed(F: Formula)
  {
    forall c, l :: c in F && l in c ==> l != 0
  }

  // ---------------------------------------------------------------------------
  // Literal universe
  // ---------------------------------------------------------------------------

  /** Every literal occurring in some clause of F. */
  function Literals(F: Formula): set<Literal>
  {
    set c, l | c in F && l in c :: l
  }

  /** The literal universe is exactly the union of the clauses. */
  lemma LiteralsIsUnion(F: Formula)
    ensures forall c :: c in F ==> c <= Literals(F)
    ensures forall l :: l in Literals(F) ==> exists c :: c in F && l in c
  {
    forall c, l | c in F && l in c
      ensures l in Literals(F)
    {
    }
  }

  /** One more clause adds its own literals. */
  lemma LiteralsAdd(F: Formula, c: Clause)
    ensures Literals(F + {c}) == Literals(F) + c
  {
    LiteralsIsUnion(F);
    LiteralsIsUnion(F + {c});
    forall l | l in Literals(F + {c})
      ensures l in Literals(F) + c
    {
      var d :| d in F + {c} && l in d;
      if d != c {
        assert d in F;
      }
    }
  }

  lemma LiteralsMonotone(F: Formula, G: Formula)
    requires G <= F
    ensures Literals(G) <= Literals(F)
  {
  }

  /** literal_set: accumulates the literals of each clause into one set. */
  method LiteralSet(F: Formula) returns (literals: set<Literal>)
    ensures literals == Literals(F)
  {
    literals := {};
    var rest := F;
    while rest != {}
      invariant rest <= F
      invariant literals == Literals(F - rest)
      decreases rest
    {
      var clause :| clause in rest;
      LiteralsAdd(F - rest, clause);
      assert F - (rest - {clause}) == (F - rest) + {clause};
      literals := literals + clause;
      rest := rest - {clause};
    }
    assert F - rest == F;
  }

  // ---------------------------------------------------------------------------
  // Tautologies, unit clauses, pure literals
  // ---------------------------------------------------------------------------

  /** The complements of the literals of A. */
  function Negation(A: set<Literal>): (N: set<Literal>)
    ensures forall l :: l in N <==> -l in A
  {
    set l | l in A :: -l
  }

  /** is_tautology: some literal occurs together with its complement. */
  predicate IsTautology(c: Clause)
  {
    exists l :: l in c && -l in c
  }

  /** is_unit_clause: exactly one literal, so that `next(iter(c))` names the whole clause. */
  predicate IsUnitClause(c: Clause)
    ensures IsUnitClause(c) <==> c != {} && forall x, y :: x in c && y in c ==> x == y
  {
    UnitClauseShape(c);
    |c| == 1
  }

  /** A set of literals has size one exactly when it is nonempty and all its members agree. */
  lemma UnitClauseShape(c: Clause)
    ensures |c| == 1 <==> c != {} && forall x, y :: x in c && y in c ==> x == y
  {
    if c != {} {
      NonEmptyHasMember(c);
      var x :| x in c;
      if forall y, z :: y in c && z in c ==> y == z {
        assert c == {x};
      } else if |c| == 1 {
        SingletonOfMember(c, x);
      }
    }
  }

  /** A clause of size one is the singleton of any of its members. */
  lemma SingletonOfMember(c: Clause, l: Literal)
    requires |c| == 1 && l in c
    ensures c == {l}
  {
    assert c == {l} + (c - {l});
    assert |c - {l}| == 0;
  }

  /** A nonempty set has a member (stated apart: the verifier does not find the witness unaided). */
  lemma NonEmptyHasMember(s: set<Literal>)
    requires s != {}
    ensures exists x :: x in s
  {
    if forall x :: x !in s {
      assert false;
    }
  }

  /** find_unit_clauses: the literal of every unit clause. */
  function FindUnitClauses(F: Formula): (units: set<Literal>)
    ensures forall l :: l in units <==> {l} in F
  {
    var units := set c, l | c in F && IsUnitClause(c) && l in c :: l;
    assert forall l :: l in units ==> {l} in F by {
      forall l | l in units
        ensures {l} in F
      {
        var c :| c in F && IsUnitClause(c) && l in c;
        SingletonOfMember(c, l);
      }
    }
    assert forall l :: {l} in F ==> l in units by {
      forall l | {l} in F
        ensures l in units
      {
        assert IsUnitClause({l}) && l in {l};
      }
    }
    units
  }

  /** find_pure_literals: occurring literals whose complement never occurs. */
  function FindPureLiterals(F: Formula): (pure: set<Literal>)
    ensures forall l :: l in pure <==>
      (exists c :: c in F && l in c) && (forall c :: c in F ==> -l !in c)
  {
    var literals := Literals(F);
    set l {:trigger l in literals} | l in literals && -l !in literals
  }

  /** A pure literal occurs in F and its complement does not. */
  lemma PureLiteralUnopposed(F: Formula, l: Literal)
    requires l in FindPureLiterals(F)
    ensures l in Literals(F) && -l !in Literals(F)
  {
  }

  /** With no pure literal left, every occurring literal also occurs negated. */
  lemma NoPureLiteralOpposed(F: Formula, l: Literal)
    requires FindPureLiterals(F) == {} && l in Literals(F)
    ensures -l in Literals(F)
  {
    LiteralsIsUnion(F);
    assert l !in FindPureLiterals(F);
    var c :| c in F && -l in c;
  }

  /** A nonempty formula without the empty clause has a literal. */
  lemma NonEmptyLiterals(F: Formula)
    requires F != {} && {} !in F
    ensures Literals(F) != {}
  {
    var c :| c in F;
    NonEmptyHasMember(c);
    var l :| l in c;
    assert l in Literals(F);
  }

  predicate NoUnitClause(F: Formula)
  {
    forall c :: c in F ==> !IsUnitClause(c)
  }

  lemma NoUnitClauseIffNoneFound(F: Formula)
    ensures NoUnitClause(F) <==> FindUnitClauses(F) == {}
  {
    if !NoUnitClause(F) {
      var c :| c in F && IsUnitClause(c);
      NonEmptyHasMember(c);
      var l :| l in c;
      SingletonOfMember(c, l);
      assert l in FindUnitClauses(F);
    }
  }

  /** Every occurring literal also occurs negated: no literal is pure. */
  predicate NoPureLiteral(F: Formula)
  {
    FindPureLiterals(F) == {}
  }

  /** {∅} has neither a unit clause nor a pure literal. */
  lemma BottomIsSimplified()
    ensures NoUnitClause({{}}) && NoPureLiteral({{}})
  {
    var bottom: Formula := {{}};
    forall c | c in bottom
      ensures !IsUnitClause(c)
    {
      assert c == {};
    }
    assert Literals(bottom) == {};
  }

  /** Every clause of G lies inside some clause of F. */
  ghost predicate Subsumed(G: Formula, F: Formula)
  {
    forall c :: c in G ==> exists d :: d in F && c <= d
  }

  // ---------------------------------------------------------------------------
  // Meaning of a formula
  // ---------------------------------------------------------------------------

  /** An assignment lists the variables that are true. */
  type Assignment = set<int>

  predicate LiteralTrue(a: Assignment, l: Literal)
  {
    if l > 0 then l in a else -l !in a
  }

  predicate ClauseTrue(a: Assignment, c: Clause)
  {
    exists l :: l in c && LiteralTrue(a, l)
  }

  predicate Models(a: Assignment, F: Formula)
  {
    forall c :: c in F ==> ClauseTrue(a, c)
  }

  ghost predicate Satisfiable(F: Formula)
  {
    exists a: Assignment :: Models(a, F)
  }

  /** The assignment a changed so that l becomes true. */
  function MakeTrue(a: Assignment, l: Literal): (b: Assignment)
    requires l != 0
    ensures LiteralTrue(b, l)
    ensures forall m :: m != l && m != -l ==> (LiteralTrue(b, m) <==> LiteralTrue(a, m))
  {
    if l > 0 then a + {l} else a - {-l}
  }

  /** A tautology (over nonzero literals) is exactly a clause true under every assignment. */
  lemma TautologyIffValid(c: Clause)
    requires forall l :: l in c ==> l != 0
    ensures IsTautology(c) <==> forall a: Assignment :: ClauseTrue(a, c)
  {
    if IsTautology(c) {
      var l :| l in c && -l in c;
      forall a: Assignment
        ensures ClauseTrue(a, c)
      {
        if !LiteralTrue(a, l) {
          assert LiteralTrue(a, -l);
        }
      }
    } else {
      var a: Assignment := set l | l in c && l < 0 :: -l;
      forall l | l in c
        ensures !LiteralTrue(a, l)
      {
        if l > 0 {
          assert -l !in c;
          assert l !in a;
        } else {
          assert -l in a;
        }
      }
      assert !ClauseTrue(a, c);
    }
  }

  /** The empty clause is false everywhere, so a formula holding it is unsatisfiable. */
  lemma EmptyClauseUnsatisfiable(F: Formula)
    requires {} in F
    ensures !Satisfiable(F)
  {
    forall a: Assignment
      ensures !Models(a, F)
    {
      assert !ClauseTrue(a, {});
    }
  }

  lemma SubsetSize(G: Formula, F: Formula)
    requires G <= F
    ensures |G| <= |F|
  {
    assert F == G + (F - G);
  }

  /** A part of F as large as F is F itself. */
  lemma SubsetSameSize(G: Formula, F: Formula)
    requires G <= F && |G| == |F|
    ensures G == F
  {
    assert |F - G| == |F| - |G|;
  }

  /** A subset of a satisfiable formula is satisfiable. */
  lemma SubsetSatisfiable(F: Formula, G: Formula)
    requires G <= F && Satisfiable(F)
    ensures Satisfiable(G)
  {
    var a :| Models(a, F);
    assert Models(a, G);
  }
}
