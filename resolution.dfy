/**
 * Resolution as used by the Davis–Putnam solver: `resolve` on a pair of
 * clauses and the single pass `limited_resolution_step` over all pairs of a
 * clause set.
 */
module Resolution {

  import opened Clauses

  // ---------------------------------------------------------------------------
  // resolve
  // ---------------------------------------------------------------------------

  /** The clause obtained from ci and cj by cancelling l in ci against -l in cj. */
  function Resolvent(ci: Clause, cj: Clause, l: Literal): (r: Clause)
    ensures r <= ci + cj
    ensures l !in cj ==> l !in r
    ensures -l !in ci ==> -l !in r
  {
    (ci - {l}) + (cj - {-l})
  }

  /** The non-tautological resolvents of ci and cj on the literals of L. */
  function ResolventsOn(ci: Clause, cj: Clause, L: set<Literal>): set<Clause>
  {
    set l | l in L && -l in cj && !IsTautology(Resolvent(ci, cj, l)) :: Resolvent(ci, cj, l)
  }

  /** Everything `resolve(ci, cj)` may return: one resolvent per complementary pair, tautologies dropped. */
  function Resolvents(ci: Clause, cj: Clause): (rs: set<Clause>)
    ensures forall r :: r in rs ==> !IsTautology(r) && r <= ci + cj
    ensures (forall l :: l in ci ==> -l !in cj) ==> rs == {}
  {
    ResolventsOn(ci, cj, ci)
  }

  /**
   * Two different complementary pairs between the same clauses leave a
   * complementary pair behind, so at most one of the resolvents survives.
   */
  lemma TwoPairsTautology(ci: Clause, cj: Clause, l: Literal, m: Literal)
    requires l in ci && -l in cj && m in ci && -m in cj && l != m
    ensures IsTautology(Resolvent(ci, cj, l))
  {
    var r := Resolvent(ci, cj, l);
    if m == -l {
      assert -l in r && l in r;
    } else {
      assert m in r && -m in r;
    }
  }

  /** A pair of clauses has at most one non-tautological resolvent. */
  lemma ResolventsAtMostOne(ci: Clause, cj: Clause)
    ensures |Resolvents(ci, cj)| <= 1
  {
    var rs := Resolvents(ci, cj);
    if rs != {} {
      var r :| r in rs;
      var l :| l in ci && -l in cj && !IsTautology(Resolvent(ci, cj, l)) && r == Resolvent(ci, cj, l);
      forall r' | r' in rs
        ensures r' == r
      {
        var m :| m in ci && -m in cj && !IsTautology(Resolvent(ci, cj, m)) && r' == Resolvent(ci, cj, m);
        if m != l {
          TwoPairsTautology(ci, cj, m, l);
        }
      }
      assert rs == {r};
    }
  }

  /** Resolving cj against ci gives the same clauses as ci against cj. */
  lemma ResolventsSymmetric(ci: Clause, cj: Clause)
    ensures Resolvents(ci, cj) == Resolvents(cj, ci)
  {
    forall l | l in ci && -l in cj
      ensures Resolvent(ci, cj, l) == Resolvent(cj, ci, -l)
    {
      assert - -l == l;
    }
    forall r | r in Resolvents(ci, cj)
      ensures r in Resolvents(cj, ci)
    {
      var l :| l in ci && -l in cj && !IsTautology(Resolvent(ci, cj, l)) && r == Resolvent(ci, cj, l);
      assert -l in cj && - -l in ci && r == Resolvent(cj, ci, -l);
    }
    forall r | r in Resolvents(cj, ci)
      ensures r in Resolvents(ci, cj)
    {
      var l :| l in cj && -l in ci && !IsTautology(Resolvent(cj, ci, l)) && r == Resolvent(cj, ci, l);
      assert Resolvent(cj, ci, l) == Resolvent(ci, cj, -l);
      assert -l in ci && - -l in cj && r == Resolvent(ci, cj, -l);
    }
  }

  /** Resolution is sound: an assignment satisfying both parents satisfies the resolvent. */
  lemma ResolventSound(a: Assignment, ci: Clause, cj: Clause, l: Literal)
    requires l != 0 && l in ci && -l in cj
    requires ClauseTrue(a, ci) && ClauseTrue(a, cj)
    ensures ClauseTrue(a, Resolvent(ci, cj, l))
  {
    var x :| x in ci && LiteralTrue(a, x);
    var y :| y in cj && LiteralTrue(a, y);
    if x != l {
      assert x in Resolvent(ci, cj, l);
    } else if y != -l {
      assert y in Resolvent(ci, cj, l);
    } else {
      assert false;
    }
  }

  /** The same soundness for every clause `resolve` may return. */
  lemma ResolventsSound(a: Assignment, ci: Clause, cj: Clause, r: Clause)
    requires forall l :: l in ci ==> l != 0
    requires ClauseTrue(a, ci) && ClauseTrue(a, cj) && r in Resolvents(ci, cj)
    ensures ClauseTrue(a, r)
  {
    var l :| l in ci && -l in cj && !IsTautology(Resolvent(ci, cj, l)) && r == Resolvent(ci, cj, l);
    ResolventSound(a, ci, cj, l);
  }

  /**
   * resolve: for each literal of ci whose complement is in cj, append the
   * resolvent unless it is a tautology.
   */
  method Resolve(ci: Clause, cj: Clause) returns (rs: seq<Clause>)
    ensures forall r :: r in rs <==> r in Resolvents(ci, cj)
    ensures |rs| <= 1
    ensures (forall l :: l in ci ==> -l !in cj) ==> rs == []
  {
    rs := [];
    var todo := ci;
    while todo != {}
      invariant todo <= ci
      invariant forall r :: r in rs <==> r in ResolventsOn(ci, cj, ci - todo)
      invariant |rs| <= 1
      decreases todo
    {
      NonEmptyHasMember(todo);
      var lit :| lit in todo;
      if -lit in cj {
        var resolvent := Resolvent(ci, cj, lit);
        if !IsTautology(resolvent) {
          if rs != [] {
            assert rs[0] in ResolventsOn(ci, cj, ci - todo);
            var l :| l in ci - todo && -l in cj && !IsTautology(Resolvent(ci, cj, l)) && rs[0] == Resolvent(ci, cj, l);
            TwoPairsTautology(ci, cj, l, lit);
          }
          rs := rs + [resolvent];
        }
      }
      assert ci - (todo - {lit}) == (ci - todo) + {lit};
      todo := todo - {lit};
    }
    assert ci - todo == ci;
    if rs != [] {
      assert rs[0] in Resolvents(ci, cj);
    }
  }

  // ---------------------------------------------------------------------------
  // limited_resolution_step
  // ---------------------------------------------------------------------------

  /** The non-tautological resolvents of all pairs of distinct clauses of F. */
  function AllResolvents(F: Formula): (R: set<Clause>)
    ensures forall r :: r in R ==> !IsTautology(r)
  {
    set ci, cj, r | ci in F && cj in F && ci != cj && r in Resolvents(ci, cj) :: r
  }

  /**
   * The outcome of limited_resolution_step, independent of the order in
   * which the pairs are visited: {∅} with True once the empty clause is a
   * resolvent; the input with False when no resolvent is new; otherwise the
   * input with the resolvents added, and True.
   */
  function ResolutionStep(F: Formula): (Formula, bool)
  {
    var R := AllResolvents(F);
    if {} in R then ({{}}, true)
    else if R <= F then (F, false)
    else (F + R, true)
  }

  /** Every clause of the result is an input clause or a resolvent of two distinct input clauses. */
  lemma ResolutionStepOrigin(F: Formula)
    ensures forall c :: c in ResolutionStep(F).0 ==>
      (c in F || exists ci, cj :: ci in F && cj in F && ci != cj && c in Resolvents(ci, cj))
  {
    var G := ResolutionStep(F).0;
    forall c | c in G && c !in F
      ensures exists ci, cj :: ci in F && cj in F && ci != cj && c in Resolvents(ci, cj)
    {
      assert c in AllResolvents(F);
    }
  }

  /** Unless the empty clause turned up, nothing is removed; the flag says whether something was added. */
  lemma ResolutionStepGrows(F: Formula)
    ensures ResolutionStep(F).0 != {{}} ==> F <= ResolutionStep(F).0
    ensures ResolutionStep(F).1 <==> ResolutionStep(F).0 != F
  {
    var R := AllResolvents(F);
    if {} in R {
      var ci, cj :| ci in F && cj in F && ci != cj && {} in Resolvents(ci, cj);
      assert ci in F && ci != {};
    } else if !(R <= F) {
      var r :| r in R && r !in F;
      assert r in F + R;
    }
  }

  /** Resolvents of distinct clauses of a model of F are true in it. */
  lemma AllResolventsSound(F: Formula, a: Assignment)
    requires WellFormed(F) && Models(a, F)
    ensures forall r :: r in AllResolvents(F) ==> ClauseTrue(a, r)
  {
    forall r | r in AllResolvents(F)
      ensures ClauseTrue(a, r)
    {
      var ci, cj :| ci in F && cj in F && ci != cj && r in Resolvents(ci, cj);
      ResolventsSound(a, ci, cj, r);
    }
  }

  /** One resolution pass preserves satisfiability in both directions. */
  lemma ResolutionStepSatisfiable(F: Formula)
    requires WellFormed(F)
    ensures Satisfiable(ResolutionStep(F).0) <==> Satisfiable(F)
  {
    var R := AllResolvents(F);
    var G := ResolutionStep(F).0;
    if Satisfiable(F) {
      var a :| Models(a, F);
      AllResolventsSound(F, a);
      if {} in R {
        assert false;
      }
      assert Models(a, G);
    }
    if Satisfiable(G) {
      if {} in R {
        EmptyClauseUnsatisfiable(G);
      } else {
        SubsetSatisfiable(G, F);
      }
    }
  }

  /** Python's `[frozenset(c) for c in clauses]`: the clauses in some order, each once. */
  method ClauseList(F: Formula) returns (s: seq<Clause>)
    ensures forall c :: c in s <==> c in F
    ensures forall i, j :: 0 <= i < j < |s| ==> s[i] != s[j]
  {
    s := [];
    var rest := F;
    while rest != {}
      invariant rest <= F
      invariant forall c :: c in s <==> c in F - rest
      invariant forall i, j :: 0 <= i < j < |s| ==> s[i] != s[j]
      decreases rest
    {
      var c :| c in rest;
      s := s + [c];
      rest := rest - {c};
    }
  }

  /** The pairs (clauses[a], clauses[b]) with a < b. */
  ghost predicate IsPairOf(s: seq<Clause>, p: (Clause, Clause))
  {
    exists a, b :: 0 <= a < b < |s| && p == (s[a], s[b])
  }

  /** The nested index loops that build clause_pairs. */
  method ClausePairs(s: seq<Clause>) returns (pairs: seq<(Clause, Clause)>)
    ensures forall p :: p in pairs <==> IsPairOf(s, p)
  {
    pairs := [];
    var i := 0;
    while i < |s|
      invariant 0 <= i <= |s|
      invariant forall p :: p in pairs <==> exists a, b :: 0 <= a < i && a < b < |s| && p == (s[a], s[b])
    {
      var j := i + 1;
      while j < |s|
        invariant i + 1 <= j <= |s|
        invariant forall p :: p in pairs <==>
          (exists a, b :: 0 <= a < i && a < b < |s| && p == (s[a], s[b])) ||
          (exists b :: i < b < j && p == (s[i], s[b]))
      {
        pairs := pairs + [(s[i], s[j])];
        j := j + 1;
      }
      i := i + 1;
    }
  }

  /** The resolvents of the pairs in a list of clause pairs. */
  function PairsResolvents(pairs: seq<(Clause, Clause)>): set<Clause>
    decreases |pairs|
  {
    if pairs == [] then {}
    else PairsResolvents(pairs[..|pairs| - 1]) + Resolvents(pairs[|pairs| - 1].0, pairs[|pairs| - 1].1)
  }

  /** A clause is among the resolvents of a pair list iff some listed pair yields it. */
  lemma {:induction false} PairsResolventsMembers(pairs: seq<(Clause, Clause)>)
    ensures forall r :: r in PairsResolvents(pairs) <==>
      exists k :: 0 <= k < |pairs| && r in Resolvents(pairs[k].0, pairs[k].1)
    decreases |pairs|
  {
    if pairs != [] {
      var rest := pairs[..|pairs| - 1];
      PairsResolventsMembers(rest);
      assert forall k :: 0 <= k < |rest| ==> rest[k] == pairs[k];
    }
  }

  /** A listed pair is two distinct clauses of F. */
  lemma PairOfDistinct(F: Formula, s: seq<Clause>, p: (Clause, Clause))
    requires forall c :: c in s <==> c in F
    requires forall i, j :: 0 <= i < j < |s| ==> s[i] != s[j]
    requires IsPairOf(s, p)
    ensures p.0 in F && p.1 in F && p.0 != p.1
  {
    var a, b :| 0 <= a < b < |s| && p == (s[a], s[b]);
  }

  /** A resolvent of two distinct clauses of F comes from some listed pair. */
  lemma ResolventListed(F: Formula, s: seq<Clause>, pairs: seq<(Clause, Clause)>, ci: Clause, cj: Clause, r: Clause)
    requires forall c :: c in s <==> c in F
    requires forall p :: p in pairs <==> IsPairOf(s, p)
    requires ci in F && cj in F && ci != cj && r in Resolvents(ci, cj)
    ensures exists k :: 0 <= k < |pairs| && r in Resolvents(pairs[k].0, pairs[k].1)
  {
    var a :| 0 <= a < |s| && s[a] == ci;
    var b :| 0 <= b < |s| && s[b] == cj;
    if a < b {
      assert IsPairOf(s, (ci, cj));
      var k :| 0 <= k < |pairs| && pairs[k] == (ci, cj);
    } else {
      assert IsPairOf(s, (cj, ci));
      ResolventsSymmetric(ci, cj);
      var k :| 0 <= k < |pairs| && pairs[k] == (cj, ci);
    }
  }

  /** Visiting every pair of the list covers exactly the resolvents of distinct clauses of F. */
  lemma PairsCoverAll(F: Formula, s: seq<Clause>, pairs: seq<(Clause, Clause)>)
    requires forall c :: c in s <==> c in F
    requires forall i, j :: 0 <= i < j < |s| ==> s[i] != s[j]
    requires forall p :: p in pairs <==> IsPairOf(s, p)
    ensures PairsResolvents(pairs) == AllResolvents(F)
  {
    PairsResolventsMembers(pairs);
    forall r | r in PairsResolvents(pairs)
      ensures r in AllResolvents(F)
    {
      var k :| 0 <= k < |pairs| && r in Resolvents(pairs[k].0, pairs[k].1);
      assert pairs[k] in pairs;
      PairOfDistinct(F, s, pairs[k]);
    }
    forall r | r in AllResolvents(F)
      ensures r in PairsResolvents(pairs)
    {
      var ci, cj :| ci in F && cj in F && ci != cj && r in Resolvents(ci, cj);
      ResolventListed(F, s, pairs, ci, cj, r);
    }
  }

  /** Without the empty clause, the outcome is decided by the resolvents not yet in F. */
  lemma ResolutionStepByNew(F: Formula, N: Formula)
    requires {} !in AllResolvents(F) && N == AllResolvents(F) - F
    ensures ResolutionStep(F) == if N == {} then (F, false) else (F + N, true)
  {
    var R := AllResolvents(F);
    if N == {} {
      forall r | r in R
        ensures r in F
      {
        assert r !in N;
      }
    } else {
      assert F + N == F + R;
    }
  }

  /**
   * The inner loop of limited_resolution_step over the resolvents of one
   * pair: found is set where Python returns on the empty clause; otherwise
   * every resolvent not already known joins the collected ones.
   */
  method CollectResolvents(known: Formula, collected: Formula, resolvents: seq<Clause>)
    returns (grown: Formula, found: bool)
    ensures found <==> {} in resolvents
    ensures !found ==> grown == collected + ((set r | r in resolvents) - known)
  {
    grown := collected;
    var m := 0;
    while m < |resolvents|
      invariant 0 <= m <= |resolvents|
      invariant {} !in resolvents[..m]
      invariant grown == collected + ((set r | r in resolvents[..m]) - known)
    {
      var resolvent := resolvents[m];
      if resolvent == {} {
        return grown, true;
      }
      if resolvent !in known && resolvent !in grown {
        grown := grown + {resolvent};
      }
      assert resolvents[..m + 1] == resolvents[..m] + [resolvent];
      m := m + 1;
    }
    assert resolvents[..m] == resolvents;
    found := false;
  }

  /** One pair further through clause_pairs. */
  lemma ScanStep(F: Formula, pairs: seq<(Clause, Clause)>, k: nat, before: Formula, after: Formula,
                 found: bool, rs: seq<Clause>)
    requires k < |pairs|
    requires {} !in PairsResolvents(pairs[..k]) && before == PairsResolvents(pairs[..k]) - F
    requires forall r :: r in rs <==> r in Resolvents(pairs[k].0, pairs[k].1)
    requires found <==> {} in rs
    requires !found ==> after == before + ((set r | r in rs) - F)
    ensures found ==> {} in PairsResolvents(pairs)
    ensures !found ==> {} !in PairsResolvents(pairs[..k + 1]) && after == PairsResolvents(pairs[..k + 1]) - F
  {
    assert pairs[..k + 1][..k] == pairs[..k];
    if found {
      PairsResolventsMembers(pairs);
      assert 0 <= k < |pairs| && {} in Resolvents(pairs[k].0, pairs[k].1);
    } else {
      assert (set r | r in rs) == Resolvents(pairs[k].0, pairs[k].1);
    }
  }

  /**
   * The loop of limited_resolution_step over clause_pairs: found is set
   * where Python returns on the empty clause; otherwise the result holds the
   * resolvents of all pairs that are not clauses of F.
   */
  method ScanPairs(F: Formula, pairs: seq<(Clause, Clause)>) returns (newClauses: Formula, found: bool)
    ensures found <==> {} in PairsResolvents(pairs)
    ensures !found ==> newClauses == PairsResolvents(pairs) - F
  {
    newClauses, found := {}, false;
    var k := 0;
    while k < |pairs|
      invariant 0 <= k <= |pairs|
      invariant {} !in PairsResolvents(pairs[..k])
      invariant newClauses == PairsResolvents(pairs[..k]) - F
    {
      var (ci, cj) := pairs[k];
      var resolvents := Resolve(ci, cj);
      var before := newClauses;
      newClauses, found := CollectResolvents(F, newClauses, resolvents);
      ScanStep(F, pairs, k, before, newClauses, found, resolvents);
      if found {
        return;
      }
      k := k + 1;
    }
    assert pairs[..k] == pairs;
  }

  /**
   * limited_resolution_step: one pass over all pairs of clauses, collecting
   * the resolvents not already present, and returning at once with {∅}
   * when the empty clause is derived.
   */
  method LimitedResolutionStep(F: Formula) returns (G: Formula, added: bool)
    ensures (G, added) == ResolutionStep(F)
  {
    var clauses := ClauseList(F);
    var pairs := ClausePairs(clauses);
    PairsCoverAll(F, clauses, pairs);
    var newClauses, found := ScanPairs(F, pairs);
    if found {
      return {{}}, true;
    }
    ResolutionStepByNew(F, newClauses);
    if newClauses == {} {
      return F, false;
    }
    return F + newClauses, true;
  }
}
