/**
 * The branching heuristics of the DPLL solver (Methods.py): literal_choice
 * dispatches on a method name to one of six ways of picking the literal to
 * split on. Python's exceptions on empty input are results here, and the
 * arbitrary iteration order of sets and dictionaries (which decides ties) is
 * the verifier's choice.
 */
module Heuristics {

  import opened Wrappers
  import opened Clauses

  /** The exceptions the heuristics raise on inputs they do not handle. */
  datatype PythonError = StopIteration | IndexError | ValueError

  /** What literal_choice hands back: a literal, None, or an exception. */
  datatype Choice = Chosen(lit: Literal) | NoLiteral | Raised(error: PythonError)

  /** The six method names literal_choice recognises. */
  const Tags: set<string> :=
    {"first_literal", "random_literal", "most_frequent_literal", "dlis", "jeroslow_wang", "moms"}

  // ---------------------------------------------------------------------------
  // Occurrence counts
  // ---------------------------------------------------------------------------

  /** The number of clauses of F containing l. */
  function Occ(F: Formula, l: Literal): nat
  {
    |set c | c in F && l in c|
  }

  /** Adding one new clause raises the count of exactly its literals by one. */
  lemma OccAdd(F: Formula, c: Clause, l: Literal)
    requires c !in F
    ensures Occ(F + {c}, l) == Occ(F, l) + (if l in c then 1 else 0)
  {
    var before := set d | d in F && l in d;
    var after := set d | d in F + {c} && l in d;
    if l in c {
      assert after == before + {c};
    } else {
      assert after == before;
    }
  }

  /** A literal occurs iff some clause counts for it. */
  lemma OccPositive(F: Formula, l: Literal)
    ensures l in Literals(F) <==> Occ(F, l) > 0
  {
    var holders := set d | d in F && l in d;
    if l in Literals(F) {
      var c :| c in F && l in c;
      assert c in holders;
    } else {
      assert holders == {};
    }
  }

  /**
   * Python's running maximum over a score table (`max` with a key): some
   * entry of greatest score, or None on an empty table.
   */
  method ArgMax(scores: map<Literal, real>) returns (best: Option<Literal>)
    ensures best.None? <==> scores.Keys == {}
    ensures best.Some? ==> best.value in scores && forall l :: l in scores ==> scores[l] <= scores[best.value]
  {
    best := None;
    var maxScore := 0.0;
    var todo := scores.Keys;
    while todo != {}
      invariant todo <= scores.Keys
      invariant best.None? <==> todo == scores.Keys
      invariant best.Some? ==> best.value in scores && maxScore == scores[best.value]
      invariant forall l :: l in scores && l !in todo ==> scores[l] <= maxScore
      decreases todo
    {
      NonEmptyHasMember(todo);
      var l :| l in todo;
      if best.None? || scores[l] > maxScore {
        best, maxScore := Some(l), scores[l];
      }
      todo := todo - {l};
    }
  }

  // ---------------------------------------------------------------------------
  // first_literal, random_literal, most_frequent_literal
  // ---------------------------------------------------------------------------

  /**
   * What first_literal may answer: a literal of some clause, or
   * StopIteration, raised when there is no clause or only the empty one,
   * never when every clause is nonempty, and otherwise only when {} is a
   * clause (the one set iteration happened to visit first).
   */
  predicate FirstLiteralResult(F: Formula, c: Choice)
  {
    && (c.Chosen? || c == Raised(StopIteration))
    && (c.Chosen? ==> exists clause :: clause in F && c.lit in clause)
    && (c.Raised? ==> F == {} || {} in F)
    && (F <= {{}} ==> c.Raised?)
  }

  /**
   * first_literal: the first literal of the first clause; `next` raises
   * StopIteration on an empty formula and on an empty first clause.
   */
  method FirstLiteral(F: Formula) returns (c: Choice)
    ensures FirstLiteralResult(F, c)
  {
    if F == {} {
      return Raised(StopIteration);
    }
    var first :| first in F;
    if first == {} {
      return Raised(StopIteration);
    }
    assert !(F <= {{}});
    NonEmptyHasMember(first);
    var l :| l in first;
    return Chosen(l);
  }

  /** What random_literal may answer: IndexError exactly when no literal occurs, else an occurring literal. */
  predicate RandomLiteralResult(F: Formula, c: Choice)
  {
    if Literals(F) == {} then c == Raised(IndexError) else c.Chosen? && c.lit in Literals(F)
  }

  /**
   * random_literal: a literal drawn from literal_set; `random.choice`
   * raises IndexError on the empty list.
   */
  method RandomLiteral(F: Formula) returns (c: Choice)
    ensures RandomLiteralResult(F, c)
  {
    var literals := LiteralSet(F);
    if literals == {} {
      return Raised(IndexError);
    }
    NonEmptyHasMember(literals);
    var l :| l in literals;
    return Chosen(l);
  }

  /**
   * What most_frequent_literal may answer: ValueError exactly when no
   * literal occurs, else an occurring literal of greatest Occ.
   */
  predicate MostFrequentResult(F: Formula, c: Choice)
  {
    if Literals(F) == {} then c == Raised(ValueError)
    else c.Chosen? && c.lit in Literals(F) && forall l :: l in Literals(F) ==> Occ(F, l) <= Occ(F, c.lit)
  }

  /**
   * most_frequent_literal: the literal contained in the most clauses (the
   * Counter of all occurrences); `max` raises ValueError when no literal
   * occurs.
   */
  method MostFrequentLiteral(F: Formula) returns (c: Choice)
    ensures MostFrequentResult(F, c)
  {
    var counter := map l | l in Literals(F) :: Occ(F, l) as real;
    var best := ArgMax(counter);
    if best.None? {
      return Raised(ValueError);
    }
    forall l | l in Literals(F)
      ensures Occ(F, l) <= Occ(F, best.value)
    {
      assert counter[l] <= counter[best.value];
    }
    return Chosen(best.value);
  }

  // ---------------------------------------------------------------------------
  // dlis
  // ---------------------------------------------------------------------------

  /** The dlis score: occurrences of x plus occurrences of -x (the same for x and -x). */
  function DlisScore(F: Formula, x: Literal): nat
  {
    Occ(F, x) + Occ(F, -x)
  }

  /** The inner loop of dlis over one clause: each literal counts for itself and for its complement. */
  method DlisCountClause(count: map<Literal, int>, literals: set<Literal>, clause: Clause)
    returns (count': map<Literal, int>)
    requires count.Keys == literals
    ensures count'.Keys == literals
    ensures forall x :: x in literals ==>
      count'[x] == count[x] + (if x in clause then 1 else 0) + (if -x in clause then 1 else 0)
  {
    count' := count;
    var todo := clause;
    while todo != {}
      invariant todo <= clause
      invariant count'.Keys == literals
      invariant forall x :: x in literals ==>
        count'[x] == count[x] + (if x in clause - todo then 1 else 0) + (if -x in clause - todo then 1 else 0)
      decreases todo
    {
      NonEmptyHasMember(todo);
      var literal :| literal in todo;
      if literal in literals {
        count' := count'[literal := count'[literal] + 1];
      }
      if -literal in literals {
        count' := count'[-literal := count'[-literal] + 1];
      }
      assert clause - (todo - {literal}) == (clause - todo) + {literal};
      todo := todo - {literal};
    }
    assert clause - todo == clause;
  }

  /** One more clause through the counting loop of dlis. */
  lemma DlisCountsStep(done: Formula, clause: Clause, literals: set<Literal>,
                       before: map<Literal, int>, after: map<Literal, int>)
    requires clause !in done
    requires before.Keys == literals && forall x :: x in literals ==> before[x] == DlisScore(done, x)
    requires after.Keys == literals
    requires forall x :: x in literals ==>
      after[x] == before[x] + (if x in clause then 1 else 0) + (if -x in clause then 1 else 0)
    ensures forall x :: x in literals ==> after[x] == DlisScore(done + {clause}, x)
  {
    forall x | x in literals
      ensures after[x] == DlisScore(done + {clause}, x)
    {
      OccAdd(done, clause, x);
      OccAdd(done, clause, -x);
    }
  }

  /** The counting loops of dlis: every literal of literal_set gets its DlisScore. */
  method DlisCounts(F: Formula) returns (count: map<Literal, int>)
    ensures count.Keys == Literals(F)
    ensures forall x :: x in count ==> count[x] == DlisScore(F, x)
  {
    var literals := LiteralSet(F);
    count := map x | x in literals :: 0;
    var rest := F;
    while rest != {}
      invariant rest <= F
      invariant count.Keys == literals
      invariant forall x :: x in literals ==> count[x] == DlisScore(F - rest, x)
      decreases rest
    {
      var clause :| clause in rest;
      var done := F - rest;
      var before := count;
      count := DlisCountClause(count, literals, clause);
      DlisCountsStep(done, clause, literals, before, count);
      assert F - (rest - {clause}) == done + {clause};
      rest := rest - {clause};
    }
    assert F - rest == F;
  }

  /** What dlis may answer: None exactly when no literal occurs, else an occurring literal of greatest DlisScore. */
  predicate DlisResult(F: Formula, c: Choice)
  {
    if Literals(F) == {} then c == NoLiteral
    else c.Chosen? && c.lit in Literals(F) && forall x :: x in Literals(F) ==> DlisScore(F, x) <= DlisScore(F, c.lit)
  }

  /**
   * dlis: the literal of greatest DlisScore, found by a running maximum
   * that starts below every count; None when no literal occurs.
   */
  method Dlis(F: Formula) returns (c: Choice)
    ensures DlisResult(F, c)
  {
    var count := DlisCounts(F);
    var best: Option<Literal> := None;
    var maxOccurrence := -1;
    var todo := count.Keys;
    while todo != {}
      invariant todo <= count.Keys
      invariant best.None? <==> todo == count.Keys
      invariant best.None? ==> maxOccurrence == -1
      invariant best.Some? ==> best.value in count && count[best.value] == maxOccurrence
      invariant forall x :: x in count && x !in todo ==> count[x] <= maxOccurrence
      decreases todo
    {
      NonEmptyHasMember(todo);
      var literal :| literal in todo;
      if count[literal] > maxOccurrence {
        best, maxOccurrence := Some(literal), count[literal];
      }
      todo := todo - {literal};
    }
    if best.None? {
      return NoLiteral;
    }
    return Chosen(best.value);
  }

  // ---------------------------------------------------------------------------
  // jeroslow_wang
  // ---------------------------------------------------------------------------

  function Pow2(n: nat): (p: nat)
    ensures p >= 1
  {
    if n == 0 then 1 else 2 * Pow2(n - 1)
  }

  /** The weight 2^-|c| of a clause, as an exact real. */
  function Weight(c: Clause): real
  {
    1.0 / (Pow2(|c|) as real)
  }

  /** The sum of the weights of a set of clauses. */
  ghost function WeightSum(S: Formula): real
    decreases |S|
  {
    if S == {} then 0.0 else var c :| c in S; Weight(c) + WeightSum(S - {c})
  }

  /** The sum does not depend on which clause is taken out first. */
  lemma {:induction false} WeightSumRemove(S: Formula, c: Clause)
    requires c in S
    ensures WeightSum(S) == Weight(c) + WeightSum(S - {c})
    decreases |S|
  {
    var d :| d in S && WeightSum(S) == Weight(d) + WeightSum(S - {d});
    if d != c {
      WeightSumRemove(S - {d}, c);
      WeightSumRemove(S - {c}, d);
      assert S - {d} - {c} == S - {c} - {d};
    }
  }

  /** The Jeroslow–Wang score: the summed weights of the clauses containing l. */
  ghost function JwScore(F: Formula, l: Literal): real
  {
    WeightSum(set c | c in F && l in c)
  }

  /** Adding one new clause adds its weight to the score of exactly its literals. */
  lemma JwScoreAdd(F: Formula, c: Clause, l: Literal)
    requires c !in F
    ensures JwScore(F + {c}, l) == JwScore(F, l) + (if l in c then Weight(c) else 0.0)
  {
    var before := set d | d in F && l in d;
    var after := set d | d in F + {c} && l in d;
    if l in c {
      assert after - {c} == before;
      WeightSumRemove(after, c);
    } else {
      assert after == before;
    }
  }

  /** A literal that occurs nowhere scores zero. */
  lemma JwScoreAbsent(F: Formula, l: Literal)
    requires l !in Literals(F)
    ensures JwScore(F, l) == 0.0
  {
    assert (set c | c in F && l in c) == {};
  }

  /** Counter lookup: a missing key reads as zero. */
  function Get(scores: map<Literal, real>, l: Literal): real
  {
    if l in scores then scores[l] else 0.0
  }

  /** The inner loop of jeroslow_wang: every literal of the clause gains the clause's weight. */
  method AddWeight(scores: map<Literal, real>, clause: Clause, weight: real)
    returns (scores': map<Literal, real>)
    ensures scores'.Keys == scores.Keys + clause
    ensures forall l :: l in scores' ==> scores'[l] == Get(scores, l) + (if l in clause then weight else 0.0)
  {
    scores' := scores;
    var todo := clause;
    while todo != {}
      invariant todo <= clause
      invariant scores'.Keys == scores.Keys + (clause - todo)
      invariant forall l :: l in scores' ==> scores'[l] == Get(scores, l) + (if l in clause - todo then weight else 0.0)
      decreases todo
    {
      NonEmptyHasMember(todo);
      var lit :| lit in todo;
      scores' := scores'[lit := Get(scores', lit) + weight];
      assert clause - (todo - {lit}) == (clause - todo) + {lit};
      todo := todo - {lit};
    }
    assert clause - todo == clause;
  }

  /** scores holds exactly the JwScore over done of every literal of done. */
  ghost predicate JwScoresOf(scores: map<Literal, real>, done: Formula)
  {
    scores.Keys == Literals(done) && forall l :: l in scores ==> scores[l] == JwScore(done, l)
  }

  /** One more clause through the accumulation loop of jeroslow_wang. */
  lemma JwScoresStep(done: Formula, clause: Clause, before: map<Literal, real>, after: map<Literal, real>)
    requires clause !in done && JwScoresOf(before, done)
    requires after.Keys == before.Keys + clause
    requires forall l :: l in after ==> after[l] == Get(before, l) + (if l in clause then Weight(clause) else 0.0)
    ensures JwScoresOf(after, done + {clause})
  {
    LiteralsAdd(done, clause);
    forall l | l in after
      ensures after[l] == JwScore(done + {clause}, l)
    {
      JwScoreAdd(done, clause, l);
      if l !in Literals(done) {
        JwScoreAbsent(done, l);
      }
    }
  }

  /** The accumulation loops of jeroslow_wang: every occurring literal gets its JwScore. */
  method JwScores(F: Formula) returns (scores: map<Literal, real>)
    ensures scores.Keys == Literals(F)
    ensures forall l :: l in scores ==> scores[l] == JwScore(F, l)
  {
    scores := map[];
    var rest := F;
    assert F - rest == {};
    while rest != {}
      invariant rest <= F
      invariant JwScoresOf(scores, F - rest)
      decreases rest
    {
      var clause :| clause in rest;
      var done := F - rest;
      var before := scores;
      scores := AddWeight(scores, clause, Weight(clause));
      JwScoresStep(done, clause, before, scores);
      assert F - (rest - {clause}) == done + {clause};
      rest := rest - {clause};
    }
    assert F - rest == F;
  }

  /** What jeroslow_wang may answer: None exactly when no literal occurs, else an occurring literal of greatest JwScore. */
  ghost predicate JeroslowWangResult(F: Formula, c: Choice)
  {
    if Literals(F) == {} then c == NoLiteral
    else c.Chosen? && c.lit in Literals(F) && forall l :: l in Literals(F) ==> JwScore(F, l) <= JwScore(F, c.lit)
  }

  /** jeroslow_wang: a literal of greatest JwScore, or None when no literal occurs. */
  method JeroslowWang(F: Formula) returns (c: Choice)
    ensures JeroslowWangResult(F, c)
  {
    var scores := JwScores(F);
    if scores.Keys == {} {
      return NoLiteral;
    }
    var best := ArgMax(scores);
    return Chosen(best.value);
  }

  // ---------------------------------------------------------------------------
  // moms
  // ---------------------------------------------------------------------------

  function Abs(l: Literal): nat
  {
    if l < 0 then -l else l
  }

  /** m is the length of the shortest nonempty clause of F. */
  ghost predicate IsShortestLength(F: Formula, m: nat)
  {
    (exists c :: c in F && c != {} && |c| == m) &&
    (forall c :: c in F && c != {} ==> m <= |c|)
  }

  /** The clauses of F of the shortest nonempty length m: exactly its shortest nonempty clauses. */
  function ClausesOfLength(F: Formula, m: nat): (S: Formula)
    requires IsShortestLength(F, m)
    ensures S != {}
    ensures forall c :: c in S <==> c in F && c != {} && forall d :: d in F && d != {} ==> |c| <= |d|
  {
    var S := set c | c in F && |c| == m;
    assert S != {} by {
      var w :| w in F && w != {} && |w| == m;
      assert w in S;
    }
    S
  }

  /** The literals moms may count: those of S whose variable occurs positively in F. */
  function MomsCandidates(S: Formula, F: Formula): set<Literal>
  {
    set l | l in Literals(S) && Abs(l) in Literals(F)
  }

  /** `min(len(clause) for clause in clauses if clause)`, for a formula with a nonempty clause. */
  method ShortestLength(F: Formula) returns (m: nat)
    requires exists c :: c in F && c != {}
    ensures IsShortestLength(F, m)
  {
    var shortest :| shortest in F && shortest != {};
    m := |shortest|;
    var rest := F - {shortest};
    while rest != {}
      invariant rest <= F
      invariant exists c :: c in F && c != {} && |c| == m
      invariant forall c :: c in F - rest && c != {} ==> m <= |c|
      decreases rest
    {
      var clause :| clause in rest;
      if clause != {} && |clause| < m {
        m := |clause|;
      }
      rest := rest - {clause};
    }
  }

  /** The inner loop of moms: each literal whose variable occurs gains one. */
  method MomsCountClause(counts: map<Literal, nat>, literals: set<Literal>, clause: Clause)
    returns (counts': map<Literal, nat>)
    ensures forall l :: l in counts' <==> l in counts || (l in clause && Abs(l) in literals)
    ensures forall l :: l in counts' ==>
      counts'[l] == (if l in counts then counts[l] else 0) + (if l in clause && Abs(l) in literals then 1 else 0)
  {
    counts' := counts;
    var todo := clause;
    while todo != {}
      invariant todo <= clause
      invariant forall l :: l in counts' <==> l in counts || (l in clause - todo && Abs(l) in literals)
      invariant forall l :: l in counts' ==>
        counts'[l] == (if l in counts then counts[l] else 0) + (if l in clause - todo && Abs(l) in literals then 1 else 0)
      decreases todo
    {
      NonEmptyHasMember(todo);
      var lit :| lit in todo;
      var v := Abs(lit);
      if v in literals {
        counts' := counts'[lit := (if lit in counts' then counts'[lit] else 0) + 1];
      }
      assert clause - (todo - {lit}) == (clause - todo) + {lit};
      todo := todo - {lit};
    }
    assert clause - todo == clause;
  }

  /** The counting loops of moms over the shortest clauses S. */
  method MomsCounts(S: Formula, literals: set<Literal>) returns (counts: map<Literal, nat>)
    ensures forall l :: l in counts <==> l in Literals(S) && Abs(l) in literals
    ensures forall l :: l in counts ==> counts[l] == Occ(S, l)
  {
    counts := map[];
    var rest := S;
    while rest != {}
      invariant rest <= S
      invariant forall l :: l in counts <==> l in Literals(S - rest) && Abs(l) in literals
      invariant forall l :: l in counts ==> counts[l] == Occ(S - rest, l)
      decreases rest
    {
      var clause :| clause in rest;
      var done := S - rest;
      counts := MomsCountClause(counts, literals, clause);
      forall l | l in counts
        ensures counts[l] == Occ(done + {clause}, l)
      {
        OccAdd(done, clause, l);
        OccPositive(done, l);
      }
      LiteralsAdd(done, clause);
      assert S - (rest - {clause}) == done + {clause};
      rest := rest - {clause};
    }
    assert S - rest == S;
  }

  /**
   * What moms may answer: None when no literal occurs; otherwise a
   * candidate of greatest count among the shortest nonempty clauses, or
   * None when there is no candidate.
   */
  ghost predicate MomsResult(F: Formula, c: Choice)
  {
    && (Literals(F) == {} ==> c == NoLiteral)
    && (c.NoLiteral? || c.Chosen?)
    && (c.Chosen? ==>
      exists m :: (IsShortestLength(F, m) &&
        c.lit in MomsCandidates(ClausesOfLength(F, m), F) &&
        forall l :: l in MomsCandidates(ClausesOfLength(F, m), F) ==>
          Occ(ClausesOfLength(F, m), l) <= Occ(ClausesOfLength(F, m), c.lit)))
    && (c.NoLiteral? && Literals(F) != {} ==>
      exists m :: IsShortestLength(F, m) && MomsCandidates(ClausesOfLength(F, m), F) == {})
  }

  /**
   * moms: among the shortest nonempty clauses, the literal occurring in the
   * most of them, counting only literals whose variable occurs positively;
   * None on a formula without literals or when nothing was counted.
   */
  method Moms(F: Formula) returns (c: Choice)
    ensures MomsResult(F, c)
    ensures F != {} && {} !in F && NoPureLiteral(F) ==> c.Chosen?
  {
    var literals := LiteralSet(F);
    if F == {} || literals == {} {
      if F != {} && {} !in F {
        NonEmptyLiterals(F);
      }
      return NoLiteral;
    }
    var minSize := ShortestLength(F);
    var minClauses := ClausesOfLength(F, minSize);
    var literalCounts := MomsCounts(minClauses, literals);
    if literalCounts.Keys == {} {
      assert forall l :: l in MomsCandidates(minClauses, F) ==> l in literalCounts.Keys;
      if NoPureLiteral(F) {
        MomsCandidatesNonEmpty(F, minSize);
        assert false;
      }
      return NoLiteral;
    }
    var scores := map l | l in literalCounts :: literalCounts[l] as real;
    var best := ArgMax(scores);
    forall l | l in MomsCandidates(minClauses, F)
      ensures Occ(minClauses, l) <= Occ(minClauses, best.value)
    {
      assert scores[l] <= scores[best.value];
    }
    assert IsShortestLength(F, minSize) && best.value in MomsCandidates(minClauses, F);
    return Chosen(best.value);
  }

  /** When no literal is pure, the shortest clauses offer moms a candidate. */
  lemma MomsCandidatesNonEmpty(F: Formula, m: nat)
    requires NoPureLiteral(F) && IsShortestLength(F, m)
    ensures MomsCandidates(ClausesOfLength(F, m), F) != {}
  {
    var S := ClausesOfLength(F, m);
    var c :| c in F && c != {} && |c| == m;
    NonEmptyHasMember(c);
    var l :| l in c;
    assert l in Literals(S) && l in Literals(F);
    if l < 0 {
      NoPureLiteralOpposed(F, l);
    }
    assert l in MomsCandidates(S, F);
  }

  // ---------------------------------------------------------------------------
  // literal_choice
  // ---------------------------------------------------------------------------

  /**
   * literal_choice: dispatch on the method name; a name that matches no
   * branch falls through to None.
   */
  method LiteralChoice(F: Formula, tag: string) returns (c: Choice)
    ensures c.Chosen? ==> c.lit in Literals(F)
    ensures tag !in Tags ==> c == NoLiteral
    ensures c.Raised? ==> tag in {"first_literal", "random_literal", "most_frequent_literal"}
    ensures tag in Tags && F != {} && {} !in F && NoPureLiteral(F) ==> c.Chosen?
    ensures tag == "first_literal" ==> FirstLiteralResult(F, c)
    ensures tag == "random_literal" ==> RandomLiteralResult(F, c)
    ensures tag == "most_frequent_literal" ==> MostFrequentResult(F, c)
    ensures tag == "dlis" ==> DlisResult(F, c)
    ensures tag == "jeroslow_wang" ==> JeroslowWangResult(F, c)
    ensures tag == "moms" ==> MomsResult(F, c)
  {
    if F != {} && {} !in F {
      NonEmptyLiterals(F);
    }
    if tag == "first_literal" {
      c := FirstLiteral(F);
      return;
    }
    if tag == "random_literal" {
      c := RandomLiteral(F);
      return;
    }
    if tag == "most_frequent_literal" {
      c := MostFrequentLiteral(F);
      return;
    }
    if tag == "dlis" {
      c := Dlis(F);
      return;
    }
    if tag == "jeroslow_wang" {
      c := JeroslowWang(F);
      return;
    }
    if tag == "moms" {
      c := Moms(F);
      return;
    }
    return NoLiteral;
  }
}
