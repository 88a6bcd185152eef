/** The reasoner object: the TBox, the relevance set built from it once, and
    the completion graph that the six rules grow in place. */
module Reasoner {
  import opened Concepts
  import opened Graph
  import Relevance

  class ELReasoner {
    const tbox: seq<Axiom>
    /** How Python prints a non-atomic filler inside a successor name. */
    const text: Concept -> string
    const relevant: set<Concept>
    var individuals: Individuals
    /** The concepts individuals were seeded with by initialize_individual. */
    ghost var seeds: set<Concept>

    /** The concepts an individual may ever hold. */
    ghost function Allowed(): set<Concept>
      reads this
    {
      relevant + {Top} + seeds
    }

    ghost predicate Valid()
      reads this
    {
      && relevant == Relevance.RelevantSet(tbox)
      && Closed(individuals)
      && Bounded(individuals, Allowed())
    }

    constructor (tbox: seq<Axiom>, text: Concept -> string)
      ensures this.tbox == tbox && this.text == text
      ensures individuals == map[] && seeds == {}
      ensures Valid()
    {
      this.tbox := tbox;
      this.text := text;
      individuals := map[];
      seeds := {};
      var rel := Relevance.ExtractRelevantConcepts(tbox);
      relevant := rel;
    }

    /** is_relevant: membership in the relevance set of the TBox. */
    function IsRelevant(c: Concept): (b: bool)
      reads this
      requires Valid()
      ensures b <==> c in Relevance.RelevantSet(tbox)
    {
      c in relevant
    }

    /** is_entailment: whether d holds c.  An individual only ever holds
        relevant concepts, the top concept and the concepts it was seeded
        with. */
    function IsEntailment(d: string, c: Concept): (b: bool)
      reads this
      requires Valid() && d in individuals
      ensures b ==> c in Relevance.RelevantSet(tbox) || c == Top || c in seeds
    {
      c in individuals[d].concepts
    }

    /** initialize_individual: d (re)starts with {c} and no roles. */
    method InitializeIndividual(d: string, c: Concept)
      requires Valid()
      modifies this
      ensures Valid()
      ensures individuals == old(individuals)[d := Ind({c}, map[])]
      ensures seeds == old(seeds) + {c}
    {
      individuals := individuals[d := Ind({c}, map[])];
      seeds := seeds + {c};
    }

    /** top_rule */
    method TopRule(d: string) returns (changed: bool)
      requires Valid() && d in individuals
      modifies this`individuals
      ensures Valid() && Monotone(old(individuals), individuals)
      ensures Top in individuals[d].concepts
      ensures changed == TopApplies(old(individuals)[d])
      ensures individuals == if changed then AddConcept(old(individuals), d, Top) else old(individuals)
    {
      AddConceptKeeps(individuals, d, Top, Allowed());
      if Top !in individuals[d].concepts {
        individuals := AddConcept(individuals, d, Top);
        return true;
      }
      return false;
    }

    /** u_rule_1: collect the relevant operands of every conjunction d holds,
        and add them if any is new. */
    method UnfoldRule(d: string) returns (changed: bool)
      requires Valid() && d in individuals
      modifies this`individuals
      ensures Valid() && Monotone(old(individuals), individuals)
      ensures changed == UnfoldApplies(old(individuals)[d], relevant)
      ensures changed <==> old(individuals)[d].concepts < individuals[d].concepts
      ensures !changed ==> individuals == old(individuals)
      ensures individuals == old(individuals)[d := old(individuals)[d].(concepts :=
                old(individuals)[d].concepts + Unfolded(old(individuals)[d].concepts, relevant))]
    {
      var concepts := individuals[d].concepts;
      var newConcepts: set<Concept> := {};
      var pending := concepts;
      while pending != {}
        invariant pending <= concepts
        invariant forall p :: p in newConcepts <==>
          p in relevant && exists c :: c in concepts - pending && c.And? && p in c.operands
      {
        var concept :| concept in pending;
        if concept.And? {
          var parts := concept.operands;
          while parts != {}
            invariant parts <= concept.operands
            invariant forall p :: p in newConcepts <==>
              p in relevant && ((exists c :: c in concepts - pending && c.And? && p in c.operands)
                                || p in concept.operands - parts)
          {
            var part :| part in parts;
            if part in relevant {
              newConcepts := newConcepts + {part};
            }
            parts := parts - {part};
          }
        }
        pending := pending - {concept};
      }
      assert newConcepts == Unfolded(concepts, relevant);
      if newConcepts - concepts != {} {
        individuals := individuals[d := individuals[d].(concepts := concepts + newConcepts)];
        return true;
      }
      assert concepts + newConcepts == concepts;
      assert individuals[d].(concepts := concepts) == individuals[d];
      return false;
    }

    /** u_rule_2: add the first relevant, absent conjunction of two distinct
        concepts d holds, and stop. */
    method ConjunctionRule(d: string) returns (changed: bool)
      requires Valid() && d in individuals
      modifies this`individuals
      ensures Valid() && Monotone(old(individuals), individuals)
      ensures changed == (ConjunctionCandidates(old(individuals)[d].concepts, relevant) != {})
      ensures !changed ==> individuals == old(individuals)
      ensures changed ==> exists k :: k in ConjunctionCandidates(old(individuals)[d].concepts, relevant)
                                   && individuals == AddConcept(old(individuals), d, k)
    {
      var concepts := individuals[d].concepts;
      var outer := concepts;
      while outer != {}
        invariant outer <= concepts
        invariant forall c1, c2 :: c1 in concepts - outer && c2 in concepts && c1 != c2 ==>
          And({c1, c2}) !in relevant || And({c1, c2}) in concepts
      {
        var c1 :| c1 in outer;
        var inner := concepts;
        while inner != {}
          invariant inner <= concepts
          invariant forall c2 :: c2 in concepts - inner && c1 != c2 ==>
            And({c1, c2}) !in relevant || And({c1, c2}) in concepts
        {
          var c2 :| c2 in inner;
          var conjunction := And({c1, c2});
          if c1 != c2 && conjunction in relevant && conjunction !in concepts {
            assert ConjunctionOf(conjunction, concepts);
            assert conjunction in ConjunctionCandidates(concepts, relevant);
            AddConceptKeeps(individuals, d, conjunction, Allowed());
            individuals := AddConcept(individuals, d, conjunction);
            return true;
          }
          inner := inner - {c2};
        }
        outer := outer - {c1};
      }
      assert ConjunctionCandidates(concepts, relevant) == {};
      return false;
    }

    /** The first loop of existential_rule_1: it stops as soon as an
        existential on a role d already has is witnessed; otherwise it maps
        each role d does not have yet to one relevant filler of an
        existential d holds on it (a later filler overwrites an earlier). */
    method FindNewRoles(d: string) returns (witnessed: bool, newRoles: map<string, Concept>)
      requires Valid() && d in individuals
      ensures witnessed == Witnessed(individuals, d)
      ensures !witnessed ==> newRoles.Keys == PendingRoles(individuals[d], relevant)
      ensures forall r :: r in newRoles ==>
        Exists(r, newRoles[r]) in individuals[d].concepts && newRoles[r] in relevant
    {
      var ind := individuals[d];
      newRoles := map[];
      var pending := ind.concepts;
      while pending != {}
        invariant pending <= ind.concepts
        invariant forall c :: c in ind.concepts - pending ==> !HasWitness(individuals, ind, c)
        invariant forall r :: r in newRoles <==>
          (exists c :: c in ind.concepts - pending && c.Exists? && c.role == r && r !in ind.roles && c.filler in relevant)
        invariant forall r :: r in newRoles ==>
          Exists(r, newRoles[r]) in ind.concepts && newRoles[r] in relevant
      {
        var concept :| concept in pending;
        if concept.Exists? {
          var role, filler := concept.role, concept.filler;
          if role in ind.roles {
            var successors := ind.roles[role];
            for i := 0 to |successors|
              invariant forall j :: 0 <= j < i ==> filler !in individuals[successors[j]].concepts
            {
              if filler in individuals[successors[i]].concepts {
                assert HasWitness(individuals, ind, concept);
                return true, newRoles;
              }
            }
          } else if filler in relevant {
            newRoles := newRoles[role := filler];
          }
        }
        pending := pending - {concept};
      }
      forall r ensures r in newRoles <==> r in PendingRoles(ind, relevant) {
        if r in PendingRoles(ind, relevant) {
          var c :| c in ind.concepts && c.Exists? && c.role !in ind.roles && c.filler in relevant && c.role == r;
        }
      }
      return false, newRoles;
    }

    /** The second loop of existential_rule_1: for every entry of newRoles,
        (re)create the successor "new_<role>_<filler>" holding just the
        filler, and append it to d's list for the role. */
    method AddSuccessors(d: string, newRoles: map<string, Concept>) returns (ghost ps: seq<(string, Concept)>)
      requires d in individuals
      modifies this`individuals
      ensures individuals == Expand(old(individuals), d, ps, text)
      ensures Enumerates(ps, newRoles, newRoles.Keys)
    {
      ps := [];
      var todo := newRoles.Keys;
      while todo != {}
        invariant todo <= newRoles.Keys
        invariant d in individuals && individuals == Expand(old(individuals), d, ps, text)
        invariant Enumerates(ps, newRoles, newRoles.Keys - todo)
      {
        var role :| role in todo;
        var filler := newRoles[role];
        var successor := SuccessorName(role, filler, text);
        ExpandSnoc(old(individuals), d, ps, (role, filler), text);
        EnumeratesSnoc(ps, newRoles, newRoles.Keys - todo, role);
        var created := individuals[successor := Ind({filler}, map[])];
        individuals := created[d := created[d].(roles := AppendRole(created[d].roles, role, successor))];
        ps := ps + [(role, filler)];
        assert newRoles.Keys - todo + {role} == newRoles.Keys - (todo - {role});
        todo := todo - {role};
      }
    }

    /** existential_rule_1: unless an existential of d is witnessed, expand
        every pending role. */
    method ExpansionRule(d: string) returns (changed: bool)
      requires Valid() && d in individuals
      modifies this`individuals
      ensures Valid() && KeepsUnmarked(old(individuals), individuals)
      ensures changed == ExpansionApplies(old(individuals), d, relevant)
      ensures !changed ==> individuals == old(individuals)
      ensures changed ==> exists ps :: Expansions(old(individuals)[d], relevant, ps)
                                    && individuals == Expand(old(individuals), d, ps, text)
    {
      var witnessed, newRoles := FindNewRoles(d);
      if witnessed || newRoles == map[] {
        return false;
      }
      assert newRoles.Keys != {};
      ghost var start := individuals;
      ghost var ps := AddSuccessors(d, newRoles);
      assert Expansions(start[d], relevant, ps);
      ExpandKeeps(start, d, ps, text, Allowed());
      return true;
    }

    /** existential_rule_2: add the first relevant, absent ("exists", (r, C))
        such that an r-successor of d holds C, and stop. */
    method SummaryRule(d: string) returns (changed: bool)
      requires Valid() && d in individuals
      modifies this`individuals
      ensures Valid() && Monotone(old(individuals), individuals)
      ensures changed == (SummaryCandidates(old(individuals), d, relevant) != {})
      ensures !changed ==> individuals == old(individuals)
      ensures changed ==> exists e :: e in SummaryCandidates(old(individuals), d, relevant)
                                   && individuals == AddConcept(old(individuals), d, e)
    {
      var ind := individuals[d];
      var roles := ind.roles.Keys;
      while roles != {}
        invariant roles <= ind.roles.Keys
        invariant forall r, s, c :: r in ind.roles.Keys - roles && s in ind.roles[r] && c in individuals[s].concepts
                                    ==> Exists(r, c) !in relevant || Exists(r, c) in ind.concepts
      {
        var role :| role in roles;
        var successors := ind.roles[role];
        for i := 0 to |successors|
          invariant forall j, c :: 0 <= j < i && c in individuals[successors[j]].concepts
                                   ==> Exists(role, c) !in relevant || Exists(role, c) in ind.concepts
        {
          var successor := successors[i];
          var concepts := individuals[successor].concepts;
          while concepts != {}
            invariant concepts <= individuals[successor].concepts
            invariant forall c :: c in individuals[successor].concepts - concepts
                                  ==> Exists(role, c) !in relevant || Exists(role, c) in ind.concepts
          {
            var concept :| concept in concepts;
            var existential := Exists(role, concept);
            if existential in relevant && existential !in ind.concepts {
              assert HasWitness(individuals, ind, existential);
              assert existential in SummaryCandidates(individuals, d, relevant);
              AddConceptKeeps(individuals, d, existential, Allowed());
              individuals := AddConcept(individuals, d, existential);
              return true;
            }
            concepts := concepts - {concept};
          }
        }
        roles := roles - {role};
      }
      assert SummaryCandidates(individuals, d, relevant) == {};
      return false;
    }

    /** disjunction_rule: for the first held concept that is the lhs of a
        GeneralConceptInclusion with a relevant rhs, add the rhs (present or
        not) and report a change. */
    method PropagationRule(d: string) returns (changed: bool)
      requires Valid() && d in individuals
      modifies this`individuals
      ensures Valid() && Monotone(old(individuals), individuals)
      ensures changed == !PropagationQuiet(tbox, old(individuals)[d].concepts, relevant, false)
      ensures !changed ==> individuals == old(individuals)
      ensures changed ==> exists rhs :: rhs in PropagationTargets(tbox, old(individuals)[d].concepts, relevant)
                                     && individuals == AddConcept(old(individuals), d, rhs)
    {
      var concepts := individuals[d].concepts;
      var pending := concepts;
      while pending != {}
        invariant pending <= concepts
        invariant forall c, i :: c in concepts - pending && 0 <= i < |tbox| && Fires(tbox[i], {c})
                                 ==> tbox[i].operands.value.1 !in relevant
      {
        var c :| c in pending;
        for i := 0 to |tbox|
          invariant forall j :: 0 <= j < i && Fires(tbox[j], {c}) ==> tbox[j].operands.value.1 !in relevant
        {
          if tbox[i].kind != GciKind {
            continue;
          }
          match tbox[i].operands
          case None =>  // the formatter raised: skip the axiom
          case Some((lhs, rhs)) =>
            if lhs == c && rhs in relevant {
              assert rhs in PropagationTargets(tbox, concepts, relevant);
              AddConceptKeeps(individuals, d, rhs, Allowed());
              individuals := AddConcept(individuals, d, rhs);
              return true;
            }
        }
        pending := pending - {c};
      }
      assert PropagationTargets(tbox, concepts, relevant) == {} by {
        forall y | y in PropagationTargets(tbox, concepts, relevant) ensures false {
          var i :| 0 <= i < |tbox| && Fires(tbox[i], concepts) && tbox[i].operands.value.1 in relevant
                   && y == tbox[i].operands.value.1;
          assert Fires(tbox[i], {tbox[i].operands.value.0});
        }
      }
      return false;
    }

    /** disjunction_rule corrected: the same search, but a rhs d already
        holds does not count, so True means the concepts of d grew. */
    method PropagationRuleChecked(d: string) returns (changed: bool)
      requires Valid() && d in individuals
      modifies this`individuals
      ensures Valid() && Monotone(old(individuals), individuals)
      ensures changed == !PropagationQuiet(tbox, old(individuals)[d].concepts, relevant, true)
      ensures changed <==> old(individuals)[d].concepts < individuals[d].concepts
      ensures !changed ==> individuals == old(individuals)
      ensures changed ==> exists rhs :: rhs in PropagationTargets(tbox, old(individuals)[d].concepts, relevant)
                                     && rhs !in old(individuals)[d].concepts
                                     && individuals == AddConcept(old(individuals), d, rhs)
    {
      var concepts := individuals[d].concepts;
      var pending := concepts;
      while pending != {}
        invariant pending <= concepts
        invariant forall c, i ::
          (c in concepts - pending && 0 <= i < |tbox| && Fires(tbox[i], {c}) && tbox[i].operands.value.1 in relevant)
          ==> tbox[i].operands.value.1 in concepts
      {
        var c :| c in pending;
        for i := 0 to |tbox|
          invariant forall j :: 0 <= j < i && Fires(tbox[j], {c}) && tbox[j].operands.value.1 in relevant
                                ==> tbox[j].operands.value.1 in concepts
        {
          if tbox[i].kind != GciKind {
            continue;
          }
          match tbox[i].operands
          case None =>
          case Some((lhs, rhs)) =>
            if lhs == c && rhs in relevant && rhs !in concepts {
              assert rhs in PropagationTargets(tbox, concepts, relevant);
              AddConceptKeeps(individuals, d, rhs, Allowed());
              individuals := AddConcept(individuals, d, rhs);
              return true;
            }
        }
        pending := pending - {c};
      }
      assert PropagationTargets(tbox, concepts, relevant) <= concepts by {
        forall y | y in PropagationTargets(tbox, concepts, relevant) ensures y in concepts {
          var i :| 0 <= i < |tbox| && Fires(tbox[i], concepts) && tbox[i].operands.value.1 in relevant
                   && y == tbox[i].operands.value.1;
          assert Fires(tbox[i], {tbox[i].operands.value.0});
        }
      }
      return false;
    }

    /** The first three rules of one visit, which look only at d's own
        concepts. */
    method ApplyLocalRules(d: string) returns (changed: bool)
      requires Valid() && d in individuals
      modifies this`individuals
      ensures Valid() && Monotone(old(individuals), individuals)
      ensures !changed ==> individuals == old(individuals) && LocallyQuiet(individuals[d], relevant)
    {
      ghost var g0 := individuals;
      var top := TopRule(d);
      ghost var g1 := individuals;
      var unfold := UnfoldRule(d);
      ghost var g2 := individuals;
      var conjunction := ConjunctionRule(d);
      MonotoneTrans(g0, g1, g2);
      MonotoneTrans(g0, g2, individuals);
      changed := top || unfold || conjunction;
    }

    /** The last three rules of one visit. */
    method ApplyEdgeRules(d: string, checkRhs: bool) returns (changed: bool)
      requires Valid() && d in individuals
      modifies this`individuals
      ensures Valid() && KeepsUnmarked(old(individuals), individuals)
      ensures !changed ==> individuals == old(individuals) && EdgesQuiet(individuals, d, tbox, relevant, checkRhs)
    {
      var expansion := ExpansionRule(d);
      var summary := SummaryRule(d);
      var propagation;
      if checkRhs {
        propagation := PropagationRuleChecked(d);
      } else {
        propagation := PropagationRule(d);
      }
      changed := expansion || summary || propagation;
    }

    /** One visit of run_completion to d: the six rules in order.  When none
        of them returns True the graph is unchanged and d is quiet. */
    method ApplyRules(d: string, checkRhs: bool) returns (changed: bool)
      requires Valid() && d in individuals
      modifies this`individuals
      ensures Valid() && KeepsUnmarked(old(individuals), individuals)
      ensures !changed ==> individuals == old(individuals) && Quiet(individuals, d, tbox, relevant, checkRhs)
    {
      var local := ApplyLocalRules(d);
      var edges := ApplyEdgeRules(d, checkRhs);
      changed := local || edges;
    }

    /** run_completion: passes over the individuals present when the pass
        starts, applying the six rules to each, until a pass in which no
        rule returned True; at most fuel passes.  checkRhs selects the
        corrected propagation rule. */
    method RunCompletion(fuel: nat, checkRhs: bool) returns (settled: bool)
      requires Valid()
      modifies this`individuals
      ensures Valid() && KeepsUnmarked(old(individuals), individuals)
      ensures settled ==> Settled(individuals, tbox, relevant, checkRhs)
    {
      var changes := true;
      var passes := 0;
      while changes && passes < fuel
        invariant Valid() && KeepsUnmarked(old(individuals), individuals)
        invariant !changes ==> Settled(individuals, tbox, relevant, checkRhs)
        decreases fuel - passes
      {
        changes := false;
        ghost var start := individuals;
        var pending := individuals.Keys;
        while pending != {}
          invariant Valid() && KeepsUnmarked(old(individuals), individuals)
          invariant pending <= start.Keys <= individuals.Keys
          invariant !changes ==> individuals == start
          invariant !changes ==> forall x :: x in start.Keys - pending ==> Quiet(individuals, x, tbox, relevant, checkRhs)
        {
          var d :| d in pending;
          var changed := ApplyRules(d, checkRhs);
          changes := changes || changed;
          pending := pending - {d};
        }
        passes := passes + 1;
      }
      settled := !changes;
    }

    /** get_all_subsumers: seed "d0" with the named concept, run the rules,
        and return what d0 holds; None when fuel passes did not settle. */
    method GetAllSubsumers(conceptName: string, fuel: nat, checkRhs: bool) returns (subsumers: Option<set<Concept>>)
      requires Valid()
      modifies this
      ensures Valid() && seeds == old(seeds) + {Name(conceptName)}
      ensures subsumers.Some? ==>
        && Query in individuals
        && subsumers.value == individuals[Query].concepts
        && Settled(individuals, tbox, relevant, checkRhs)
        && Name(conceptName) in subsumers.value
        && Top in subsumers.value
        && subsumers.value <= Relevance.RelevantSet(tbox) + {Top} + seeds
    {
      InitializeIndividual(Query, Name(conceptName));
      var settled := RunCompletion(fuel, checkRhs);
      if !settled {
        return None;
      }
      assert Quiet(individuals, Query, tbox, relevant, checkRhs);
      return Some(individuals[Query].concepts);
    }
  }

  /** One get_all_subsumers call on a freshly constructed reasoner.  When
      the completion settles within fuel passes, the answer holds the query
      concept and the top concept, nothing but relevant concepts besides,
      and is closed under the rules.  As written, an answer holds no lhs of
      a GeneralConceptInclusion, so a query concept that is one never
      settles; with the corrected rule the answer follows every
      GeneralConceptInclusion instead. */
  method SubsumersOf(tbox: seq<Axiom>, text: Concept -> string, conceptName: string, fuel: nat, checkRhs: bool)
    returns (s: Option<set<Concept>>)
    ensures s.Some? ==> Name(conceptName) in s.value && Top in s.value
    ensures s.Some? ==> s.value <= Relevance.RelevantSet(tbox) + {Top, Name(conceptName)}
    ensures s.Some? ==> forall c, p :: c in s.value && c.And? && p in c.operands && p in Relevance.RelevantSet(tbox)
                                       ==> p in s.value
    ensures s.Some? ==> forall c1, c2 ::
      (c1 in s.value && c2 in s.value && c1 != c2 && And({c1, c2}) in Relevance.RelevantSet(tbox))
      ==> And({c1, c2}) in s.value
    ensures s.Some? && !checkRhs ==>
      forall i :: 0 <= i < |tbox| && tbox[i].kind == GciKind && tbox[i].operands.Some?
                  ==> tbox[i].operands.value.0 !in s.value
    ensures !checkRhs && (exists i :: 0 <= i < |tbox| && Fires(tbox[i], {Name(conceptName)})) ==> s.None?
    ensures s.Some? && checkRhs ==>
      forall i :: 0 <= i < |tbox| && Fires(tbox[i], s.value) ==> tbox[i].operands.value.1 in s.value
  {
    var reasoner := new ELReasoner(tbox, text);
    s := reasoner.GetAllSubsumers(conceptName, fuel, checkRhs);
    if s.Some? {
      QuietMeans(reasoner.individuals, Query, tbox, reasoner.relevant, checkRhs);
      if checkRhs {
        forall i | 0 <= i < |tbox| && Fires(tbox[i], s.value) ensures tbox[i].operands.value.1 in s.value {
          SettledFollowsGcis(reasoner.individuals, tbox, Query, i);
        }
      } else {
        forall i | 0 <= i < |tbox| && tbox[i].kind == GciKind && tbox[i].operands.Some?
          ensures tbox[i].operands.value.0 !in s.value
        {
          SettledAvoidsGciLhs(reasoner.individuals, tbox, Query, i);
        }
      }
    }
  }
}
