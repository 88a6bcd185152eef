/** The completion graph of the reasoner and what each completion rule finds
    to do on it.  The graph is the dictionary self.individuals: a name maps to
    a record holding a set of concepts and a dictionary from role names to
    the list of successor names. */
module Graph {
  import opened Concepts
  import Relevance

  datatype Ind = Ind(concepts: set<Concept>, roles: map<string, seq<string>>)

  type Individuals = map<string, Ind>

  /** The name get_all_subsumers gives the query individual. */
  const Query: string := "d0"

  /** Every successor listed in a role list is an individual of the graph:
      the rules look successors up without a guard. */
  ghost predicate Closed(g: Individuals)
  {
    forall x, r, s :: x in g && r in g[x].roles && s in g[x].roles[r] ==> s in g
  }

  /** Every concept held by an individual is in allowed. */
  ghost predicate Bounded(g: Individuals, allowed: set<Concept>)
  {
    forall x :: x in g ==> g[x].concepts <= allowed
  }

  /** Every role list of a only grows into the one of b. */
  ghost predicate RolesGrow(a: map<string, seq<string>>, b: map<string, seq<string>>)
  {
    forall r :: r in a ==> r in b && a[r] <= b[r]
  }

  /** g' keeps every individual of g with at least its concepts and roles. */
  ghost predicate Monotone(g: Individuals, g': Individuals)
  {
    && g.Keys <= g'.Keys
    && (forall x :: x in g ==> g[x].concepts <= g'[x].concepts)
    && (forall x :: x in g ==> RolesGrow(g[x].roles, g'[x].roles))
  }

  /** g' keeps every individual of g, and every individual whose name is not
      a successor name keeps its concepts. */
  ghost predicate KeepsUnmarked(g: Individuals, g': Individuals)
  {
    && g.Keys <= g'.Keys
    && forall x :: x in g && !IsSuccessorName(x) ==> g[x].concepts <= g'[x].concepts
  }

  lemma MonotoneTrans(a: Individuals, b: Individuals, c: Individuals)
    requires Monotone(a, b) && Monotone(b, c)
    ensures Monotone(a, c)
  {
    forall x | x in a ensures RolesGrow(a[x].roles, c[x].roles) {
      assert RolesGrow(a[x].roles, b[x].roles) && RolesGrow(b[x].roles, c[x].roles);
    }
  }

  /** Adds c to the concepts of d. */
  function AddConcept(g: Individuals, d: string, c: Concept): Individuals
    requires d in g
  {
    g[d := g[d].(concepts := g[d].concepts + {c})]
  }

  /** Adding a concept grows the graph and keeps it closed and bounded. */
  lemma AddConceptKeeps(g: Individuals, d: string, c: Concept, allowed: set<Concept>)
    requires d in g
    ensures Monotone(g, AddConcept(g, d, c))
    ensures Closed(g) ==> Closed(AddConcept(g, d, c))
    ensures Bounded(g, allowed) && c in allowed ==> Bounded(AddConcept(g, d, c), allowed)
    ensures c in g[d].concepts <==> AddConcept(g, d, c) == g
  {
    if AddConcept(g, d, c) == g {
      assert AddConcept(g, d, c)[d].concepts == g[d].concepts;
    }
    if c in g[d].concepts {
      assert g[d].concepts + {c} == g[d].concepts;
      assert g[d].(concepts := g[d].concepts) == g[d];
    }
  }

  // ---------------------------------------------------------------- top_rule

  predicate TopApplies(ind: Ind)
  {
    Top !in ind.concepts
  }

  // ---------------------------------------------------------------- u_rule_1

  /** The relevant operands of the conjunctions in cs. */
  function Unfolded(cs: set<Concept>, relevant: set<Concept>): set<Concept>
  {
    set p | p in relevant && exists c :: c in cs && c.And? && p in c.operands
  }

  predicate UnfoldApplies(ind: Ind, relevant: set<Concept>)
  {
    !(Unfolded(ind.concepts, relevant) <= ind.concepts)
  }

  // ---------------------------------------------------------------- u_rule_2

  /** k is the conjunction ("and", frozenset({c1, c2})) of two distinct
      concepts of cs. */
  ghost predicate ConjunctionOf(k: Concept, cs: set<Concept>)
  {
    exists c1, c2 :: c1 in cs && c2 in cs && c1 != c2 && k == And({c1, c2})
  }

  /** The conjunctions u_rule_2 may add to an individual holding cs. */
  ghost function ConjunctionCandidates(cs: set<Concept>, relevant: set<Concept>): set<Concept>
  {
    set k | k in relevant && k !in cs && ConjunctionOf(k, cs)
  }

  /** The pairs the rule builds are exactly the two-operand conjunctions whose
      operands are both held. */
  lemma ConjunctionShape(k: Concept, cs: set<Concept>)
    ensures ConjunctionOf(k, cs) <==> k.And? && |k.operands| == 2 && k.operands <= cs
  {
    if k.And? && |k.operands| == 2 && k.operands <= cs {
      var c1 :| c1 in k.operands;
      var rest := k.operands - {c1};
      assert |rest| == 1;
      var c2 :| c2 in rest;
      assert |rest - {c2}| == 0;
      assert rest == {c2};
      assert k.operands == rest + {c1};
      assert k.operands == {c1, c2};
      assert k == And({c1, c2});
    }
  }

  // ------------------------------------------------------- existential_rule_1

  /** c is an existential on a role ind already has, and some successor on
      that role holds its filler. */
  ghost predicate HasWitness(g: Individuals, ind: Ind, c: Concept)
  {
    && c.Exists?
    && c.role in ind.roles
    && exists s :: s in ind.roles[c.role] && s in g && c.filler in g[s].concepts
  }

  /** Some existential of d is witnessed: the rule gives up on d at once. */
  ghost predicate Witnessed(g: Individuals, d: string)
    requires d in g
  {
    exists c :: c in g[d].concepts && HasWitness(g, g[d], c)
  }

  /** The roles of those existentials of ind whose role ind does not have yet
      and whose filler is relevant: the keys of new_roles. */
  function PendingRoles(ind: Ind, relevant: set<Concept>): set<string>
  {
    set c | c in ind.concepts && c.Exists? && c.role !in ind.roles && c.filler in relevant :: c.role
  }

  ghost predicate ExpansionApplies(g: Individuals, d: string, relevant: set<Concept>)
    requires d in g
  {
    !Witnessed(g, d) && PendingRoles(g[d], relevant) != {}
  }

  /** The successor name f"new_{role}_{filler}".  A name renders as itself;
      text stands for how Python prints any other concept (a tuple). */
  function SuccessorName(role: string, filler: Concept, text: Concept -> string): string
  {
    "new_" + role + "_" + (if filler.Name? then filler.id else text(filler))
  }

  predicate IsSuccessorName(x: string)
  {
    |x| >= 4 && x[..4] == "new_"
  }

  /** Every successor name carries the prefix; the query individual's name
      does not, so it is never overwritten by an expansion. */
  lemma SuccessorNameMarked(role: string, filler: Concept, text: Concept -> string)
    ensures IsSuccessorName(SuccessorName(role, filler, text))
    ensures SuccessorName(role, filler, text) != Query
  {
    assert SuccessorName(role, filler, text)[..4] == "new_";
  }

  /** Two different (role, filler) pairs can produce the same name. */
  lemma SuccessorNamesCollide(text: Concept -> string)
    ensures SuccessorName("a_b", Name("c"), text) == SuccessorName("a", Name("b_c"), text)
  {
  }

  /** setdefault(role, []).append(name) */
  function AppendRole(roles: map<string, seq<string>>, role: string, name: string): map<string, seq<string>>
  {
    roles[role := (if role in roles then roles[role] else []) + [name]]
  }

  /** One expansion: the successor is (re)created with {filler} and no roles,
      then appended to d's list for the role. */
  function ExpandOne(g: Individuals, d: string, role: string, filler: Concept, text: Concept -> string): Individuals
    requires d in g
  {
    var n := SuccessorName(role, filler, text);
    var g1 := g[n := Ind({filler}, map[])];
    g1[d := g1[d].(roles := AppendRole(g1[d].roles, role, n))]
  }

  function Names(ps: seq<(string, Concept)>, text: Concept -> string): set<string>
  {
    set i | 0 <= i < |ps| :: SuccessorName(ps[i].0, ps[i].1, text)
  }

  /** The expansions of ps, in order. */
  function Expand(g: Individuals, d: string, ps: seq<(string, Concept)>, text: Concept -> string): (g': Individuals)
    requires d in g
    ensures d in g' && g'.Keys == g.Keys + Names(ps, text)
  {
    if ps == [] then g
    else
      var last := ps[|ps| - 1];
      var front := ps[..|ps| - 1];
      assert Names(ps, text) == Names(front, text) + {SuccessorName(last.0, last.1, text)};
      ExpandOne(Expand(g, d, front, text), d, last.0, last.1, text)
  }

  /** ps lists the expansions existential_rule_1 makes on ind: one filler per
      pending role, each from an existential ind holds. */
  ghost predicate Expansions(ind: Ind, relevant: set<Concept>, ps: seq<(string, Concept)>)
  {
    && (forall i, j :: 0 <= i < j < |ps| ==> ps[i].0 != ps[j].0)
    && (set i | 0 <= i < |ps| :: ps[i].0) == PendingRoles(ind, relevant)
    && (forall i :: 0 <= i < |ps| ==> Exists(ps[i].0, ps[i].1) in ind.concepts && ps[i].1 in relevant)
  }

  /** One expansion keeps the graph closed and bounded by the filler's set,
      and only resets an individual with a successor name. */
  lemma ExpandOneKeeps(h: Individuals, d: string, role: string, filler: Concept, text: Concept -> string,
                       allowed: set<Concept>)
    requires d in h
    ensures Closed(h) ==> Closed(ExpandOne(h, d, role, filler, text))
    ensures Bounded(h, allowed) && filler in allowed ==> Bounded(ExpandOne(h, d, role, filler, text), allowed)
    ensures forall x :: x in h && !IsSuccessorName(x) ==> ExpandOne(h, d, role, filler, text)[x].concepts == h[x].concepts
  {
    SuccessorNameMarked(role, filler, text);
    var n := SuccessorName(role, filler, text);
    var h' := ExpandOne(h, d, role, filler, text);
    if Closed(h) {
      forall x, r, s | x in h' && r in h'[x].roles && s in h'[x].roles[r] ensures s in h' {
        if x == d && r == role && s == n {
        } else if x == d {
          assert r in h[d].roles || n == d;
        }
      }
    }
  }

  lemma {:induction false} ExpandKeeps(g: Individuals, d: string, ps: seq<(string, Concept)>,
                                       text: Concept -> string, allowed: set<Concept>)
    requires d in g
    ensures Closed(g) ==> Closed(Expand(g, d, ps, text))
    ensures Bounded(g, allowed) && (forall i :: 0 <= i < |ps| ==> ps[i].1 in allowed)
            ==> Bounded(Expand(g, d, ps, text), allowed)
    ensures forall x :: x in g && !IsSuccessorName(x) ==> Expand(g, d, ps, text)[x].concepts == g[x].concepts
  {
    if ps != [] {
      var last := ps[|ps| - 1];
      var front := ps[..|ps| - 1];
      ExpandKeeps(g, d, front, text, allowed);
      var h := Expand(g, d, front, text);
      assert Expand(g, d, ps, text) == ExpandOne(h, d, last.0, last.1, text);
      ExpandOneKeeps(h, d, last.0, last.1, text, allowed);
      if Bounded(g, allowed) && (forall i :: 0 <= i < |ps| ==> ps[i].1 in allowed) {
        assert forall i :: 0 <= i < |front| ==> front[i] == ps[i];
      }
    }
  }

  /** One expansion whose successor name is not an individual of g keeps
      a graph that grew from g grown from g. */
  lemma ExpandOneGrows(g: Individuals, h: Individuals, d: string, role: string, filler: Concept,
                       text: Concept -> string)
    requires d in h && Monotone(g, h) && SuccessorName(role, filler, text) !in g
    ensures Monotone(g, ExpandOne(h, d, role, filler, text))
  {
    var h' := ExpandOne(h, d, role, filler, text);
    forall x | x in g ensures RolesGrow(g[x].roles, h'[x].roles) {
      assert RolesGrow(g[x].roles, h[x].roles);
      if x == d {
        assert RolesGrow(h[d].roles, h'[d].roles);
      }
    }
  }

  /** When no name of ps is already taken, the expansions only grow the
      graph. */
  lemma {:induction false} ExpandMonotone(g: Individuals, d: string, ps: seq<(string, Concept)>, text: Concept -> string)
    requires d in g
    requires Names(ps, text) !! g.Keys
    ensures Monotone(g, Expand(g, d, ps, text))
  {
    if ps == [] {
      assert forall x :: x in g ==> RolesGrow(g[x].roles, g[x].roles);
    } else {
      var last := ps[|ps| - 1];
      var front := ps[..|ps| - 1];
      assert Names(ps, text) == Names(front, text) + {SuccessorName(last.0, last.1, text)};
      ExpandMonotone(g, d, front, text);
      ExpandOneGrows(g, Expand(g, d, front, text), d, last.0, last.1, text);
    }
  }

  /** When no later expansion uses the same name, and the name is not d,
      the i-th successor holds exactly its filler and no roles. */
  lemma {:induction false} ExpandSuccessor(g: Individuals, d: string, ps: seq<(string, Concept)>,
                                           text: Concept -> string, i: int)
    requires d in g && 0 <= i < |ps|
    requires SuccessorName(ps[i].0, ps[i].1, text) != d
    requires forall j :: i < j < |ps| ==> SuccessorName(ps[j].0, ps[j].1, text) != SuccessorName(ps[i].0, ps[i].1, text)
    ensures SuccessorName(ps[i].0, ps[i].1, text) in Expand(g, d, ps, text)
    ensures Expand(g, d, ps, text)[SuccessorName(ps[i].0, ps[i].1, text)] == Ind({ps[i].1}, map[])
  {
    var k := |ps| - 1;
    var front := ps[..k];
    assert Expand(g, d, ps, text) == ExpandOne(Expand(g, d, front, text), d, ps[k].0, ps[k].1, text);
    if i < k {
      assert forall j :: 0 <= j < k ==> front[j] == ps[j];
      ExpandSuccessor(g, d, front, text, i);
    }
  }

  /** Without name collisions each successor holds exactly its filler and
      no roles, and d keeps its concepts. */
  lemma ExpandFreshSuccessors(g: Individuals, d: string, ps: seq<(string, Concept)>, text: Concept -> string)
    requires d in g
    requires forall i, j :: 0 <= i < j < |ps| ==>
      SuccessorName(ps[i].0, ps[i].1, text) != SuccessorName(ps[j].0, ps[j].1, text)
    requires d !in Names(ps, text)
    ensures forall i :: 0 <= i < |ps| ==>
      Expand(g, d, ps, text)[SuccessorName(ps[i].0, ps[i].1, text)] == Ind({ps[i].1}, map[])
    ensures Expand(g, d, ps, text)[d].concepts == g[d].concepts
  {
    forall i | 0 <= i < |ps|
      ensures Expand(g, d, ps, text)[SuccessorName(ps[i].0, ps[i].1, text)] == Ind({ps[i].1}, map[])
    {
      assert SuccessorName(ps[i].0, ps[i].1, text) in Names(ps, text);
      ExpandSuccessor(g, d, ps, text, i);
    }
    ExpandAtSource(g, d, ps, text);
  }

  /** Expanding one more pair is one more ExpandOne. */
  lemma ExpandSnoc(g: Individuals, d: string, ps: seq<(string, Concept)>, p: (string, Concept),
                   text: Concept -> string)
    requires d in g
    ensures Expand(g, d, ps + [p], text) == ExpandOne(Expand(g, d, ps, text), d, p.0, p.1, text)
  {
    assert (ps + [p])[..|ps|] == ps;
  }

  /** The roles of the expansions ps. */
  function RolesOf(ps: seq<(string, Concept)>): (roles: set<string>)
    ensures forall i :: 0 <= i < |ps| ==> ps[i].0 in roles
  {
    set i | 0 <= i < |ps| :: ps[i].0
  }

  lemma RolesOfSnoc(ps: seq<(string, Concept)>, p: (string, Concept))
    ensures RolesOf(ps + [p]) == RolesOf(ps) + {p.0}
  {
    var qs := ps + [p];
    assert qs[|ps|] == p;
    forall r | r in RolesOf(ps) ensures r in RolesOf(qs) {
      var i :| 0 <= i < |ps| && ps[i].0 == r;
      assert qs[i] == ps[i];
    }
  }

  /** ps lists the entries of m whose roles are in done, each role once. */
  ghost predicate Enumerates(ps: seq<(string, Concept)>, m: map<string, Concept>, done: set<string>)
  {
    && (forall i, j :: 0 <= i < j < |ps| ==> ps[i].0 != ps[j].0)
    && RolesOf(ps) == done
    && (forall i :: 0 <= i < |ps| ==> ps[i].0 in m && ps[i].1 == m[ps[i].0])
  }

  lemma EnumeratesSnoc(ps: seq<(string, Concept)>, m: map<string, Concept>, done: set<string>, r: string)
    requires Enumerates(ps, m, done) && r in m && r !in done
    ensures Enumerates(ps + [(r, m[r])], m, done + {r})
  {
    var qs := ps + [(r, m[r])];
    RolesOfSnoc(ps, (r, m[r]));
    forall i, j | 0 <= i < j < |qs| ensures qs[i].0 != qs[j].0 {
      if j == |ps| {
        assert qs[i] == ps[i];
        assert ps[i].0 in RolesOf(ps);
      }
    }
  }

  /** An expansion whose successor name is not d leaves d's concepts alone
      and adds one edge to d. */
  lemma ExpandOneAtSource(h: Individuals, d: string, role: string, filler: Concept, text: Concept -> string)
    requires d in h && SuccessorName(role, filler, text) != d
    ensures ExpandOne(h, d, role, filler, text)[d]
         == h[d].(roles := AppendRole(h[d].roles, role, SuccessorName(role, filler, text)))
  {
  }

  /** d's role dictionary after appending the successor of every expansion
      of ps, in order. */
  function AppendAll(roles: map<string, seq<string>>, ps: seq<(string, Concept)>, text: Concept -> string)
    : map<string, seq<string>>
  {
    if ps == [] then roles
    else
      var last := ps[|ps| - 1];
      AppendRole(AppendAll(roles, ps[..|ps| - 1], text), last.0, SuccessorName(last.0, last.1, text))
  }

  /** When no successor name is d, the expansions change d's roles by
      appending, and nothing else of d. */
  lemma {:induction false} ExpandAtSource(g: Individuals, d: string, ps: seq<(string, Concept)>, text: Concept -> string)
    requires d in g && d !in Names(ps, text)
    ensures Expand(g, d, ps, text)[d] == g[d].(roles := AppendAll(g[d].roles, ps, text))
  {
    if ps != [] {
      var k := |ps| - 1;
      var front := ps[..k];
      assert Names(ps, text) == Names(front, text) + {SuccessorName(ps[k].0, ps[k].1, text)};
      ExpandAtSource(g, d, front, text);
      ExpandOneAtSource(Expand(g, d, front, text), d, ps[k].0, ps[k].1, text);
    }
  }

  /** Appending adds exactly the roles of ps to the dictionary. */
  lemma {:induction false} AppendAllKeys(roles: map<string, seq<string>>, ps: seq<(string, Concept)>,
                                         text: Concept -> string)
    ensures AppendAll(roles, ps, text).Keys == roles.Keys + RolesOf(ps)
  {
    if ps != [] {
      var k := |ps| - 1;
      AppendAllKeys(roles, ps[..k], text);
      assert ps == ps[..k] + [ps[k]];
      RolesOfSnoc(ps[..k], ps[k]);
    }
  }

  /** A role not in ps keeps its list. */
  lemma {:induction false} AppendAllOther(roles: map<string, seq<string>>, ps: seq<(string, Concept)>,
                                          text: Concept -> string, r: string)
    requires r in roles && r !in RolesOf(ps)
    ensures r in AppendAll(roles, ps, text) && AppendAll(roles, ps, text)[r] == roles[r]
  {
    if ps != [] {
      var k := |ps| - 1;
      assert ps == ps[..k] + [ps[k]];
      RolesOfSnoc(ps[..k], ps[k]);
      AppendAllOther(roles, ps[..k], text, r);
    }
  }

  /** With distinct roles, a role of ps that was absent gets exactly its
      one successor. */
  lemma {:induction false} AppendAllNew(roles: map<string, seq<string>>, ps: seq<(string, Concept)>,
                                        text: Concept -> string, i: int)
    requires 0 <= i < |ps| && ps[i].0 !in roles
    requires forall j :: 0 <= j < |ps| && j != i ==> ps[j].0 != ps[i].0
    ensures ps[i].0 in AppendAll(roles, ps, text)
    ensures AppendAll(roles, ps, text)[ps[i].0] == [SuccessorName(ps[i].0, ps[i].1, text)]
  {
    var k := |ps| - 1;
    var front := ps[..k];
    assert forall j :: 0 <= j < k ==> front[j] == ps[j];
    if i == k {
      AppendAllKeys(roles, front, text);
      assert ps[k].0 !in RolesOf(front);
      var n := SuccessorName(ps[k].0, ps[k].1, text);
      assert [] + [n] == [n];
    } else {
      AppendAllNew(roles, front, text, i);
    }
  }

  /** With distinct roles that d does not have yet, d gets exactly one new
      edge per role and keeps the rest. */
  lemma AppendAllFresh(roles: map<string, seq<string>>, ps: seq<(string, Concept)>, text: Concept -> string)
    requires forall i, j :: 0 <= i < j < |ps| ==> ps[i].0 != ps[j].0
    requires forall i :: 0 <= i < |ps| ==> ps[i].0 !in roles
    ensures AppendAll(roles, ps, text).Keys == roles.Keys + RolesOf(ps)
    ensures forall i :: 0 <= i < |ps| ==>
      AppendAll(roles, ps, text)[ps[i].0] == [SuccessorName(ps[i].0, ps[i].1, text)]
    ensures forall r :: r in roles ==> AppendAll(roles, ps, text)[r] == roles[r]
  {
    AppendAllKeys(roles, ps, text);
    forall i | 0 <= i < |ps|
      ensures AppendAll(roles, ps, text)[ps[i].0] == [SuccessorName(ps[i].0, ps[i].1, text)]
    {
      forall j | 0 <= j < |ps| && j != i ensures ps[j].0 != ps[i].0 {
        if j < i {
          assert ps[j].0 != ps[i].0;
        }
      }
      AppendAllNew(roles, ps, text, i);
    }
    forall r | r in roles ensures AppendAll(roles, ps, text)[r] == roles[r] {
      AppendAllOther(roles, ps, text, r);
    }
  }

  /** What one expansion round does when no successor name collides: every
      new successor holds exactly its filler and has no roles, d keeps its
      concepts and the lists of its old roles, and gets, for every pending
      role, a list holding just the new successor. */
  lemma ExpansionEffect(g: Individuals, d: string, relevant: set<Concept>, ps: seq<(string, Concept)>,
                        text: Concept -> string)
    requires d in g && Expansions(g[d], relevant, ps)
    requires forall i, j :: 0 <= i < j < |ps| ==>
      SuccessorName(ps[i].0, ps[i].1, text) != SuccessorName(ps[j].0, ps[j].1, text)
    requires d !in Names(ps, text)
    ensures forall i :: 0 <= i < |ps| ==>
      Expand(g, d, ps, text)[SuccessorName(ps[i].0, ps[i].1, text)] == Ind({ps[i].1}, map[])
    ensures Expand(g, d, ps, text)[d].concepts == g[d].concepts
    ensures Expand(g, d, ps, text)[d].roles.Keys == g[d].roles.Keys + PendingRoles(g[d], relevant)
    ensures forall i :: 0 <= i < |ps| ==>
      Expand(g, d, ps, text)[d].roles[ps[i].0] == [SuccessorName(ps[i].0, ps[i].1, text)]
    ensures forall r :: r in g[d].roles ==> Expand(g, d, ps, text)[d].roles[r] == g[d].roles[r]
  {
    ExpandFreshSuccessors(g, d, ps, text);
    ExpandAtSource(g, d, ps, text);
    forall i | 0 <= i < |ps| ensures ps[i].0 !in g[d].roles {
      assert ps[i].0 in RolesOf(ps);
    }
    AppendAllFresh(g[d].roles, ps, text);
  }

  /** A successor name that is already taken, by an individual other than d,
      is reset: whatever it held is replaced by the filler alone. */
  lemma ExpansionResetsExisting(g: Individuals, d: string, role: string, filler: Concept, text: Concept -> string)
    requires d in g && SuccessorName(role, filler, text) in g && SuccessorName(role, filler, text) != d
    ensures ExpandOne(g, d, role, filler, text)[SuccessorName(role, filler, text)] == Ind({filler}, map[])
    ensures !(g[SuccessorName(role, filler, text)].concepts <= {filler}) ||
            g[SuccessorName(role, filler, text)].roles != map[]
            ==> !Monotone(g, ExpandOne(g, d, role, filler, text))
  {
    var n := SuccessorName(role, filler, text);
    var h := ExpandOne(g, d, role, filler, text);
    assert h[n] == Ind({filler}, map[]);
    if g[n].roles != map[] {
      var r :| r in g[n].roles;
      assert !RolesGrow(g[n].roles, h[n].roles);
    }
  }

  /** When d's own name is the successor name, the expansion overwrites d:
      its concepts shrink to the filler and its old roles are lost. */
  lemma ExpansionOverwritesItself(text: Concept -> string)
    ensures var a := Name("A");
            var d := "new_r_A";
            var g := map[d := Ind({a, Exists("r", a)}, map[])];
            Expand(g, d, [("r", a)], text)[d] == Ind({a}, map["r" := [d]])
  {
    var a := Name("A");
    var d := "new_r_A";
    var g := map[d := Ind({a, Exists("r", a)}, map[])];
    var ps := [("r", a)];
    assert SuccessorName("r", a, text) == d;
    assert ps[..0] == [];
    assert Expand(g, d, ps, text) == ExpandOne(g, d, "r", a, text);
    var none: map<string, seq<string>> := map[];
    assert AppendRole(none, "r", d) == none["r" := [] + [d]];
    assert [] + [d] == [d];
  }

  // ------------------------------------------------------- existential_rule_2

  /** The existentials ("exists", (r, C)) existential_rule_2 may add to d:
      relevant, absent, and C is held by some r-successor of d. */
  ghost function SummaryCandidates(g: Individuals, d: string, relevant: set<Concept>): set<Concept>
    requires d in g
  {
    set e | e in relevant && e !in g[d].concepts && HasWitness(g, g[d], e)
  }

  // --------------------------------------------------------- disjunction_rule

  /** a is a GeneralConceptInclusion that formats and whose lhs is in cs. */
  predicate Fires(a: Axiom, cs: set<Concept>)
  {
    a.kind == GciKind && a.operands.Some? && a.operands.value.0 in cs
  }

  /** The right-hand sides disjunction_rule may add to an individual holding
      cs: relevant, from a firing axiom, whether or not already held. */
  function PropagationTargets(tbox: seq<Axiom>, cs: set<Concept>, relevant: set<Concept>): set<Concept>
  {
    set i | 0 <= i < |tbox| && Fires(tbox[i], cs) && tbox[i].operands.value.1 in relevant
      :: tbox[i].operands.value.1
  }

  /** An Equivalence axiom never propagates: a TBox without a
      GeneralConceptInclusion gives the rule nothing to add. */
  lemma EquivalencesNeverPropagate(tbox: seq<Axiom>, cs: set<Concept>, relevant: set<Concept>)
    requires forall i :: 0 <= i < |tbox| ==> tbox[i].kind != GciKind
    ensures PropagationTargets(tbox, cs, relevant) == {}
  {
  }

  /** disjunction_rule reports a change that it did not make: once d holds
      the lhs and the rhs of a GCI, the rule keeps answering True. */
  lemma PropagationReportsNoChange(g: Individuals, d: string, lhs: Concept, rhs: Concept)
    requires d in g && lhs in g[d].concepts && rhs in g[d].concepts
    ensures rhs in PropagationTargets([Axiom(GciKind, Some((lhs, rhs)))], g[d].concepts, {rhs})
    ensures AddConcept(g, d, rhs) == g
  {
    var tbox := [Axiom(GciKind, Some((lhs, rhs)))];
    assert Fires(tbox[0], g[d].concepts);
    AddConceptKeeps(g, d, rhs, {});
  }

  // -------------------------------------------------------------- the driver

  /** The propagation rule returns False on cs.  As written it returns True
      whenever there is a target, held or not; with checkRhs (the corrected
      rule) only when a target is missing. */
  predicate PropagationQuiet(tbox: seq<Axiom>, cs: set<Concept>, relevant: set<Concept>, checkRhs: bool)
  {
    if checkRhs then PropagationTargets(tbox, cs, relevant) <= cs
    else PropagationTargets(tbox, cs, relevant) == {}
  }

  /** The three rules that look only at d's own concepts return False. */
  ghost predicate LocallyQuiet(ind: Ind, relevant: set<Concept>)
  {
    && !TopApplies(ind)
    && !UnfoldApplies(ind, relevant)
    && ConjunctionCandidates(ind.concepts, relevant) == {}
  }

  /** The two existential rules and the propagation rule return False. */
  ghost predicate EdgesQuiet(g: Individuals, d: string, tbox: seq<Axiom>, relevant: set<Concept>, checkRhs: bool)
    requires d in g
  {
    && !ExpansionApplies(g, d, relevant)
    && SummaryCandidates(g, d, relevant) == {}
    && PropagationQuiet(tbox, g[d].concepts, relevant, checkRhs)
  }

  /** No rule returns True for d. */
  ghost predicate Quiet(g: Individuals, d: string, tbox: seq<Axiom>, relevant: set<Concept>, checkRhs: bool)
    requires d in g
  {
    LocallyQuiet(g[d], relevant) && EdgesQuiet(g, d, tbox, relevant, checkRhs)
  }

  /** The state run_completion stops in: no rule returns True for any
      individual. */
  ghost predicate Settled(g: Individuals, tbox: seq<Axiom>, relevant: set<Concept>, checkRhs: bool)
  {
    forall d :: d in g ==> Quiet(g, d, tbox, relevant, checkRhs)
  }

  /** What it means for d to be quiet, concept by concept. */
  lemma QuietMeans(g: Individuals, d: string, tbox: seq<Axiom>, relevant: set<Concept>, checkRhs: bool)
    requires d in g && Quiet(g, d, tbox, relevant, checkRhs)
    ensures Top in g[d].concepts
    ensures forall c, p :: c in g[d].concepts && c.And? && p in c.operands && p in relevant
                           ==> p in g[d].concepts
    ensures forall c1, c2 :: c1 in g[d].concepts && c2 in g[d].concepts && c1 != c2 && And({c1, c2}) in relevant
                             ==> And({c1, c2}) in g[d].concepts
    ensures Witnessed(g, d) || forall c :: c in g[d].concepts && c.Exists? && c.filler in relevant
                                          ==> c.role in g[d].roles
    ensures forall r, s, c ::
      (r in g[d].roles && s in g[d].roles[r] && s in g && c in g[s].concepts && Exists(r, c) in relevant)
      ==> Exists(r, c) in g[d].concepts
    ensures forall i :: 0 <= i < |tbox| && Fires(tbox[i], g[d].concepts) && tbox[i].operands.value.1 in relevant
                        ==> tbox[i].operands.value.1 in g[d].concepts
    ensures !checkRhs ==>
      forall i :: 0 <= i < |tbox| && Fires(tbox[i], g[d].concepts) ==> tbox[i].operands.value.1 !in relevant
  {
    var cs := g[d].concepts;
    forall c, p | c in cs && c.And? && p in c.operands && p in relevant ensures p in cs {
      assert p in Unfolded(cs, relevant);
    }
    forall c1, c2 | c1 in cs && c2 in cs && c1 != c2 && And({c1, c2}) in relevant ensures And({c1, c2}) in cs {
      assert ConjunctionOf(And({c1, c2}), cs);
      assert And({c1, c2}) !in ConjunctionCandidates(cs, relevant);
    }
    if !Witnessed(g, d) {
      forall c | c in cs && c.Exists? && c.filler in relevant ensures c.role in g[d].roles {
        ghost var pending := c.role in PendingRoles(g[d], relevant);
      }
    }
    forall r, s, c | r in g[d].roles && s in g[d].roles[r] && s in g && c in g[s].concepts && Exists(r, c) in relevant
      ensures Exists(r, c) in cs
    {
      assert HasWitness(g, g[d], Exists(r, c));
      assert Exists(r, c) !in SummaryCandidates(g, d, relevant);
    }
    forall i | 0 <= i < |tbox| && Fires(tbox[i], cs) && tbox[i].operands.value.1 in relevant
      ensures tbox[i].operands.value.1 in cs
    {
      assert tbox[i].operands.value.1 in PropagationTargets(tbox, cs, relevant);
    }
    if !checkRhs {
      forall i | 0 <= i < |tbox| && Fires(tbox[i], cs) ensures tbox[i].operands.value.1 !in relevant {
        ghost var target := tbox[i].operands.value.1 in PropagationTargets(tbox, cs, relevant);
      }
    }
  }

  /** In a settled graph no individual holds the lhs of a GCI of the TBox:
      with the relevance set built from the TBox its rhs is always relevant,
      so the propagation rule would still answer True. */
  lemma SettledAvoidsGciLhs(g: Individuals, tbox: seq<Axiom>, d: string, i: int)
    requires Settled(g, tbox, Relevance.RelevantSet(tbox), false)
    requires d in g && 0 <= i < |tbox|
    requires tbox[i].kind == GciKind && tbox[i].operands.Some?
    ensures tbox[i].operands.value.0 !in g[d].concepts
  {
    var relevant := Relevance.RelevantSet(tbox);
    var cs := g[d].concepts;
    Relevance.SidesAreRelevant(tbox, i);
    assert Quiet(g, d, tbox, relevant, false);
    assert PropagationTargets(tbox, cs, relevant) == {};
    ghost var propagated := tbox[i].operands.value.1 in PropagationTargets(tbox, cs, relevant);
  }

  /** With the corrected propagation rule a settled graph is closed under
      the GCIs of the TBox: an individual holding the lhs holds the rhs. */
  lemma SettledFollowsGcis(g: Individuals, tbox: seq<Axiom>, d: string, i: int)
    requires Settled(g, tbox, Relevance.RelevantSet(tbox), true)
    requires d in g && 0 <= i < |tbox|
    requires tbox[i].kind == GciKind && tbox[i].operands.Some?
    requires tbox[i].operands.value.0 in g[d].concepts
    ensures tbox[i].operands.value.1 in g[d].concepts
  {
    var relevant := Relevance.RelevantSet(tbox);
    Relevance.SidesAreRelevant(tbox, i);
    QuietMeans(g, d, tbox, relevant, true);
  }
}
