/** The concept language of the EL reasoner and the axioms of a TBox.

    The Python reasoner keeps concepts as plain values: an atomic concept is
    the string the formatter produced, a conjunction is the tuple
    ("and", frozenset({C, D})) and an existential restriction is the tuple
    ("exists", (r, C)).  The datatype below has one constructor per shape. */
module Concepts {

  datatype Option<+T> = None | Some(value: T)

  datatype Concept =
    | Name(id: string)                      // an atomic concept, as a string
    | And(operands: set<Concept>)           // ("and", frozenset({...}))
    | Exists(role: string, filler: Concept) // ("exists", (role, filler))

  /** The top concept is the string "⊤" and nothing more: a concept that the
      formatter names "⊤" is the same value. */
  const Top: Concept := Name("⊤")

  /** The only axiom kind that the propagation rule reads. */
  const GciKind: string := "GeneralConceptInclusion"

  /** An axiom of the TBox: the simple class name of the Java axiom object and
      its formatted (lhs, rhs); None when the formatter raised on it. */
  datatype Axiom = Axiom(kind: string, operands: Option<(Concept, Concept)>)

  /** The concepts an axiom contributes when both of its sides format. */
  function Sides(a: Axiom): (s: set<Concept>)
    ensures a.operands.None? <==> s == {}
    ensures a.operands.Some? ==> a.operands.value.0 in s && a.operands.value.1 in s
  {
    match a.operands
    case None => {}
    case Some((lhs, rhs)) => {lhs, rhs}
  }

  /** What iterating over concept[1] yields for a tuple concept: the operands
      of a conjunction, or the role (as a string, hence as an atomic concept)
      and the filler of an existential.  A string yields nothing. */
  function Parts(c: Concept): set<Concept>
  {
    match c
    case Name(_) => {}
    case And(ops) => ops
    case Exists(r, f) => {Name(r), f}
  }

  /** Everything the nested extraction adds for c: its parts, their parts,
      and so on.  An atomic part (the role name of an existential) has no
      parts of its own: the source's recursion on a string stops at once. */
  ghost function Components(c: Concept): set<Concept>
    decreases c, 1
  {
    match c
    case Name(_) => {}
    case Exists(r, f) => {Name(r), f} + Components(f)
    case And(ops) => ops + ComponentsOfAll(c, ops)
  }

  /** The components of the operands in s of the conjunction c. */
  ghost function ComponentsOfAll(c: Concept, s: set<Concept>): set<Concept>
    requires c.And? && s <= c.operands
    decreases c, 0, s
  {
    if s == {} then {} else
    var p :| p in s;
    Components(p) + ComponentsOfAll(c, s - {p})
  }

  lemma {:induction false} ComponentsOfAllIff(c: Concept, s: set<Concept>, x: Concept)
    requires c.And? && s <= c.operands
    ensures x in ComponentsOfAll(c, s) <==> exists p :: p in s && x in Components(p)
    decreases s
  {
    if s != {} {
      var p :| p in s && ComponentsOfAll(c, s) == Components(p) + ComponentsOfAll(c, s - {p});
      ComponentsOfAllIff(c, s - {p}, x);
    }
  }

  /** One unfolding of Components: x is a component of c exactly when it is
      a part of c or a component of one of c's parts. */
  lemma ComponentsIff(c: Concept, x: Concept)
    ensures x in Components(c) <==> x in Parts(c) || exists p :: p in Parts(c) && x in Components(p)
  {
    match c
    case Name(_) =>
    case Exists(r, f) =>
      assert Components(Name(r)) == {};
    case And(ops) =>
      ComponentsOfAllIff(c, ops, x);
  }

  /** Components is closed: the components of a component are components. */
  lemma {:induction false} ComponentsClosed(c: Concept, x: Concept)
    requires x in Components(c)
    ensures Components(x) <= Components(c)
    decreases if c.Name? then 0 else 1, c
  {
    ComponentsIff(c, x);
    var p :| p in Parts(c) && (x == p || x in Components(p));
    forall y | y in Components(x) ensures y in Components(c) {
      if x != p {
        ComponentsClosed(p, x);
      }
      ComponentsIff(c, y);
    }
  }

  /** An existential's role name is one of its components: the role string is
      added to the relevance set as if it were an atomic concept. */
  lemma RoleNameIsComponent(r: string, f: Concept)
    ensures Components(Exists(r, f)) == {Name(r), f} + Components(f)
  {
    var c := Exists(r, f);
    assert Components(Name(r)) == {};
    forall x | x in Components(c) ensures x in {Name(r), f} + Components(f) {
    }
  }
}
