/** The three queries of the repository's test script, on hand-built TBoxes.
    The formatter prints every concept as a string, so every side of an
    axiom is an atomic concept; the strings below stand for what it prints. */
module Scenarios {
  import opened Concepts
  import opened Graph
  import Relevance
  import Reasoner

  function Gci(lhs: string, rhs: string): Axiom
  {
    Axiom(GciKind, Some((Name(lhs), Name(rhs))))
  }

  /** How a non-atomic filler is printed in a successor name.  Every concept
      in the scenarios below is atomic, so this is never applied to them; it
      is not a faithful rendering of Python's str() on a tuple (it drops the
      quotes around tuple members and prints every conjunction alike). */
  function Show(c: Concept): string
  {
    match c
    case Name(id) => id
    case And(_) => "('and', frozenset(...))"
    case Exists(r, f) => "('exists', (" + r + ", " + Show(f) + "))"
  }

  /** Dog ⊑ Mammal, Mammal ⊑ Animal. */
  const Animals: seq<Axiom> := [Gci("Dog", "Mammal"), Gci("Mammal", "Animal")]

  /** Bus ⊑ PublicTransport ⊓ ∃hasFuelType.Diesel, PublicTransport ⊑ Vehicle.
      As for Child, the conjunction on the right is printed as one string. */
  const Transport: seq<Axiom> :=
    [Gci("Bus", "PublicTransport ⊓ ∃hasFuelType.Diesel"), Gci("PublicTransport", "Vehicle")]

  /** Child ≡ Person ⊓ ∃hasParent.Person, an equivalence axiom. */
  const People: seq<Axiom> := [Axiom("EquivalenceAxiom", Some((Name("Child"), Name("Person ⊓ ∃hasParent.Person"))))]

  /** The query for Dog never settles: d0 holds Dog, the lhs of a GCI, and
      the propagation rule answers True on every pass. */
  method DogQuery(fuel: nat) returns (s: Option<set<Concept>>)
    ensures s == None
  {
    s := Reasoner.SubsumersOf(Animals, Show, "Dog", fuel, false);
    assert Fires(Animals[0], {Name("Dog")});
  }

  /** The same holds for Bus. */
  method BusQuery(fuel: nat) returns (s: Option<set<Concept>>)
    ensures s == None
  {
    s := Reasoner.SubsumersOf(Transport, Show, "Bus", fuel, false);
    assert Fires(Transport[0], {Name("Bus")});
  }

  /** With the corrected propagation rule, an answer for Dog holds the
      subsumers the test expects. */
  method DogQueryChecked(fuel: nat) returns (s: Option<set<Concept>>)
    ensures s.Some? ==> {Name("Dog"), Name("Mammal"), Name("Animal"), Top} <= s.value
  {
    s := Reasoner.SubsumersOf(Animals, Show, "Dog", fuel, true);
    if s.Some? {
      assert Fires(Animals[0], s.value);
      assert Fires(Animals[1], s.value);
    }
  }

  /** For Bus, a settled corrected answer holds the whole right-hand side as
      one atomic concept, but never its existential conjunct: that is not a
      side of any axiom, so it is not relevant. */
  method BusQueryChecked(fuel: nat) returns (s: Option<set<Concept>>)
    ensures s.Some? ==> {Name("Bus"), Name("PublicTransport ⊓ ∃hasFuelType.Diesel"), Top} <= s.value
    ensures s.Some? ==> Name("∃hasFuelType.Diesel") !in s.value
  {
    s := Reasoner.SubsumersOf(Transport, Show, "Bus", fuel, true);
    Relevance.AtomicTBox(Transport);
    assert Name("∃hasFuelType.Diesel") !in Relevance.RelevantSet(Transport);
    if s.Some? {
      assert Fires(Transport[0], s.value);
    }
  }

  /** An equivalence axiom is never read by the propagation rule, and the
      relevance set holds only the two formatted sides: Person cannot be
      found as a subsumer of Child, with either propagation rule. */
  method ChildQuery(fuel: nat, checkRhs: bool) returns (s: Option<set<Concept>>)
    ensures s.Some? ==> Name("Child") in s.value && Top in s.value
    ensures s.Some? ==> Name("Person") !in s.value
  {
    s := Reasoner.SubsumersOf(People, Show, "Child", fuel, checkRhs);
    Relevance.AtomicTBox(People);
    assert Name("Person") !in Relevance.RelevantSet(People);
  }
}
