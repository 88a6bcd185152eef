/** The relevance set: every concept that may be added to an individual.
    It is built once, when the reasoner is constructed, from the sides of the
    TBox's axioms and everything nested in them. */
module Relevance {
  import opened Concepts

  /** The sides of the first n axioms, skipping those that do not format:
      what the first pass has gathered after n axioms. */
  function Stated(tbox: seq<Axiom>, n: nat): set<Concept>
    requires n <= |tbox|
  {
    if n == 0 then {} else Stated(tbox, n - 1) + Sides(tbox[n - 1])
  }

  /** What the nested extraction adds for one axiom. */
  ghost function NestedIn(a: Axiom): set<Concept>
  {
    if a.operands.None? then {}
    else Components(a.operands.value.0) + Components(a.operands.value.1)
  }

  /** What the second pass has added after n axioms. */
  ghost function Nested(tbox: seq<Axiom>, n: nat): set<Concept>
    requires n <= |tbox|
  {
    if n == 0 then {} else Nested(tbox, n - 1) + NestedIn(tbox[n - 1])
  }

  /** The relevance set of a TBox. */
  ghost function RelevantSet(tbox: seq<Axiom>): set<Concept>
  {
    Stated(tbox, |tbox|) + Nested(tbox, |tbox|)
  }

  /** Adds c's nested concepts to acc: the recursive extract_nested_concepts,
      which walks concept[1] of every tuple and recurses on each part. */
  method AddNested(c: Concept, acc: set<Concept>) returns (result: set<Concept>)
    ensures result == acc + Components(c)
    decreases if c.Name? then 0 else 1, c
  {
    result := acc;
    if c.Name? {
      assert Components(c) == {};
      return;
    }
    var pending := Parts(c);
    while pending != {}
      invariant pending <= Parts(c)
      invariant forall x :: x in result <==>
        x in acc || x in Parts(c) - pending || exists p :: p in Parts(c) - pending && x in Components(p)
      decreases pending
    {
      var p :| p in pending;
      result := result + {p};
      result := AddNested(p, result);
      pending := pending - {p};
    }
    forall x ensures x in result <==> x in acc + Components(c) {
      ComponentsIff(c, x);
    }
  }

  /** extract_relevant_concepts: a first pass adds both sides of every axiom
      that formats, a second pass adds what is nested in them; an axiom whose
      formatting raises is skipped in both passes. */
  method ExtractRelevantConcepts(tbox: seq<Axiom>) returns (relevant: set<Concept>)
    ensures relevant == RelevantSet(tbox)
  {
    relevant := {};
    for i := 0 to |tbox|
      invariant relevant == Stated(tbox, i)
    {
      var sides := tbox[i].operands;
      if sides.Some? {  // otherwise the formatter raised: skip the axiom
        relevant := relevant + {sides.value.0};
        relevant := relevant + {sides.value.1};
      }
    }
    for i := 0 to |tbox|
      invariant relevant == Stated(tbox, |tbox|) + Nested(tbox, i)
    {
      var sides := tbox[i].operands;
      if sides.Some? {
        relevant := AddNested(sides.value.0, relevant);
        relevant := AddNested(sides.value.1, relevant);
      }
    }
  }

  /** What one axiom contributes to the relevance set: its sides and
      everything nested in them. */
  ghost predicate Mentions(a: Axiom, c: Concept)
  {
    c in Sides(a) || c in NestedIn(a)
  }

  /** The relevance set holds exactly what some axiom that formats mentions. */
  lemma RelevantIff(tbox: seq<Axiom>, c: Concept)
    ensures c in RelevantSet(tbox) <==> exists i :: 0 <= i < |tbox| && Mentions(tbox[i], c)
  {
    GatheredIff(tbox, |tbox|, c);
  }

  lemma {:induction false} GatheredIff(tbox: seq<Axiom>, n: nat, c: Concept)
    requires n <= |tbox|
    ensures c in Stated(tbox, n) + Nested(tbox, n) <==> exists i :: 0 <= i < n && Mentions(tbox[i], c)
  {
    if n > 0 {
      var k := n - 1;
      GatheredIff(tbox, k, c);
      var a := tbox[k];
      assert Stated(tbox, n) + Nested(tbox, n) == Stated(tbox, k) + Nested(tbox, k) + (Sides(a) + NestedIn(a));
      if c in Stated(tbox, k) + Nested(tbox, k) {
        var i :| 0 <= i < k && Mentions(tbox[i], c);
        assert 0 <= i < n && Mentions(tbox[i], c);
      } else if c in Sides(a) + NestedIn(a) {
        assert Mentions(tbox[k], c);
      } else {
        forall i | 0 <= i < n ensures !Mentions(tbox[i], c) {
          if i == k {
            assert !Mentions(a, c);
          }
        }
      }
    }
  }

  /** Both sides of every axiom that formats are relevant. */
  lemma SidesAreRelevant(tbox: seq<Axiom>, i: int)
    requires 0 <= i < |tbox| && tbox[i].operands.Some?
    ensures tbox[i].operands.value.0 in RelevantSet(tbox)
    ensures tbox[i].operands.value.1 in RelevantSet(tbox)
  {
    RelevantIff(tbox, tbox[i].operands.value.0);
    RelevantIff(tbox, tbox[i].operands.value.1);
  }

  /** The relevance set is closed under taking components, recursively: every
      component of a tuple concept in it is in it too. */
  lemma RelevantClosed(tbox: seq<Axiom>, c: Concept)
    requires c in RelevantSet(tbox)
    ensures Components(c) <= RelevantSet(tbox)
  {
    RelevantIff(tbox, c);
    var i :| 0 <= i < |tbox| && Mentions(tbox[i], c);
    var lhs, rhs := tbox[i].operands.value.0, tbox[i].operands.value.1;
    forall x | x in Components(c) ensures x in RelevantSet(tbox) {
      if c in Components(lhs) {
        ComponentsClosed(lhs, c);
      } else if c in Components(rhs) {
        ComponentsClosed(rhs, c);
      }
      assert Mentions(tbox[i], x);
      RelevantIff(tbox, x);
    }
  }

  /** An axiom whose formatting raises neither adds anything nor stops the
      build: the axioms after it still contribute. */
  lemma MalformedAxiomSkipped(before: seq<Axiom>, kind: string, after: seq<Axiom>)
    ensures RelevantSet(before + [Axiom(kind, None)] + after) == RelevantSet(before + after)
  {
    var bad := Axiom(kind, None);
    var t := before + [bad] + after;
    var u := before + after;
    forall c ensures c in RelevantSet(t) <==> c in RelevantSet(u) {
      RelevantIff(t, c);
      RelevantIff(u, c);
      if i :| 0 <= i < |t| && Mentions(t[i], c) {
        assert i != |before|;
        var j := if i < |before| then i else i - 1;
        assert t[i] == u[j];
      }
      if j :| 0 <= j < |u| && Mentions(u[j], c) {
        var i := if j < |before| then j else j + 1;
        assert t[i] == u[j];
      }
    }
  }

  /** The quirk of the nested extraction: the role of a relevant existential
      is itself relevant, as an atomic concept. */
  lemma RoleNamesAreRelevant(tbox: seq<Axiom>, r: string, f: Concept)
    requires Exists(r, f) in RelevantSet(tbox)
    ensures Name(r) in RelevantSet(tbox) && f in RelevantSet(tbox)
  {
    RelevantClosed(tbox, Exists(r, f));
    RoleNameIsComponent(r, f);
  }

  /** A formatter that prints every concept as a string gives a TBox of
      atomic concepts only; then nothing is nested and the relevance set is
      exactly the formatted sides. */
  lemma AtomicTBox(tbox: seq<Axiom>)
    requires forall i :: 0 <= i < |tbox| && tbox[i].operands.Some? ==>
      tbox[i].operands.value.0.Name? && tbox[i].operands.value.1.Name?
    ensures forall c :: c in RelevantSet(tbox) ==> c.Name?
    ensures forall c :: c in RelevantSet(tbox) <==> exists i :: 0 <= i < |tbox| && c in Sides(tbox[i])
  {
    forall c ensures c in RelevantSet(tbox) <==> exists i :: 0 <= i < |tbox| && c in Sides(tbox[i]) {
      RelevantIff(tbox, c);
      if i :| 0 <= i < |tbox| && Mentions(tbox[i], c) {
        if tbox[i].operands.Some? {
          assert Components(tbox[i].operands.value.0) == {};
          assert Components(tbox[i].operands.value.1) == {};
        }
        assert c in Sides(tbox[i]);
      }
      if i :| 0 <= i < |tbox| && c in Sides(tbox[i]) {
        assert Mentions(tbox[i], c);
      }
    }
  }
}
