/** The Individual record: a named node with the concepts it holds and its
    role edges.  A role edge records its relation, its successor and the
    individual it leaves from. */
module Individuals {
  import opened Concepts

  datatype Role = Role(relation: string, successor: Individual, individual: Individual)

  class Individual {
    var name: string
    var initialConcept: Option<Concept>
    var concepts: set<Concept>
    var roles: set<Role>

    constructor (name: string)
      ensures this.name == name
      ensures initialConcept == None && concepts == {} && roles == {}
    {
      this.name := name;
      initialConcept := None;
      concepts := {};
      roles := {};
    }

    /** Some edge of this individual has the relation and leads to an
        individual with the successor's name. */
    ghost predicate HasEdge(relation: string, successorName: string)
      reads this, Successors(roles)
    {
      exists role :: role in roles && role.relation == relation && role.successor.name == successorName
    }

    /** has_role: a search of the edges that skips every edge on another
        relation and compares successors by name. */
    method HasRole(relation: string, successor: Individual) returns (found: bool)
      ensures found <==> HasEdge(relation, successor.name)
      ensures roles == {} ==> !found
    {
      var pending := roles;
      while pending != {}
        invariant pending <= roles
        invariant forall role :: role in roles - pending ==>
          !(role.relation == relation && role.successor.name == successor.name)
      {
        var role :| role in pending;
        pending := pending - {role};
        if role.relation != relation {
          continue;
        }
        if role.successor.name == successor.name {
          return true;
        }
      }
      return false;
    }
  }

  /** The successors of a set of edges. */
  function Successors(roles: set<Role>): (s: set<Individual>)
    ensures forall role :: role in roles ==> role.successor in s
  {
    set role | role in roles :: role.successor
  }

  /** An edge on another relation never makes has_role answer True,
      whatever its successor is called. */
  lemma OtherRelationsIgnored(ind: Individual, extra: Role, relation: string, successorName: string)
    requires extra.relation != relation
    ensures (exists role :: role in ind.roles + {extra} && role.relation == relation
                            && role.successor.name == successorName)
            <==> ind.HasEdge(relation, successorName)
  {
  }
}
