/** What the declared relations say, without the functions that look them up. */
module Declarations {
  import opened Metadata

  /** `true`, or a list with "delete" or "remove". */
  ghost predicate ListsDelete(cascade: Cascade) {
    cascade.Only? ==> DeleteOp in cascade.types || RemoveOp in cascade.types
  }

  /** `true`, or a list with "insert" or "update". */
  ghost predicate ListsSave(cascade: Cascade) {
    cascade.Only? ==> InsertOp in cascade.types || UpdateOp in cascade.types
  }

  /** `i` is the first ManyToOne of that name. */
  ghost predicate FirstNamed(relations: seq<ManyToOne>, name: string, i: nat) {
    i < |relations| && relations[i].property == name && forall j :: 0 <= j < i ==> relations[j].property != name
  }

  /** `i` is the first OneToOne of that name with a join column. */
  ghost predicate FirstOwning(relations: seq<OneToOne>, name: string, i: nat) {
    && i < |relations| && relations[i].property == name && relations[i].joinColumn.Some?
    && forall j :: 0 <= j < i ==> relations[j].property != name || relations[j].joinColumn.None?
  }

  lemma {:induction false} FirstMatching(relations: seq<ManyToOne>, name: string, i: nat)
    requires FirstNamed(relations, name, i)
    ensures MatchingManyToOne(relations, name) == Some(relations[i])
  {
    if relations[0].property != name {
      assert FirstNamed(relations[1..], name, i - 1);
      FirstMatching(relations[1..], name, i - 1);
    }
  }

  lemma {:induction false} MatchingIsFirst(relations: seq<ManyToOne>, name: string) returns (i: nat)
    requires MatchingManyToOne(relations, name).Some?
    ensures FirstNamed(relations, name, i) && MatchingManyToOne(relations, name) == Some(relations[i])
  {
    if relations[0].property == name {
      i := 0;
    } else {
      var k := MatchingIsFirst(relations[1..], name);
      i := k + 1;
    }
  }

  lemma {:induction false} FirstOwner(relations: seq<OneToOne>, name: string, i: nat)
    requires FirstOwning(relations, name, i)
    ensures OwningOneToOne(relations, name) == Some(relations[i])
  {
    if i > 0 {
      assert FirstOwning(relations[1..], name, i - 1);
      FirstOwner(relations[1..], name, i - 1);
    }
  }

  lemma {:induction false} OwnerIsFirst(relations: seq<OneToOne>, name: string) returns (i: nat)
    requires OwningOneToOne(relations, name).Some?
    ensures FirstOwning(relations, name, i) && OwningOneToOne(relations, name) == Some(relations[i])
  {
    if relations[0].property == name && relations[0].joinColumn.Some? {
      i := 0;
    } else {
      var k := OwnerIsFirst(relations[1..], name);
      i := k + 1;
    }
  }
}
