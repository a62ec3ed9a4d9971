/** `Transformer.generateXmlSafeId`: arc names `"arc" + n` from a counter that starts at 1.
    The Java counter is a static field; here one `IdGenerator` object plays that field and is
    handed to every step that names an arc. */
module ArcIds {
  import opened Strings

  /** The name issued for counter value `k`. */
  function GeneratedId(k: nat): (id: string)
    ensures |id| >= 4 && id[..3] == "arc" && IsDigit(id[3])
  {
    "arc" + NatToString(k)
  }

  /** Different counter values give different names. */
  lemma GeneratedIdInjective(a: nat, b: nat)
    requires GeneratedId(a) == GeneratedId(b)
    ensures a == b
  {
    assert NatToString(a) == GeneratedId(a)[3..] == GeneratedId(b)[3..] == NatToString(b);
    NatToStringInjective(a, b);
  }

  /** A guard arc named `"arc_" + guard` never clashes with a generated name. */
  lemma GuardArcNameNotGenerated(guard: string, k: nat)
    ensures "arc_" + guard != GeneratedId(k)
  {
    assert ("arc_" + guard)[3] == '_';
  }

  class IdGenerator {
    var idCounter: int
    /** The names issued so far. */
    ghost var issued: set<string>

    ghost predicate Valid()
      reads this
    {
      && idCounter >= 1
      && issued == set k: nat | 1 <= k < idCounter :: GeneratedId(k)
    }

    constructor()
      ensures Valid() && idCounter == 1 && issued == {}
    {
      idCounter := 1;
      issued := {};
      assert (set k: nat | 1 <= k < 1 :: GeneratedId(k)) == {};
    }

    /** Returns `"arc" + idCounter` and increments the counter: the name was never issued. */
    method GenerateXmlSafeId() returns (id: string)
      requires Valid()
      modifies this
      ensures Valid()
      ensures id == GeneratedId(old(idCounter)) && idCounter == old(idCounter) + 1
      ensures id !in old(issued) && issued == old(issued) + {id}
    {
      id := GeneratedId(idCounter);
      if id in issued {
        var k: nat :| 1 <= k < idCounter && GeneratedId(k) == id;
        GeneratedIdInjective(k, idCounter);
        assert false;
      }
      issued := issued + {id};
      idCounter := idCounter + 1;
      assert issued == set k: nat | 1 <= k < idCounter :: GeneratedId(k) by {
        forall s | s in set k: nat | 1 <= k < idCounter :: GeneratedId(k) ensures s in issued {
          var k: nat :| 1 <= k < idCounter && GeneratedId(k) == s;
          if k < idCounter - 1 { assert s in old(issued); }
        }
      }
    }
  }
}
