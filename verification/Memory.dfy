/** Memory as the allocators share it: 8-byte words by address. */
module Memory {

  class Ram {
    var words: map<nat, nat>

    constructor ()
      ensures words == map[]
    {
      words := map[];
    }
  }

  /** No word was written except at the given addresses. */
  ghost predicate KeptOutside(was: map<nat, nat>, words: map<nat, nat>, s: set<nat>) {
    forall a :: a in was && a !in s ==> a in words && words[a] == was[a]
  }

  lemma KeptStep(was: map<nat, nat>, words: map<nat, nat>, s: set<nat>, a: nat, w: nat)
    requires KeptOutside(was, words, s) && a in s
    ensures KeptOutside(was, words[a := w], s)
  {
  }

  lemma KeptSame(words: map<nat, nat>, s: set<nat>)
    ensures KeptOutside(words, words, s)
  {
  }
}
