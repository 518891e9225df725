/** What the models of lists threaded through memory have in common. */
module Lists {

  /** No element occurs twice. */
  ghost predicate Distinct(s: seq<nat>) {
    forall i, j :: 0 <= i < j < |s| ==> s[i] != s[j]
  }
}
