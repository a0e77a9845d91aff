/** Picking from a set. */
module Sets {

  /** A non-empty set has an element to go on with. */
  lemma Inhabited<T>(s: set<T>) returns (x: T)
    requires s != {}
    ensures x in s
  {
    x :| x in s;
  }
}
