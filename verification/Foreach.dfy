/** Passes that visit every entry of a table once, in some order. */
module Foreach {
  /** Something is left to visit. */
  lemma SomeLeft(todo: set<int>)
    requires todo != {}
    ensures exists a :: a in todo
  {
    assert (forall a :: a !in todo) ==> todo == {};
  }

  lemma SomeNatLeft(todo: set<nat>)
    requires todo != {}
    ensures exists a :: a in todo
  {
    assert (forall a :: a !in todo) ==> todo == {};
  }
}
