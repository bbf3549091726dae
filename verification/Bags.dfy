/** Bookkeeping on multisets of references. */
module Bags {
  lemma AddRemove(m: multiset<nat>, k: multiset<nat>)
    ensures m + k - k == m
  {
  }

  lemma AddNothing(m: multiset<nat>)
    ensures m + multiset{} == m
  {
  }

  lemma RemoveAdd(m: multiset<nat>, k: multiset<nat>)
    requires k <= m
    ensures m - k + k == m
  {
  }

  /** Independent additions and removals commute. */
  lemma AddThenRemove(m: multiset<nat>, added: multiset<nat>, removed: multiset<nat>)
    requires removed <= m
    ensures m + added - removed == m - removed + added
  {
  }

  lemma AddAssoc(m: multiset<nat>, k: multiset<nat>, l: multiset<nat>)
    ensures m + k + l == m + (k + l)
  {
  }

  lemma AddSwap(m: multiset<nat>, k: multiset<nat>, l: multiset<nat>)
    ensures m + k + l == m + l + k
  {
  }

  lemma Includes(m: multiset<nat>, k: multiset<nat>)
    ensures k <= m + k
  {
  }
}
