/** The optional value used throughout: a nil pointer, a missing map entry, an absent result. */
module Wrappers {
  datatype Option<+T> = None | Some(value: T)
}

/** Sequence facts kept apart so that proofs about large texts can cite them. */
module Seqs {
  lemma Assoc<T>(a: seq<T>, b: seq<T>, c: seq<T>)
    ensures a + b + c == a + (b + c)
  {
  }
}

/** Regrouping of multisets of sequences, kept apart so that other proofs need not rediscover it. */
module Multisets {
  lemma Regroup<T>(a: seq<T>, a': seq<T>, b: seq<T>, b': seq<T>, c: seq<T>, c': seq<T>)
    requires multiset(a) + multiset(b) == multiset(c)
    requires multiset(a') + multiset(b') == multiset(c')
    ensures multiset(a + a') + multiset(b + b') == multiset(c + c')
  {
    assert multiset(a + a') == multiset(a) + multiset(a');
    assert multiset(b + b') == multiset(b) + multiset(b');
    assert multiset(c + c') == multiset(c) + multiset(c');
  }

  lemma Append<T>(a: seq<T>, b: seq<T>)
    ensures multiset(a + b) == multiset(a) + multiset(b)
  {
  }

  lemma Swap<T>(a: multiset<T>, b: multiset<T>, c: multiset<T>)
    ensures a + b + c == a + c + b
  {
  }

  /** `x` moves from `b` to `a`. */
  lemma Move<T>(a: multiset<T>, b: multiset<T>, b': multiset<T>, x: multiset<T>, all: multiset<T>)
    requires a + b == all && b == b' + x
    ensures (a + x) + b' == all
  {
  }
}
