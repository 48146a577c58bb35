/**
 * Regroupings of sequence concatenation, proved once for every element type so
 * that the proofs about log lines and log files never redo them element by element.
 */
module SeqLemmas {
  lemma AppendAssoc<T>(a: seq<T>, b: seq<T>, c: seq<T>)
    ensures (a + b) + c == a + (b + c)
  {
  }

  lemma AppendEmpty<T>(a: seq<T>)
    ensures a + [] == a && [] + a == a
  {
  }

  /** Dropping the last element of `a + b` drops the last element of `b`. */
  lemma DropLastAppend<T>(a: seq<T>, b: seq<T>)
    requires b != []
    ensures (a + b)[..|a + b| - 1] == a + b[..|b| - 1]
    ensures (a + b)[|a + b| - 1] == b[|b| - 1]
  {
  }

  /** Dropping the first element of `a + b` drops the first element of `a`. */
  lemma DropFirstAppend<T>(a: seq<T>, b: seq<T>)
    requires a != []
    ensures (a + b)[1..] == a[1..] + b
    ensures (a + b)[0] == a[0]
  {
  }

  /** One more element of `b` after `a`. */
  lemma ExtendPrefix<T>(a: seq<T>, b: seq<T>, j: nat)
    requires j < |b|
    ensures a + b[..j + 1] == (a + b[..j]) + [b[j]]
  {
    assert b[..j + 1] == b[..j] + [b[j]];
  }

  /** `s` is its elements before `f`, element `f`, and those after it. */
  lemma SplitAt<T>(s: seq<T>, f: nat)
    requires f < |s|
    ensures s == s[..f] + ([s[f]] + s[f + 1..])
  {
  }

  /** Cutting `b` around its element `j`. */
  lemma Regroup<T>(a: seq<T>, b: seq<T>, c: seq<T>, j: nat)
    requires j < |b|
    ensures a + (b + c) == (a + b[..j]) + ([b[j]] + (b[j + 1..] + c))
  {
    assert b == b[..j] + ([b[j]] + b[j + 1..]);
  }

  lemma TakeDrop<T>(s: seq<T>, n: nat)
    requires n <= |s|
    ensures s[..n] + s[n..] == s
  {
  }

  lemma PrefixOfPrefix<T>(s: seq<T>, i: nat, n: nat)
    requires i <= n <= |s|
    ensures s[..n][..i] == s[..i]
  {
  }

  /** The prefix of length `i + 1` ends in element `i`. */
  lemma PrefixSnoc<T>(s: seq<T>, i: nat)
    requires i < |s|
    ensures s[..i + 1][..i] == s[..i] && s[..i + 1][i] == s[i]
  {
  }
}
