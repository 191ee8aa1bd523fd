/** Facts about sequence concatenation that the proofs of the other modules cite by name. */
module Sequences {

  /** A nonempty sequence is its front followed by its last element. */
  lemma SplitLast<T>(s: seq<T>)
    requires |s| > 0
    ensures s == s[..|s| - 1] + [s[|s| - 1]]
  {
  }

  /** A sequence is its prefix, the element at `j` and its suffix. */
  lemma SplitAt<T>(t: seq<T>, j: nat)
    requires j < |t|
    ensures t == t[..j] + [t[j]] + t[j + 1..]
  {
  }

  lemma AppendEmpty<T>(s: seq<T>)
    ensures s + [] == s
  {
  }

  lemma Associative<T>(a: seq<T>, b: seq<T>, c: seq<T>)
    ensures a + b + c == a + (b + c)
  {
  }

  /** A group of four appended at once is four appends in turn. */
  lemma AssociativeFour<T>(a: seq<T>, b: seq<T>, c: seq<T>, d: seq<T>, e: seq<T>)
    ensures a + (b + c + d + e) == a + b + c + d + e
  {
  }

  /** An element appended inside a concatenation can be appended last. */
  lemma SnocInside<T>(u: seq<T>, w: seq<T>, b: T)
    ensures u + (w + [b]) == (u + w) + [b]
  {
  }
}
