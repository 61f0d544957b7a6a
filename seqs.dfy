/** Facts about sequence concatenation that the proofs elsewhere use at a single step. */
module Seqs {
  /** A non-empty sequence is its front followed by its last element. */
  lemma SplitLast<T>(s: seq<T>)
    requires s != []
    ensures s == s[..|s| - 1] + [s[|s| - 1]]
  {
  }

  /** The prefix of full length is the whole sequence. */
  lemma Whole<T>(s: seq<T>)
    ensures s[..|s|] == s
  {
  }

  lemma Assoc<T>(a: seq<T>, b: seq<T>, c: seq<T>)
    ensures a + (b + c) == (a + b) + c
  {
  }

  /** Moving the head of `o` onto the end of `t` leaves the concatenation unchanged. */
  lemma SnocRest<T>(t: seq<T>, o: seq<T>)
    requires o != []
    ensures (t + [o[0]]) + o[1..] == t + o
  {
    assert o == [o[0]] + o[1..];
  }

  /** Updating the tail of `[a] + t` at `i` is updating the whole at `i + 1`. */
  lemma ConsUpdate<T>(a: T, t: seq<T>, i: nat, x: T)
    requires i < |t|
    ensures [a] + t[i := x] == ([a] + t)[i + 1 := x]
  {
  }

  /** Splicing element `i` out of the tail of `s` is splicing element `i + 1` out of `s`. */
  lemma ConsSplice<T>(s: seq<T>, i: nat)
    requires i + 1 < |s|
    ensures [s[0]] + (s[1..][..i] + s[1..][i + 1..]) == s[..i + 1] + s[i + 2..]
  {
    assert s[1..][..i] == s[1..i + 1] && s[1..][i + 1..] == s[i + 2..];
    assert [s[0]] + s[1..i + 1] == s[..i + 1];
  }
}
