/** Generic facts about sequences, stated over any element type. */
module Seqs {
  lemma Singleton<T>(s: seq<T>, a: T)
    requires |s| == 1 && s[0] == a
    ensures s == [a]
  {
  }

  lemma Pair<T>(s: seq<T>, a: T, b: T)
    requires |s| == 2 && s[0] == a && s[1] == b
    ensures s == [a, b]
  {
  }

  /** Dropping the head of a sequence with one element appended. */
  lemma DropAppend<T>(s: seq<T>, x: T)
    requires |s| >= 1
    ensures (s + [x])[1..] == s[1..] + [x]
  {
  }

  /** Taking the original prefix back from a sequence with one element appended. */
  lemma TakeAppend<T>(s: seq<T>, x: T)
    ensures (s + [x])[..|s|] == s
  {
  }
}
