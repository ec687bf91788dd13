/** Overwriting a stretch of a sequence. */
module Splices {

  function Splice<T>(t: seq<T>, at: nat, bytes: seq<T>): (r: seq<T>)
    requires at + |bytes| <= |t|
    ensures |r| == |t|
  {
    t[..at] + bytes + t[at + |bytes|..]
  }

  lemma SpliceKeeps<T>(t: seq<T>, at: nat, bytes: seq<T>, lo: nat, hi: nat)
    requires at + |bytes| <= |t| && lo <= hi <= at
    ensures Splice(t, at, bytes)[lo..hi] == t[lo..hi]
    ensures Splice(t, at, bytes)[at..at + |bytes|] == bytes
  {
  }
}
