/** Optional values, as `std::optional` is used throughout the tool. */
module Wrappers {
  datatype Option<T> = None | Some(value: T)
}

/** Fixed configuration shared by both editions of the diagnostic tool. */
module Config {
  /** The repository ships two editions of the same tool: the release file and the earlier dev file. */
  datatype Edition = Release | Dev

  /** `PRINTER_NAME`: the CUPS queue the tool manages. */
  const PrinterName: string := "HP_LaserJet_Professional_P1102w"
}

/** Element-wise mapping over sequences. */
module Seqs {
  function Map<A, B>(f: A -> B, s: seq<A>): (r: seq<B>)
    ensures |r| == |s|
    decreases |s|
  {
    if s == [] then [] else [f(s[0])] + Map(f, s[1..])
  }

  lemma {:induction false} MapAppend<A, B>(f: A -> B, a: seq<A>, b: seq<A>)
    ensures Map(f, a + b) == Map(f, a) + Map(f, b)
    decreases |a|
  {
    if a == [] {
      assert a + b == b;
    } else {
      assert (a + b)[1..] == a[1..] + b;
      MapAppend(f, a[1..], b);
    }
  }

  lemma {:induction false} MapIndex<A, B>(f: A -> B, s: seq<A>)
    ensures forall k :: 0 <= k < |s| ==> Map(f, s)[k] == f(s[k])
    decreases |s|
  {
    if s != [] {
      MapIndex(f, s[1..]);
      assert forall k :: 1 <= k < |s| ==> Map(f, s)[k] == Map(f, s[1..])[k - 1];
    }
  }

  /** An element of `s[i..]` other than `s[i]` is in `s[i + 1..]`. */
  lemma InLater<A>(s: seq<A>, i: nat, x: A)
    requires i < |s| && x in s[i..] && s[i] != x
    ensures x in s[i + 1..]
  {
    var j :| 0 <= j < |s[i..]| && s[i..][j] == x;
    assert j > 0 && s[i + 1..][j - 1] == x;
  }

  /** The empty sequence is a unit of concatenation (kept apart so that it is proved once, on plain variables). */
  lemma AppendEmpty<A>(s: seq<A>)
    ensures [] + s == s && s + [] == s
  {
  }

  /** Regrouping a run appended between two single elements. */
  lemma Bracket<A>(a: seq<A>, x: A, l: seq<A>, y: A)
    ensures a + [x] + l + [y] == a + ([x] + l + [y])
  {
  }

  /** Regrouping two leading elements (kept apart so that it is proved once, on plain variables). */
  lemma Regroup<A>(x: A, y: A, t: seq<A>)
    ensures [x] + ([y] + t) == [x, y] + t == [x] + [y] + t
    ensures [x] + [] == [x] + [] + [] == [x]
  {
  }
}
