/** Facts about sequences in general, proved once away from the scanner's definitions. */
module Seqs {
  lemma AppendAssoc<T>(x: seq<T>, y: seq<T>, z: seq<T>)
    ensures (x + y) + z == x + (y + z)
  {
  }

  lemma LastSplit<T>(x: seq<T>)
    requires x != []
    ensures x == x[..|x| - 1] + [x[|x| - 1]]
  {
  }

  /** Moving the head of `rest` to the end of `done` keeps their concatenation. */
  lemma ShiftFront<T>(done: seq<T>, rest: seq<T>)
    requires rest != []
    ensures (done + [rest[0]]) + rest[1..] == done + rest
  {
  }

  lemma SnocTake<T>(x: seq<T>, e: T)
    ensures (x + [e])[..|x|] == x && (x + [e])[|x|] == e
  {
  }

  /** `x + y` splits back into `x` and `y`. */
  lemma AppendSplit<T>(x: seq<T>, y: seq<T>)
    ensures (x + y)[..|x|] == x && (x + y)[|x|..] == y
  {
  }

  /** Taking past the end of `x` in `x + y` takes from `y`. */
  lemma AppendTake<T>(x: seq<T>, y: seq<T>, n: nat)
    requires n <= |y|
    ensures (x + y)[..|x| + n] == x + y[..n]
  {
  }

  /** Dropping a prefix of `x` and then adding `e` commutes. */
  lemma DropSnoc<T>(x: seq<T>, e: T, k: nat)
    requires k <= |x|
    ensures (x + [e])[k..] == x[k..] + [e]
  {
  }

  lemma TakeSnoc<T>(x: seq<T>, n: nat)
    requires n < |x|
    ensures x[..n + 1] == x[..n] + [x[n]]
  {
  }

  /** Dropping the last element of `x + y` (with `y` non-empty) drops it from `y`. */
  lemma AppendTakeLast<T>(x: seq<T>, y: seq<T>)
    requires y != []
    ensures (x + y)[..|x + y| - 1] == x + y[..|y| - 1]
    ensures (x + y)[|x + y| - 1] == y[|y| - 1]
  {
  }

  /** Dropping the first element of `x + y` (with `x` non-empty) drops it from `x`. */
  lemma AppendDropFirst<T>(x: seq<T>, y: seq<T>)
    requires x != []
    ensures (x + y)[1..] == x[1..] + y
    ensures (x + y)[0] == x[0]
  {
  }

  /** A prefix of `u` is a prefix of anything `u` extends to. */
  lemma PrefixAppend<T>(t: seq<T>, u: seq<T>, v: seq<T>)
    requires |t| <= |u| && u[..|t|] == t
    ensures |t| <= |u + v| && (u + v)[..|t|] == t
  {
    assert (u + v)[..|t|] == u[..|t|];
  }

  lemma NotInAppend<T>(x: seq<T>, y: seq<T>, c: T)
    requires c !in x && c !in y
    ensures c !in x + y
  {
  }

  lemma InSnoc<T>(front: seq<T>, last: T, x: T)
    requires x in front || x == last
    ensures x in front + [last]
  {
    if x in front {
      var i :| 0 <= i < |front| && front[i] == x;
      assert (front + [last])[i] == x;
    } else {
      assert (front + [last])[|front|] == x;
    }
  }
}
