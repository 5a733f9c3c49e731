/** The bounded history lists of the web-interface firmware: a Python list
    that is appended to and then, once longer than ten entries, loses its
    first entry with `pop(0)`. */
module Fifo {

  const CAPACITY: nat := 10

  function Min(a: nat, b: nat): nat { if a <= b then a else b }

  /** The last `n` entries of `s` (all of `s` when it is shorter), in order. */
  function LastN<T>(s: seq<T>, n: nat): (r: seq<T>)
    ensures |r| == Min(n, |s|)
  {
    s[|s| - Min(n, |s|)..]
  }

  /** `buf.append(x)` followed by `if len(buf) > 10: buf.pop(0)`. */
  function Push<T>(buf: seq<T>, x: T): (r: seq<T>)
    ensures |buf| <= CAPACITY ==> |r| == Min(|buf| + 1, CAPACITY)
    ensures |r| >= 1 && r[|r| - 1] == x
    ensures r == LastN(buf + [x], |r|)
  {
    var b := buf + [x];
    if |b| > CAPACITY then b[1..] else b
  }

  /** The list after appending each of `xs` in turn. */
  function PushAll<T>(buf: seq<T>, xs: seq<T>): (r: seq<T>)
    ensures |buf| <= CAPACITY ==> |r| <= CAPACITY
    decreases |xs|
  {
    if xs == [] then buf else PushAll(Push(buf, xs[0]), xs[1..])
  }

  /** Starting from a list of at most ten entries, any sequence of appends
      leaves exactly the last ten (or fewer) of everything seen, in the
      order they were appended. */
  lemma {:induction false} PushAllKeepsLast<T>(buf: seq<T>, xs: seq<T>)
    requires |buf| <= CAPACITY
    ensures PushAll(buf, xs) == LastN(buf + xs, CAPACITY)
    decreases |xs|
  {
    if xs == [] {
      ShortIsItsOwnLast(buf);
    } else {
      PushAllKeepsLast(Push(buf, xs[0]), xs[1..]);
      PushThenRest(buf, xs[0], xs[1..]);
      FirstThenRest(buf, xs);
    }
  }

  lemma ShortIsItsOwnLast<T>(buf: seq<T>)
    requires |buf| <= CAPACITY
    ensures LastN(buf + [], CAPACITY) == buf
  {
    assert buf + [] == buf;
  }

  lemma FirstThenRest<T>(buf: seq<T>, xs: seq<T>)
    requires xs != []
    ensures buf + xs == buf + [xs[0]] + xs[1..]
  {
  }

  /** What one push drops from the front never reaches the last ten of what
      follows. */
  lemma PushThenRest<T>(buf: seq<T>, x: T, rest: seq<T>)
    requires |buf| <= CAPACITY
    ensures LastN(Push(buf, x) + rest, CAPACITY) == LastN(buf + [x] + rest, CAPACITY)
  {
    var w := buf + [x] + rest;
    var k := |buf| + 1 - |Push(buf, x)|;
    assert Push(buf, x) + rest == w[k..];
    LastNOfSuffix(w, k);
  }

  /** Dropping a prefix leaves the last ten alone while ten or more remain. */
  lemma LastNOfSuffix<T>(w: seq<T>, k: nat)
    requires k == 0 || k + CAPACITY <= |w|
    requires k <= |w|
    ensures LastN(w[k..], CAPACITY) == LastN(w, CAPACITY)
  {
    assert w[k..][|w| - k - Min(CAPACITY, |w| - k)..] == w[|w| - Min(CAPACITY, |w|)..];
  }

  /** The property of both firmware histories: from the empty list at boot,
      after `xs` have been appended the list is the last `min(|xs|, 10)` of
      them in insertion order, and never longer than ten. */
  lemma {:induction false} HistoryFromBoot<T>(xs: seq<T>)
    ensures PushAll([], xs) == LastN(xs, CAPACITY)
    ensures |PushAll([], xs)| <= CAPACITY
    ensures xs != [] ==> PushAll([], xs)[|PushAll([], xs)| - 1] == xs[|xs| - 1]
  {
    PushAllKeepsLast([], xs);
    EmptyThen(xs);
    if xs != [] {
      LastNKeepsLast(xs, CAPACITY);
    }
  }

  lemma EmptyThen<T>(xs: seq<T>)
    ensures [] + xs == xs
  {
  }

  /** The newest entry is among the last `n`, at the end. */
  lemma LastNKeepsLast<T>(s: seq<T>, n: nat)
    requires s != [] && n >= 1
    ensures LastN(s, n)[|LastN(s, n)| - 1] == s[|s| - 1]
  {
  }
}
