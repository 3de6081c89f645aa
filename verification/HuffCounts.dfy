/** Symbol counts for jpeg_gen_optimal_table of jchuff.c, and the search for the two
    least ones. */
module HuffCounts {
  const SYMBOLS := 257
  const PSEUDO_SYMBOL := 256
  const MAX_CLEN := 32
  const MAX_COUNT := 1_000_000_000

  // ----- counts -----

  function Sum(f: seq<nat>, n: nat): (s: nat)
    requires n <= |f|
  {
    if n == 0 then 0 else Sum(f, n - 1) + f[n - 1]
  }

  /** The number of symbols below n that have a count. */
  function Used(f: seq<nat>, n: nat): (u: nat)
    requires n <= |f|
    ensures u <= n
  {
    if n == 0 then 0 else Used(f, n - 1) + if f[n - 1] > 0 then 1 else 0
  }

  lemma {:induction false} SumUpdate(f: seq<nat>, i: nat, v: nat, n: nat)
    requires i < |f| && n <= |f|
    ensures Sum(f[i := v], n) == Sum(f, n) + if i < n then v - f[i] else 0
  {
    if n > 0 {
      SumUpdate(f, i, v, n - 1);
    }
  }

  lemma {:induction false} UsedUpdate(f: seq<nat>, i: nat, v: nat, n: nat)
    requires i < |f| && n <= |f|
    ensures Used(f[i := v], n)
         == Used(f, n) + if i < n then (if v > 0 then 1 else 0) - (if f[i] > 0 then 1 else 0) else 0
  {
    if n > 0 {
      UsedUpdate(f, i, v, n - 1);
    }
  }

  lemma {:induction false} SumAtLeast(f: seq<nat>, i: nat, n: nat)
    requires i < n <= |f|
    ensures f[i] <= Sum(f, n)
  {
    if i < n - 1 {
      SumAtLeast(f, i, n - 1);
    }
  }

  lemma {:induction false} UsedAtLeast(f: seq<nat>, i: nat, n: nat)
    requires i < n <= |f| && f[i] > 0
    ensures Used(f, n) >= 1
  {
    if i < n - 1 {
      UsedAtLeast(f, i, n - 1);
    }
  }

  lemma {:induction false} UsedWithoutTwo(f: seq<nat>, i: nat, j: nat, n: nat)
    requires n <= |f| && i < j < |f| && f[i] == 0 && f[j] == 0
    ensures Used(f, n) + (if i < n then 1 else 0) + (if j < n then 1 else 0) <= n
  {
    if n > 0 {
      UsedWithoutTwo(f, i, j, n - 1);
    }
  }

  /** The symbol below n other than except with the least count; the larger one of
      equals; -1 if there is none. */
  ghost function Least(freq: seq<nat>, n: nat, except: int): (c: int)
    requires n <= |freq|
    ensures -1 <= c < n
  {
    if n == 0 then -1
    else
      var c := Least(freq, n - 1, except);
      if freq[n - 1] > 0 && n - 1 != except && (c < 0 || freq[n - 1] <= freq[c]) then n - 1 else c
  }

  ghost predicate IsLeast(freq: seq<nat>, n: nat, except: int, c: int)
    requires n <= |freq|
  {
    && -1 <= c < n
    && (c >= 0 ==> c != except && freq[c] > 0)
    && (forall i :: 0 <= i < n && i != except && freq[i] > 0 ==>
         c >= 0 && freq[c] <= freq[i] && (freq[c] == freq[i] ==> i <= c))
  }

  lemma {:induction false} LeastIsLeast(freq: seq<nat>, n: nat, except: int)
    requires n <= |freq|
    ensures IsLeast(freq, n, except, Least(freq, n, except))
  {
    if n > 0 {
      LeastIsLeast(freq, n - 1, except);
    }
  }

  // ----- two counts become one -----

  /** The counts after the tree c2 has been hung beside c1. */
  ghost function Joined(freq: seq<nat>, c1: nat, c2: nat): (g: seq<nat>)
    requires |freq| == SYMBOLS && c1 < SYMBOLS && c2 < SYMBOLS
    ensures |g| == SYMBOLS
  {
    freq[c1 := freq[c1] + freq[c2]][c2 := 0]
  }

  lemma SumTwo(f: seq<nat>, i: nat, j: nat, v: nat, n: nat)
    requires i < n <= |f| && j < n && i != j
    ensures Sum(f[i := v][j := 0], n) == Sum(f, n) + v - f[i] - f[j]
  {
    hide Sum;
    SumUpdate(f, i, v, n);
    SumUpdate(f[i := v], j, 0, n);
  }

  lemma UsedTwo(f: seq<nat>, i: nat, j: nat, v: nat, n: nat)
    requires i < n <= |f| && j < n && i != j && f[i] > 0 && f[j] > 0 && v > 0
    ensures Used(f[i := v][j := 0], n) == Used(f, n) - 1
  {
    hide Used;
    UsedUpdate(f, i, v, n);
    UsedUpdate(f[i := v], j, 0, n);
  }

  lemma {:induction false} CountsMerged(freq: seq<nat>, c1: nat, c2: nat)
    requires |freq| == SYMBOLS && c1 < SYMBOLS && c2 < SYMBOLS && c1 != c2 && freq[c1] > 0 && freq[c2] > 0
    ensures Sum(Joined(freq, c1, c2), SYMBOLS) == Sum(freq, SYMBOLS)
    ensures Used(Joined(freq, c1, c2), SYMBOLS) == Used(freq, SYMBOLS) - 1
  {
    hide Sum, Used, Joined;
    JoinedTwice(freq, c1, c2);
    SumTwo(freq, c1, c2, freq[c1] + freq[c2], SYMBOLS);
    UsedTwo(freq, c1, c2, freq[c1] + freq[c2], SYMBOLS);
  }

  lemma JoinedTwice(freq: seq<nat>, c1: nat, c2: nat)
    requires |freq| == SYMBOLS && c1 < SYMBOLS && c2 < SYMBOLS
    ensures Joined(freq, c1, c2) == freq[c1 := freq[c1] + freq[c2]][c2 := 0]
  {
  }

  /** c1 and c2 are the two trees that the algorithm takes next. */
  ghost predicate LeastTwo(freq: seq<nat>, c1: int, c2: int) {
    && |freq| == SYMBOLS && 0 <= c1 < SYMBOLS && 0 <= c2 < SYMBOLS && c1 != c2
    && IsLeast(freq, SYMBOLS, -1, c1) && IsLeast(freq, SYMBOLS, c1, c2)
    && freq[c1] > 0 && freq[c2] > 0 && freq[c1] <= freq[c2]
  }

  lemma {:induction false} LeastPair(freq: seq<nat>, c1: int, c2: int)
    requires |freq| == SYMBOLS && c1 == Least(freq, SYMBOLS, -1) && c2 == Least(freq, SYMBOLS, c1)
    ensures c2 >= 0 ==> LeastTwo(freq, c1, c2) && Used(Joined(freq, c1, c2), SYMBOLS) < Used(freq, SYMBOLS)
    ensures c2 < 0 ==> forall x, y :: 0 <= x < SYMBOLS && 0 <= y < SYMBOLS && freq[x] > 0 && freq[y] > 0 ==> x == y
    ensures IsLeast(freq, SYMBOLS, -1, c1) && IsLeast(freq, SYMBOLS, c1, c2)
  {
    hide Least, Used, Joined;
    LeastIsLeast(freq, SYMBOLS, -1);
    LeastIsLeast(freq, SYMBOLS, c1);
    if c2 >= 0 {
      CountsMerged(freq, c1, c2);
    }
  }
}
