/** The unrolled copy and fill loops of hsTLoops.h, on one shared buffer with
    pointers as indices into it. */
module TLoops {
  import opened Bits

  // ----- what the loops do, one element after the other -----

  /** n elements copied upwards, each read from the buffer as it then is. */
  function Forward<T>(m: seq<T>, dst: nat, src: nat, n: nat): (r: seq<T>)
    requires dst + n <= |m| && src + n <= |m|
    ensures |r| == |m|
  {
    if n == 0 then m
    else
      var p := Forward(m, dst, src, n - 1);
      p[dst + n - 1 := p[src + n - 1]]
  }

  /** n elements copied downwards from the ends dstEnd and srcEnd. */
  function Backward<T>(m: seq<T>, dstEnd: nat, srcEnd: nat, n: nat): (r: seq<T>)
    requires n <= dstEnd <= |m| && n <= srcEnd <= |m|
    ensures |r| == |m|
  {
    if n == 0 then m
    else
      var p := Backward(m, dstEnd, srcEnd, n - 1);
      p[dstEnd - n := p[srcEnd - n]]
  }

  /** All n elements copied at once. */
  function CopyAtOnce<T>(m: seq<T>, dst: nat, src: nat, n: nat): (r: seq<T>)
    requires dst + n <= |m| && src + n <= |m|
    ensures |r| == |m|
  {
    m[..dst] + m[src..src + n] + m[dst + n..]
  }

  function Filled<T>(m: seq<T>, dst: nat, n: nat, value: T): (r: seq<T>)
    requires dst + n <= |m|
    ensures |r| == |m|
  {
    m[..dst] + seq(n, _ => value) + m[dst + n..]
  }

  /** The number of elements an unrolled loop touches: count / 8 turns of eight
      and count & 7 more. */
  function Touched(count: int): nat {
    if count >= 0 then count else count % 8
  }

  // ----- the loops -----

  /** *dst++ = *src++ */
  method StarPlusPlus<T>(a: array<T>, dst: nat, src: nat, ghost m: seq<T>, ghost d: nat, ghost s: nat)
    returns (dst': nat, src': nat)
    requires d <= dst < a.Length && s <= src < a.Length && dst - d == src - s && |m| == a.Length
    requires a[..] == Forward(m, d, s, dst - d)
    modifies a
    ensures dst' == dst + 1 && src' == src + 1
    ensures a[..] == Forward(m, d, s, dst' - d)
  {
    a[dst] := a[src];
    dst', src' := dst + 1, src + 1;
  }

  method FastForward<T>(a: array<T>, dst0: nat, src0: nat, count0: int)
    requires dst0 + Touched(count0) <= a.Length && src0 + Touched(count0) <= a.Length
    modifies a
    ensures a[..] == Forward(old(a[..]), dst0, src0, Touched(count0))
    ensures var n := if count0 >= 0 then count0 else count0 % 8;
      && dst0 + n <= a.Length && src0 + n <= a.Length
      && (forall j :: dst0 <= j < dst0 + n && (dst0 <= src0 || j < dst0 + (dst0 - src0)) ==>
           a[j] == old(a[src0 + (j - dst0)]))
      && (forall j :: dst0 + (dst0 - src0) <= j < dst0 + n && dst0 > src0 ==> a[j] == a[src0 + (j - dst0)])
      && forall j :: 0 <= j < a.Length && !(dst0 <= j < dst0 + n) ==> a[j] == old(a[j])
  {
    hide Forward;
    ghost var m := a[..];
    assert a[..] == Forward(m, dst0, src0, 0) by { ForwardNone(m, dst0, src0); }
    var dst, src, count := dst0, src0, count0;
    var octCount := count / 8 - 1;
    while octCount >= 0
      invariant -1 <= octCount || count0 < 0
      invariant dst - dst0 == src - src0 >= 0 && |m| == a.Length
      invariant count0 >= 0 ==> dst - dst0 == 8 * (count0 / 8 - 1 - octCount)
      invariant count0 < 0 ==> dst == dst0 && octCount < 0
      invariant a[..] == Forward(m, dst0, src0, dst - dst0)
      decreases octCount
    {
      dst, src := StarPlusPlus(a, dst, src, m, dst0, src0);
      dst, src := StarPlusPlus(a, dst, src, m, dst0, src0);
      dst, src := StarPlusPlus(a, dst, src, m, dst0, src0);
      dst, src := StarPlusPlus(a, dst, src, m, dst0, src0);
      dst, src := StarPlusPlus(a, dst, src, m, dst0, src0);
      dst, src := StarPlusPlus(a, dst, src, m, dst0, src0);
      dst, src := StarPlusPlus(a, dst, src, m, dst0, src0);
      dst, src := StarPlusPlus(a, dst, src, m, dst0, src0);
      octCount := octCount - 1;
    }
    count := count % 8;
    ghost var done := dst - dst0;
    for i := 0 to count
      invariant dst - dst0 == src - src0 == done + i && |m| == a.Length
      invariant a[..] == Forward(m, dst0, src0, done + i)
    {
      dst, src := StarPlusPlus(a, dst, src, m, dst0, src0);
    }
    ForwardElements(m, dst0, src0, Touched(count0), a[..]);
  }

  lemma {:induction false} ForwardNone<T>(m: seq<T>, dst: nat, src: nat)
    requires dst <= |m| && src <= |m|
    ensures Forward(m, dst, src, 0) == m
  {
  }

  /** *--dst = *--src */
  method StarMinusMinus<T>(a: array<T>, dst: nat, src: nat, ghost m: seq<T>, ghost d: nat, ghost s: nat)
    returns (dst': nat, src': nat)
    requires 0 < dst <= d <= a.Length && 0 < src <= s <= a.Length && d - dst == s - src && |m| == a.Length
    requires a[..] == Backward(m, d, s, d - dst)
    modifies a
    ensures dst' == dst - 1 && src' == src - 1
    ensures a[..] == Backward(m, d, s, d - dst')
  {
    dst', src' := dst - 1, src - 1;
    a[dst'] := a[src'];
  }

  method FastBackward<T>(a: array<T>, dst0: nat, src0: nat, count0: int)
    requires Touched(count0) <= dst0 + count0 <= a.Length && Touched(count0) <= src0 + count0 <= a.Length
    modifies a
    ensures a[..] == Backward(old(a[..]), dst0 + count0, src0 + count0, Touched(count0))
    ensures var n, d, s := if count0 >= 0 then count0 else count0 % 8, dst0 + count0, src0 + count0;
      && n <= d <= a.Length && n <= s <= a.Length
      && (forall j :: d - n <= j < d && (d >= s || j >= d - (s - d)) ==> a[j] == old(a[s - (d - j)]))
      && (forall j :: d - n <= j < d - (s - d) && d < s ==> a[j] == a[s - (d - j)])
      && forall j :: 0 <= j < a.Length && !(d - n <= j < d) ==> a[j] == old(a[j])
  {
    hide Backward;
    ghost var m, d: nat, s: nat := a[..], dst0 + count0, src0 + count0;
    assert a[..] == Backward(m, d, s, 0) by { BackwardNone(m, d, s); }
    var src: nat, dst: nat := src0 + count0, dst0 + count0;
    var count := count0;
    var octCount := count / 8 - 1;
    while octCount >= 0
      invariant -1 <= octCount || count0 < 0
      invariant dst <= d && d - dst == s - src && |m| == a.Length
      invariant count0 >= 0 ==> d - dst == 8 * (count0 / 8 - 1 - octCount)
      invariant count0 < 0 ==> dst == d && octCount < 0
      invariant a[..] == Backward(m, d, s, d - dst)
      decreases octCount
    {
      dst, src := StarMinusMinus(a, dst, src, m, d, s);
      dst, src := StarMinusMinus(a, dst, src, m, d, s);
      dst, src := StarMinusMinus(a, dst, src, m, d, s);
      dst, src := StarMinusMinus(a, dst, src, m, d, s);
      dst, src := StarMinusMinus(a, dst, src, m, d, s);
      dst, src := StarMinusMinus(a, dst, src, m, d, s);
      dst, src := StarMinusMinus(a, dst, src, m, d, s);
      dst, src := StarMinusMinus(a, dst, src, m, d, s);
      octCount := octCount - 1;
    }
    count := count % 8;
    ghost var done := d - dst;
    for i := 0 to count
      invariant d - dst == s - src == done + i && |m| == a.Length
      invariant a[..] == Backward(m, d, s, done + i)
    {
      dst, src := StarMinusMinus(a, dst, src, m, d, s);
    }
    BackwardElements(m, d, s, Touched(count0), a[..]);
  }

  lemma {:induction false} BackwardNone<T>(m: seq<T>, d: nat, s: nat)
    requires d <= |m| && s <= |m|
    ensures Backward(m, d, s, 0) == m
  {
  }

  /** *dst++ = value */
  method StarPlusPlusAssign<T>(a: array<T>, dst: nat, value: T, ghost m: seq<T>, ghost d: nat) returns (dst': nat)
    requires d <= dst < a.Length == |m|
    requires a[..] == Filled(m, d, dst - d, value)
    modifies a
    ensures dst' == dst + 1
    ensures a[..] == Filled(m, d, dst' - d, value)
  {
    a[dst] := value;
    dst' := dst + 1;
  }

  method FastAssign<T>(a: array<T>, dst0: nat, count0: int, value: T)
    requires dst0 + Touched(count0) <= a.Length
    modifies a
    ensures a[..] == Filled(old(a[..]), dst0, Touched(count0), value)
    ensures var n := if count0 >= 0 then count0 else count0 % 8;
      forall j :: 0 <= j < a.Length ==> a[j] == if dst0 <= j < dst0 + n then value else old(a[j])
  {
    hide Filled;
    ghost var m := a[..];
    assert a[..] == Filled(m, dst0, 0, value) by { FilledNone(m, dst0, value); }
    var dst, count := dst0, count0;
    var octCount := count / 8 - 1;
    while octCount >= 0
      invariant -1 <= octCount || count0 < 0
      invariant dst >= dst0 && |m| == a.Length
      invariant count0 >= 0 ==> dst - dst0 == 8 * (count0 / 8 - 1 - octCount)
      invariant count0 < 0 ==> dst == dst0 && octCount < 0
      invariant a[..] == Filled(m, dst0, dst - dst0, value)
      decreases octCount
    {
      dst := StarPlusPlusAssign(a, dst, value, m, dst0);
      dst := StarPlusPlusAssign(a, dst, value, m, dst0);
      dst := StarPlusPlusAssign(a, dst, value, m, dst0);
      dst := StarPlusPlusAssign(a, dst, value, m, dst0);
      dst := StarPlusPlusAssign(a, dst, value, m, dst0);
      dst := StarPlusPlusAssign(a, dst, value, m, dst0);
      dst := StarPlusPlusAssign(a, dst, value, m, dst0);
      dst := StarPlusPlusAssign(a, dst, value, m, dst0);
      octCount := octCount - 1;
    }
    count := count % 8;
    ghost var done := dst - dst0;
    for i := 0 to count
      invariant dst - dst0 == done + i && |m| == a.Length
      invariant a[..] == Filled(m, dst0, done + i, value)
    {
      dst := StarPlusPlusAssign(a, dst, value, m, dst0);
    }
    FilledElements(m, dst0, Touched(count0), value);
  }

  lemma FilledElements<T>(m: seq<T>, dst: nat, n: nat, value: T)
    requires dst + n <= |m|
    ensures forall j :: 0 <= j < |m| ==> Filled(m, dst, n, value)[j] == if dst <= j < dst + n then value else m[j]
  {
  }

  lemma FilledNone<T>(m: seq<T>, dst: nat, value: T)
    requires dst <= |m|
    ensures Filled(m, dst, 0, value) == m
  {
  }

  // ----- which element ends up where -----

  /** The place of i in a pattern of length d that repeats. */
  function Phase(i: nat, d: nat): nat
    requires d > 0
  {
    i % d
  }

  /** The source offset of the element that a forward copy leaves at offset i:
      an overlap upwards repeats the first dst - src elements. */
  function ForwardSource(dst: nat, src: nat, i: nat): nat {
    if dst <= src then i else Phase(i, dst - src)
  }

  lemma {:induction false} ForwardAt<T>(m: seq<T>, dst: nat, src: nat, n: nat, j: nat)
    requires dst + n <= |m| && src + n <= |m| && j < |m|
    ensures Forward(m, dst, src, n)[j]
         == if dst <= j < dst + n then m[src + ForwardSource(dst, src, j - dst)] else m[j]
    decreases n
  {
    hide Phase;
    if n > 0 {
      ForwardAt(m, dst, src, n - 1, j);
      if j == dst + n - 1 {
        ForwardAt(m, dst, src, n - 1, src + n - 1);
        if dst > src {
          Wrap(n - 1, dst - src);
        }
      }
    }
  }

  lemma {:induction false} ForwardElement<T>(m: seq<T>, dst: nat, src: nat, n: nat, j: nat)
    requires dst + n <= |m| && src + n <= |m| && j < |m|
    ensures dst <= j < dst + n && (dst <= src || j < dst + (dst - src)) ==>
      Forward(m, dst, src, n)[j] == m[src + (j - dst)]
    ensures dst + (dst - src) <= j < dst + n && dst > src ==>
      Forward(m, dst, src, n)[j] == Forward(m, dst, src, n)[src + (j - dst)]
    ensures !(dst <= j < dst + n) ==> Forward(m, dst, src, n)[j] == m[j]
  {
    hide Forward, Phase;
    ForwardAt(m, dst, src, n, j);
    if dst <= j < dst + n && dst > src {
      Wrap(j - dst, dst - src);
      ForwardAt(m, dst, src, n, src + (j - dst));
    }
  }

  /** The elements of a forward copy: the first dst - src of an overlap upwards, or all
      otherwise, are those that stood in the source; the others repeat what has been
      copied before, dst - src elements back. */
  lemma {:induction false} ForwardElements<T>(m: seq<T>, dst: nat, src: nat, n: nat, f: seq<T>)
    requires dst + n <= |m| && src + n <= |m| && f == Forward(m, dst, src, n)
    ensures |f| == |m|
    ensures forall j :: dst <= j < dst + n && (dst <= src || j < dst + (dst - src)) ==> f[j] == m[src + (j - dst)]
    ensures forall j :: dst + (dst - src) <= j < dst + n && dst > src ==> f[j] == f[src + (j - dst)]
    ensures forall j :: 0 <= j < |m| && !(dst <= j < dst + n) ==> f[j] == m[j]
  {
    hide Forward;
    forall j: nat | j < |m|
      ensures dst <= j < dst + n && (dst <= src || j < dst + (dst - src)) ==> f[j] == m[src + (j - dst)]
      ensures dst + (dst - src) <= j < dst + n && dst > src ==> f[j] == f[src + (j - dst)]
      ensures !(dst <= j < dst + n) ==> f[j] == m[j]
    {
      ForwardElement(m, dst, src, n, j);
    }
  }

  lemma Wrap(i: nat, d: nat)
    requires d > 0
    ensures Phase(i, d) <= i
    ensures i >= d ==> Phase(i - d, d) == Phase(i, d)
    ensures i < d ==> Phase(i, d) == i
  {
    if i < d {
      DivUnique(i, d, 0, i);
    } else {
      ModPlus(i - d, 1, d);
    }
  }

  /** Every element of m[src..src + n] repeats the one d before it. */
  ghost predicate Repeats<T>(m: seq<T>, src: nat, n: nat, d: nat)
    requires src + n <= |m|
  {
    forall i: nat :: src + d <= i < src + n ==> m[i] == m[i - d]
  }

  lemma {:induction false} RepeatsFromStart<T>(m: seq<T>, src: nat, n: nat, d: nat, i: nat)
    requires src + n <= |m| && 0 < d && i < n && Repeats(m, src, n, d)
    ensures Phase(i, d) <= i && m[src + i] == m[src + Phase(i, d)]
  {
    hide Phase;
    Wrap(i, d);
    if i >= d {
      RepeatsFromStart(m, src, n, d, i - d);
    }
  }

  /** Main theorem: a forward copy is a simultaneous copy exactly when it goes
      downwards, or the source repeats with the distance of the two ranges (as
      it trivially does when they are disjoint). */
  lemma {:induction false} ForwardIsCopyIff<T>(m: seq<T>, dst: nat, src: nat, n: nat)
    requires dst + n <= |m| && src + n <= |m|
    ensures Forward(m, dst, src, n) == CopyAtOnce(m, dst, src, n)
       <==> dst <= src || Repeats(m, src, n, dst - src)
  {
    hide Forward, CopyAtOnce, Phase;
    var f, c := Forward(m, dst, src, n), CopyAtOnce(m, dst, src, n);
    if dst > src && f == c {
      var d := dst - src;
      forall i: nat | src + d <= i < src + n
        ensures m[i] == m[i - d]
      {
        ForwardAt(m, dst, src, n, i + d);
        ForwardAt(m, dst, src, n, i);
        Wrap(i - src, d);
        CopyAt(m, dst, src, n, i + d);
        CopyAt(m, dst, src, n, i);
      }
    }
    if dst <= src || Repeats(m, src, n, dst - src) {
      forall j: nat | j < |m|
        ensures f[j] == c[j]
      {
        ForwardAt(m, dst, src, n, j);
        CopyAt(m, dst, src, n, j);
        if dst > src && dst <= j < dst + n {
          RepeatsFromStart(m, src, n, dst - src, j - dst);
        }
      }
    }
  }

  lemma CopyAt<T>(m: seq<T>, dst: nat, src: nat, n: nat, j: nat)
    requires dst + n <= |m| && src + n <= |m| && j < |m|
    ensures CopyAtOnce(m, dst, src, n)[j] == if dst <= j < dst + n then m[src + (j - dst)] else m[j]
  {
  }

  /** The same counted from the ends, for a backward copy. */
  function BackwardSource(dstEnd: nat, srcEnd: nat, i: nat): nat {
    if dstEnd >= srcEnd then i else Phase(i, srcEnd - dstEnd)
  }

  lemma {:induction false} BackwardAt<T>(m: seq<T>, dstEnd: nat, srcEnd: nat, n: nat, j: nat)
    requires n <= dstEnd <= |m| && n <= srcEnd <= |m| && j < |m|
    ensures dstEnd - n <= j < dstEnd ==>
      && srcEnd > BackwardSource(dstEnd, srcEnd, dstEnd - 1 - j)
      && Backward(m, dstEnd, srcEnd, n)[j] == m[srcEnd - 1 - BackwardSource(dstEnd, srcEnd, dstEnd - 1 - j)]
    ensures !(dstEnd - n <= j < dstEnd) ==> Backward(m, dstEnd, srcEnd, n)[j] == m[j]
    decreases n
  {
    hide Phase;
    if n > 0 {
      BackwardAt(m, dstEnd, srcEnd, n - 1, j);
      if j == dstEnd - n {
        BackwardAt(m, dstEnd, srcEnd, n - 1, srcEnd - n);
        if srcEnd > dstEnd {
          Wrap(n - 1, srcEnd - dstEnd);
        }
      }
    }
  }

  lemma {:induction false} BackwardElement<T>(m: seq<T>, d: nat, s: nat, n: nat, j: nat)
    requires n <= d <= |m| && n <= s <= |m| && j < |m|
    ensures d - n <= j < d && (d >= s || j >= d - (s - d)) ==> Backward(m, d, s, n)[j] == m[s - (d - j)]
    ensures d - n <= j < d - (s - d) && d < s ==> Backward(m, d, s, n)[j] == Backward(m, d, s, n)[s - (d - j)]
    ensures !(d - n <= j < d) ==> Backward(m, d, s, n)[j] == m[j]
  {
    hide Backward, Phase;
    BackwardAt(m, d, s, n, j);
    if d - n <= j < d && d < s {
      Wrap(d - 1 - j, s - d);
      BackwardAt(m, d, s, n, s - (d - j));
    }
  }

  /** The same for a backward copy, counted from the ends. */
  lemma {:induction false} BackwardElements<T>(m: seq<T>, d: nat, s: nat, n: nat, f: seq<T>)
    requires n <= d <= |m| && n <= s <= |m| && f == Backward(m, d, s, n)
    ensures |f| == |m|
    ensures forall j :: d - n <= j < d && (d >= s || j >= d - (s - d)) ==> f[j] == m[s - (d - j)]
    ensures forall j :: d - n <= j < d - (s - d) && d < s ==> f[j] == f[s - (d - j)]
    ensures forall j :: 0 <= j < |m| && !(d - n <= j < d) ==> f[j] == m[j]
  {
    hide Backward;
    forall j: nat | j < |m|
      ensures d - n <= j < d && (d >= s || j >= d - (s - d)) ==> f[j] == m[s - (d - j)]
      ensures d - n <= j < d - (s - d) && d < s ==> f[j] == f[s - (d - j)]
      ensures !(d - n <= j < d) ==> f[j] == m[j]
    {
      BackwardElement(m, d, s, n, j);
    }
  }

  lemma {:induction false} RepeatsFromEnd<T>(m: seq<T>, src: nat, n: nat, d: nat, i: nat)
    requires src + n <= |m| && 0 < d && i < n && Repeats(m, src, n, d)
    ensures Phase(i, d) <= i && m[src + n - 1 - i] == m[src + n - 1 - Phase(i, d)]
  {
    hide Phase;
    Wrap(i, d);
    if i >= d {
      RepeatsFromEnd(m, src, n, d, i - d);
      assert m[src + n - 1 - (i - d)] == m[src + n - 1 - (i - d) - d];
    }
  }

  /** Main theorem: the same for a backward copy, which must go upwards. */
  lemma {:induction false} BackwardIsCopyIff<T>(m: seq<T>, dst: nat, src: nat, n: nat)
    requires dst + n <= |m| && src + n <= |m|
    ensures Backward(m, dst + n, src + n, n) == CopyAtOnce(m, dst, src, n)
       <==> dst >= src || Repeats(m, src, n, src - dst)
  {
    hide Backward, CopyAtOnce, Phase;
    var f, c := Backward(m, dst + n, src + n, n), CopyAtOnce(m, dst, src, n);
    if dst < src && f == c {
      var d := src - dst;
      forall i: nat | src + d <= i < src + n
        ensures m[i] == m[i - d]
      {
        BackwardAt(m, dst + n, src + n, n, i - d);
        BackwardAt(m, dst + n, src + n, n, i - 2 * d);
        Wrap(dst + n - 1 - (i - 2 * d), d);
        CopyAt(m, dst, src, n, i - d);
        CopyAt(m, dst, src, n, i - 2 * d);
      }
    }
    if dst >= src || Repeats(m, src, n, src - dst) {
      forall j: nat | j < |m|
        ensures f[j] == c[j]
      {
        BackwardAt(m, dst + n, src + n, n, j);
        CopyAt(m, dst, src, n, j);
        if dst < src && dst <= j < dst + n {
          RepeatsFromEnd(m, src, n, src - dst, dst + n - 1 - j);
        }
      }
    }
  }
}
