/** The growable array hsTArray of hsTemplates.h, as a refinement of a
    mathematical sequence. */
module TArrays {
  import opened Bits

  // ----- growth -----

  /** total doubled until it holds n. */
  function Doubled(total: nat, n: nat): (t: nat)
    requires total > 0
    ensures t >= n && t >= total
    ensures total < 2 * n ==> t < 2 * n
    decreases n - total
  {
    if total >= n then total else Doubled(2 * total, n)
  }

  /** The capacity after room for n elements has been asked for. */
  function Grown(total: nat, n: nat): (t: nat)
    ensures n <= t
    ensures n > total ==> t <= 2 * n
  {
    if n <= total then total
    else if total == 0 then 2 * n
    else Doubled(2 * total, n)
  }

  /** The doubled capacity is the least total * 2^k that is enough. */
  lemma {:induction false} LeastDoubling(total: nat, n: nat) returns (k: nat)
    requires total > 0
    ensures Doubled(total, n) == total * Pow2(k) >= n
    ensures k > 0 ==> total * Pow2(k - 1) < n
    decreases n - total
  {
    hide Pow2, Doubled;
    DoubledStep(total, n);
    PowUp(0);
    k := 0;
    if total < n {
      var l := LeastDoubling(2 * total, n);
      k := l + 1;
      TwiceThePower(total, l);
      if l > 0 {
        TwiceThePower(total, l - 1);
      }
    }
  }

  lemma {:induction false} DoubledStep(total: nat, n: nat)
    requires total > 0
    ensures Doubled(total, n) == if total >= n then total else Doubled(2 * total, n)
  {
  }

  lemma {:induction false} PowUp(l: nat)
    ensures Pow2(l + 1) == 2 * Pow2(l) && Pow2(0) == 1
  {
  }

  lemma {:induction false} TwiceThePower(total: nat, l: nat)
    ensures (2 * total) * Pow2(l) == total * Pow2(l + 1)
  {
    PowUp(l);
    hide Pow2;
  }

  /** An array that is too small grows to the least old capacity times a power of two
      that is enough, and from nothing to twice what is asked for. */
  lemma {:induction false} GrownIsLeast(total: nat, n: nat) returns (k: nat)
    requires total < n
    ensures total == 0 ==> Grown(total, n) == 2 * n
    ensures total > 0 ==> k >= 1 && total * Pow2(k - 1) < n <= total * Pow2(k) == Grown(total, n)
  {
    hide Doubled, Pow2;
    k := 1;
    if total > 0 {
      var l := LeastDoubling(2 * total, n);
      k := l + 1;
      TwiceThePower(total, l);
      if l > 0 {
        TwiceThePower(total, l - 1);
      } else {
        PowUp(0);
      }
    }
  }

  // ----- the two copy helpers -----

  /** The two copies that leave a gap in a new array. */
  method CopyAround<T>(src: array<T>, dst: array<T>, index: nat, gap: nat, used: nat) returns (ghost moved: nat)
    requires src != dst && index <= used <= src.Length && used + gap <= dst.Length
    modifies dst
    ensures forall j :: 0 <= j < index ==> dst[j] == src[j]
    ensures forall j :: index + gap <= j < used + gap ==> dst[j] == src[j - gap]
    ensures moved == used
  {
    ghost var below := CopyForward(src, 0, dst, 0, index);
    ghost var first := dst[..index];
    assert forall j :: 0 <= j < index ==> first[j] == src[j];
    ghost var above := CopyForward(src, index, dst, index + gap, used - index);
    assert dst[..index] == first;
    moved := below + above;
  }

  /** Copies upwards; on one array this must move elements down. */
  method CopyForward<T>(src: array<T>, s: nat, dst: array<T>, d: nat, count: nat) returns (ghost moved: nat)
    requires s + count <= src.Length && d + count <= dst.Length
    requires src == dst ==> d <= s
    modifies dst
    ensures forall j :: d <= j < d + count ==> dst[j] == old(src[s + (j - d)])
    ensures forall j :: 0 <= j < dst.Length && !(d <= j < d + count) ==> dst[j] == old(dst[j])
    ensures moved == count
  {
    moved := 0;
    for i := 0 to count
      invariant forall j :: d <= j < d + i ==> dst[j] == old(src[s + (j - d)])
      invariant forall j :: 0 <= j < dst.Length && !(d <= j < d + i) ==> dst[j] == old(dst[j])
      invariant src != dst ==> src[..] == old(src[..])
      invariant moved == i
    {
      dst[d + i] := src[s + i];
      moved := moved + 1;
    }
  }

  /** Copies downwards; on one array this must move elements up. */
  method CopyBackward<T>(src: array<T>, s: nat, dst: array<T>, d: nat, count: nat) returns (ghost moved: nat)
    requires s + count <= src.Length && d + count <= dst.Length
    requires src == dst ==> d >= s
    modifies dst
    ensures forall j :: d <= j < d + count ==> dst[j] == old(src[s + (j - d)])
    ensures forall j :: 0 <= j < dst.Length && !(d <= j < d + count) ==> dst[j] == old(dst[j])
    ensures moved == count
  {
    moved := 0;
    for i := count downto 0
      invariant forall j :: d + i <= j < d + count ==> dst[j] == old(src[s + (j - d)])
      invariant forall j :: 0 <= j < dst.Length && !(d + i <= j < d + count) ==> dst[j] == old(dst[j])
      invariant src != dst ==> src[..] == old(src[..])
      invariant moved == count - i
    {
      dst[d + i] := src[s + i];
      moved := moved + 1;
    }
  }

  /** A larger array, with the elements on both sides of a gap. */
  method Regrown<T(0)>(src: array?<T>, index: nat, gap: nat, used: nat, capacity: nat)
    returns (dst: array<T>, ghost moved: nat)
    requires index <= used && used + gap <= capacity
    requires if src == null then used == 0 else used <= src.Length
    ensures fresh(dst) && dst.Length == capacity && moved == used
    ensures src != null ==> dst[..index] == src[..index] && dst[index + gap..used + gap] == src[index..used]
  {
    dst, moved := new T[capacity], 0;
    if src != null {
      moved := CopyAround(src, dst, index, gap, used);
    }
  }

  lemma Closed<T>(s: seq<T>, t: seq<T>, index: nat, count: nat)
    requires index + count <= |s| && |t| == |s| - count
    requires forall j :: 0 <= j < index ==> t[j] == s[j]
    requires forall j :: index <= j < |t| ==> t[j] == s[j + count]
    ensures t == s[..index] + s[index + count..]
  {
  }

  lemma Opened<T>(s: seq<T>, t: seq<T>, index: nat, count: nat)
    requires index <= |s| && |t| == |s| + count
    requires forall j :: 0 <= j < index ==> t[j] == s[j]
    requires forall j :: index + count <= j < |t| ==> t[j] == s[j - count]
    ensures t[..index] == s[..index] && t[index + count..] == s[index..]
  {
  }

  /** The used part of the storage after the gap at index has been filled. */
  lemma Filled<T>(before: seq<T>, after: seq<T>, used: nat, items: seq<T>, index: nat, was: seq<T>)
    requires index + |items| <= used <= |before| == |after| && index <= |was|
    requires forall j :: index <= j < index + |items| ==> after[j] == items[j - index]
    requires forall j :: 0 <= j < |before| && !(index <= j < index + |items|) ==> after[j] == before[j]
    requires before[..used][..index] == was[..index] && before[..used][index + |items|..] == was[index..]
    ensures after[..used] == was[..index] + items + was[index..]
  {
    var t := after[..used];
    assert t[..index] == before[..used][..index];
    assert t[index..index + |items|] == items;
    assert t[index + |items|..] == before[..used][index + |items|..];
    assert t == t[..index] + t[index..index + |items|] + t[index + |items|..];
  }

  /** Counts stay below 2^30, so that doubling a capacity stays an int. */
  const INT_LIMIT := 0x4000_0000

  class TArray<T(0)> {
    var fArray: array?<T>
    var fUseCount: int
    var fTotalCount: int
    /** Elements moved so far by growing and by opening or closing gaps. */
    ghost var fMoved: nat

    /** The storage is nil exactly when its capacity is zero. */
    ghost predicate Valid()
      reads this
    {
      && 0 <= fUseCount <= fTotalCount
      && (fArray == null <==> fTotalCount == 0)
      && (fArray != null ==> fArray.Length == fTotalCount)
    }

    ghost function Cells(): set<object>
      reads this
    {
      if fArray == null then {} else {fArray}
    }

    ghost function Contents(): seq<T>
      requires Valid()
      reads this, Cells()
      ensures |Contents()| == fUseCount
    {
      if fArray == null then [] else fArray[..fUseCount]
    }

    constructor ()
      ensures Valid() && Contents() == [] && fMoved == 0 && fTotalCount == 0
    {
      fArray, fUseCount, fTotalCount, fMoved := null, 0, 0, 0;
    }

    constructor WithCount(count: nat)
      ensures Valid() && fUseCount == fTotalCount == count && fresh(Cells())
    {
      fArray, fUseCount, fTotalCount, fMoved := null, count, count, 0;
      new;
      if count > 0 {
        fArray := new T[count];
      }
    }

    constructor Copy(src: TArray<T>)
      requires src.Valid()
      ensures Valid() && Contents() == src.Contents() && fTotalCount == src.fUseCount && fresh(Cells())
    {
      var count := src.fUseCount;
      fArray, fUseCount, fTotalCount, fMoved := null, count, count, 0;
      new;
      if count > 0 {
        fArray := new T[count];
        ghost var moved := CopyForward(src.fArray, 0, fArray, 0, count);
        assert fArray[..count] == src.fArray[..count];
      }
    }

    // ----- private: opening and closing gaps -----

    /** Opens a gap of count elements at index; what is in the gap is left open. */
    method IncCount(index: nat, count: nat)
      requires Valid() && index <= fUseCount && fUseCount + count < INT_LIMIT
      modifies this, Cells()
      ensures Valid() && fresh(Cells() - old(Cells()))
      ensures fUseCount == old(fUseCount) + count
      ensures fTotalCount == Grown(old(fTotalCount), old(fUseCount) + count)
      ensures fMoved == old(fMoved)
        + (if old(fUseCount) + count > old(fTotalCount) then old(fUseCount) else old(fUseCount) - index)
      ensures Contents()[..index] == old(Contents())[..index]
      ensures Contents()[index + count..] == old(Contents())[index..]
    {
      hide Doubled;
      var newCount := fUseCount + count;
      if newCount > fTotalCount {
        ghost var k := GrowCapacity(newCount);
        ghost var moved;
        fArray, moved := Regrown(fArray, index, count, fUseCount, fTotalCount);
        fMoved := fMoved + moved;
      } else if fArray != null {
        ghost var moved := CopyBackward(fArray, index, fArray, index + count, fUseCount - index);
        Opened(old(Contents()), fArray[..newCount], index, count);
        fMoved := fMoved + moved;
      }
      fUseCount := newCount;
    }

    /** The do-while loop that doubles the capacity at least once. */
    method GrowCapacity(newCount: nat) returns (ghost k: nat)
      requires 0 <= fTotalCount < newCount
      modifies this`fTotalCount
      ensures fTotalCount == Grown(old(fTotalCount), newCount)
      ensures old(fTotalCount) == 0 ==> fTotalCount == 2 * newCount
      ensures old(fTotalCount) > 0 ==>
        k >= 1 && old(fTotalCount) * Pow2(k - 1) < newCount <= old(fTotalCount) * Pow2(k) == fTotalCount
    {
      k := GrownIsLeast(fTotalCount, newCount);
      if fTotalCount == 0 {
        fTotalCount := newCount;
      }
      ghost var goal := Grown(old(fTotalCount), newCount);
      fTotalCount := 2 * fTotalCount;
      while fTotalCount < newCount
        invariant fTotalCount > 0 && Doubled(fTotalCount, newCount) == goal
        decreases newCount - fTotalCount
      {
        fTotalCount := 2 * fTotalCount;
      }
    }

    /** Closes the gap of count elements at index. */
    method DecCount(index: nat, count: nat)
      requires Valid() && 0 < count && index + count <= fUseCount
      modifies this, Cells()
      ensures Valid() && Cells() <= old(Cells())
      ensures Contents() == old(Contents())[..index] + old(Contents())[index + count..]
      ensures fTotalCount == if old(fUseCount) == count then 0 else old(fTotalCount)
      ensures fMoved == old(fMoved) + (old(fUseCount) - index - count)
    {
      if fUseCount == count {
        Reset();
      } else {
        ghost var before := Contents();
        ghost var moved := CopyForward(fArray, index + count, fArray, index, fUseCount - index - count);
        fMoved := fMoved + moved;
        fUseCount := fUseCount - count;
        Closed(before, Contents(), index, count);
      }
    }

    // ----- public -----

    /** Get, and operator[]. */
    method Get(index: nat) returns (item: T)
      requires Valid() && index < fUseCount
      ensures fArray != null && item == Contents()[index] == fArray[index]
    {
      item := fArray[index];
    }

    method SetCount(count: nat)
      requires Valid()
      modifies this
      ensures Valid() && fUseCount == count && fresh(Cells() - old(Cells()))
      ensures count == 0 ==> fTotalCount == 0
      ensures 0 < count <= old(fTotalCount) ==> fTotalCount == old(fTotalCount) && fArray == old(fArray)
      ensures count > old(fTotalCount) ==> fTotalCount == count && fresh(Cells())
      ensures count <= old(fUseCount) ==> Contents() == old(Contents())[..count]
      ensures old(fUseCount) <= count <= old(fTotalCount) ==> old(Contents()) <= Contents()
    {
      if count == 0 {
        Reset();
      } else {
        if count > fTotalCount {
          fArray := new T[count];
          fUseCount, fTotalCount := count, count;
        }
        fUseCount := count;
      }
    }

    method Reset()
      requires Valid()
      modifies this`fArray, this`fUseCount, this`fTotalCount
      ensures Valid() && Contents() == [] && fTotalCount == 0
    {
      if fArray != null {
        fArray := null;
        fUseCount, fTotalCount := 0, 0;
      }
    }

    method Insert(index: nat, item: T)
      requires Valid() && index <= fUseCount && fUseCount + 1 < INT_LIMIT
      modifies this, Cells()
      ensures Valid() && fresh(Cells() - old(Cells()))
      ensures Contents() == old(Contents())[..index] + [item] + old(Contents())[index..]
    {
      ghost var before := Contents();
      IncCount(index, 1);
      ghost var gap := Contents();
      fArray[index] := item;
      assert Contents() == gap[..index] + [item] + gap[index + 1..];
    }

    /** The inserted elements must not lie in this array's own storage. */
    method InsertMany(index: nat, count: int, items: array<T>)
      requires Valid() && count <= items.Length && items !in Cells() && fUseCount + count < INT_LIMIT
      requires count > 0 ==> index <= fUseCount
      modifies this, Cells()
      ensures Valid() && fresh(Cells() - old(Cells()))
      ensures count <= 0 ==> Contents() == old(Contents())
      ensures count > 0 ==>
        Contents() == old(Contents())[..index] + old(items[..count]) + old(Contents())[index..]
    {
      if count > 0 {
        ghost var was := Contents();
        IncCount(index, count);
        ghost var before, source := fArray[..], items[..count];
        assert items[..count] == old(items[..count]);
        assert before[..fUseCount] == Contents();
        ghost var moved := CopyForward(items, 0, fArray, index, count);
        assert forall j :: index <= j < index + count ==> fArray[..][j] == source[j - index];
        Filled(before, fArray[..], fUseCount, source, index, was);
        assert Contents() == fArray[..][..fUseCount];
      }
    }

    method Remove(index: nat, count: nat)
      requires Valid() && 0 < count && index + count <= fUseCount
      modifies this, Cells()
      ensures Valid() && Cells() <= old(Cells())
      ensures Contents() == old(Contents())[..index] + old(Contents())[index + count..]
    {
      DecCount(index, count);
    }

    method Append(item: T)
      requires Valid() && fUseCount + 1 < INT_LIMIT
      modifies this, Cells()
      ensures Valid() && fresh(Cells() - old(Cells()))
      ensures Contents() == old(Contents()) + [item]
      ensures Load(fUseCount, fTotalCount, fMoved)
        == AfterAppend(Load(old(fUseCount), old(fTotalCount), old(fMoved)))
    {
      hide Grown;
      ghost var was := Contents();
      IncCount(fUseCount, 1);
      ghost var gap := Contents();
      fArray[fUseCount - 1] := item;
      assert Contents() == gap[..fUseCount - 1] + [item];
      assert gap[..fUseCount - 1] == was[..fUseCount - 1] == was;
    }

    method Pop() returns (item: T)
      requires Valid() && fUseCount > 0
      modifies this`fUseCount
      ensures Valid() && fTotalCount == old(fTotalCount)
      ensures old(Contents()) == Contents() + [item]
    {
      fUseCount := fUseCount - 1;
      item := fArray[fUseCount];
    }

    /** Copies src into this array; src may be this array. */
    method Assign(src: TArray<T>)
      requires Valid() && src.Valid() && (src == this || Cells() !! src.Cells())
      modifies this, Cells()
      ensures Valid() && fresh(Cells() - old(Cells()))
      ensures Contents() == old(src.Contents())
    {
      ghost var from := src.Contents();
      if fUseCount != src.fUseCount {
        SetCount(src.fUseCount);
      }
      assert src.Contents() == from;
      if src.fUseCount > 0 {
        ghost var moved := CopyForward(src.fArray, 0, fArray, 0, src.fUseCount);
      }
      assert forall j :: 0 <= j < fUseCount ==> Contents()[j] == from[j];
    }
  }

  // ----- searching -----

  /** Find, which returns kMissingIndex if the item is not there. */
  method Find<T(0, ==)>(a: TArray<T>, item: T) returns (index: int)
    requires a.Valid()
    ensures -1 <= index < a.fUseCount
    ensures index >= 0 ==> a.Contents()[index] == item && item !in a.Contents()[..index]
    ensures index == -1 ==> item !in a.Contents()
  {
    for i := 0 to a.fUseCount
      invariant item !in a.Contents()[..i]
    {
      if a.fArray[i] == item {
        return i;
      }
    }
    return -1;
  }

  /** t is s without the item at i, which is the first one. */
  ghost predicate DropsFirst<T>(s: seq<T>, t: seq<T>, item: T, i: nat) {
    i < |s| && s[i] == item && item !in s[..i] && t == s[..i] + s[i + 1..]
  }

  /** RemoveItem drops the first match only. */
  method RemoveItem<T(0, ==)>(a: TArray<T>, item: T) returns (found: bool)
    requires a.Valid()
    modifies a, a.Cells()
    ensures a.Valid() && a.Cells() <= old(a.Cells())
    ensures found <==> item in old(a.Contents())
    ensures !found ==> a.Contents() == old(a.Contents())
    ensures found ==> exists i :: DropsFirst(old(a.Contents()), a.Contents(), item, i)
    ensures var was := old(a.Contents());
      forall i :: 0 <= i < |was| && was[i] == item && item !in was[..i] ==> a.Contents() == was[..i] + was[i + 1..]
  {
    ghost var was := a.Contents();
    var n := a.fUseCount;
    for i := 0 to n
      invariant a.Valid() && a.fUseCount == n && a.Cells() == old(a.Cells())
      invariant a.Contents() == was && item !in was[..i]
    {
      if a.fArray[i] == item {
        assert was[i] == item;
        a.DecCount(i, 1);
        assert DropsFirst(was, a.Contents(), item, i);
        return true;
      }
      assert was[..i + 1] == was[..i] + [was[i]];
    }
    return false;
  }

  // ----- the cost of appending -----

  /** Use count, capacity, and elements moved. */
  datatype Load = Load(use: int, total: int, moved: int)

  function AfterAppend(c: Load): Load
    requires 0 <= c.use <= c.total
  {
    Load(c.use + 1, Grown(c.total, c.use + 1), c.moved + if c.use + 1 > c.total then c.use else 0)
  }

  /** n appends to an empty array. */
  function AfterAppends(n: nat): (c: Load)
    ensures c.use == n && c.use <= c.total
  {
    if n == 0 then Load(0, 0, 0) else AfterAppend(AfterAppends(n - 1))
  }

  /** Main theorem: n >= 1 appends move exactly capacity - 2 elements, and the
      capacity stays at most 2 for one and 2n - 2 for more; so at most 2n - 2
      elements are moved in all, and 2n - 4 from the second append on. */
  lemma {:induction false} AppendsAreAmortised(n: nat)
    requires n >= 1
    ensures var c := AfterAppends(n);
      && c.moved == c.total - 2
      && c.total <= (if n == 1 then 2 else 2 * n - 2)
  {
    hide Doubled, Grown;
    AppendCapacity(AfterAppends(n - 1).total, n);
    if n > 1 {
      AppendsAreAmortised(n - 1);
    }
  }

  /** Appending to a full array doubles it once. */
  lemma AppendCapacity(total: nat, n: nat)
    requires n - 1 <= total
    ensures Grown(total, n) == if n <= total then total else if total == 0 then 2 else 2 * total
  {
  }

  /** Main theorem, for the array as it runs: appending n elements one by one makes an
      array of them, moves at most 2n - 2 elements in all and leaves at most as many
      places unused as used. */
  method AppendAll<T(0)>(xs: seq<T>) returns (a: TArray<T>)
    requires |xs| < INT_LIMIT
    ensures fresh(a) && a.Valid() && a.Contents() == xs && fresh(a.Cells())
    ensures xs != [] ==> a.fMoved <= 2 * |xs| - 2 && a.fTotalCount <= 2 * |xs|
  {
    hide AfterAppend;
    a := new TArray();
    for i := 0 to |xs|
      invariant fresh(a) && a.Valid() && fresh(a.Cells()) && a.fUseCount == i && a.Contents() == xs[..i]
      invariant Load(a.fUseCount, a.fTotalCount, a.fMoved) == AfterAppends(i)
    {
      a.Append(xs[i]);
      assert xs[..i + 1] == xs[..i] + [xs[i]];
    }
    assert xs[..|xs|] == xs;
    if xs != [] {
      AppendsAreAmortised(|xs|);
    }
  }
}
