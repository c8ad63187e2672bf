/** The list of ticks loaded for a swap (invariant_dex.rs), and why it agrees with the searches
    the swap later makes in the bitmap. */
module ClosestTicks {
  import opened Common
  import opened Powers
  import opened Tickmap

  // ---- Reference: set positions in order ----

  /** The set positions from `lo` to `hi`, in ascending order. */
  ghost function Ascending(m: TickmapSlice, lo: int, hi: int): seq<int>
    decreases hi - lo + 1
  {
    if lo > hi then [] else Ascending(m, lo, hi - 1) + (if m.IsSet(hi) then [hi] else [])
  }

  /** The set positions from `hi` to `lo`, in descending order. */
  ghost function Descending(m: TickmapSlice, lo: int, hi: int): seq<int>
    decreases hi - lo + 1
  {
    if lo > hi then [] else Descending(m, lo + 1, hi) + (if m.IsSet(lo) then [lo] else [])
  }

  ghost function Opt(p: Option<int>): seq<int>
  {
    if p.None? then [] else [p.value]
  }

  ghost function First(m: TickmapSlice): int { 8 * m.offset }

  ghost function Last(m: TickmapSlice): int { 8 * (m.offset + |m.data|) - 1 }

  /** The positions the list must hold for a swap at position `c`: the nearest set one behind, if
      any, then the nearest ones ahead in swap order, `n` in all. Downward, `c` itself is ahead. */
  ghost function Closest(m: TickmapSlice, c: int, xToY: bool, n: nat): seq<int>
  {
    Opt(Behind(m, c, xToY)) + Ahead(m, c, xToY, n)
  }

  ghost function Behind(m: TickmapSlice, c: int, xToY: bool): Option<int>
  {
    if xToY then FirstSet(m, Max(c + 1, First(m)), Last(m)) else LastSet(m, First(m), Min(c, Last(m)))
  }

  ghost function Ahead(m: TickmapSlice, c: int, xToY: bool, n: nat): seq<int>
  {
    Take(AllAhead(m, c, xToY), n - |Opt(Behind(m, c, xToY))|)
  }

  ghost function AllAhead(m: TickmapSlice, c: int, xToY: bool): seq<int>
  {
    if xToY then Descending(m, First(m), Min(c, Last(m))) else Ascending(m, Max(c + 1, First(m)), Last(m))
  }

  // ---- Building the list ----

  /** One byte and mask of the scan. */
  predicate ScanBit(bitmap: seq<Byte>, i: nat)
    requires i / 8 < |bitmap|
  {
    And(bitmap[i / 8], Pow2(i % 8)) != 0
  }

  lemma ScanBitIsSet(m: TickmapSlice, i: nat)
    requires i / 8 < |m.data|
    ensures ScanBit(m.data, i) <==> m.IsSet(i + 8 * m.offset)
  {
    AndMask(m.data[i / 8], i % 8);
    assert (i + 8 * m.offset) / 8 == i / 8 + m.offset;
  }

  /** The upward scan over the whole window. */
  method ScanUp(bitmap: seq<Byte>, amountLimit: nat, chunkOffset: nat, current: int) returns (found: seq<int>)
    ensures |found| <= amountLimit
    ensures amountLimit >= 2 ==>
              found == Closest(TickmapSlice(bitmap, chunkOffset), current + 8 * chunkOffset, false, amountLimit)
  {
    hide And, ScanBit, TickmapSlice.IsSet, UpScanned, Closest;
    ghost var m := TickmapSlice(bitmap, chunkOffset);
    ghost var c := current + 8 * chunkOffset;
    found := [];
    if |bitmap| == 0 {
      EmptyWindow(m, c);
      return;
    }
    var max := |bitmap| * 8 - 1;
    var above, reachedLimit := 0, false;
    EmptyScan(m, c);
    while !reachedLimit && |found| < amountLimit
      invariant 0 <= above <= max + 1 && |found| <= amountLimit
      invariant amountLimit >= 2 ==> found == UpScanned(m, c, above + 8 * chunkOffset - 1)
      invariant reachedLimit <==> above > 0 && (above > max || |found| >= amountLimit)
      decreases max + 1 - above, !reachedLimit
    {
      ScanBitIsSet(m, above);
      UpScanStep(m, c, above + 8 * chunkOffset);
      if ScanBit(bitmap, above) {
        if above > current {
          found := found + [above + 8 * chunkOffset];
        } else if |found| >= 1 {
          found := found[0 := above + 8 * chunkOffset];
        } else {
          found := found + [above + 8 * chunkOffset];
        }
      }
      reachedLimit := above >= max || |found| >= amountLimit;
      above := above + 1;
    }
    if amountLimit >= 2 {
      UpScanDone(m, c, above + 8 * chunkOffset - 1, amountLimit);
    }
  }

  /** What the upward scan has collected once it has looked at the positions up to `a`. */
  ghost function UpScanned(m: TickmapSlice, c: int, a: int): seq<int>
  {
    Opt(LastSet(m, First(m), Min(c, a))) + Ascending(m, Max(c + 1, First(m)), a)
  }

  ghost function DownScanned(m: TickmapSlice, c: int, a: int): seq<int>
  {
    Opt(FirstSet(m, Max(c + 1, a), Last(m))) + Descending(m, a, Min(c, Last(m)))
  }

  lemma EmptyScan(m: TickmapSlice, c: int)
    ensures UpScanned(m, c, First(m) - 1) == [] && DownScanned(m, c, Last(m) + 1) == []
  {
  }

  lemma EmptyWindow(m: TickmapSlice, c: int)
    requires |m.data| == 0
    ensures forall n :: n >= 2 ==> Closest(m, c, false, n) == [] && Closest(m, c, true, n) == []
  {
  }

  lemma UpScanStep(m: TickmapSlice, c: int, a: int)
    requires First(m) <= a
    ensures a > c ==> UpScanned(m, c, a) == UpScanned(m, c, a - 1) + (if m.IsSet(a) then [a] else [])
    ensures a <= c ==>
              && |UpScanned(m, c, a - 1)| <= 1
              && UpScanned(m, c, a) == if m.IsSet(a) then [a] else UpScanned(m, c, a - 1)
  {
    hide TickmapSlice.IsSet;
    if a > c {
      assert Min(c, a) == Min(c, a - 1);
    } else {
      assert Ascending(m, Max(c + 1, First(m)), a) == [] && Ascending(m, Max(c + 1, First(m)), a - 1) == [];
    }
  }

  lemma UpScanDone(m: TickmapSlice, c: int, a: int, n: nat)
    requires n >= 2 && First(m) - 1 <= a <= Last(m) && |UpScanned(m, c, a)| <= n
    requires a == Last(m) || |UpScanned(m, c, a)| == n
    ensures UpScanned(m, c, a) == Closest(m, c, false, n)
  {
    hide TickmapSlice.IsSet;
    var lo := Max(c + 1, First(m));
    if a < c {
      assert Ascending(m, lo, a) == [];
    }
    if a >= lo - 1 {
      AscendingPrefix(m, lo, a, Last(m));
      assert Min(c, a) == Min(c, Last(m));
    }
  }

  lemma {:induction false} AscendingPrefix(m: TickmapSlice, lo: int, a: int, hi: int)
    requires a <= hi
    ensures Ascending(m, lo, a) <= Ascending(m, lo, hi)
    decreases hi - a
  {
    hide TickmapSlice.IsSet;
    if a < hi {
      AscendingPrefix(m, lo, a, hi - 1);
    }
  }

  /** The downward scan over the whole window. */
  method ScanDown(bitmap: seq<Byte>, amountLimit: nat, chunkOffset: nat, current: int) returns (found: seq<int>)
    ensures |found| <= amountLimit
    ensures amountLimit >= 2 ==>
              found == Closest(TickmapSlice(bitmap, chunkOffset), current + 8 * chunkOffset, true, amountLimit)
  {
    hide And, ScanBit, TickmapSlice.IsSet, DownScanned, Closest;
    ghost var m := TickmapSlice(bitmap, chunkOffset);
    ghost var c := current + 8 * chunkOffset;
    found := [];
    if |bitmap| == 0 {
      EmptyWindow(m, c);
      return;
    }
    var below: int, reachedLimit := |bitmap| * 8 - 1, false;
    EmptyScan(m, c);
    while !reachedLimit && |found| < amountLimit
      invariant -1 <= below < |bitmap| * 8 && |found| <= amountLimit
      invariant amountLimit >= 2 ==> found == DownScanned(m, c, below + 8 * chunkOffset + 1)
      invariant reachedLimit <==> below < |bitmap| * 8 - 1 && (below < 0 || |found| >= amountLimit)
      decreases below + 1, !reachedLimit
    {
      ScanBitIsSet(m, below);
      DownScanStep(m, c, below + 8 * chunkOffset);
      if ScanBit(bitmap, below) {
        if below <= current {
          found := found + [below + 8 * chunkOffset];
        } else if |found| >= 1 {
          found := found[0 := below + 8 * chunkOffset];
        } else {
          found := found + [below + 8 * chunkOffset];
        }
      }
      reachedLimit := below <= 0 || |found| >= amountLimit;
      below := below - 1;
    }
    if amountLimit >= 2 {
      DownScanDone(m, c, below + 8 * chunkOffset + 1, amountLimit);
    }
  }

  lemma DownScanStep(m: TickmapSlice, c: int, a: int)
    requires a <= Last(m)
    ensures a <= c ==> DownScanned(m, c, a) == DownScanned(m, c, a + 1) + (if m.IsSet(a) then [a] else [])
    ensures a > c ==>
              && |DownScanned(m, c, a + 1)| <= 1
              && DownScanned(m, c, a) == if m.IsSet(a) then [a] else DownScanned(m, c, a + 1)
  {
    hide TickmapSlice.IsSet;
    if a <= c {
      assert Max(c + 1, a) == Max(c + 1, a + 1);
    } else {
      assert Descending(m, a, Min(c, Last(m))) == [] && Descending(m, a + 1, Min(c, Last(m))) == [];
    }
  }

  lemma DownScanDone(m: TickmapSlice, c: int, a: int, n: nat)
    requires n >= 2 && First(m) <= a <= Last(m) + 1 && |DownScanned(m, c, a)| <= n
    requires a == First(m) || |DownScanned(m, c, a)| == n
    ensures DownScanned(m, c, a) == Closest(m, c, true, n)
  {
    hide TickmapSlice.IsSet;
    var hi := Min(c, Last(m));
    if a > c {
      assert Descending(m, a, hi) == [];
    }
    if a <= hi + 1 {
      DescendingPrefix(m, First(m), a, hi);
      assert Max(c + 1, a) == Max(c + 1, First(m));
    }
  }

  lemma {:induction false} DescendingPrefix(m: TickmapSlice, lo: int, a: int, hi: int)
    requires lo <= a
    ensures Descending(m, a, hi) <= Descending(m, lo, hi)
    decreases a - lo
  {
    hide TickmapSlice.IsSet;
    if lo < a {
      DescendingPrefix(m, lo + 1, a, hi);
    }
  }

  function ToTicks(positions: seq<int>, spacing: Spacing): (r: seq<int>)
    ensures |r| == |positions|
    ensures forall i :: 0 <= i < |r| ==> r[i] == TickAt(positions[i], spacing)
  {
    seq(|positions|, i requires 0 <= i < |positions| => TickAt(positions[i], spacing))
  }

  /** The ticks to load for a swap from `currentTickIndex`. */
  method FindClosestTickIndexes(currentTickIndex: int, spacing: Spacing, bitmap: seq<Byte>, amountLimit: nat,
                                chunkOffset: nat, xToY: bool) returns (r: seq<int>)
    ensures |r| <= amountLimit
    ensures amountLimit >= 2 ==>
              var m, c := TickmapSlice(bitmap, chunkOffset), Position(currentTickIndex, spacing);
              r == ToTicks(Closest(m, c, xToY, amountLimit), spacing)
  {
    hide Closest, TruncDiv;
    var current := TruncDiv(currentTickIndex, spacing) + TICK_LIMIT - chunkOffset * 8;
    var found;
    if xToY {
      found := ScanDown(bitmap, amountLimit, chunkOffset, current);
    } else {
      found := ScanUp(bitmap, amountLimit, chunkOffset, current);
    }
    r := ToTicks(found, spacing);
  }

  /** Greatest tick for a spacing; the product must fit 32 bits. */
  function GetMaxTick(spacing: Spacing): Option<int>
  {
    if (TICK_LIMIT - 1) * spacing >= 0x8000_0000 then None else Some(Min((TICK_LIMIT - 1) * spacing, MAX_TICK))
  }

  function GetMinTick(spacing: Spacing): Option<int>
  {
    if (-TICK_LIMIT + 1) * spacing < -0x8000_0000 then None else Some(Max((-TICK_LIMIT + 1) * spacing, -MAX_TICK))
  }

  /** Every initialized tick of the whole bitmap between the least and the greatest tick. */
  method FindAllTickIndexes(spacing: Spacing, bitmap: seq<Byte>) returns (r: Option<seq<int>>)
    requires |bitmap| == 11091
    ensures r.Some? <==> GetMaxTick(spacing).Some? && GetMinTick(spacing).Some?
    ensures r.Some? ==>
              r.value == ToTicks(Ascending(TickmapSlice(bitmap, 0), Position(GetMinTick(spacing).value, spacing),
                                           Position(GetMaxTick(spacing).value, spacing)), spacing)
  {
    hide And, ScanBit, TickmapSlice.IsSet;
    if GetMaxTick(spacing).None? || GetMinTick(spacing).None? {
      return None;
    }
    ghost var m := TickmapSlice(bitmap, 0);
    var maxTick := TruncDiv(GetMaxTick(spacing).value, spacing) + TICK_LIMIT;
    var minTick := TruncDiv(GetMinTick(spacing).value, spacing) + TICK_LIMIT;
    ExtremePositions(spacing);
    var tick := minTick;
    var found := [];
    while tick <= maxTick
      invariant minTick <= tick <= maxTick + 1
      invariant found == Ascending(m, minTick, tick - 1)
    {
      ScanBitIsSet(m, tick);
      if ScanBit(bitmap, tick) {
        found := found + [tick];
      }
      tick := tick + 1;
    }
    r := Some(ToTicks(found, spacing));
  }

  lemma ExtremePositions(spacing: Spacing)
    requires GetMaxTick(spacing).Some? && GetMinTick(spacing).Some?
    ensures 0 <= Position(GetMinTick(spacing).value, spacing) <= Position(GetMaxTick(spacing).value, spacing) + 1
    ensures Position(GetMaxTick(spacing).value, spacing) <= TICKMAP_SIZE
  {
    var m := GetMaxTick(spacing).value;
    assert GetMinTick(spacing).value == -m;
    DivBounds(m, spacing);
    if m / spacing >= TICK_LIMIT {
      MulLeft(spacing, TICK_LIMIT, m / spacing);
    }
  }

  // ---- The list against the searches ----

  lemma {:induction false} AscendingMeaning(m: TickmapSlice, lo: int, hi: int)
    ensures var s := Ascending(m, lo, hi);
            && (forall p :: p in s <==> lo <= p <= hi && m.IsSet(p))
            && (forall i, j :: 0 <= i < j < |s| ==> s[i] < s[j])
    decreases hi - lo + 1
  {
    hide TickmapSlice.IsSet;
    if lo <= hi {
      AscendingMeaning(m, lo, hi - 1);
      var init := Ascending(m, lo, hi - 1);
      assert forall i :: 0 <= i < |init| ==> init[i] in init;
    }
  }

  lemma {:induction false} DescendingMeaning(m: TickmapSlice, lo: int, hi: int)
    ensures var s := Descending(m, lo, hi);
            && (forall p :: p in s <==> lo <= p <= hi && m.IsSet(p))
            && (forall i, j :: 0 <= i < j < |s| ==> s[i] > s[j])
    decreases hi - lo + 1
  {
    hide TickmapSlice.IsSet;
    if lo <= hi {
      DescendingMeaning(m, lo + 1, hi);
      var init := Descending(m, lo + 1, hi);
      assert forall i :: 0 <= i < |init| ==> init[i] in init;
    }
  }

  /** Whether position `p` is still to come for a swap at position `q`. */
  predicate ToCome(p: int, q: int, xToY: bool)
  {
    if xToY then p <= q else p > q
  }

  /** All the set positions ahead of `c` in the window, nearest first. */
  lemma AllAheadMeaning(m: TickmapSlice, c: int, xToY: bool)
    ensures var s := AllAhead(m, c, xToY);
            && (forall p :: p in s <==> First(m) <= p <= Last(m) && ToCome(p, c, xToY) && m.IsSet(p))
            && (forall i, j :: 0 <= i < j < |s| ==> if xToY then s[i] > s[j] else s[i] < s[j])
  {
    hide TickmapSlice.IsSet;
    AscendingMeaning(m, Max(c + 1, First(m)), Last(m));
    DescendingMeaning(m, First(m), Min(c, Last(m)));
  }

  lemma SetIsInWindow(m: TickmapSlice, p: int)
    requires m.IsSet(p)
    ensures First(m) <= p <= Last(m)
  {
  }

  /** What a search from position `q` finds, in either direction. */
  function Found(m: TickmapSlice, q: int, limit: int, xToY: bool): Option<int>
  {
    if xToY then LastSet(m, limit, q) else FirstSet(m, q + 1, limit)
  }

  /** `j` entries of the list are behind position `q`, the others still to come. */
  ghost predicate Pointer(list: seq<int>, j: nat, q: int, xToY: bool)
  {
    && j <= |list|
    && (forall i :: 0 <= i < j ==> !ToCome(list[i], q, xToY))
    && (forall i :: j <= i < |list| ==> ToCome(list[i], q, xToY))
  }

  /** From any position the swap has reached, a search that finds a tick finds the first entry of
      the list still to come, until the list is exhausted. */
  lemma SearchFindsNextEntry(m: TickmapSlice, c: int, xToY: bool, n: nat, list: seq<int>, j: nat, q: int, limit: int)
    requires list == Ahead(m, c, xToY, n)
    requires Pointer(list, j, q, xToY) && (if xToY then q <= c else q >= c)
    requires Found(m, q, limit, xToY).Some?
    ensures j < |list| ==> Found(m, q, limit, xToY).value == list[j]
  {
    hide TickmapSlice.IsSet;
    var all, t := AllAhead(m, c, xToY), Found(m, q, limit, xToY).value;
    AllAheadMeaning(m, c, xToY);
    SetIsInWindow(m, t);
    assert t in all;
    if j < |list| {
      assert list[j] == all[j] && m.IsSet(list[j]);
      var k :| 0 <= k < |all| && all[k] == t;
      assert k <= j;
      assert k < |list| && list[k] == t;
    }
  }

  /** A position reached without passing a set position leaves the pointer right. */
  lemma PointerMoves(m: TickmapSlice, c: int, xToY: bool, n: nat, list: seq<int>, j: nat, q: int, q': int)
    requires list == Ahead(m, c, xToY, n) && Pointer(list, j, q, xToY)
    requires if xToY then q' <= q && (forall p :: q' < p <= q ==> !m.IsSet(p))
             else q <= q' && (forall p :: q < p <= q' ==> !m.IsSet(p))
    ensures Pointer(list, j, q', xToY)
  {
    hide TickmapSlice.IsSet;
    AllAheadMeaning(m, c, xToY);
    forall i | j <= i < |list| ensures ToCome(list[i], q', xToY) {
      assert list[i] == AllAhead(m, c, xToY)[i];
      assert m.IsSet(list[i]) && ToCome(list[i], q, xToY);
    }
  }

  /** Crossing the entry found advances the pointer by one. */
  lemma PointerCrosses(m: TickmapSlice, c: int, xToY: bool, n: nat, list: seq<int>, j: nat, q: int, limit: int)
    requires list == Ahead(m, c, xToY, n)
    requires Pointer(list, j, q, xToY) && (if xToY then q <= c else q >= c)
    requires Found(m, q, limit, xToY).Some?
    ensures var t := Found(m, q, limit, xToY).value;
            Pointer(list, if j < |list| then j + 1 else j, if xToY then t - 1 else t, xToY)
  {
    hide TickmapSlice.IsSet;
    SearchFindsNextEntry(m, c, xToY, n, list, j, q, limit);
    AllAheadMeaning(m, c, xToY);
    var all := AllAhead(m, c, xToY);
    assert forall i :: 0 <= i < |list| ==> list[i] == all[i];
  }

  /** Where the skip loop stops: at the first entry ahead. */
  lemma SkipStopsAhead(m: TickmapSlice, c: int, xToY: bool, n: nat)
    ensures var list := Closest(m, c, xToY, n);
            var k := |Opt(Behind(m, c, xToY))|;
            && list[k..] == Ahead(m, c, xToY, n)
            && (forall i :: 0 <= i < k ==> !ToCome(list[i], c, xToY))
            && (forall i :: k <= i < |list| ==> ToCome(list[i], c, xToY))
            && Pointer(Ahead(m, c, xToY, n), 0, c, xToY)
  {
    hide TickmapSlice.IsSet;
    AllAheadMeaning(m, c, xToY);
    var list, ahead := Closest(m, c, xToY, n), Ahead(m, c, xToY, n);
    forall i | 0 <= i < |ahead| ensures ToCome(ahead[i], c, xToY) {
      assert ahead[i] == AllAhead(m, c, xToY)[i];
    }
  }
}
