/** The bitmap of initialized ticks and the searches in it (structs/tickmap.rs). Bit `p` stands
    for the tick `(p - TICK_LIMIT) * spacing`; `p` is called its position. */
module Tickmap {
  import opened Common
  import opened Powers

  const TICK_LIMIT: int := 44_364
  const TICK_SEARCH_RANGE: int := 256
  const MAX_TICK: int := 221_818
  const TICK_CROSSES_PER_IX: nat := 4
  const TICKS_BACK_COUNT: nat := 1
  const MAX_VIRTUAL_CROSS: nat := 10
  const TICKMAP_SIZE: int := 2 * TICK_LIMIT - 1
  /** Bytes of the whole bitmap. */
  const BITMAP_BYTES: nat := 11_091
  /** Bytes of the window: room for fifteen search ranges, and two more. */
  const SLICE_SIZE: nat := (TICK_CROSSES_PER_IX + TICKS_BACK_COUNT + MAX_VIRTUAL_CROSS) * 256 / 8 + 2

  /** Division that truncates toward zero. */
  function TruncDiv(a: int, b: int): int
    requires b > 0
  {
    if a >= 0 then a / b else -((-a) / b)
  }

  function Min(a: int, b: int): int { if a < b then a else b }

  function Max(a: int, b: int): int { if a > b then a else b }

  /** Spacings are 16-bit and nonzero. */
  type Spacing = s: int | 0 < s < 0x1_0000 witness 1

  function Position(tick: int, spacing: Spacing): int
  {
    TruncDiv(tick, spacing) + TICK_LIMIT
  }

  function TickAt(position: int, spacing: Spacing): int
  {
    (position - TICK_LIMIT) * spacing
  }

  /** A tick of the bitmap's domain: aligned, with a position inside the bitmap. */
  predicate OnGrid(tick: int, spacing: Spacing)
  {
    tick % spacing == 0 && 0 <= Position(tick, spacing) <= TICKMAP_SIZE
  }

  lemma TickPosition(position: int, spacing: Spacing)
    ensures Position(TickAt(position, spacing), spacing) == position
    ensures TickAt(position, spacing) % spacing == 0
    ensures TickAt(position + 1, spacing) == TickAt(position, spacing) + spacing
    ensures TickAt(position - 1, spacing) == TickAt(position, spacing) - spacing
  {
    var k: int, s: int := position - TICK_LIMIT, spacing;
    Multiple(s, k);
    assert (k + 1) * s == k * s + s && (k - 1) * s == k * s - s;
  }

  lemma Multiple(s: int, k: int)
    requires s > 0
    ensures (k * s) % s == 0 && TruncDiv(k * s, s) == k
  {
    assert s * (k + 1) == k * s + s;
    DivUnique(k * s, s, k);
    if k < 0 {
      MulLeft(s, k, -1);
      var m := -k;
      assert -(k * s) == s * m && s * (m + 1) == s * m + s;
      DivUnique(s * m, s, m);
    } else {
      MulLeft(s, 0, k);
    }
  }

  lemma PositionTick(tick: int, spacing: Spacing)
    requires tick % spacing == 0
    ensures TickAt(Position(tick, spacing), spacing) == tick
  {
    var k := tick / spacing;
    assert tick == spacing * k;
    TickPosition(k + TICK_LIMIT, spacing);
  }

  lemma TickAtIncreasing(p: int, q: int, spacing: Spacing)
    requires p < q
    ensures TickAt(p, spacing) + spacing <= TickAt(q, spacing)
  {
    MulLeft(spacing, p - TICK_LIMIT + 1, q - TICK_LIMIT);
  }

  /** The bit an index addresses. Division by eight truncates toward zero and the bit is an absolute
      value, so the seven indices below zero are mirrored; below them the source panics. */
  function Cell(index: int): Option<nat>
  {
    if index <= -8 then None else if index < 0 then Some(-index) else Some(index)
  }

  /** Byte and bit of a tick, or None where the source panics. */
  function TickToPosition(tick: int, spacing: Spacing): (r: Option<(nat, nat)>)
    ensures r.Some? <==> tick % spacing == 0 && Cell(Position(tick, spacing)).Some?
    ensures r.Some? ==> r.value.1 < 8 && Cell(Position(tick, spacing)) == Some(r.value.0 * 8 + r.value.1)
  {
    var cell := Cell(Position(tick, spacing));
    if tick % spacing != 0 || cell.None? then None else Some((cell.value / 8, cell.value % 8))
  }

  /** Position of the last tick a search from position `p` looks at. */
  function LimitFrom(p: int, spacing: Spacing, up: bool): int
  {
    var index := p - TICK_LIMIT;
    TICK_LIMIT +
    if up then Min(Min(TICK_LIMIT - 1, index + TICK_SEARCH_RANGE), MAX_TICK / spacing)
    else Max(Max(-TICK_LIMIT + 1, index - TICK_SEARCH_RANGE), -(MAX_TICK / spacing))
  }

  function LimitPosition(tick: int, spacing: Spacing, up: bool): int
  {
    LimitFrom(Position(tick, spacing), spacing, up)
  }

  function GetSearchLimit(tick: int, spacing: Spacing, up: bool): int
  {
    TickAt(LimitPosition(tick, spacing, up), spacing)
  }

  lemma LimitInBitmap(tick: int, spacing: Spacing, up: bool)
    requires OnGrid(tick, spacing)
    ensures 1 <= LimitPosition(tick, spacing, up) <= TICKMAP_SIZE
    ensures up ==> LimitPosition(tick, spacing, up) <= Position(tick, spacing) + TICK_SEARCH_RANGE
    ensures !up ==> LimitPosition(tick, spacing, up) >= Position(tick, spacing) - TICK_SEARCH_RANGE
  {
    assert MAX_TICK / spacing >= 0 by { DivBounds(MAX_TICK, spacing); }
  }

  // ---- The same in plain numbers ----

  /** The byte is the index over eight, truncated, and must not be negative; the bit is the size of the
      remainder. */
  lemma CellMeaning(index: int)
    ensures var byte := if index >= 0 then index / 8 else -((-index) / 8);
            var bit := if index >= 0 then index - 8 * byte else 8 * byte - index;
            && (Cell(index).Some? <==> byte >= 0)
            && (Cell(index).Some? ==> Cell(index).value == 8 * byte + bit)
  {
  }

  /** An aligned tick has its number of spacings, shifted by 44364, for a position. */
  lemma PositionMeaning(tick: int, spacing: Spacing)
    requires tick % spacing == 0
    ensures Position(tick, spacing) == tick / spacing + 44364
    ensures OnGrid(tick, spacing) <==> -44364 <= tick / spacing <= 44363
  {
    hide TruncDiv;
    var q: int := tick / spacing;
    DivBounds(tick, spacing);
    assert tick == q * spacing;
    Multiple(spacing, q);
  }

  /** A search looks at most 256 spacings far, not beyond 44363 spacings from zero, and not beyond the last
      multiple of the spacing up to 221818. */
  lemma SearchLimitMeaning(tick: int, spacing: Spacing, up: bool)
    requires tick % spacing == 0
    ensures var limit, n := GetSearchLimit(tick, spacing, up), 221818 / spacing;
            if up then
              && limit <= tick + 256 * spacing && limit <= 44363 * spacing && limit <= n * spacing
              && limit in {tick + 256 * spacing, 44363 * spacing, n * spacing}
            else
              && limit >= tick - 256 * spacing && limit >= -44363 * spacing && limit >= -n * spacing
              && limit in {tick - 256 * spacing, -44363 * spacing, -n * spacing}
  {
    hide GetSearchLimit, Position, LimitFrom;
    var k, n := tick / spacing, 221818 / spacing;
    PositionMeaning(tick, spacing);
    WholeSpacings(tick, spacing);
    var l := LimitFrom(k + 44364, spacing, up) - 44364;
    LimitIndexMeaning(k, spacing, up);
    SearchLimitIs(tick, spacing, up, k);
    if up {
      UpperLimit(tick, spacing, k, l, n);
    } else {
      LowerLimit(tick, spacing, k, l, n);
    }
  }

  lemma WholeSpacings(tick: int, s: nat)
    requires s > 0 && tick % s == 0
    ensures tick == (tick / s) * s
  {
    DivBounds(tick, s);
  }

  lemma UpperLimit(tick: int, s: nat, k: int, l: int, n: int)
    requires tick == k * s && l <= k + 256 && l <= 44363 && l <= n && l in {k + 256, 44363, n}
    ensures l * s <= tick + 256 * s && l * s <= 44363 * s && l * s <= n * s
    ensures l * s in {tick + 256 * s, 44363 * s, n * s}
  {
    Shift256(k, s);
    ScaledMin(s, l, k + 256, 44363, n);
  }

  lemma LowerLimit(tick: int, s: nat, k: int, l: int, n: int)
    requires tick == k * s && l >= k - 256 && l >= -44363 && l >= -n && l in {k - 256, -44363, -n}
    ensures l * s >= tick - 256 * s && l * s >= -44363 * s && l * s >= -n * s
    ensures l * s in {tick - 256 * s, -44363 * s, -n * s}
  {
    Negated(s, k);
    Negated(s, l);
    Negated(s, n);
    UpperLimit(-tick, s, -k, -l, n);
  }

  lemma LimitIndexMeaning(k: int, spacing: Spacing, up: bool)
    ensures var l, n := LimitFrom(k + 44364, spacing, up) - 44364, 221818 / spacing;
            if up then l <= k + 256 && l <= 44363 && l <= n && l in {k + 256, 44363, n}
            else l >= k - 256 && l >= -44363 && l >= -n && l in {k - 256, -44363, -n}
  {
  }

  lemma SearchLimitIs(tick: int, spacing: Spacing, up: bool, k: int)
    requires Position(tick, spacing) == k + 44364
    ensures GetSearchLimit(tick, spacing, up) == (LimitFrom(k + 44364, spacing, up) - 44364) * spacing
  {
    hide Position, LimitFrom;
  }

  lemma Shift256(k: int, s: nat)
    ensures (k + 256) * s == k * s + 256 * s && (k - 256) * s == k * s - 256 * s
  {
  }

  lemma Negated(s: nat, a: int)
    ensures (-a) * s == -(a * s)
  {
  }

  lemma ScaledMin(s: nat, l: int, a: int, b: int, c: int)
    requires l <= a && l <= b && l <= c && l in {a, b, c}
    ensures l * s <= a * s && l * s <= b * s && l * s <= c * s && l * s in {a * s, b * s, c * s}
  {
    MulLeft(s, l, a);
    MulLeft(s, l, b);
    MulLeft(s, l, c);
  }

  // ---- The window ----

  /** A stretch of the bitmap: `data[0]` is the bitmap's byte `offset`. */
  datatype TickmapSlice = TickmapSlice(data: seq<Byte>, offset: nat)
  {
    predicate HasByte(b: int) { offset <= b < offset + |data| }

    /** The byte at an index of the whole bitmap; outside the window the source panics. */
    function At(b: int): Byte
      requires HasByte(b)
    {
      data[b - offset]
    }

    predicate IsSet(position: int)
    {
      position >= 0 && HasByte(position / 8) && Bit(At(position / 8), position % 8)
    }

    /** Every byte holding a position from `lo` to `hi` is in the window. */
    predicate Covers(lo: int, hi: int)
    {
      lo <= hi ==> lo >= 0 && HasByte(lo / 8) && HasByte(hi / 8)
    }
  }

  /** A position is set when its byte is in the window and, halved as often as the position's remainder by
      eight, is odd. */
  lemma IsSetMeaning(m: TickmapSlice, p: int)
    ensures m.IsSet(p) <==>
            && 8 * m.offset <= p < 8 * (m.offset + |m.data|)
            && m.data[p / 8 - m.offset] / [1, 2, 4, 8, 16, 32, 64, 128][p % 8] % 2 == 1
  {
    assert Pow2(0) == 1 && Pow2(1) == 2 && Pow2(2) == 4 && Pow2(3) == 8;
    assert Pow2(4) == 16 && Pow2(5) == 32 && Pow2(6) == 64 && Pow2(7) == 128;
    hide Pow2;
    var powers := [1, 2, 4, 8, 16, 32, 64, 128];
    assert powers[p % 8] == Pow2(p % 8);
  }

  // ---- Reference: linear scans ----

  /** Least set position from `lo` to `hi`. */
  function FirstSet(m: TickmapSlice, lo: int, hi: int): (r: Option<int>)
    ensures r.Some? ==> lo <= r.value <= hi && m.IsSet(r.value) && forall p :: lo <= p < r.value ==> !m.IsSet(p)
    ensures r.None? ==> forall p :: lo <= p <= hi ==> !m.IsSet(p)
    decreases hi - lo + 1
  {
    if lo > hi then None else if m.IsSet(lo) then Some(lo) else FirstSet(m, lo + 1, hi)
  }

  /** Greatest set position from `lo` to `hi`. */
  function LastSet(m: TickmapSlice, lo: int, hi: int): (r: Option<int>)
    ensures r.Some? ==> lo <= r.value <= hi && m.IsSet(r.value) && forall p :: r.value < p <= hi ==> !m.IsSet(p)
    ensures r.None? ==> forall p :: lo <= p <= hi ==> !m.IsSet(p)
    decreases hi - lo + 1
  {
    if lo > hi then None else if m.IsSet(hi) then Some(hi) else LastSet(m, lo, hi - 1)
  }

  function ToTick(p: Option<int>, spacing: Spacing): Option<int>
  {
    if p.None? then None else Some(TickAt(p.value, spacing))
  }

  /** What an upward search from a tick must find: the least initialized tick above it, up to the
      limit. */
  function NextTick(m: TickmapSlice, tick: int, spacing: Spacing): Option<int>
  {
    ToTick(FirstSet(m, Position(tick, spacing) + 1, LimitPosition(tick, spacing, true)), spacing)
  }

  /** What a downward search must find: the greatest initialized tick at or below it, down to the
      limit. */
  function PrevTick(m: TickmapSlice, tick: int, spacing: Spacing): Option<int>
  {
    ToTick(LastSet(m, LimitPosition(tick, spacing, false), Position(tick, spacing)), spacing)
  }

  /** Reading the bytes from `lo` to `hi` upwards leaves the window before a set bit stops it. */
  predicate PanicsUp(m: TickmapSlice, lo: int, hi: int)
  {
    lo <= hi && exists b :: lo / 8 <= b <= hi / 8 && !m.HasByte(b) && forall p :: lo <= p < 8 * b ==> !m.IsSet(p)
  }

  /** The same downwards, from `hi` to `lo`. */
  predicate PanicsDown(m: TickmapSlice, lo: int, hi: int)
  {
    lo <= hi && exists b :: lo / 8 <= b <= hi / 8 && !m.HasByte(b) && forall p :: 8 * b + 8 <= p <= hi ==> !m.IsSet(p)
  }

  /** Whether the search from a position in swap direction panics. */
  predicate PanicsFrom(m: TickmapSlice, q: int, spacing: Spacing, xToY: bool)
  {
    if xToY then PanicsDown(m, LimitFrom(q, spacing, false), q) else PanicsUp(m, q + 1, LimitFrom(q, spacing, true))
  }

  predicate SearchPanics(m: TickmapSlice, tick: int, spacing: Spacing, xToY: bool)
  {
    PanicsFrom(m, Position(tick, spacing), spacing, xToY)
  }

  /** The result of a search: the source panics where it reads outside the window. */
  datatype Search = Panic | Answer(tick: Option<int>)

  // ---- The searches, byte by byte and bit by bit ----

  /** The bits before `bit` of a byte all being clear, skip clear bits from `bit` on. */
  method SkipClearUp(v: Byte, start: nat) returns (bit: nat)
    requires start < 8 && Shr(v, start) != 0
    ensures start <= bit < 8 && Bit(v, bit)
    ensures forall k :: start <= k < bit ==> !Bit(v, k)
  {
    hide Shr;
    bit := start;
    var shifted := Shr(v, bit);
    while shifted % 2 == 0
      invariant start <= bit < 8 && shifted == Shr(v, bit) && shifted > 0
      invariant forall k :: start <= k < bit ==> !Bit(v, k)
      decreases 8 - bit
    {
      ShiftHalf(v, bit);
      ByteShift(v, bit + 1);
      shifted := shifted / 2;
      bit := bit + 1;
    }
  }

  lemma ByteShift(v: Byte, bit: nat)
    ensures bit >= 8 ==> Shr(v, bit) == 0
  {
    assert Pow2(8) == 256;
    assert Shr(v, 8) == 0;
    if bit >= 8 {
      ShiftedOutAll(v, 8, bit);
    }
  }

  /** What the upward search does, for any tick. */
  function NextSearch(m: TickmapSlice, tick: int, spacing: Spacing): Search
  {
    var lo, hi := Cell(Position(tick, spacing) + 1), Cell(LimitPosition(tick, spacing, true));
    if tick % spacing != 0 || lo.None? || hi.None? || PanicsUp(m, lo.value, hi.value) then Panic
    else Answer(ToTick(FirstSet(m, lo.value, hi.value), spacing))
  }

  /** What the downward search does, for any tick. */
  function PrevSearch(m: TickmapSlice, tick: int, spacing: Spacing): Search
  {
    var hi, lo := Cell(Position(tick, spacing)), Cell(LimitPosition(tick, spacing, false));
    if tick % spacing != 0 || lo.None? || hi.None? || PanicsDown(m, lo.value, hi.value) then Panic
    else Answer(ToTick(LastSet(m, lo.value, hi.value), spacing))
  }

  /** On the bitmap, the searches are those of the reference. */
  lemma SearchesOnGrid(m: TickmapSlice, tick: int, spacing: Spacing)
    requires OnGrid(tick, spacing)
    ensures NextSearch(m, tick, spacing)
            == if SearchPanics(m, tick, spacing, false) then Panic else Answer(NextTick(m, tick, spacing))
    ensures PrevSearch(m, tick, spacing)
            == if SearchPanics(m, tick, spacing, true) then Panic else Answer(PrevTick(m, tick, spacing))
  {
    hide TruncDiv, PanicsUp, PanicsDown, FirstSet, LastSet, LimitFrom;
    LimitInBitmap(tick, spacing, true);
    LimitInBitmap(tick, spacing, false);
  }

  /** Where a search begins and ends, in ticks and in positions. */
  lemma SearchEnds(tick: int, spacing: Spacing, up: bool)
    requires tick % spacing == 0
    ensures (tick + spacing) % spacing == 0
    ensures Position(tick + spacing, spacing) == Position(tick, spacing) + 1
    ensures var limit := GetSearchLimit(tick, spacing, up);
            limit % spacing == 0 && Position(limit, spacing) == LimitPosition(tick, spacing, up)
  {
    hide TruncDiv, LimitPosition, TickAt;
    PositionTick(tick, spacing);
    TickPosition(Position(tick, spacing), spacing);
    TickPosition(Position(tick, spacing) + 1, spacing);
    TickPosition(LimitPosition(tick, spacing, up), spacing);
  }

  lemma ShiftedAligned(tick: int, spacing: Spacing)
    ensures (tick + spacing) % spacing == 0 <==> tick % spacing == 0
  {
    DivBounds(tick, spacing);
    var q := tick / spacing;
    if tick % spacing == 0 {
      Multiple(spacing, q + 1);
    } else {
      DivUnique(tick + spacing, spacing, q + 1);
      DivBounds(tick + spacing, spacing);
    }
  }

  method NextInitialized(bitmap: TickmapSlice, tick: int, spacing: Spacing) returns (r: Search)
    ensures r == NextSearch(bitmap, tick, spacing)
  {
    hide Position, LimitPosition, GetSearchLimit, Cell, Bit, Shr, TickAt, TickToPosition, TickmapSlice.IsSet;
    var limit := GetSearchLimit(tick, spacing, true);
    ShiftedAligned(tick, spacing);
    if tick % spacing == 0 {
      SearchEnds(tick, spacing, true);
    }
    var from := TickToPosition(tick + spacing, spacing);
    var to := TickToPosition(limit, spacing);
    if from.None? || to.None? {
      return Panic;
    }
    r := SearchUp(bitmap, from.value.0, from.value.1, to.value.0, to.value.1, spacing);
  }

  /** The upward search between two bits. */
  method SearchUp(bitmap: TickmapSlice, fromByte: nat, fromBit: nat, limitingByte: nat, limitingBit: nat,
                  spacing: Spacing) returns (r: Search)
    requires fromBit < 8 && limitingBit < 8
    ensures var lo, hi := fromByte * 8 + fromBit, limitingByte * 8 + limitingBit;
            r == if PanicsUp(bitmap, lo, hi) then Panic else Answer(ToTick(FirstSet(bitmap, lo, hi), spacing))
  {
    hide Bit, Shr, TickAt, TickmapSlice.IsSet;
    var byte: nat, bit: nat := fromByte, fromBit;
    ghost var start, end := byte * 8 + bit, limitingByte * 8 + limitingBit;
    while byte < limitingByte || (byte == limitingByte && bit <= limitingBit)
      invariant bit < 8 && start <= byte * 8 + bit && (byte * 8 + bit == start || bit == 0)
      invariant forall p :: start <= p < byte * 8 + bit ==> !bitmap.IsSet(p)
      invariant forall b :: start / 8 <= b < byte ==> bitmap.HasByte(b)
      decreases (limitingByte as int) - byte
    {
      if !bitmap.HasByte(byte) {
        return Panic;
      }
      var v := bitmap.At(byte);
      if Shr(v, bit) != 0 {
        var found := SkipClearUp(v, bit);
        ClearInByte(bitmap, byte, bit, found);
        FirstSetIs(bitmap, start, end, byte * 8 + found);
        if byte < limitingByte || (byte == limitingByte && found <= limitingBit) {
          return Answer(Some(TickAt(byte * 8 + found, spacing)));
        }
        return Answer(None);
      }
      ClearAbove(bitmap, byte, bit);
      byte := byte + 1;
      bit := 0;
    }
    r := Answer(None);
    FirstSetNone(bitmap, start, end);
  }

  lemma ClearInByte(m: TickmapSlice, byte: nat, from: nat, to: nat)
    requires m.HasByte(byte) && from <= to < 8
    requires forall k :: from <= k < to ==> !Bit(m.At(byte), k)
    ensures forall p :: byte * 8 + from <= p < byte * 8 + to ==> !m.IsSet(p)
    ensures Bit(m.At(byte), to) ==> m.IsSet(byte * 8 + to)
  {
    hide Bit;
  }

  lemma ClearAbove(m: TickmapSlice, byte: nat, bit: nat)
    requires m.HasByte(byte) && bit < 8 && Shr(m.At(byte), bit) == 0
    ensures forall p :: byte * 8 + bit <= p < byte * 8 + 8 ==> !m.IsSet(p)
  {
    forall k | bit <= k < 8 ensures !Bit(m.At(byte), k) {
      ShiftedOut(m.At(byte), bit, k);
    }
    hide Bit;
  }

  lemma FirstSetIs(m: TickmapSlice, lo: int, hi: int, p: int)
    requires lo <= p && m.IsSet(p) && forall q :: lo <= q < p ==> !m.IsSet(q)
    ensures FirstSet(m, lo, hi) == if p <= hi then Some(p) else None
  {
  }

  lemma FirstSetNone(m: TickmapSlice, lo: int, hi: int)
    requires forall q :: lo <= q <= hi ==> !m.IsSet(q)
    ensures FirstSet(m, lo, hi) == None
  {
  }

  /** Skip clear bits from `start` down, moving a one-bit mask. */
  method SkipClearDown(v: Byte, start: nat) returns (bit: nat)
    requires start < 8 && exists k :: 0 <= k <= start && Bit(v, k)
    ensures bit <= start && Bit(v, bit)
    ensures forall k :: bit < k <= start ==> !Bit(v, k)
  {
    hide Bit, And;
    bit := start;
    var mask := Pow2(bit);
    AndMask(v, bit);
    while And(v, mask) == 0
      invariant bit <= start && mask == Pow2(bit)
      invariant And(v, mask) == 0 <==> !Bit(v, bit)
      invariant forall k :: bit < k <= start ==> !Bit(v, k)
      decreases bit
    {
      mask := mask / 2;
      bit := bit - 1;
      AndMask(v, bit);
    }
  }

  method PrevInitialized(bitmap: TickmapSlice, tick: int, spacing: Spacing) returns (r: Search)
    ensures r == PrevSearch(bitmap, tick, spacing)
  {
    hide Position, LimitPosition, GetSearchLimit, Cell, Bit, Shr, TickAt, TickToPosition, TickmapSlice.IsSet;
    var limit := GetSearchLimit(tick, spacing, false);
    if tick % spacing == 0 {
      SearchEnds(tick, spacing, false);
    }
    var from := TickToPosition(tick, spacing);
    var to := TickToPosition(limit, spacing);
    if from.None? || to.None? {
      return Panic;
    }
    r := SearchDown(bitmap, from.value.0, from.value.1, to.value.0, to.value.1, spacing);
  }

  /** The downward search between two bits. */
  method SearchDown(bitmap: TickmapSlice, fromByte: nat, fromBit: nat, limitingByte: nat, limitingBit: nat,
                    spacing: Spacing) returns (r: Search)
    requires fromBit < 8 && limitingBit < 8
    ensures var lo, hi := limitingByte * 8 + limitingBit, fromByte * 8 + fromBit;
            r == if PanicsDown(bitmap, lo, hi) then Panic else Answer(ToTick(LastSet(bitmap, lo, hi), spacing))
  {
    hide Bit, Shr, TickAt, TickmapSlice.IsSet;
    var byte: nat, bit: nat := fromByte, fromBit;
    ghost var start, end := byte * 8 + bit, limitingByte * 8 + limitingBit;
    while byte > limitingByte || (byte == limitingByte && bit >= limitingBit)
      invariant bit < 8 && byte * 8 + bit <= start && (byte * 8 + bit == start || bit == 7)
      invariant forall p :: byte * 8 + bit < p <= start ==> !bitmap.IsSet(p)
      invariant forall b :: byte < b <= start / 8 ==> bitmap.HasByte(b)
      decreases byte
    {
      if !bitmap.HasByte(byte) {
        return Panic;
      }
      var mask := Pow2(bit);
      var v := bitmap.At(byte);
      LowBits(v, bit);
      if v % (2 * mask) > 0 {
        var found := SkipClearDown(v, bit);
        ClearDownInByte(bitmap, byte, found, bit);
        LastSetIs(bitmap, end, start, byte * 8 + found);
        if byte > limitingByte || (byte == limitingByte && found >= limitingBit) {
          return Answer(Some(TickAt(byte * 8 + found, spacing)));
        }
        return Answer(None);
      }
      ClearBelow(bitmap, byte, bit);
      if byte == 0 {
        LastSetNone(bitmap, end, start);
        return Answer(None);
      }
      byte := byte - 1;
      bit := 7;
    }
    r := Answer(None);
    LastSetNone(bitmap, end, start);
  }

  lemma ClearDownInByte(m: TickmapSlice, byte: nat, to: nat, from: nat)
    requires m.HasByte(byte) && to <= from < 8
    requires forall k :: to < k <= from ==> !Bit(m.At(byte), k)
    ensures forall p :: byte * 8 + to < p <= byte * 8 + from ==> !m.IsSet(p)
    ensures Bit(m.At(byte), to) ==> m.IsSet(byte * 8 + to)
  {
    hide Bit;
  }

  lemma ClearBelow(m: TickmapSlice, byte: nat, bit: nat)
    requires m.HasByte(byte) && bit < 8
    requires !exists k :: 0 <= k <= bit && Bit(m.At(byte), k)
    ensures forall p :: byte * 8 <= p <= byte * 8 + bit ==> !m.IsSet(p)
  {
    hide Bit;
  }

  lemma LastSetIs(m: TickmapSlice, lo: int, hi: int, p: int)
    requires p <= hi && m.IsSet(p) && forall q :: p < q <= hi ==> !m.IsSet(q)
    ensures LastSet(m, lo, hi) == if lo <= p then Some(p) else None
  {
  }

  lemma LastSetNone(m: TickmapSlice, lo: int, hi: int)
    requires forall q :: lo <= q <= hi ==> !m.IsSet(q)
    ensures LastSet(m, lo, hi) == None
  {
  }

  /** The upward search in terms of ticks: the least initialized tick in (tick, limit], and None
      exactly when there is none. */
  lemma NextTickMeaning(m: TickmapSlice, tick: int, spacing: Spacing, t: int)
    requires OnGrid(tick, spacing) && t % spacing == 0
    ensures NextTick(m, tick, spacing) == Some(t) <==>
            && tick < t <= GetSearchLimit(tick, spacing, true) && m.IsSet(Position(t, spacing))
            && forall u: int :: tick < u < t && u % spacing == 0 ==> !m.IsSet(Position(u, spacing))
    ensures NextTick(m, tick, spacing).None? && tick < t <= GetSearchLimit(tick, spacing, true) ==>
              !m.IsSet(Position(t, spacing))
  {
    hide TruncDiv, LimitPosition, TickAt;
    var p, q, l := Position(tick, spacing), Position(t, spacing), LimitPosition(tick, spacing, true);
    TickPosition(l, spacing);
    TickOrder(tick, t, spacing);
    TickOrder(t, TickAt(l, spacing), spacing);
    var first := FirstSet(m, p + 1, l);
    if first.Some? {
      TickPosition(first.value, spacing);
      PositionTick(t, spacing);
      forall u: int | tick < u < TickAt(first.value, spacing) && u % spacing == 0
        ensures !m.IsSet(Position(u, spacing))
      {
        TickOrder(tick, u, spacing);
        TickOrder(u, TickAt(first.value, spacing), spacing);
      }
      TickOrder(t, TickAt(first.value, spacing), spacing);
      TickOrder(tick, TickAt(first.value, spacing), spacing);
      TickOrder(TickAt(first.value, spacing), TickAt(l, spacing), spacing);
    }
  }

  /** On aligned ticks, positions are ordered like ticks. */
  lemma TickOrder(a: int, b: int, spacing: Spacing)
    requires a % spacing == 0 && b % spacing == 0
    ensures a < b <==> Position(a, spacing) < Position(b, spacing)
    ensures a == b <==> Position(a, spacing) == Position(b, spacing)
  {
    hide TruncDiv, TickAt;
    var p, q := Position(a, spacing), Position(b, spacing);
    PositionTick(a, spacing);
    PositionTick(b, spacing);
    if p < q {
      TickAtIncreasing(p, q, spacing);
    } else if q < p {
      TickAtIncreasing(q, p, spacing);
    }
  }

  /** The downward search in terms of ticks: the greatest initialized tick in [limit, tick], and
      None exactly when there is none. */
  lemma PrevTickMeaning(m: TickmapSlice, tick: int, spacing: Spacing, t: int)
    requires OnGrid(tick, spacing) && t % spacing == 0
    ensures PrevTick(m, tick, spacing) == Some(t) <==>
            && GetSearchLimit(tick, spacing, false) <= t <= tick && m.IsSet(Position(t, spacing))
            && forall u: int :: t < u <= tick && u % spacing == 0 ==> !m.IsSet(Position(u, spacing))
    ensures PrevTick(m, tick, spacing).None? && GetSearchLimit(tick, spacing, false) <= t <= tick ==>
              !m.IsSet(Position(t, spacing))
  {
    hide TruncDiv, LimitPosition, TickAt;
    var p, q, l := Position(tick, spacing), Position(t, spacing), LimitPosition(tick, spacing, false);
    TickPosition(l, spacing);
    TickOrder(t, tick, spacing);
    TickOrder(TickAt(l, spacing), t, spacing);
    var last := LastSet(m, l, p);
    if last.Some? {
      TickPosition(last.value, spacing);
      PositionTick(t, spacing);
      forall u: int | TickAt(last.value, spacing) < u <= tick && u % spacing == 0
        ensures !m.IsSet(Position(u, spacing))
      {
        TickOrder(u, tick, spacing);
        TickOrder(TickAt(last.value, spacing), u, spacing);
      }
      TickOrder(TickAt(last.value, spacing), t, spacing);
      TickOrder(TickAt(last.value, spacing), tick, spacing);
      TickOrder(TickAt(l, spacing), TickAt(last.value, spacing), spacing);
    }
  }

  // ---- Reading and flipping one tick ----

  class TickmapView {
    var bitmap: TickmapSlice

    constructor (bitmap: TickmapSlice)
      ensures this.bitmap == bitmap
    {
      this.bitmap := bitmap;
    }

    /** Whether the tick is initialized. */
    method Get(tick: int, spacing: Spacing) returns (r: bool)
      requires OnGrid(tick, spacing) && bitmap.HasByte(Position(tick, spacing) / 8)
      ensures r == bitmap.IsSet(Position(tick, spacing))
    {
      var (byte, bit) := TickToPosition(tick, spacing).value;
      r := Shr(bitmap.At(byte), bit) % 2 == 1;
    }

    /** Set or clear a tick, which must not have the value already: this tick changes, no other. */
    method Flip(value: bool, tick: int, spacing: Spacing)
      requires OnGrid(tick, spacing) && bitmap.HasByte(Position(tick, spacing) / 8)
      requires bitmap.IsSet(Position(tick, spacing)) != value
      modifies this
      ensures bitmap.offset == old(bitmap.offset) && |bitmap.data| == |old(bitmap.data)|
      ensures forall p :: bitmap.IsSet(p) == if p == Position(tick, spacing) then value else old(bitmap.IsSet(p))
    {
      hide Bit, Xor, TruncDiv;
      var (byte, bit) := TickToPosition(tick, spacing).value;
      var v := bitmap.At(byte);
      ByteXor(v, bit);
      bitmap := bitmap.(data := bitmap.data[byte - bitmap.offset := Xor(v, Pow2(bit))]);
      forall p
        ensures bitmap.IsSet(p) == if p == Position(tick, spacing) then value else old(bitmap.IsSet(p))
      {
        if p >= 0 && p / 8 == byte {
          XorFlips(v, bit, p % 8);
        }
      }
    }
  }

  lemma ByteXor(v: Byte, bit: nat)
    requires bit < 8
    ensures Xor(v, Pow2(bit)) < 256
  {
    assert Pow2(8) == 256;
    Pow2Add(bit, 8 - bit);
    assert Pow2(8 - bit) == 2 * Pow2(7 - bit);
    MulLeft(Pow2(bit), 2, Pow2(8 - bit));
    XorBound(v, Pow2(bit), 8);
  }

  // ---- Cutting the window ----

  /** First byte of the window: it reaches far ahead in the direction of the swap. */
  function WindowStart(currentTickIndex: int, spacing: Spacing, xToY: bool): (r: nat)
    ensures r <= BITMAP_BYTES - SLICE_SIZE
  {
    var offset := if xToY then TICK_SEARCH_RANGE - SLICE_SIZE * 8 - 8 else -TICK_SEARCH_RANGE + 8;
    Min(Max(TruncDiv(TruncDiv(currentTickIndex, spacing) + TICK_LIMIT + offset, 8), 0),
        (TICKMAP_SIZE + 1) / 8 - SLICE_SIZE)
  }

  /** Copy the window out of the account's bitmap; bytes beyond a short account stay zero. */
  method FromSlice(tickmapData: seq<Byte>, currentTickIndex: int, spacing: Spacing,
                   xToY: bool) returns (r: TickmapSlice)
    requires WindowStart(currentTickIndex, spacing, xToY) <= |tickmapData|
    ensures r.offset == WindowStart(currentTickIndex, spacing, xToY) && |r.data| == SLICE_SIZE == 482
    ensures forall p :: r.HasByte(p / 8) ==> (r.IsSet(p) <==> TickmapSlice(tickmapData, 0).IsSet(p))
  {
    hide WindowStart, Bit;
    var startIndex := WindowStart(currentTickIndex, spacing, xToY);
    var endIndex := Min(startIndex + SLICE_SIZE, |tickmapData|);
    var data := new Byte[SLICE_SIZE](_ => 0);
    var i := 0;
    while i < endIndex - startIndex
      invariant 0 <= i <= endIndex - startIndex
      invariant forall j :: 0 <= j < i ==> data[j] == tickmapData[startIndex + j]
      invariant forall j :: i <= j < SLICE_SIZE ==> data[j] == 0
    {
      data[i] := tickmapData[startIndex + i];
      i := i + 1;
    }
    r := TickmapSlice(data[..], startIndex);
    forall p | r.HasByte(p / 8)
      ensures r.IsSet(p) <==> TickmapSlice(tickmapData, 0).IsSet(p)
    {
      if p >= 0 && p / 8 >= endIndex {
        ZeroHasNoBits(p % 8);
      }
    }
  }

  lemma ZeroHasNoBits(k: nat)
    ensures !Bit(0, k)
  {
    assert Shr(0, 0) == 0;
    ShiftedOut(0, 0, k);
  }

  /** `w` is a window of `whole`: same bits wherever `w` has the byte. */
  ghost predicate WindowOf(w: TickmapSlice, whole: TickmapSlice)
  {
    forall p :: w.HasByte(p / 8) ==> (w.IsSet(p) <==> whole.IsSet(p))
  }

  /** A search that does not panic gives the same answer as on the whole bitmap. */
  lemma SearchesAgree(w: TickmapSlice, whole: TickmapSlice, tick: int, spacing: Spacing)
    requires WindowOf(w, whole)
    ensures !SearchPanics(w, tick, spacing, false) ==> NextTick(w, tick, spacing) == NextTick(whole, tick, spacing)
    ensures !SearchPanics(w, tick, spacing, true) ==> PrevTick(w, tick, spacing) == PrevTick(whole, tick, spacing)
  {
    hide Position, LimitFrom, TickAt, TickmapSlice.IsSet, PanicsUp, PanicsDown;
    var p := Position(tick, spacing);
    var hi, lo := LimitPosition(tick, spacing, true), LimitPosition(tick, spacing, false);
    if !SearchPanics(w, tick, spacing, false) {
      ScansAgreeUp(w, whole, p + 1, hi);
    }
    if !SearchPanics(w, tick, spacing, true) {
      ScansAgreeDown(w, whole, lo, p);
    }
  }

  lemma ScansAgreeUp(w: TickmapSlice, whole: TickmapSlice, lo: int, hi: int)
    requires WindowOf(w, whole) && !PanicsUp(w, lo, hi)
    ensures FirstSet(w, lo, hi) == FirstSet(whole, lo, hi)
  {
    hide Bit;
    var f := FirstSet(w, lo, hi);
    var last := if f.Some? then f.value else hi;
    forall p | lo <= p <= last ensures w.HasByte(p / 8) {
      var b := p / 8;
      assert w.HasByte(b) || exists q :: lo <= q < 8 * b && w.IsSet(q);
    }
    if f.Some? { FirstSetIs(whole, lo, hi, f.value); } else { FirstSetNone(whole, lo, hi); }
  }

  lemma ScansAgreeDown(w: TickmapSlice, whole: TickmapSlice, lo: int, hi: int)
    requires WindowOf(w, whole) && !PanicsDown(w, lo, hi)
    ensures LastSet(w, lo, hi) == LastSet(whole, lo, hi)
  {
    hide Bit;
    var l := LastSet(w, lo, hi);
    var last := if l.Some? then l.value else lo;
    forall p | last <= p <= hi ensures w.HasByte(p / 8) {
      var b := p / 8;
      assert w.HasByte(b) || exists q :: 8 * b + 8 <= q <= hi && w.IsSet(q);
    }
    if l.Some? { LastSetIs(whole, lo, hi, l.value); } else { LastSetNone(whole, lo, hi); }
  }

  // ---- Chains of searches ----

  /** What a swap's position may do between two searches: move in swap direction by at most the
      search range, and one further after a downward crossing. */
  ghost predicate Chain(positions: seq<int>, xToY: bool)
  {
    forall i :: 0 <= i < |positions| - 1 ==>
      if xToY then positions[i] - 257 <= positions[i + 1] <= positions[i]
      else positions[i] <= positions[i + 1] <= positions[i] + 256
  }

  lemma {:induction false} ChainReach(positions: seq<int>, xToY: bool, k: nat)
    requires Chain(positions, xToY) && k < |positions|
    ensures xToY ==> positions[0] - 257 * k <= positions[k] <= positions[0]
    ensures !xToY ==> positions[0] <= positions[k] <= positions[0] + 256 * k
  {
    if k > 0 {
      ChainReach(positions, xToY, k - 1);
      var j := k - 1;
      assert if xToY then positions[j] - 257 <= positions[j + 1] <= positions[j]
             else positions[j] <= positions[j + 1] <= positions[j] + 256;
    }
  }

  /** Every byte a search from `tick` may read is in the window. */
  predicate SearchCovered(w: TickmapSlice, tick: int, spacing: Spacing, xToY: bool)
  {
    if xToY then w.Covers(LimitPosition(tick, spacing, false), Position(tick, spacing))
    else w.Covers(Position(tick, spacing) + 1, LimitPosition(tick, spacing, true))
  }

  lemma CoveredSearch(w: TickmapSlice, tick: int, spacing: Spacing, xToY: bool)
    requires SearchCovered(w, tick, spacing, xToY)
    ensures !SearchPanics(w, tick, spacing, xToY)
  {
    hide Position, LimitFrom, TickmapSlice.IsSet;
  }

  /** Up to fourteen searches in a row, starting at the tick the window was cut for, never read
      outside it. */
  lemma ChainInWindow(w: TickmapSlice, currentTick: int, spacing: Spacing, xToY: bool, ticks: seq<int>, k: nat)
    requires OnGrid(currentTick, spacing)
    requires |w.data| == SLICE_SIZE && w.offset == WindowStart(currentTick, spacing, xToY)
    requires k < |ticks| <= TICK_CROSSES_PER_IX + MAX_VIRTUAL_CROSS
    requires ticks[0] == currentTick && (forall i :: 0 <= i < |ticks| ==> OnGrid(ticks[i], spacing))
    requires Chain(seq(|ticks|, i requires 0 <= i < |ticks| => Position(ticks[i], spacing)), xToY)
    ensures SearchCovered(w, ticks[k], spacing, xToY)
  {
    hide LimitPosition, OnGrid;
    ChainReach(seq(|ticks|, i requires 0 <= i < |ticks| => Position(ticks[i], spacing)), xToY, k);
    NearInWindow(w, currentTick, spacing, xToY, ticks[k]);
  }

  lemma NearInWindow(w: TickmapSlice, currentTick: int, spacing: Spacing, xToY: bool, tick: int)
    requires OnGrid(currentTick, spacing) && OnGrid(tick, spacing)
    requires |w.data| == SLICE_SIZE && w.offset == WindowStart(currentTick, spacing, xToY)
    requires var p, q := Position(currentTick, spacing), Position(tick, spacing);
             if xToY then p - 257 * 13 <= q <= p else p <= q <= p + 256 * 13
    ensures SearchCovered(w, tick, spacing, xToY)
  {
    hide LimitPosition, TruncDiv;
    LimitInBitmap(tick, spacing, !xToY);
    var p := Position(currentTick, spacing);
    WindowBounds(currentTick, spacing, xToY);
  }

  lemma WindowBounds(currentTick: int, spacing: Spacing, xToY: bool)
    requires OnGrid(currentTick, spacing)
    ensures var p, start := Position(currentTick, spacing), WindowStart(currentTick, spacing, xToY);
            if xToY then 8 * start <= Max(p - 3608, 0) && p < 8 * (start + SLICE_SIZE)
            else 8 * start <= p && Min(p + 3600, TICKMAP_SIZE) < 8 * (start + SLICE_SIZE)
  {
    var a := TruncDiv(currentTick, spacing);
    assert Position(currentTick, spacing) == a + TICK_LIMIT;
    hide TruncDiv;
    WindowStartIs(a, spacing, currentTick, xToY);
  }

  lemma WindowStartIs(a: int, spacing: Spacing, currentTick: int, xToY: bool)
    requires a == TruncDiv(currentTick, spacing)
    ensures var x := a + TICK_LIMIT + (if xToY then -3608 else -248);
            WindowStart(currentTick, spacing, xToY) == Min(if x >= 0 then x / 8 else 0, 10609)
  {
    var x := a + TICK_LIMIT + (if xToY then -3608 else -248);
    assert x < 0 ==> TruncDiv(x, 8) <= 0;
  }
}
