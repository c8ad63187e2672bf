/** The cache of discovered paths (PathDiscoveryCache in routing.rs). The clock is a parameter. */
module PathCache {
  import opened Common
  import opened Powers

  const EXACT_BELOW: nat := 0x20_0000_0000_0000

  datatype CacheKey = CacheKey(from: nat, to: nat, swapMode: SwapMode)

  type Edges = seq<seq<nat>>

  /** `inAmount` is a floating-point value; only whole ones occur. */
  datatype Entry = Entry(timestampMillis: nat, inAmount: nat, maxAccount: nat, edges: Edges)

  // ---- Amounts as floating-point numbers ----

  /** Nearest double to a 64-bit integer, ties to even: exact below 2^53, above it a multiple of
      the unit `u` of the last of its 53 bits. */
  function ToF64(n: nat): nat
  {
    if n < EXACT_BELOW then n else RoundTo(n, UnitOf(n, 2))
  }

  function UnitOf(n: nat, u: nat): (r: nat)
    requires u > 0
    ensures r > 0
    decreases n - EXACT_BELOW * u
  {
    if n < EXACT_BELOW * u then u else UnitOf(n, 2 * u)
  }

  function RoundTo(n: nat, u: nat): nat
    requires u > 0
  {
    var q, r := n / u, n % u;
    DivNonnegative(n, u);
    if 2 * r > u || (2 * r == u && q % 2 == 1) then (q + 1) * u else q * u
  }

  /** The saturating cast back. */
  function FromF64(x: nat): nat
  {
    if x < U64 then x else U64 - 1
  }

  /** The conversion in plain terms: exact below 2^53; otherwise the nearest multiple of the power of two that
      leaves 53 bits, and of two equally near the even one. */
  lemma ToF64Means(n: nat)
    ensures n < 9007199254740992 ==> ToF64(n) == n
    ensures n >= 9007199254740992 ==> exists k: nat :: IsNearest(n, Pow2(k), ToF64(n))
  {
    hide UnitOf, RoundTo, Pow2;
    if n >= EXACT_BELOW {
      assert Pow2(1) == 2 by { PowersOfTwo(); }
      var k := UnitIsPower(n, 1);
      RoundedNearest(n, Pow2(k));
    }
  }

  ghost predicate IsNearest(n: nat, u: nat, r: nat)
  {
    && u > 0 && 4503599627370496 * u <= n < 9007199254740992 * u
    && exists q: nat :: r == q * u && NoFarther(n, u, q, r)
  }

  /** The `q`-th multiple of the unit is within half of it, and even if at exactly half. */
  ghost predicate NoFarther(n: int, u: int, q: int, r: int)
  {
    -u <= 2 * (r - n) <= u && (2 * (r - n) == u || 2 * (n - r) == u ==> q % 2 == 0)
  }

  lemma PowersOfTwo()
    ensures Pow2(1) == 2
  {
    assert Pow2(0) == 1;
  }

  lemma {:induction false} UnitIsPower(n: nat, k: nat) returns (m: nat)
    requires 4503599627370496 * Pow2(k) <= n
    ensures UnitOf(n, Pow2(k)) == Pow2(m) && 4503599627370496 * Pow2(m) <= n < 9007199254740992 * Pow2(m)
    decreases n - EXACT_BELOW * Pow2(k)
  {
    assert Pow2(k + 1) == 2 * Pow2(k);
    if n < EXACT_BELOW * Pow2(k) {
      m := k;
    } else {
      m := UnitIsPower(n, k + 1);
    }
  }

  lemma RoundedNearest(n: nat, u: nat)
    requires u > 0 && 4503599627370496 * u <= n < 9007199254740992 * u
    ensures IsNearest(n, u, RoundTo(n, u))
  {
    var q, r := n / u, n % u;
    DivNonnegative(n, u);
    DivBounds(n, u);
    var m := q * u;
    assert n == m + r && 0 <= r < u;
    assert (q + 1) * u == m + u;
    if 2 * r > u || (2 * r == u && q % 2 == 1) {
      assert RoundTo(n, u) == (q + 1) * u && NoFarther(n, u, q + 1, m + u);
    } else {
      assert RoundTo(n, u) == q * u && NoFarther(n, u, q, m);
    }
  }

  /** An amount that survives the conversion. */
  predicate Representable(n: nat)
  {
    FromF64(ToF64(n)) == n
  }

  // ---- Sorted vectors ----

  function KeyOf(e: Entry): (nat, nat) { (FromF64(e.inAmount), e.maxAccount) }

  predicate KeyLess(a: (nat, nat), b: (nat, nat))
  {
    a.0 < b.0 || (a.0 == b.0 && a.1 < b.1)
  }

  ghost predicate StrictlySorted(v: seq<Entry>)
  {
    forall i, j :: 0 <= i < j < |v| ==> KeyLess(KeyOf(v[i]), KeyOf(v[j]))
  }

  /** First position whose key is not below `key`. */
  ghost predicate IsInsertionPoint(v: seq<Entry>, key: (nat, nat), pos: nat)
  {
    && pos <= |v|
    && (forall i :: 0 <= i < pos ==> KeyLess(KeyOf(v[i]), key))
    && (forall i :: pos <= i < |v| ==> !KeyLess(KeyOf(v[i]), key))
  }

  /** The point where a key belongs; some position of a vector that is not sorted. */
  method BinarySearch(v: seq<Entry>, key: (nat, nat)) returns (pos: nat)
    ensures pos <= |v| && (StrictlySorted(v) ==> IsInsertionPoint(v, key, pos))
  {
    var lo, hi := 0, |v|;
    while lo < hi
      invariant 0 <= lo <= hi <= |v|
      invariant StrictlySorted(v) ==> forall i :: 0 <= i < lo ==> KeyLess(KeyOf(v[i]), key)
      invariant StrictlySorted(v) ==> forall i :: hi <= i < |v| ==> !KeyLess(KeyOf(v[i]), key)
    {
      var mid := (lo + hi) / 2;
      if KeyLess(KeyOf(v[mid]), key) {
        lo := mid + 1;
      } else {
        hi := mid;
      }
    }
    pos := lo;
  }

  /** The vector after inserting at the point found for `key`: an entry with that key is replaced. */
  function InsertAt(v: seq<Entry>, pos: nat, key: (nat, nat), e: Entry): seq<Entry>
    requires pos <= |v|
  {
    if pos < |v| && KeyOf(v[pos]) == key then v[pos := e] else v[..pos] + [e] + v[pos..]
  }

  /** The abstract map: amount and account bucket to entry. */
  ghost function Content(v: seq<Entry>): map<(nat, nat), Entry>
  {
    if v == [] then map[] else Content(v[..|v| - 1])[KeyOf(v[|v| - 1]) := v[|v| - 1]]
  }

  lemma {:induction false} ContentMeaning(v: seq<Entry>)
    requires StrictlySorted(v)
    ensures forall k :: k in Content(v) ==> Content(v)[k] in v && KeyOf(Content(v)[k]) == k
    ensures forall x :: x in v ==> KeyOf(x) in Content(v) && Content(v)[KeyOf(x)] == x
  {
    if v != [] {
      var init, last := v[..|v| - 1], v[|v| - 1];
      ContentMeaning(init);
      assert v == init + [last];
      forall i | 0 <= i < |init| ensures KeyOf(init[i]) != KeyOf(last) {
        assert KeyLess(KeyOf(v[i]), KeyOf(v[|v| - 1]));
      }
    }
  }

  // ---- The same in plain terms ----

  /** The entry comes before an amount and an account bucket: by its amount, cast to 64 bits, then by its bucket. */
  ghost predicate Before(e: Entry, amount: nat, bucket: nat)
  {
    var a := if e.inAmount < 18446744073709551616 then e.inAmount else 18446744073709551615;
    a < amount || (a == amount && e.maxAccount < bucket)
  }

  /** The entry is the one for an amount and a bucket. */
  ghost predicate IsFor(e: Entry, amount: nat, bucket: nat)
  {
    && (if e.inAmount < 18446744073709551616 then e.inAmount else 18446744073709551615) == amount
    && e.maxAccount == bucket
  }

  lemma KeysMean(e: Entry, amount: nat, bucket: nat)
    ensures KeyLess(KeyOf(e), (amount, bucket)) <==> Before(e, amount, bucket)
    ensures KeyOf(e) == (amount, bucket) <==> IsFor(e, amount, bucket)
  {
  }

  lemma SortedMeans(v: seq<Entry>)
    ensures StrictlySorted(v) <==>
            forall i, j :: 0 <= i < j < |v| ==>
              Before(v[i], if v[j].inAmount < 18446744073709551616 then v[j].inAmount else 18446744073709551615,
                     v[j].maxAccount)
  {
    forall i, j | 0 <= i < j < |v|
      ensures KeyLess(KeyOf(v[i]), KeyOf(v[j])) <==>
              Before(v[i], if v[j].inAmount < 18446744073709551616 then v[j].inAmount else 18446744073709551615,
                     v[j].maxAccount)
    {
    }
  }

  /** The entry was put in at a position: instead of the one that is for this amount and bucket, or else
      between its neighbours. */
  ghost predicate PutAt(v: seq<Entry>, pos: nat, amount: nat, bucket: nat, e: Entry, r: seq<Entry>)
  {
    && pos <= |v|
    && r == if pos < |v| && IsFor(v[pos], amount, bucket) then v[pos := e] else v[..pos] + [e] + v[pos..]
  }

  /** The position divides the entries that come before from those that do not. */
  ghost predicate Divides(v: seq<Entry>, pos: nat, amount: nat, bucket: nat)
  {
    forall i :: 0 <= i < |v| ==> (Before(v[i], amount, bucket) <==> i < pos)
  }

  /** The entries at these positions, in order, are what is left. */
  ghost predicate Chosen(v: seq<Entry>, r: seq<Entry>, at: seq<nat>)
  {
    && |r| == |at|
    && (forall j, k :: 0 <= j < k < |at| ==> at[j] < at[k])
    && (forall j :: 0 <= j < |at| ==> at[j] < |v| && r[j] == v[at[j]])
  }

  /** What is left are the entries younger than the maximum age, or from the future. */
  ghost predicate KeepsYoung(v: seq<Entry>, r: seq<Entry>, now: nat, maxAgeMillis: nat)
  {
    exists at: seq<nat> :: Chosen(v, r, at) && forall i :: 0 <= i < |v| ==>
      (i in at <==> (v[i].timestampMillis > now || now < v[i].timestampMillis + maxAgeMillis))
  }

  /** What is left are the entries of the other buckets. */
  ghost predicate DropsBucket(v: seq<Entry>, r: seq<Entry>, bucket: nat)
  {
    exists at: seq<nat> :: Chosen(v, r, at) && forall i :: 0 <= i < |v| ==> (i in at <==> v[i].maxAccount != bucket)
  }

  lemma {:induction false} RetainChosen(v: seq<Entry>, keep: Entry -> bool) returns (at: seq<nat>)
    ensures Chosen(v, Retain(v, keep), at)
    ensures forall i :: 0 <= i < |v| ==> (i in at <==> keep(v[i]))
  {
    hide Chosen;
    if v == [] {
      assert Chosen([], [], []) by { NoneChosen(); }
      at := [];
    } else {
      var n := |v| - 1;
      at := RetainChosen(v[..n], keep);
      ChosenStep(v, Retain(v[..n], keep), at);
      if keep(v[n]) {
        at := at + [n];
        assert Retain(v, keep) == Retain(v[..n], keep) + [v[n]];
      } else {
        assert Retain(v, keep) == Retain(v[..n], keep);
      }
    }
  }

  lemma NoneChosen()
    ensures Chosen([], [], [])
  {
  }

  lemma ChosenStep(v: seq<Entry>, r: seq<Entry>, at: seq<nat>)
    requires v != [] && Chosen(v[..|v| - 1], r, at)
    ensures Chosen(v, r, at) && Chosen(v, r + [v[|v| - 1]], at + [|v| - 1])
    ensures |v| - 1 !in at
  {
    var n := |v| - 1;
    assert forall j :: 0 <= j < |at| ==> at[j] < n && r[j] == v[..n][at[j]];
  }

  lemma OnlyFreshMeans(v: seq<Entry>, now: nat, maxAgeMillis: nat)
    ensures KeepsYoung(v, OnlyFresh(v, now, maxAgeMillis), now, maxAgeMillis)
  {
    hide Retain, Chosen;
    var at := RetainChosen(v, e => Fresh(e, now, maxAgeMillis));
  }

  lemma OnlyOthersMeans(v: seq<Entry>, bucket: nat)
    ensures DropsBucket(v, OnlyOthers(v, bucket), bucket)
  {
    hide Retain, Chosen;
    var at := RetainChosen(v, (e: Entry) => e.maxAccount != bucket);
  }

  lemma InsertAtMeans(v: seq<Entry>, pos: nat, amount: nat, bucket: nat, e: Entry)
    requires pos <= |v|
    ensures PutAt(v, pos, amount, bucket, e, InsertAt(v, pos, (amount, bucket), e))
    ensures IsInsertionPoint(v, (amount, bucket), pos) ==> Divides(v, pos, amount, bucket)
  {
    forall x: Entry | x in v
      ensures KeyLess(KeyOf(x), (amount, bucket)) <==> Before(x, amount, bucket)
      ensures KeyOf(x) == (amount, bucket) <==> IsFor(x, amount, bucket)
    {
      KeysMean(x, amount, bucket);
    }
  }

  // ---- Insertion ----

  /** An entry is looked for under the amount itself and stored under the amount converted to
      floating point. All entries but the one it replaces are on the same side of both keys. */
  ghost predicate SameSide(v: seq<Entry>, key: (nat, nat), stored: (nat, nat))
  {
    forall i :: 0 <= i < |v| && KeyOf(v[i]) != key ==>
      if KeyLess(KeyOf(v[i]), key) then KeyLess(KeyOf(v[i]), stored) else KeyLess(stored, KeyOf(v[i]))
  }

  lemma SameKeySameSide(v: seq<Entry>, key: (nat, nat))
    ensures SameSide(v, key, key)
  {
  }

  /** Inserting keeps the order if and only if no entry lies between the two keys, and then it
      moves what was under the one to the other. */
  lemma InsertSortedIff(v: seq<Entry>, pos: nat, key: (nat, nat), e: Entry)
    requires StrictlySorted(v) && IsInsertionPoint(v, key, pos)
    ensures StrictlySorted(InsertAt(v, pos, key, e)) <==> SameSide(v, key, KeyOf(e))
    ensures SameSide(v, key, KeyOf(e)) ==> Content(InsertAt(v, pos, key, e)) == (Content(v) - {key})[KeyOf(e) := e]
  {
    var r := InsertAt(v, pos, key, e);
    InsertPlaces(v, pos, key, e);
    if SameSide(v, key, KeyOf(e)) {
      InsertOrder(v, pos, key, e);
      InsertMembers(v, pos, key, e);
      MapsAgree(v, r, key, e);
    } else {
      OrderBroken(v, pos, key, e);
    }
  }

  /** Where the entries are after an insertion. */
  lemma InsertPlaces(v: seq<Entry>, pos: nat, key: (nat, nat), e: Entry)
    requires StrictlySorted(v) && IsInsertionPoint(v, key, pos)
    ensures var r, replaced := InsertAt(v, pos, key, e), pos < |v| && KeyOf(v[pos]) == key;
            && pos < |r| == (if replaced then |v| else |v| + 1) && r[pos] == e
            && (forall i :: 0 <= i < pos ==> r[i] == v[i])
            && (forall i :: pos < i < |r| ==> r[i] == v[if replaced then i else i - 1])
  {
  }

  lemma InsertOrder(v: seq<Entry>, pos: nat, key: (nat, nat), e: Entry)
    requires StrictlySorted(v) && IsInsertionPoint(v, key, pos) && SameSide(v, key, KeyOf(e))
    ensures StrictlySorted(InsertAt(v, pos, key, e))
  {
    hide InsertAt, KeyOf;
    InsertPlaces(v, pos, key, e);
  }

  lemma OrderBroken(v: seq<Entry>, pos: nat, key: (nat, nat), e: Entry)
    requires StrictlySorted(v) && IsInsertionPoint(v, key, pos) && !SameSide(v, key, KeyOf(e))
    ensures !StrictlySorted(InsertAt(v, pos, key, e))
  {
    hide InsertAt, KeyOf;
    InsertPlaces(v, pos, key, e);
    var r := InsertAt(v, pos, key, e);
    var i :| 0 <= i < |v| && KeyOf(v[i]) != key
             && !(if KeyLess(KeyOf(v[i]), key) then KeyLess(KeyOf(v[i]), KeyOf(e)) else KeyLess(KeyOf(e), KeyOf(v[i])));
    if KeyLess(KeyOf(v[i]), key) {
      assert i < pos && r[i] == v[i];
    } else {
      var j := if pos < |v| && KeyOf(v[pos]) == key then i else i + 1;
      assert pos < j && r[j] == v[i];
    }
  }

  lemma InsertMembers(v: seq<Entry>, pos: nat, key: (nat, nat), e: Entry)
    requires StrictlySorted(v) && IsInsertionPoint(v, key, pos) && SameSide(v, key, KeyOf(e))
    ensures var r := InsertAt(v, pos, key, e);
            forall x :: x in r <==> x == e || (x in v && KeyOf(x) != key)
  {
    var r := InsertAt(v, pos, key, e);
    if pos < |v| && KeyOf(v[pos]) == key {
      assert r[pos] == e;
      assert forall i :: 0 <= i < |v| && i != pos ==> r[i] == v[i];
    } else {
      assert r[pos] == e;
      assert v == v[..pos] + v[pos..];
    }
  }

  lemma MapsAgree(v: seq<Entry>, r: seq<Entry>, key: (nat, nat), e: Entry)
    requires StrictlySorted(v) && StrictlySorted(r)
    requires forall x :: x in r <==> x == e || (x in v && KeyOf(x) != key)
    ensures Content(r) == (Content(v) - {key})[KeyOf(e) := e]
  {
    hide Content, KeyOf;
    ContentMeaning(v);
    ContentMeaning(r);
    var c := (Content(v) - {key})[KeyOf(e) := e];
    forall k ensures k in Content(r) <==> k in c {
      if k in Content(r) {
        assert Content(r)[k] in r;
      }
    }
    forall k | k in c ensures Content(r)[k] == c[k] {
      assert c[k] in r;
    }
  }

  // ---- Non-representable amounts ----

  /** An amount that survives the conversion to floating point never disturbs the order; any other
      does when it is inserted a second time. */
  lemma ReinsertSortedIffRepresentable(v: seq<Entry>, amount: nat, pos: nat, e: Entry, again: nat, f: Entry)
    requires e.inAmount == f.inAmount == ToF64(amount) && e.maxAccount == f.maxAccount
    requires var key := (amount, e.maxAccount);
             && StrictlySorted(v) && IsInsertionPoint(v, key, pos)
             && StrictlySorted(InsertAt(v, pos, key, e)) && IsInsertionPoint(InsertAt(v, pos, key, e), key, again)
    ensures Representable(amount) ==> SameSide(v, (amount, e.maxAccount), KeyOf(e))
    ensures var key := (amount, e.maxAccount);
            StrictlySorted(InsertAt(InsertAt(v, pos, key, e), again, key, f)) <==> Representable(amount)
  {
    var key := (amount, e.maxAccount);
    var r := InsertAt(v, pos, key, e);
    InsertPlaces(v, pos, key, e);
    InsertSortedIff(v, pos, key, e);
    InsertSortedIff(r, again, key, f);
    hide ToF64, InsertAt;
    assert r[pos] == e && KeyOf(e) == KeyOf(f);
  }

  /** The least such amount. */
  lemma FirstNonRepresentable(amount: nat)
    ensures amount < EXACT_BELOW ==> Representable(amount)
    ensures !Representable(EXACT_BELOW + 1)
  {
  }

  // ---- The cache ----

  function AccountBucket(maxAccounts: nat): nat { maxAccounts / 5 }

  /** The entries that pass a test, in order. */
  function Retain(v: seq<Entry>, keep: Entry -> bool): (r: seq<Entry>)
    ensures |r| <= |v|
  {
    if v == [] then []
    else Retain(v[..|v| - 1], keep) + (if keep(v[|v| - 1]) then [v[|v| - 1]] else [])
  }

  lemma {:induction false} RetainSorted(v: seq<Entry>, keep: Entry -> bool)
    requires StrictlySorted(v)
    ensures StrictlySorted(Retain(v, keep))
    ensures forall x :: x in Retain(v, keep) <==> x in v && keep(x)
  {
    if v != [] {
      var init, last := v[..|v| - 1], v[|v| - 1];
      RetainSorted(init, keep);
      assert v == init + [last];
      var r := Retain(init, keep);
      forall i | 0 <= i < |r| ensures KeyLess(KeyOf(r[i]), KeyOf(last)) {
        assert r[i] in init;
        var j :| 0 <= j < |init| && init[j] == r[i];
        assert KeyLess(KeyOf(v[j]), KeyOf(v[|v| - 1]));
      }
    }
  }

  predicate Fresh(e: Entry, now: nat, maxAgeMillis: nat)
  {
    e.timestampMillis > now || now - e.timestampMillis < maxAgeMillis
  }

  /** The fresh part of a map, and the part outside a bucket. */
  ghost function FreshOnly(m: map<(nat, nat), Entry>, now: nat, maxAgeMillis: nat): map<(nat, nat), Entry>
  {
    map k | k in m && Fresh(m[k], now, maxAgeMillis) :: m[k]
  }

  ghost function WithoutBucket(m: map<(nat, nat), Entry>, bucket: nat): map<(nat, nat), Entry>
  {
    map k | k in m && m[k].maxAccount != bucket :: m[k]
  }

  lemma RetainContent(v: seq<Entry>, keep: Entry -> bool)
    requires StrictlySorted(v)
    ensures StrictlySorted(Retain(v, keep))
    ensures var m, r := Content(v), Content(Retain(v, keep));
            && (forall k :: k in r <==> k in m && keep(m[k]))
            && (forall k :: k in r ==> r[k] == m[k])
    ensures Elements(Retain(v, keep)) == Content(Retain(v, keep)).Values
  {
    hide Content, KeyOf;
    RetainSorted(v, keep);
    ContentMeaning(v);
    ContentMeaning(Retain(v, keep));
    var m, r := Content(v), Content(Retain(v, keep));
    forall k | k in r ensures k in m && keep(m[k]) && r[k] == m[k] {
      assert r[k] in v;
    }
    forall k | k in m && keep(m[k]) ensures k in r {
      assert m[k] in Retain(v, keep);
    }
  }

  function OnlyFresh(v: seq<Entry>, now: nat, maxAgeMillis: nat): seq<Entry>
  {
    Retain(v, e => Fresh(e, now, maxAgeMillis))
  }

  function OnlyOthers(v: seq<Entry>, bucket: nat): seq<Entry>
  {
    Retain(v, (e: Entry) => e.maxAccount != bucket)
  }

  lemma RetainFresh(v: seq<Entry>, now: nat, maxAgeMillis: nat)
    requires StrictlySorted(v)
    ensures var r := OnlyFresh(v, now, maxAgeMillis);
            && StrictlySorted(r) && Content(r) == FreshOnly(Content(v), now, maxAgeMillis)
            && Elements(r) == Content(r).Values
  {
    hide Content, StrictlySorted, Retain;
    RetainContent(v, e => Fresh(e, now, maxAgeMillis));
  }

  lemma RetainOthers(v: seq<Entry>, bucket: nat)
    requires StrictlySorted(v)
    ensures var r := OnlyOthers(v, bucket);
            StrictlySorted(r) && Content(r) == WithoutBucket(Content(v), bucket)
  {
    hide Content, StrictlySorted, Retain;
    RetainContent(v, (e: Entry) => e.maxAccount != bucket);
  }

  /** Among the entries of a bucket: the one with the largest amount at most `x`. */
  ghost predicate IsLower(v: set<Entry>, bucket: nat, x: nat, r: Option<Edges>)
  {
    if r.None? then forall e :: e in v && e.maxAccount == bucket ==> e.inAmount > x
    else exists e :: e in v && e.maxAccount == bucket && e.inAmount <= x && e.edges == r.value
                     && forall f :: f in v && f.maxAccount == bucket && f.inAmount <= x ==> f.inAmount <= e.inAmount
  }

  /** Among the entries of a bucket: the one with the smallest amount above `x`. */
  ghost predicate IsUpper(v: set<Entry>, bucket: nat, x: nat, r: Option<Edges>)
  {
    if r.None? then forall e :: e in v && e.maxAccount == bucket ==> e.inAmount <= x
    else exists e :: e in v && e.maxAccount == bucket && e.inAmount > x && e.edges == r.value
                     && forall f :: f in v && f.maxAccount == bucket && f.inAmount > x ==> e.inAmount <= f.inAmount
  }

  /** After scanning `i` entries, all of the bucket's were at most `x`; `low` is the last of them. */
  ghost predicate Scanned(v: seq<Entry>, i: nat, bucket: nat, x: nat, low: Option<nat>)
    requires i <= |v|
  {
    if low.None? then forall k :: 0 <= k < i ==> v[k].maxAccount != bucket
    else
      && low.value < i && v[low.value].maxAccount == bucket && v[low.value].inAmount <= x
      && forall k :: low.value < k < i ==> v[k].maxAccount != bucket
  }

  /** What the scan returns from any vector: the bucket's first entry above `x`, and the last of the
      bucket's entries before it. */
  ghost predicate IsScan(v: seq<Entry>, bucket: nat, x: nat, lower: Option<Edges>, upper: Option<Edges>)
  {
    exists i, low :: ScanEnds(v, i, bucket, x, low, lower, upper)
  }

  ghost predicate ScanEnds(v: seq<Entry>, i: nat, bucket: nat, x: nat, low: Option<nat>,
                           lower: Option<Edges>, upper: Option<Edges>)
  {
    && i <= |v| && Scanned(v, i, bucket, x, low) && lower == (if low.None? then None else Some(v[low.value].edges))
    && if i < |v| then v[i].maxAccount == bucket && v[i].inAmount > x && upper == Some(v[i].edges) else upper == None
  }

  /** The bracketing scan. In a sorted vector it finds the neighbours of the amount. */
  method Bracket(v: seq<Entry>, bucket: nat, x: nat) returns (lower: Option<Edges>, upper: Option<Edges>)
    ensures IsScan(v, bucket, x, lower, upper)
    ensures StrictlySorted(v) ==> IsLower(Elements(v), bucket, x, lower) && IsUpper(Elements(v), bucket, x, upper)
  {
    hide IsLower, IsUpper, StrictlySorted;
    lower, upper := None, None;
    ghost var low: Option<nat> := None;
    var i := 0;
    while i < |v|
      invariant 0 <= i <= |v| && Scanned(v, i, bucket, x, low) && upper == None
      invariant lower == if low.None? then None else Some(v[low.value].edges)
    {
      var entry := v[i];
      if entry.maxAccount == bucket {
        if entry.inAmount <= x {
          lower := Some(entry.edges);
          low := Some(i);
        } else {
          upper := Some(entry.edges);
          break;
        }
      }
      i := i + 1;
    }
    assert ScanEnds(v, i, bucket, x, low, lower, upper);
    if StrictlySorted(v) {
      LowerFound(v, i, bucket, x, low);
      if i < |v| {
        UpperFound(v, i, bucket, x, low);
      } else {
        UpperMissing(v, bucket, x, low);
      }
    }
  }

  lemma LowerFound(v: seq<Entry>, i: nat, bucket: nat, x: nat, low: Option<nat>)
    requires StrictlySorted(v) && i <= |v| && Scanned(v, i, bucket, x, low)
    requires i < |v| ==> v[i].maxAccount == bucket && v[i].inAmount > x
    ensures IsLower(Elements(v), bucket, x, if low.None? then None else Some(v[low.value].edges))
  {
    if i < |v| {
      SortedAmounts(v, i);
    }
    hide StrictlySorted;
    if low.Some? {
      SortedAmounts(v, low.value);
      assert v[low.value] in v;
    }
  }

  lemma UpperFound(v: seq<Entry>, i: nat, bucket: nat, x: nat, low: Option<nat>)
    requires StrictlySorted(v) && i < |v| && Scanned(v, i, bucket, x, low)
    requires v[i].maxAccount == bucket && v[i].inAmount > x
    ensures IsUpper(Elements(v), bucket, x, Some(v[i].edges))
  {
    SortedAmounts(v, i);
    if low.Some? {
      SortedAmounts(v, low.value);
    }
    hide StrictlySorted;
    assert v[i] in v;
  }

  lemma UpperMissing(v: seq<Entry>, bucket: nat, x: nat, low: Option<nat>)
    requires StrictlySorted(v) && Scanned(v, |v|, bucket, x, low)
    ensures IsUpper(Elements(v), bucket, x, None)
  {
    if low.Some? {
      SortedAmounts(v, low.value);
    }
  }

  /** In a sorted vector, entries of the same bucket are in order of their amounts. */
  lemma SortedAmounts(v: seq<Entry>, i: nat)
    requires StrictlySorted(v) && i < |v|
    ensures forall k :: 0 <= k < i && v[k].maxAccount == v[i].maxAccount ==> v[k].inAmount <= v[i].inAmount
    ensures forall k :: i < k < |v| && v[k].maxAccount == v[i].maxAccount ==> v[i].inAmount <= v[k].inAmount
  {
    forall k | 0 <= k < i ensures KeyLess(KeyOf(v[k]), KeyOf(v[i])) {
    }
    forall k | i < k < |v| ensures KeyLess(KeyOf(v[i]), KeyOf(v[k])) {
    }
  }

  class PathDiscoveryCache {
    var cache: map<CacheKey, seq<Entry>>
    var lastExpireTimestampMillis: nat
    const maxAgeMillis: nat

    ghost predicate Valid()
      reads this
    {
      forall k :: k in cache ==> StrictlySorted(cache[k])
    }

    /** The abstract map of one key; empty when the key is absent. */
    ghost function Abstract(k: CacheKey): map<(nat, nat), Entry>
      reads this
    {
      Content(Vector(k))
    }

    ghost function Vector(k: CacheKey): seq<Entry>
      reads this
    {
      if k in cache then cache[k] else []
    }

    constructor (maxAgeMillis: nat)
      ensures Valid() && cache == map[] && this.maxAgeMillis == maxAgeMillis
    {
      cache := map[];
      lastExpireTimestampMillis := 0;
      this.maxAgeMillis := maxAgeMillis;
    }

    /** Drop all expired entries, at most once a second; a clock that went back panics. */
    method ExpireOld(now: nat)
      requires now >= lastExpireTimestampMillis
      modifies this
      ensures if now - old(lastExpireTimestampMillis) < 1000 then unchanged(this)
              else
                && lastExpireTimestampMillis == now
                && (forall k :: Vector(k) == OnlyFresh(old(Vector(k)), now, maxAgeMillis))
                && (forall k :: KeepsYoung(old(Vector(k)), Vector(k), now, maxAgeMillis))
                && forall k :: k in cache <==> Vector(k) != []
      ensures old(Valid()) ==> Valid()
      ensures old(Valid()) && lastExpireTimestampMillis != old(lastExpireTimestampMillis) ==>
                forall k :: Abstract(k) == FreshOnly(old(Abstract(k)), now, maxAgeMillis)
    {
      hide Content, StrictlySorted, OnlyFresh, FreshOnly, KeepsYoung;
      if now - lastExpireTimestampMillis < 1000 {
        return;
      }
      NothingFresh(now, maxAgeMillis);
      forall k | k in cache && StrictlySorted(cache[k])
        ensures StrictlySorted(OnlyFresh(cache[k], now, maxAgeMillis))
        ensures Content(OnlyFresh(cache[k], now, maxAgeMillis)) == FreshOnly(Content(cache[k]), now, maxAgeMillis)
      {
        RetainFresh(cache[k], now, maxAgeMillis);
      }
      forall k ensures KeepsYoung(Vector(k), OnlyFresh(Vector(k), now, maxAgeMillis), now, maxAgeMillis) {
        OnlyFreshMeans(Vector(k), now, maxAgeMillis);
      }
      cache := map k | k in cache && OnlyFresh(cache[k], now, maxAgeMillis) != []
        :: OnlyFresh(cache[k], now, maxAgeMillis);
      lastExpireTimestampMillis := now;
    }

    /** Insert or replace the paths for an amount and an account bucket. In sorted vectors, the order
        survives if and only if no entry lies between the amount and its conversion to floating
        point. */
    method Insert(from: nat, to: nat, swapMode: SwapMode, inAmount: nat, maxAccounts: nat, timestampMillis: nat,
                  edges: Edges)
      modifies `cache
      ensures var key, bucket := CacheKey(from, to, swapMode), AccountBucket(maxAccounts);
              var e := Entry(timestampMillis, ToF64(inAmount), bucket, edges);
              && (forall k :: k != key ==> Vector(k) == old(Vector(k)))
              && exists pos | 0 <= pos <= |old(Vector(key))| ::
                   Vector(key) == InsertAt(old(Vector(key)), pos, (inAmount, bucket), e)
      // In plain terms, for the bucket of five account counts.
      ensures var key, bucket := CacheKey(from, to, swapMode), maxAccounts / 5;
              exists pos :: && PutAt(old(Vector(key)), pos, inAmount, bucket,
                                     Entry(timestampMillis, ToF64(inAmount), bucket, edges), Vector(key))
                            && (old(Valid()) ==> Divides(old(Vector(key)), pos, inAmount, bucket))
      ensures old(Valid()) ==>
                var key, bucket := CacheKey(from, to, swapMode), AccountBucket(maxAccounts);
                var sought, stored := (inAmount, bucket), (FromF64(ToF64(inAmount)), bucket);
                && (forall k :: k != key ==> Abstract(k) == old(Abstract(k)))
                && (Valid() <==> SameSide(old(Vector(key)), sought, stored))
                && (Valid() ==> Abstract(key) == (old(Abstract(key)) - {sought})[
                                  stored := Entry(timestampMillis, ToF64(inAmount), bucket, edges)])
                && (Representable(inAmount) ==> Valid() && sought == stored)
    {
      hide ToF64, Content, InsertAt, SameSide, StrictlySorted, IsInsertionPoint, PutAt, Divides;
      var key := CacheKey(from, to, swapMode);
      var bucket := AccountBucket(maxAccounts);
      var entries := if key in cache then cache[key] else [];
      var newElem := Entry(timestampMillis, ToF64(inAmount), bucket, edges);
      var pos := BinarySearch(entries, (inAmount, bucket));
      InsertAtMeans(entries, pos, inAmount, bucket, newElem);
      assert KeyOf(newElem) == (FromF64(ToF64(inAmount)), bucket);
      EmptySorted();
      if StrictlySorted(entries) {
        InsertSortedIff(entries, pos, (inAmount, bucket), newElem);
        if Representable(inAmount) {
          SameKeySameSide(entries, (inAmount, bucket));
        }
      }
      cache := cache[key := InsertAt(entries, pos, (inAmount, bucket), newElem)];
      assert entries == old(Vector(key));
      assert Vector(key) == InsertAt(entries, pos, (inAmount, bucket), newElem);
      assert old(Valid()) ==> (Valid() <==> StrictlySorted(cache[key]));
    }

    /** The unexpired neighbours of an amount in its account bucket; expired entries of the key are
        dropped on the way. */
    method Get(from: nat, to: nat, swapMode: SwapMode, inAmount: nat, maxAccounts: nat, now: nat)
      returns (lower: Option<Edges>, upper: Option<Edges>)
      modifies `cache
      ensures cache.Keys == old(cache).Keys
      ensures var key := CacheKey(from, to, swapMode);
              && (forall k :: k != key ==> Vector(k) == old(Vector(k)))
              && Vector(key) == OnlyFresh(old(Vector(key)), now, maxAgeMillis)
              && KeepsYoung(old(Vector(key)), Vector(key), now, maxAgeMillis)
              && IsScan(Vector(key), maxAccounts / 5, ToF64(inAmount), lower, upper)
      ensures old(Valid()) ==>
                var key := CacheKey(from, to, swapMode);
                && Valid() && (forall k :: k != key ==> Abstract(k) == old(Abstract(k)))
                && Abstract(key) == FreshOnly(old(Abstract(key)), now, maxAgeMillis)
                && IsLower(Abstract(key).Values, maxAccounts / 5, ToF64(inAmount), lower)
                && IsUpper(Abstract(key).Values, maxAccounts / 5, ToF64(inAmount), upper)
    {
      hide ToF64, Content, IsLower, IsUpper, IsScan, FreshOnly, OnlyFresh, StrictlySorted, KeepsYoung;
      var key := CacheKey(from, to, swapMode);
      NothingFresh(now, maxAgeMillis);
      OnlyFreshMeans(Vector(key), now, maxAgeMillis);
      NothingToScan(AccountBucket(maxAccounts), ToF64(inAmount));
      if key !in cache {
        return None, None;
      }
      var entries := OnlyFresh(cache[key], now, maxAgeMillis);
      if StrictlySorted(cache[key]) {
        RetainFresh(cache[key], now, maxAgeMillis);
      }
      cache := cache[key := entries];
      lower, upper := Bracket(entries, AccountBucket(maxAccounts), ToF64(inAmount));
    }

    /** Drop a bucket's entries for both modes; but without an ExactIn vector nothing is done. */
    method Invalidate(from: nat, to: nat, maxAccounts: nat)
      modifies `cache
      ensures cache.Keys == old(cache).Keys
      ensures var inKey, outKey := CacheKey(from, to, ExactIn), CacheKey(from, to, ExactOut);
              forall k :: Vector(k) == if inKey in old(cache) && k in {inKey, outKey}
                                       then OnlyOthers(old(Vector(k)), maxAccounts / 5)
                                       else old(Vector(k))
      ensures var inKey, outKey := CacheKey(from, to, ExactIn), CacheKey(from, to, ExactOut);
              forall k :: if inKey in old(cache) && k in {inKey, outKey}
                          then DropsBucket(old(Vector(k)), Vector(k), maxAccounts / 5) else Vector(k) == old(Vector(k))
      ensures old(Valid()) ==>
                && Valid()
                && var inKey, outKey := CacheKey(from, to, ExactIn), CacheKey(from, to, ExactOut);
                   forall k :: Abstract(k) == if inKey in old(cache) && k in {inKey, outKey}
                                              then WithoutBucket(old(Abstract(k)), maxAccounts / 5)
                                              else old(Abstract(k))
    {
      hide Content, WithoutBucket, OnlyOthers, StrictlySorted, DropsBucket;
      var bucket := AccountBucket(maxAccounts);
      var inKey, outKey := CacheKey(from, to, ExactIn), CacheKey(from, to, ExactOut);
      NoOthers(bucket);
      forall k ensures DropsBucket(Vector(k), OnlyOthers(Vector(k), bucket), bucket) {
        OnlyOthersMeans(Vector(k), bucket);
      }
      forall k | k in cache && StrictlySorted(cache[k])
        ensures StrictlySorted(OnlyOthers(cache[k], bucket))
        ensures Content(OnlyOthers(cache[k], bucket)) == WithoutBucket(Content(cache[k]), bucket)
      {
        RetainOthers(cache[k], bucket);
      }
      if inKey !in cache {
        return;
      }
      cache := cache[inKey := OnlyOthers(cache[inKey], bucket)];
      if outKey !in cache {
        return;
      }
      cache := cache[outKey := OnlyOthers(cache[outKey], bucket)];
    }
  }

  lemma NothingFresh(now: nat, maxAgeMillis: nat)
    ensures OnlyFresh([], now, maxAgeMillis) == []
    ensures FreshOnly(Content([]), now, maxAgeMillis) == Content([])
  {
  }

  lemma NoOthers(bucket: nat)
    ensures OnlyOthers([], bucket) == []
    ensures WithoutBucket(Content([]), bucket) == Content([])
  {
  }

  lemma NothingToScan(bucket: nat, x: nat)
    ensures IsScan([], bucket, x, None, None)
    ensures IsLower(Content([]).Values, bucket, x, None) && IsUpper(Content([]).Values, bucket, x, None)
  {
    assert ScanEnds([], 0, bucket, x, None, None, None);
  }

  lemma EmptySorted()
    ensures StrictlySorted([])
  {
  }
}
