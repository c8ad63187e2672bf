/** The greedy choice of address lookup tables for a transaction (alt_optimizer.rs). */
module LookupTables {
  import opened Powers

  type Address = nat

  datatype Table = Table(key: Address, addresses: seq<Address>)

  /** How many of the transaction's addresses (counted with repetition) a table holds. */
  function Count(tx: seq<Address>, t: Table): nat
  {
    if tx == [] then 0 else (if tx[0] in t.addresses then 1 else 0) + Count(tx[1..], t)
  }

  /** The addresses a table does not hold, in order. */
  function Uncovered(tx: seq<Address>, t: Table): (r: seq<Address>)
    ensures |r| <= |tx|
  {
    if tx == [] then []
    else (if tx[0] in t.addresses then [] else [tx[0]]) + Uncovered(tx[1..], t)
  }

  /** Stable sort by count, largest first. */
  function SortByCount(tx: seq<Address>, s: seq<Table>): seq<Table>
  {
    if s == [] then [] else InsertByCount(tx, SortByCount(tx, s[..|s| - 1]), s[|s| - 1])
  }

  function InsertByCount(tx: seq<Address>, s: seq<Table>, x: Table): seq<Table>
  {
    if s == [] || Count(tx, s[|s| - 1]) >= Count(tx, x) then s + [x]
    else InsertByCount(tx, s[..|s| - 1], x) + [s[|s| - 1]]
  }

  /** Repeatedly take the table that replaces most of the addresses still uncovered, at most four
      times, and only while it replaces at least two. */
  method GetBestAltInternal(allAlt: seq<Table>, txAddresses: seq<Address>, level: nat) returns (result: seq<Table>)
    ensures Greedy(multiset(allAlt), txAddresses, result, if level < 3 then 4 - level else 1)
    ensures InOrder(allAlt, txAddresses, result, if level < 3 then 4 - level else 1)
    decreases 3 - level
  {
    hide SortByCount, Count, Uncovered, Ranked, InOrder, Cover, Greedy, Descending;
    SortKeeps(txAddresses, allAlt);
    SortRanks(txAddresses, allAlt);
    var sortedAllAlt := SortByCount(txAddresses, allAlt);
    FirstIsBest(txAddresses, allAlt, sortedAllAlt);
    if |sortedAllAlt| == 0 || Count(txAddresses, sortedAllAlt[0]) <= 1 {
      OrderEnds(allAlt, txAddresses, if level < 3 then 4 - level else 1);
      GreedyEnds(multiset(allAlt), txAddresses, if level < 3 then 4 - level else 1);
      return [];
    }
    ghost var ranked := sortedAllAlt;
    result := [sortedAllAlt[0]];
    if level < 3 {
      sortedAllAlt := sortedAllAlt[1..];
      var next := GetBestAltInternal(sortedAllAlt, Uncovered(txAddresses, result[0]), level + 1);
      GreedyCons(multiset(allAlt), txAddresses, result[0], multiset(sortedAllAlt), next, 4 - level);
      OrderCons(allAlt, txAddresses, ranked, next, 4 - level);
      result := result + next;
    } else {
      OrderEnds(ranked[1..], Uncovered(txAddresses, ranked[0]), 0);
      GreedyEnds(multiset(sortedAllAlt[1..]), Uncovered(txAddresses, ranked[0]), 0);
      GreedyCons(multiset(allAlt), txAddresses, result[0], multiset(sortedAllAlt[1..]), [], 1);
      OrderCons(allAlt, txAddresses, ranked, [], 1);
      assert result + [] == result;
    }
  }

  lemma GreedyEnds(pool: multiset<Table>, tx: seq<Address>, slots: nat)
    requires slots == 0 || forall t :: t in pool ==> Count(tx, t) <= 1
    ensures Greedy(pool, tx, [], slots)
  {
  }

  lemma OrderEnds(list: seq<Table>, tx: seq<Address>, slots: nat)
    requires slots == 0 || forall t :: t in list ==> Count(tx, t) <= 1
    ensures InOrder(list, tx, [], slots)
  {
    forall t | t in list ensures Count(tx, t) == Cover(tx, [t]) {
      CountIsCover(tx, t);
    }
  }

  lemma OrderCons(list: seq<Table>, tx: seq<Address>, s: seq<Table>, next: seq<Table>, slots: nat)
    requires Ranked(tx, list, s) && s != [] && Count(tx, s[0]) >= 2 && slots > 0
    requires InOrder(s[1..], Uncovered(tx, s[0]), next, slots - 1)
    ensures InOrder(list, tx, [s[0]] + next, slots)
  {
    hide Ranked, Count, Cover, Uncovered;
    CountIsCover(tx, s[0]);
    assert ([s[0]] + next)[1..] == next;
  }

  /** A most useful table, followed by a greedy choice from the rest, is a greedy choice. */
  lemma GreedyCons(pool: multiset<Table>, tx: seq<Address>, a: Table, rest: multiset<Table>, next: seq<Table>,
                   slots: nat)
    requires a in pool && Count(tx, a) >= 2 && rest == pool - multiset{a} && slots > 0
    requires forall t :: t in pool ==> Count(tx, t) <= Count(tx, a)
    requires Greedy(rest, Uncovered(tx, a), next, slots - 1)
    ensures Greedy(pool, tx, [a] + next, slots)
  {
    hide Count, Uncovered;
    assert ([a] + next)[1..] == next;
  }

  lemma FirstIsBest(tx: seq<Address>, tables: seq<Table>, s: seq<Table>)
    requires Descending(tx, s) && multiset(s) == multiset(tables)
    ensures |s| == 0 ==> multiset(tables) == multiset{}
    ensures |s| > 0 ==>
              && s[0] in multiset(tables)
              && (forall t :: t in multiset(tables) ==> Count(tx, t) <= Count(tx, s[0]))
              && multiset(s[1..]) == multiset(tables) - multiset{s[0]}
  {
    hide Count;
    if |s| > 0 {
      assert s == [s[0]] + s[1..];
      forall t | t in multiset(tables) ensures Count(tx, t) <= Count(tx, s[0]) {
        assert t in multiset(s);
        var j :| 0 <= j < |s| && s[j] == t;
      }
    }
  }

  /** Whole entry point: four slots. */
  method GetBestAlt(allAlt: seq<Table>, txAddresses: seq<Address>) returns (result: seq<Table>)
    ensures |result| <= 4 && multiset(result) <= multiset(allAlt)
    ensures InOrder(allAlt, txAddresses, result, 4)
    ensures forall i :: 0 <= i < |result| ==> Count(Remaining(txAddresses, result[..i]), result[i]) >= 2
    ensures forall best: seq<Table> :: |best| <= 4 && (forall t :: t in best ==> t in allAlt) ==>
              if |result| == 4 then 256 * Cover(txAddresses, result) >= 175 * Cover(txAddresses, best)
              else Cover(txAddresses, best) <= Cover(txAddresses, result) + |best|
  {
    hide InOrder;
    result := GetBestAltInternal(allAlt, txAddresses, 0);
    var pool := multiset(allAlt);
    GreedySound(pool, txAddresses, result, 4);
    forall best: seq<Table> | |best| <= 4 && (forall t :: t in best ==> t in allAlt)
      ensures if |result| == 4 then 256 * Cover(txAddresses, result) >= 175 * Cover(txAddresses, best)
              else Cover(txAddresses, best) <= Cover(txAddresses, result) + |best|
    {
      if |result| == 4 {
        GreedyRatio(pool, txAddresses, result, 4, best);
        assert Pow(4, 4) == 256 && Pow(3, 4) == 81;
      } else {
        GreedyExhausted(pool, txAddresses, result, 4, best);
      }
    }
  }

  // ---- Reference: coverage ----

  ghost predicate Hit(a: Address, tables: seq<Table>)
  {
    exists t :: t in tables && a in t.addresses
  }

  /** How many addresses of the transaction some table of the choice holds. */
  ghost function Cover(tx: seq<Address>, tables: seq<Table>): nat
  {
    if tx == [] then 0 else (if Hit(tx[0], tables) then 1 else 0) + Cover(tx[1..], tables)
  }

  /** What a sequence of tables leaves uncovered. */
  ghost function Remaining(tx: seq<Address>, tables: seq<Table>): seq<Address>
    decreases |tables|
  {
    if tables == [] then tx else Remaining(Uncovered(tx, tables[0]), tables[1..])
  }

  /** `r` is a greedy choice from the pool with `slots` slots. */
  ghost predicate Greedy(pool: multiset<Table>, tx: seq<Address>, r: seq<Table>, slots: nat)
    decreases slots
  {
    if r == [] then slots == 0 || forall t :: t in pool ==> Count(tx, t) <= 1
    else
      && slots > 0 && r[0] in pool && Count(tx, r[0]) >= 2
      && (forall t :: t in pool ==> Count(tx, t) <= Count(tx, r[0]))
      && Greedy(pool - multiset{r[0]}, Uncovered(tx, r[0]), r[1..], slots - 1)
  }

  /** `s` is the list ranked by what each table would replace, most first, and for equal ones by place. */
  ghost predicate Ranked(tx: seq<Address>, list: seq<Table>, s: seq<Table>)
  {
    exists place: seq<nat> :: Places(tx, list, s, place)
  }

  ghost predicate Places(tx: seq<Address>, list: seq<Table>, s: seq<Table>, place: seq<nat>)
  {
    && |place| == |s| == |list|
    && (forall i :: 0 <= i < |s| ==> place[i] < |list| && s[i] == list[place[i]])
    && (forall i, j :: 0 <= i < j < |s| ==>
          Cover(tx, [s[i]]) > Cover(tx, [s[j]]) || (Cover(tx, [s[i]]) == Cover(tx, [s[j]]) && place[i] < place[j]))
  }

  /** The choice, tie by tie: each table is the first of the ranking at its turn, which ranks what the
      ranking before it left, by the addresses still uncovered; and the choice ends when the slots do or
      when the first table would replace less than two. */
  ghost predicate InOrder(list: seq<Table>, tx: seq<Address>, r: seq<Table>, slots: nat)
    decreases slots
  {
    if r == [] then slots == 0 || forall t :: t in list ==> Cover(tx, [t]) <= 1
    else
      slots > 0 && exists s :: Ranked(tx, list, s) && s != [] && r[0] == s[0] && Cover(tx, [r[0]]) >= 2
                               && InOrder(s[1..], Uncovered(tx, r[0]), r[1..], slots - 1)
  }

  // ---- Sorting ----

  lemma CountIsCover(tx: seq<Address>, t: Table)
    ensures Count(tx, t) == Cover(tx, [t])
  {
    CoverSplit(tx, t, []);
    CoverNothing(Uncovered(tx, t));
    assert [t] + [] == [t];
  }

  /** Where an insertion puts the table: behind all that replace at least as many. */
  lemma {:induction false} InsertPlace(tx: seq<Address>, s: seq<Table>, x: Table) returns (p: nat)
    requires Descending(tx, s)
    ensures p <= |s| && InsertByCount(tx, s, x) == s[..p] + [x] + s[p..]
    ensures forall i :: 0 <= i < p ==> Count(tx, s[i]) >= Count(tx, x)
    ensures forall i :: p <= i < |s| ==> Count(tx, s[i]) < Count(tx, x)
  {
    hide Count;
    if s == [] || Count(tx, s[|s| - 1]) >= Count(tx, x) {
      p := |s|;
    } else {
      var init := s[..|s| - 1];
      p := InsertPlace(tx, init, x);
      assert s[..p] == init[..p] && s[p..] == init[p..] + [s[|s| - 1]];
    }
  }

  /** The sort is stable. */
  lemma {:induction false} SortPlaces(tx: seq<Address>, list: seq<Table>) returns (place: seq<nat>)
    ensures Places(tx, list, SortByCount(tx, list), place)
  {
    if list == [] {
      place := [];
    } else {
      var n := |list| - 1;
      var init, x := list[..n], list[n];
      place := SortPlaces(tx, init);
      SortKeeps(tx, init);
      var s := SortByCount(tx, init);
      var p := InsertPlace(tx, s, x);
      PlacesStep(tx, list, s, place, p);
      place := place[..p] + [n] + place[p..];
    }
  }

  lemma InsertedAt<T>(s: seq<T>, p: nat, x: T)
    requires p <= |s|
    ensures var r := s[..p] + [x] + s[p..];
            && |r| == |s| + 1 && r[p] == x
            && (forall i :: 0 <= i < p ==> r[i] == s[i])
            && (forall i :: p < i < |r| ==> r[i] == s[i - 1])
  {
  }

  /** Numbers ranked largest first, and equal ones by their places. */
  ghost predicate InRank(values: seq<nat>, place: seq<nat>)
  {
    && |values| == |place|
    && forall i, j :: 0 <= i < j < |values| ==>
         values[i] > values[j] || (values[i] == values[j] && place[i] < place[j])
  }

  lemma RankStep(values: seq<nat>, place: seq<nat>, p: nat, v: nat, n: nat)
    requires InRank(values, place) && p <= |values| && forall i :: 0 <= i < |place| ==> place[i] < n
    requires forall i :: 0 <= i < p ==> values[i] >= v
    requires forall i :: p <= i < |values| ==> values[i] < v
    ensures InRank(values[..p] + [v] + values[p..], place[..p] + [n] + place[p..])
  {
    InsertedAt(values, p, v);
    InsertedAt(place, p, n);
    var values', place' := values[..p] + [v] + values[p..], place[..p] + [n] + place[p..];
    forall i, j | 0 <= i < j < |values'|
      ensures values'[i] > values'[j] || (values'[i] == values'[j] && place'[i] < place'[j])
    {
      var k, l := if i < p then i else i - 1, if j < p then j else j - 1;
      if i != p && j != p {
        assert values'[i] == values[k] && values'[j] == values[l];
      }
    }
  }

  /** What each table of a list would replace. */
  ghost function Covers(tx: seq<Address>, s: seq<Table>): (r: seq<nat>)
    ensures |r| == |s| && forall i :: 0 <= i < |s| ==> r[i] == Cover(tx, [s[i]])
  {
    seq(|s|, i requires 0 <= i < |s| => Cover(tx, [s[i]]))
  }

  lemma CoversInserted(tx: seq<Address>, s: seq<Table>, p: nat, x: Table)
    requires p <= |s|
    ensures Covers(tx, s[..p] + [x] + s[p..]) == Covers(tx, s)[..p] + [Cover(tx, [x])] + Covers(tx, s)[p..]
  {
    hide Cover;
    InsertedAt(s, p, x);
    InsertedAt(Covers(tx, s), p, Cover(tx, [x]));
  }

  lemma PlacesMeans(tx: seq<Address>, list: seq<Table>, s: seq<Table>, place: seq<nat>)
    ensures Places(tx, list, s, place) <==>
              && |place| == |s| == |list| && InRank(Covers(tx, s), place)
              && forall i :: 0 <= i < |s| ==> place[i] < |list| && s[i] == list[place[i]]
  {
    hide Cover, Covers;
  }

  lemma PlacesStep(tx: seq<Address>, list: seq<Table>, s: seq<Table>, place: seq<nat>, p: nat)
    requires list != [] && Places(tx, list[..|list| - 1], s, place) && p <= |s|
    requires forall i :: 0 <= i < p ==> Count(tx, s[i]) >= Count(tx, list[|list| - 1])
    requires forall i :: p <= i < |s| ==> Count(tx, s[i]) < Count(tx, list[|list| - 1])
    ensures var n := |list| - 1;
            Places(tx, list, s[..p] + [list[n]] + s[p..], place[..p] + [n] + place[p..])
  {
    hide Count, Cover, Covers, Places, InRank;
    var n := |list| - 1;
    var x, values := list[n], Covers(tx, s);
    CountIsCover(tx, x);
    PlacesMeans(tx, list[..n], s, place);
    forall i | 0 <= i < |s| ensures Count(tx, s[i]) == values[i] {
      CountIsCover(tx, s[i]);
    }
    RankStep(values, place, p, Cover(tx, [x]), n);
    CoversInserted(tx, s, p, x);
    InsertedAt(s, p, x);
    InsertedAt(place, p, n);
    var s', place' := s[..p] + [x] + s[p..], place[..p] + [n] + place[p..];
    forall i | 0 <= i < |s'| ensures place'[i] < |list| && s'[i] == list[place'[i]] {
      if i != p {
        var k := if i < p then i else i - 1;
        assert s'[i] == s[k] && place'[i] == place[k];
      }
    }
    PlacesMeans(tx, list, s', place');
  }

  lemma SortRanks(tx: seq<Address>, list: seq<Table>)
    ensures Ranked(tx, list, SortByCount(tx, list))
  {
    hide Places, SortByCount;
    var place := SortPlaces(tx, list);
  }

  ghost predicate Descending(tx: seq<Address>, s: seq<Table>)
  {
    forall i, j :: 0 <= i < j < |s| ==> Count(tx, s[i]) >= Count(tx, s[j])
  }

  lemma {:induction false} InsertKeeps(tx: seq<Address>, s: seq<Table>, x: Table)
    requires Descending(tx, s)
    ensures Descending(tx, InsertByCount(tx, s, x))
    ensures multiset(InsertByCount(tx, s, x)) == multiset(s) + multiset{x}
  {
    hide Count;
    if s != [] && Count(tx, s[|s| - 1]) < Count(tx, x) {
      var init, last := s[..|s| - 1], s[|s| - 1];
      InsertKeeps(tx, init, x);
      var r := InsertByCount(tx, init, x);
      assert s == init + [last];
      forall i | 0 <= i < |r| ensures Count(tx, r[i]) >= Count(tx, last) {
        assert r[i] in multiset(r);
        assert r[i] == x || r[i] in init;
      }
    }
  }

  lemma {:induction false} SortKeeps(tx: seq<Address>, s: seq<Table>)
    ensures Descending(tx, SortByCount(tx, s))
    ensures multiset(SortByCount(tx, s)) == multiset(s)
  {
    hide InsertByCount;
    if s != [] {
      var init, last := s[..|s| - 1], s[|s| - 1];
      SortKeeps(tx, init);
      InsertKeeps(tx, SortByCount(tx, init), last);
      assert s == init + [last];
    }
  }

  // ---- Coverage ----

  lemma {:induction false} CoverSplit(tx: seq<Address>, a: Table, rest: seq<Table>)
    ensures Cover(tx, [a] + rest) == Count(tx, a) + Cover(Uncovered(tx, a), rest)
  {
    if tx != [] {
      CoverSplit(tx[1..], a, rest);
      assert Hit(tx[0], [a] + rest) <==> tx[0] in a.addresses || Hit(tx[0], rest) by {
        if tx[0] in a.addresses { assert a in [a] + rest; }
        if Hit(tx[0], rest) {
          var t :| t in rest && tx[0] in t.addresses;
          assert t in [a] + rest;
        }
      }
      if tx[0] !in a.addresses {
        var u := Uncovered(tx, a);
        assert u == [tx[0]] + Uncovered(tx[1..], a);
        assert u[1..] == Uncovered(tx[1..], a);
      } else {
        assert Uncovered(tx, a) == Uncovered(tx[1..], a);
      }
    }
  }

  lemma {:induction false} CountUncovered(tx: seq<Address>, a: Table, t: Table)
    ensures Count(Uncovered(tx, a), t) <= Count(tx, t)
    ensures Count(Uncovered(tx, a), a) == 0
  {
    if tx != [] {
      CountUncovered(tx[1..], a, t);
      if tx[0] in a.addresses {
        assert Uncovered(tx, a) == Uncovered(tx[1..], a);
      } else {
        var u := Uncovered(tx, a);
        assert u == [tx[0]] + Uncovered(tx[1..], a);
        assert u[1..] == Uncovered(tx[1..], a);
      }
    }
  }

  /** One table removes at most its own count from the coverage of any choice. */
  lemma {:induction false} CoverDrop(tx: seq<Address>, a: Table, tables: seq<Table>)
    ensures Cover(tx, tables) <= Count(tx, a) + Cover(Uncovered(tx, a), tables)
    ensures Cover(Uncovered(tx, a), tables) <= Cover(tx, tables)
  {
    if tx != [] {
      CoverDrop(tx[1..], a, tables);
      if tx[0] in a.addresses {
        assert Uncovered(tx, a) == Uncovered(tx[1..], a);
      } else {
        var u := Uncovered(tx, a);
        assert u == [tx[0]] + Uncovered(tx[1..], a);
        assert u[1..] == Uncovered(tx[1..], a);
      }
    }
  }

  lemma {:induction false} CoverNothing(tx: seq<Address>)
    ensures Cover(tx, []) == 0
  {
    if tx != [] {
      CoverNothing(tx[1..]);
    }
  }

  /** A choice covers at most the sum of its tables' counts. */
  lemma {:induction false} CoverBound(tx: seq<Address>, tables: seq<Table>, g: nat)
    requires forall t :: t in tables ==> Count(tx, t) <= g
    ensures Cover(tx, tables) <= |tables| * g
    decreases |tables|
  {
    hide Count, Uncovered, Cover;
    if tables == [] {
      CoverNothing(tx);
    } else {
      var a, rest := tables[0], tables[1..];
      assert tables == [a] + rest;
      CoverSplit(tx, a, rest);
      CoverDrop(tx, a, rest);
      CoverBound(tx, rest, g);
      assert |tables| * g == g + |rest| * g;
    }
  }

  // ---- The greedy choice against any other ----

  /** Everything in `best` is either still available or worthless on what is left. */
  ghost predicate Available(pool: multiset<Table>, tx: seq<Address>, best: seq<Table>)
  {
    forall t :: t in best ==> t in pool || Count(tx, t) == 0
  }

  lemma AvailableStep(pool: multiset<Table>, tx: seq<Address>, a: Table, best: seq<Table>)
    requires Available(pool, tx, best)
    ensures Available(pool - multiset{a}, Uncovered(tx, a), best)
  {
    forall t | t in best && t !in pool - multiset{a}
      ensures Count(Uncovered(tx, a), t) == 0
    {
      CountUncovered(tx, a, t);
    }
  }

  lemma {:induction false} GreedySound(pool: multiset<Table>, tx: seq<Address>, r: seq<Table>, slots: nat)
    requires Greedy(pool, tx, r, slots)
    ensures |r| <= slots && multiset(r) <= pool
    ensures forall i :: 0 <= i < |r| ==> Count(Remaining(tx, r[..i]), r[i]) >= 2
    decreases slots
  {
    hide Count, Uncovered;
    if r != [] {
      var tx', r' := Uncovered(tx, r[0]), r[1..];
      GreedySound(pool - multiset{r[0]}, tx', r', slots - 1);
      assert r == [r[0]] + r';
      forall i | 0 <= i < |r| ensures Count(Remaining(tx, r[..i]), r[i]) >= 2 {
        if i > 0 {
          assert r[..i][1..] == r'[..i - 1];
          assert Count(Remaining(tx', r'[..i - 1]), r'[i - 1]) >= 2;
        }
      }
    }
  }

  /** All slots used: 4^n covered >= (4^n - 3^n) of any choice of at most four tables. */
  lemma {:induction false} GreedyRatio(pool: multiset<Table>, tx: seq<Address>, r: seq<Table>, slots: nat,
                                       best: seq<Table>)
    requires Greedy(pool, tx, r, slots) && |r| == slots
    requires |best| <= 4 && Available(pool, tx, best)
    ensures Pow(4, slots) * Cover(tx, r) >= (Pow(4, slots) - Pow(3, slots)) * Cover(tx, best)
    decreases slots
  {
    hide Count, Uncovered, Cover, Available;
    if slots > 0 {
      var a, tx', r' := r[0], Uncovered(tx, r[0]), r[1..];
      AvailableStep(pool, tx, a, best);
      GreedyRatio(pool - multiset{a}, tx', r', slots - 1, best);
      assert r == [a] + r';
      CoverSplit(tx, a, r');
      CoverDrop(tx, a, best);
      BestGain(pool, tx, a, best);
      PowGrows(slots - 1);
      RatioStep(Pow(4, slots - 1), Pow(3, slots - 1), Count(tx, a), Cover(tx', r'), Cover(tx', best), Cover(tx, best));
    }
  }

  /** A most useful table gains at least a quarter of what four tables can. */
  lemma BestGain(pool: multiset<Table>, tx: seq<Address>, a: Table, best: seq<Table>)
    requires forall t :: t in pool ==> Count(tx, t) <= Count(tx, a)
    requires |best| <= 4 && Available(pool, tx, best)
    ensures Cover(tx, best) <= 4 * Count(tx, a)
  {
    hide Count, Cover;
    CoverBound(tx, best, Count(tx, a));
    MulMono(|best|, Count(tx, a), 4, Count(tx, a));
  }

  lemma {:induction false} PowGrows(n: nat)
    ensures 1 <= Pow(3, n) <= Pow(4, n)
  {
    if n > 0 {
      PowGrows(n - 1);
    }
  }

  /** p = 4^(n-1), q = 3^(n-1), gain g, coverage c' of the rest, remaining optimum o', optimum o. */
  lemma RatioStep(p: nat, q: nat, g: nat, c': nat, o': nat, o: nat)
    requires q <= p && p * c' >= (p - q) * o'
    requires o <= g + o' && o <= 4 * g
    ensures (4 * p) * (g + c') >= (4 * p - 3 * q) * o
  {
    MulLeft(p - q, o - g, o');
    MulLeft(q, o, 4 * g);
  }

  /** Fewer tables than slots: what any other choice covers beyond the result is at most one
      address per table. */
  lemma {:induction false} GreedyExhausted(pool: multiset<Table>, tx: seq<Address>, r: seq<Table>, slots: nat,
                                           best: seq<Table>)
    requires Greedy(pool, tx, r, slots) && |r| < slots && Available(pool, tx, best)
    ensures Cover(tx, best) <= Cover(tx, r) + |best|
    decreases slots
  {
    if r == [] {
      CoverBound(tx, best, 1);
    } else {
      var a, r' := r[0], r[1..];
      AvailableStep(pool, tx, a, best);
      GreedyExhausted(pool - multiset{a}, Uncovered(tx, a), r', slots - 1, best);
      assert r == [a] + r';
      CoverSplit(tx, a, r');
      CoverDrop(tx, a, best);
    }
  }
}
