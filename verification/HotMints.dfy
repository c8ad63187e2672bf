/** The cache of recently requested mints (hot_mints.rs). */
module HotMints {
  import opened Common

  type Mint = nat

  /** The sequence without any occurrence of `m`. */
  function Without(s: seq<Mint>, m: Mint): (r: seq<Mint>)
    ensures m !in r
    ensures forall x :: x in r <==> x in s && x != m
    ensures |r| <= |s|
  {
    if s == [] then []
    else (if s[0] == m then [] else [s[0]]) + Without(s[1..], m)
  }

  /** Reference: the distinct mints of a history that are not always hot, latest first. Only the
      last occurrence of each mint counts. */
  function MostRecent(history: seq<Mint>, alwaysHot: set<Mint>): seq<Mint>
  {
    if history == [] then []
    else
      var m, before := history[|history| - 1], history[..|history| - 1];
      if m in alwaysHot then MostRecent(before, alwaysHot)
      else [m] + Without(MostRecent(before, alwaysHot), m)
  }

  /** Index of the last occurrence in the history. */
  ghost function LastIndex(history: seq<Mint>, m: Mint): int
    ensures -1 <= LastIndex(history, m) < |history|
    ensures LastIndex(history, m) >= 0 <==> m in history
    ensures LastIndex(history, m) >= 0 ==> history[LastIndex(history, m)] == m
    ensures forall i :: LastIndex(history, m) < i < |history| ==> history[i] != m
  {
    if history == [] then -1
    else if history[|history| - 1] == m then |history| - 1
    else LastIndex(history[..|history| - 1], m)
  }

  class HotMintsCache {
    const maxCount: nat
    const alwaysHot: set<Mint>
    var latestUnordered: set<Mint>
    var latestOrdered: seq<Mint>
    /** Every mint ever added, in order. */
    ghost var history: seq<Mint>

    ghost predicate Valid()
      reads this
    {
      && maxCount >= 1
      && latestOrdered == Take(MostRecent(history, alwaysHot), maxCount)
      && latestUnordered == Elements(latestOrdered)
    }

    constructor (maxCount: nat, alwaysHot: set<Mint>)
      requires maxCount >= 1
      ensures Valid() && history == [] && this.maxCount == maxCount && this.alwaysHot == alwaysHot
    {
      this.maxCount := maxCount;
      this.alwaysHot := alwaysHot;
      latestUnordered := {};
      latestOrdered := [];
      history := [];
    }

    /** After any history of calls the queue is the `maxCount` most recent mints. */
    method Add(pubkey: Mint)
      requires Valid()
      modifies this
      ensures Valid() && history == old(history) + [pubkey]
    {
      hide MostRecent, Without, Take, Elements;
      ghost var recent := MostRecent(history, alwaysHot);
      ghost var kept := latestOrdered;
      MostRecentStep(history, pubkey, alwaysHot);
      history := history + [pubkey];
      if pubkey in alwaysHot {
        return;
      }
      TakeStep(recent, pubkey, maxCount);
      DistinctSize(kept);
      InElements(kept, pubkey);
      if pubkey in latestUnordered {
        var position := IndexOf(latestOrdered, pubkey);
        WithoutAt(latestOrdered, position);
        latestOrdered := latestOrdered[..position] + latestOrdered[position + 1..];
      } else if |latestUnordered| >= maxCount {
        var oldest := latestOrdered[|latestOrdered| - 1];
        latestOrdered := latestOrdered[..|latestOrdered| - 1];
        latestUnordered := latestUnordered - {oldest};
      }
      ElementsCons(kept, latestOrdered, pubkey);
      latestUnordered := latestUnordered + {pubkey};
      latestOrdered := [pubkey] + latestOrdered;
    }

    /** The hot mints: the recent ones and those always hot. */
    method Get() returns (r: set<Mint>)
      requires Valid()
      ensures r == Elements(Take(MostRecent(history, alwaysHot), maxCount)) + alwaysHot
    {
      r := latestUnordered + alwaysHot;
    }
  }

  method IndexOf(s: seq<Mint>, m: Mint) returns (k: nat)
    requires m in s
    ensures k < |s| && s[k] == m && forall i :: 0 <= i < k ==> s[i] != m
  {
    k := 0;
    while s[k] != m
      invariant k < |s| && forall i :: 0 <= i < k ==> s[i] != m
      decreases |s| - k
    {
      assert exists i :: k < i < |s| && s[i] == m;
      k := k + 1;
    }
  }

  lemma MostRecentStep(history: seq<Mint>, m: Mint, hot: set<Mint>)
    ensures MostRecent(history + [m], hot)
            == if m in hot then MostRecent(history, hot) else [m] + Without(MostRecent(history, hot), m)
    ensures Distinct(MostRecent(history, hot)) && Distinct(MostRecent(history + [m], hot))
  {
    assert (history + [m])[..|history|] == history;
    MostRecentDistinct(history, hot);
    MostRecentDistinct(history + [m], hot);
  }

  lemma {:induction false} WithoutDistinct(s: seq<Mint>, m: Mint)
    requires Distinct(s)
    ensures Distinct(Without(s, m))
  {
    if s != [] {
      WithoutDistinct(s[1..], m);
      assert s[0] !in s[1..];
    }
  }

  lemma {:induction false} MostRecentDistinct(history: seq<Mint>, hot: set<Mint>)
    ensures Distinct(MostRecent(history, hot))
  {
    if history != [] {
      var before := history[..|history| - 1];
      MostRecentDistinct(before, hot);
      WithoutDistinct(MostRecent(before, hot), history[|history| - 1]);
    }
  }

  lemma {:induction false} WithoutAbsent(s: seq<Mint>, m: Mint)
    requires m !in s
    ensures Without(s, m) == s
  {
    if s != [] {
      WithoutAbsent(s[1..], m);
      assert s == [s[0]] + s[1..];
    }
  }

  /** Removing the only occurrence by position. */
  lemma {:induction false} WithoutAt(s: seq<Mint>, k: nat)
    requires Distinct(s) && k < |s|
    ensures Without(s, s[k]) == s[..k] + s[k + 1..]
  {
    if k == 0 {
      assert s[0] !in s[1..];
      WithoutAbsent(s[1..], s[0]);
    } else {
      WithoutAt(s[1..], k - 1);
      assert s[..k] + s[k + 1..] == [s[0]] + (s[1..][..k - 1] + s[1..][k..]);
    }
  }

  /** The bounded queue follows the unbounded one: an added mint comes first, and either its old
      place is freed or the oldest one drops out. */
  lemma TakeStep(recent: seq<Mint>, m: Mint, n: nat)
    requires n >= 1 && Distinct(recent)
    ensures var kept, next := Take(recent, n), Take([m] + Without(recent, m), n);
            && Distinct(kept)
            && (m in kept ==> next == [m] + Without(kept, m))
            && (m !in kept && |kept| >= n ==> next == [m] + kept[..|kept| - 1])
            && (m !in kept && |kept| < n ==> next == [m] + kept)
  {
    var kept := Take(recent, n);
    if m in kept {
      var k :| 0 <= k < |kept| && kept[k] == m;
      TakeStepKept(recent, k, n);
    } else if m in recent {
      var k :| 0 <= k < |recent| && recent[k] == m;
      TakeStepEvicted(recent, k, n);
    } else {
      WithoutAbsent(recent, m);
    }
  }

  lemma TakeStepKept(recent: seq<Mint>, k: nat, n: nat)
    requires Distinct(recent) && k < |recent| && k < n
    ensures Take([recent[k]] + Without(recent, recent[k]), n) == [recent[k]] + Without(Take(recent, n), recent[k])
  {
    hide Without, Take, Distinct;
    WithoutAt(recent, k);
    TakeDistinct(recent, n);
    WithoutAt(Take(recent, n), k);
    MoveToFront(recent, k, n);
  }

  lemma TakeDistinct(s: seq<Mint>, n: nat)
    requires Distinct(s)
    ensures Distinct(Take(s, n))
    ensures forall i :: 0 <= i < |s| && i < n ==> i < |Take(s, n)| && Take(s, n)[i] == s[i]
  {
  }

  lemma MoveToFront(s: seq<Mint>, k: nat, n: nat)
    requires k < |s| && k < n
    ensures k < |Take(s, n)|
    ensures Take([s[k]] + (s[..k] + s[k + 1..]), n) == [s[k]] + (Take(s, n)[..k] + Take(s, n)[k + 1..])
  {
    hide Take;
    TakeIs(s, n);
    var kept, rest := Take(s, n), s[..k] + s[k + 1..];
    TakeIs([s[k]] + rest, n);
    RemoveThenTake(s, k, |kept|);
    assert ([s[k]] + rest)[..|kept|] == [s[k]] + rest[..|kept| - 1];
  }

  lemma TakeIs(s: seq<Mint>, n: nat)
    ensures Take(s, n) == if n < |s| then s[..n] else s[..|s|]
  {
  }

  lemma RemoveThenTake(s: seq<Mint>, k: nat, n: nat)
    requires k < n <= |s|
    ensures (s[..k] + s[k + 1..])[..n - 1] == s[..n][..k] + s[..n][k + 1..]
  {
  }

  lemma TakeStepEvicted(recent: seq<Mint>, k: nat, n: nat)
    requires Distinct(recent) && 1 <= n <= k < |recent|
    ensures Take([recent[k]] + Without(recent, recent[k]), n) == [recent[k]] + recent[..n - 1]
  {
    hide Without;
    WithoutAt(recent, k);
    var all := [recent[k]] + (recent[..k] + recent[k + 1..]);
    assert all[..n] == [recent[k]] + recent[..n - 1];
  }

  lemma InElements(s: seq<Mint>, m: Mint)
    ensures m in Elements(s) <==> m in s
  {
  }

  /** The mirrored set follows the queue. */
  lemma ElementsCons(kept: seq<Mint>, rest: seq<Mint>, m: Mint)
    ensures Elements([m] + rest) == Elements(rest) + {m}
    ensures rest == kept ==> Elements(kept) == Elements(rest)
    ensures m in kept && rest == Without(kept, m) ==> Elements(kept) + {m} == Elements(rest) + {m}
  {
    assert forall x :: x in [m] + rest <==> x == m || x in rest;
  }

  lemma {:induction false} DistinctSize(s: seq<Mint>)
    requires Distinct(s)
    ensures |Elements(s)| == |s|
    ensures s != [] ==> Elements(s[..|s| - 1]) == Elements(s) - {s[|s| - 1]}
  {
    if s != [] {
      var init, last := s[..|s| - 1], s[|s| - 1];
      DistinctSize(init);
      assert s == init + [last];
      assert Elements(s) == Elements(init) + {last};
    }
  }

  /** Latest last occurrence first. */
  ghost predicate ByLastIndex(history: seq<Mint>, s: seq<Mint>)
  {
    forall i, j :: 0 <= i < j < |s| ==> LastIndex(history, s[i]) > LastIndex(history, s[j])
  }

  /** The reference in terms of the history alone: exactly the added mints that are not always
      hot, ordered by their last occurrence, latest first. */
  lemma {:induction false} MostRecentMeaning(history: seq<Mint>, hot: set<Mint>)
    ensures forall x :: x in MostRecent(history, hot) <==> x in history && x !in hot
    ensures ByLastIndex(history, MostRecent(history, hot))
  {
    if history != [] {
      var before, m := history[..|history| - 1], history[|history| - 1];
      assert history == before + [m];
      MostRecentMeaning(before, hot);
      var rest := MostRecent(before, hot);
      if m in hot {
        LaterHistory(before, rest, m);
      } else {
        WithoutOrdered(before, rest, m);
        LaterHistory(before, Without(rest, m), m);
        LatestFirst(history, Without(rest, m), m);
      }
    }
  }

  lemma LaterHistory(history: seq<Mint>, s: seq<Mint>, m: Mint)
    requires ByLastIndex(history, s) && m !in s
    ensures ByLastIndex(history + [m], s)
    ensures forall i :: 0 <= i < |s| ==> LastIndex(history + [m], s[i]) < |history|
  {
    hide LastIndex;
    forall i | 0 <= i < |s| ensures LastIndex(history + [m], s[i]) == LastIndex(history, s[i]) {
      LastIndexSkip(history, m, s[i]);
    }
  }

  lemma LastIndexSkip(history: seq<Mint>, m: Mint, x: Mint)
    requires x != m
    ensures LastIndex(history + [m], x) == LastIndex(history, x)
  {
    assert (history + [m])[..|history|] == history;
  }

  lemma LatestFirst(history: seq<Mint>, s: seq<Mint>, m: Mint)
    requires history != [] && history[|history| - 1] == m && ByLastIndex(history, s)
    requires forall i :: 0 <= i < |s| ==> LastIndex(history, s[i]) < |history| - 1
    ensures ByLastIndex(history, [m] + s)
  {
    assert LastIndex(history, m) == |history| - 1;
    hide LastIndex;
  }

  lemma {:induction false} WithoutOrdered(history: seq<Mint>, s: seq<Mint>, m: Mint)
    requires ByLastIndex(history, s)
    ensures ByLastIndex(history, Without(s, m))
    decreases |s|
  {
    hide LastIndex;
    if s != [] {
      WithoutOrdered(history, s[1..], m);
      var rest := Without(s[1..], m);
      forall i | 0 <= i < |rest| ensures LastIndex(history, s[0]) > LastIndex(history, rest[i]) {
        assert rest[i] in s[1..];
      }
    }
  }
}
