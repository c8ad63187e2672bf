/** The on-chain run of a printed swap (execute_swap_v3.rs). Cross-program invocation is an
    arbitrary function of the state of the chain; an index out of range or an arithmetic overflow
    is a panic, since the workspace builds with overflow checks. */
module Executor {
  import opened Common
  import opened SwapCodec

  type Amount = n: nat | n < U64

  datatype TokenAccount = TokenAccount(balance: Amount, mint: Pubkey)

  /** Token accounts by address, and everything else other programs may look at. */
  datatype World = World(tokens: map<Pubkey, TokenAccount>, other: nat)

  type Invoke = (World, Instruction, seq<AccountMeta>) -> Option<World>

  /** One completed hop: what was invoked, and the out account's balance around it. */
  datatype Call = Call(instruction: Instruction, accounts: seq<AccountMeta>,
                       pre: World, post: World, before: Amount, after: Amount)

  datatype SwapEvent = SwapEvent(inputMint: Pubkey, inputAmount: nat, outputMint: Pubkey, outputAmount: nat)

  datatype Outcome = Success | Slippage | ProgramError | Panicked

  function GetToken(w: World, account: AccountMeta): Option<TokenAccount>
  {
    if account.pubkey in w.tokens then Some(w.tokens[account.pubkey]) else None
  }

  /** The data with the eight bytes at the offset replaced by the amount. */
  function Patch(data: seq<Byte>, offset: nat, amount: nat): seq<Byte>
    requires offset + 8 <= |data|
  {
    data[..offset] + LittleEndian(amount, 8) + data[offset + 8..]
  }

  /** Index of the first account of hop `i`. */
  function StartOf(hops: seq<Hop>, i: nat): nat
    requires i <= |hops|
  {
    if i == 0 then 1 else StartOf(hops, i - 1) + hops[i - 1].accountCount
  }

  // ---- What a run is ----

  /** The eight bytes at the offset are the amount's, least first; all others are as before. */
  ghost predicate Patched(data: seq<Byte>, offset: nat, amount: nat, r: seq<Byte>)
  {
    && |r| == |data|
    && (forall i :: 0 <= i < |data| && !(offset <= i < offset + 8) ==> r[i] == data[i])
    && (forall i :: offset <= i < offset + 8 && i < |data| ==> r[i] == amount / Pow256(i - offset) % 256)
  }

  lemma PatchedIff(data: seq<Byte>, offset: nat, amount: nat, r: seq<Byte>)
    requires offset + 8 <= |data|
    ensures Patched(data, offset, amount, r) <==> r == Patch(data, offset, amount)
  {
    hide LittleEndian, Pow256;
    var p := Patch(data, offset, amount);
    forall i | offset <= i < offset + 8 ensures p[i] == amount / Pow256(i - offset) % 256 {
      LittleEndianAt(amount, 8, i - offset);
    }
    forall i | 0 <= i < |data| && !(offset <= i < offset + 8) ensures p[i] == data[i] {
    }
    if Patched(data, offset, amount, r) {
      forall i | 0 <= i < |data| ensures r[i] == p[i] {
      }
    }
  }

  /** The token account exists, with this balance. */
  ghost predicate HasBalance(w: World, account: Pubkey, balance: nat)
  {
    account in w.tokens && w.tokens[account].balance == balance
  }

  /** The hop was invoked on its slice of the accounts, with its data as printed when it is the
      first one and otherwise with the incoming amount patched in, and did not lower its out
      account. */
  ghost predicate HopDone(invoke: Invoke, accounts: seq<AccountMeta>, start: nat, hop: Hop, first: bool, inAmount: nat,
                          c: Call)
  {
    && hop.accountCount >= 2 && start + hop.accountCount <= |accounts|
    && (first || hop.inAmountOffset + 8 <= |hop.data|)
    && c.accounts == accounts[start..start + hop.accountCount]
    && c.instruction.programId == c.accounts[1].pubkey && c.instruction.accounts == c.accounts[2..]
    && (if first then c.instruction.data == hop.data
        else Patched(hop.data, hop.inAmountOffset, inAmount, c.instruction.data))
    && invoke(c.pre, c.instruction, c.accounts) == Some(c.post)
    && HasBalance(c.pre, c.accounts[0].pubkey, c.before) && HasBalance(c.post, c.accounts[0].pubkey, c.after)
    && c.before <= c.after
  }

  /** The amount handed to hop `i`: what hop `i - 1` was measured to have added. */
  ghost function Incoming(calls: seq<Call>, i: nat): nat
    requires i <= |calls|
  {
    if i == 0 then 0 else if calls[i - 1].after < calls[i - 1].before then 0
      else calls[i - 1].after - calls[i - 1].before
  }

  ghost function WorldAt(w0: World, calls: seq<Call>, i: nat): World
    requires i <= |calls|
  {
    if i == 0 then w0 else calls[i - 1].post
  }

  /** All the hops were done, one after the other. */
  ghost predicate Run(invoke: Invoke, accounts: seq<AccountMeta>, w0: World, hops: seq<Hop>, calls: seq<Call>)
  {
    && |calls| == |hops|
    && forall i :: 0 <= i < |calls| ==>
         && HopDone(invoke, accounts, StartOf(hops, i), hops[i], i == 0, Incoming(calls, i), calls[i])
         && calls[i].pre == WorldAt(w0, calls, i)
  }

  lemma {:induction false} StartOfPrefix(hops: seq<Hop>, more: seq<Hop>, i: nat)
    requires i <= |hops|
    ensures StartOf(hops + more, i) == StartOf(hops, i)
  {
    if i > 0 {
      StartOfPrefix(hops, more, i - 1);
    }
  }

  lemma RunStep(invoke: Invoke, accounts: seq<AccountMeta>, w0: World, hops: seq<Hop>, calls: seq<Call>, hop: Hop,
                c: Call)
    requires Run(invoke, accounts, w0, hops, calls)
    requires HopDone(invoke, accounts, StartOf(hops, |hops|), hop, |hops| == 0, Incoming(calls, |calls|), c)
    requires c.pre == WorldAt(w0, calls, |calls|)
    ensures Run(invoke, accounts, w0, hops + [hop], calls + [c])
    ensures StartOf(hops + [hop], |hops| + 1) == StartOf(hops, |hops|) + hop.accountCount
  {
    hide HopDone;
    var hops', calls' := hops + [hop], calls + [c];
    StartOfPrefix(hops, [hop], |hops|);
    forall i | 0 <= i < |calls'|
      ensures HopDone(invoke, accounts, StartOf(hops', i), hops'[i], i == 0, Incoming(calls', i), calls'[i])
      ensures calls'[i].pre == WorldAt(w0, calls', i)
    {
      StartOfPrefix(hops, [hop], i);
      assert Incoming(calls', i) == Incoming(calls, i);
      assert WorldAt(w0, calls', i) == WorldAt(w0, calls, i);
    }
  }

  /** From this state the hop cannot be done in any way. */
  ghost predicate Blocked(invoke: Invoke, w: World, accounts: seq<AccountMeta>, start: nat, hop: Hop, first: bool,
                          inAmount: nat)
  {
    forall c: Call :: c.pre == w ==> !HopDone(invoke, accounts, start, hop, first, inAmount, c)
  }

  /** The whole payload parses and runs, and the first hop did not add to the input account. */
  ghost predicate RunsThrough(invoke: Invoke, accounts: seq<AccountMeta>, w0: World, payload: seq<Byte>,
                              calls: seq<Call>)
  {
    && ParseSwap(payload).Some? && accounts != [] && accounts[0].pubkey in w0.tokens
    && Run(invoke, accounts, w0, ParseSwap(payload).value.0.hops, calls)
    && (calls != [] ==> InputTaken(w0, accounts[0], calls[0]))
  }

  /** The input account is still readable after the first hop and holds no more than before. */
  ghost predicate InputTaken(w0: World, input: AccountMeta, c: Call)
  {
    && input.pubkey in w0.tokens && input.pubkey in c.post.tokens
    && c.post.tokens[input.pubkey].balance <= w0.tokens[input.pubkey].balance
  }

  lemma RunAt(invoke: Invoke, accounts: seq<AccountMeta>, w0: World, hops: seq<Hop>, calls: seq<Call>, j: nat)
    requires Run(invoke, accounts, w0, hops, calls) && j < |hops|
    ensures |calls| == |hops|
    ensures HopDone(invoke, accounts, StartOf(hops, j), hops[j], j == 0, Incoming(calls, j), calls[j])
    ensures calls[j].pre == WorldAt(w0, calls, j)
  {
    hide HopDone, StartOf;
  }

  /** Invocation is deterministic, so a run is determined by its hops. */
  lemma {:induction false} RunUnique(invoke: Invoke, accounts: seq<AccountMeta>, w0: World, hops: seq<Hop>,
                                     more: seq<Hop>, calls: seq<Call>, full: seq<Call>, j: nat)
    requires Run(invoke, accounts, w0, hops, calls) && Run(invoke, accounts, w0, hops + more, full)
    requires j < |hops|
    ensures |calls| == |hops| && |full| == |hops + more| && full[j] == calls[j]
  {
    hide HopDone, Run, StartOf;
    if j > 0 {
      RunUnique(invoke, accounts, w0, hops, more, calls, full, j - 1);
    }
    RunAt(invoke, accounts, w0, hops, calls, j);
    RunAt(invoke, accounts, w0, hops + more, full, j);
    StartOfPrefix(hops, more, j);
    HopUnique(invoke, accounts, StartOf(hops, j), hops[j], j == 0, Incoming(calls, j), calls[j], full[j]);
  }

  lemma HopUnique(invoke: Invoke, accounts: seq<AccountMeta>, start: nat, hop: Hop, first: bool, inAmount: nat,
                  c: Call, d: Call)
    requires HopDone(invoke, accounts, start, hop, first, inAmount, c)
    requires HopDone(invoke, accounts, start, hop, first, inAmount, d)
    requires c.pre == d.pre
    ensures c == d
  {
    hide Patch, Patched;
    if !first {
      PatchedIff(hop.data, hop.inAmountOffset, inAmount, c.instruction.data);
      PatchedIff(hop.data, hop.inAmountOffset, inAmount, d.instruction.data);
    }
    assert c.instruction == d.instruction;
  }

  lemma {:induction false} ParseHopsPrefix(data: seq<Byte>, m: nat, n: nat)
    requires m <= n && ParseHops(data, n).Some?
    ensures ParseHops(data, m).Some? && |ParseHops(data, n).value.0| == n
    ensures ParseHops(data, n).value.0[..m] == ParseHops(data, m).value.0
    decreases n
  {
    hide ParseHop;
    if n > 0 {
      ParseHopsPrefix(data, if m < n then m else n - 1, n - 1);
    }
  }

  /** A complete run goes through every state the loop reaches, and goes on from there. */
  lemma FullRunContinues(invoke: Invoke, accounts: seq<AccountMeta>, w0: World, payload: seq<Byte>,
                         hops: seq<Hop>, rest: seq<Byte>, calls: seq<Call>, full: seq<Call>)
    requires |payload| >= 9 && |calls| < payload[8]
    requires ParseHops(HopBytes(payload), |calls|) == Some((hops, rest)) && Run(invoke, accounts, w0, hops, calls)
    requires RunsThrough(invoke, accounts, w0, payload, full)
    ensures var i := |calls|;
            && ParseHop(rest).Some? && |full| > i && full[i].pre == WorldAt(w0, calls, i)
            && HopDone(invoke, accounts, StartOf(hops, i), ParseHop(rest).value.0, i == 0, Incoming(calls, i), full[i])
            && InputTaken(w0, accounts[0], full[0])
  {
    hide HopDone, ParseHop, ParseHops, InputTaken, Run, StartOf, ParseSwap;
    var i := |calls|;
    var all := ParseSwap(payload).value.0.hops;
    HopsSplit(payload, i);
    RunLength(invoke, accounts, w0, hops, calls);
    RunLength(invoke, accounts, w0, all, full);
    if i > 0 {
      RunUnique(invoke, accounts, w0, hops, all[i..], calls, full, i - 1);
    }
    RunAt(invoke, accounts, w0, all, full, i);
    StartOfPrefix(hops, all[i..], i);
  }

  lemma RunLength(invoke: Invoke, accounts: seq<AccountMeta>, w0: World, hops: seq<Hop>, calls: seq<Call>)
    requires Run(invoke, accounts, w0, hops, calls)
    ensures |calls| == |hops|
  {
  }

  /** Parsing all the hops passes through parsing the first `i`. */
  lemma HopsSplit(payload: seq<Byte>, i: nat)
    requires |payload| >= 9 && i < payload[8] && ParseSwap(payload).Some?
    ensures var all := ParseSwap(payload).value.0.hops;
            var first := ParseHops(HopBytes(payload), i);
            && |all| == payload[8] && first.Some? && |first.value.0| == i
            && all == first.value.0 + all[i..]
            && ParseHop(first.value.1).Some? && all[i] == ParseHop(first.value.1).value.0
  {
    hide ParseHop, ParseHops, ParseSwap;
    HeaderSplit(payload);
    var all := ParseSwap(payload).value.0.hops;
    ParseHopsPrefix(HopBytes(payload), i, payload[8]);
    ParseHopsPrefix(HopBytes(payload), i + 1, payload[8]);
    ParseHopsNext(HopBytes(payload), i);
    assert all[i] == all[..i + 1][i];
  }

  /** Where the loop gives up, no complete run exists. */
  lemma StuckMeansNoRun(invoke: Invoke, accounts: seq<AccountMeta>, w0: World, payload: seq<Byte>,
                        hops: seq<Hop>, rest: seq<Byte>, calls: seq<Call>)
    requires |payload| >= 9 && |calls| < payload[8]
    requires ParseHops(HopBytes(payload), |calls|) == Some((hops, rest)) && Run(invoke, accounts, w0, hops, calls)
    requires var i := |calls|;
             || ParseHop(rest).None?
             || Blocked(invoke, WorldAt(w0, calls, i), accounts, StartOf(hops, i), ParseHop(rest).value.0, i == 0,
                        Incoming(calls, i))
             || (i == 0 && accounts != [] && forall c: Call ::
                   c.pre == w0 && HopDone(invoke, accounts, 1, ParseHop(rest).value.0, true, 0, c) ==>
                     !InputTaken(w0, accounts[0], c))
    ensures forall full :: !RunsThrough(invoke, accounts, w0, payload, full)
  {
    hide HopDone, ParseHop, ParseHops, InputTaken, RunsThrough, Run;
    forall full
      ensures !RunsThrough(invoke, accounts, w0, payload, full)
    {
      if RunsThrough(invoke, accounts, w0, payload, full) {
        FullRunContinues(invoke, accounts, w0, payload, hops, rest, calls, full);
      }
    }
  }

  lemma HeaderSplit(payload: seq<Byte>)
    requires |payload| >= 9
    ensures ReadU64(payload).Some? && ReadU8(ReadU64(payload).value.1) == Some((payload[8], HopBytes(payload)))
    ensures ParseSwap(payload).Some? ==>
              && ParseHops(HopBytes(payload), payload[8]).Some?
              && ParseSwap(payload).value.0.hops == ParseHops(HopBytes(payload), payload[8]).value.0
  {
    hide ParseHops, FromLittleEndian;
    assert payload[8..][1..] == payload[9..];
  }

  lemma ParseHopsNext(data: seq<Byte>, n: nat)
    requires ParseHops(data, n + 1).Some?
    ensures ParseHops(data, n).Some? && ParseHop(ParseHops(data, n).value.1).Some?
    ensures |ParseHops(data, n).value.0| == n
    ensures ParseHops(data, n + 1).value.0
            == ParseHops(data, n).value.0 + [ParseHop(ParseHops(data, n).value.1).value.0]
  {
    hide ParseHop;
    ParseHopsPrefix(data, n, n);
  }

  // ---- The program ----

  /** How a hop ends: with a panic where an index is out of range or its out account loses, and with an error
      where that account is missing or the call fails. */
  ghost predicate EndsAs(invoke: Invoke, w: World, accounts: seq<AccountMeta>, start: nat, hop: Hop, first: bool,
                         inAmount: nat, outcome: Outcome)
  {
    if hop.accountCount < 2 || |accounts| < start + hop.accountCount || (!first && |hop.data| < hop.inAmountOffset + 8)
    then outcome == Panicked
    else
      var slice := accounts[start..start + hop.accountCount];
      var account := slice[0].pubkey;
      if account !in w.tokens then outcome == ProgramError
      else
        exists data :: && (if first then data == hop.data else Patched(hop.data, hop.inAmountOffset, inAmount, data))
                       && var post := invoke(w, Instruction(slice[1].pubkey, slice[2..], data), slice);
                          if post.None? || account !in post.value.tokens then outcome == ProgramError
                          else if post.value.tokens[account].balance < w.tokens[account].balance then outcome
                            == Panicked
                          else outcome == Success
  }

  /** One turn of the loop after the hop is parsed. */
  method ExecuteHop(invoke: Invoke, w: World, accounts: seq<AccountMeta>, start: nat, hop: Hop, first: bool,
                    inAmount: Amount)
    returns (outcome: Outcome, c: Option<Call>, outMint: Pubkey)
    ensures outcome.Success? <==> c.Some?
    ensures !outcome.Slippage?
    ensures c.Some? ==> c.value.pre == w && HopDone(invoke, accounts, start, hop, first, inAmount, c.value)
    ensures c.None? ==> Blocked(invoke, w, accounts, start, hop, first, inAmount)
    ensures EndsAs(invoke, w, accounts, start, hop, first, inAmount, outcome)
    ensures c.Some? ==> GetToken(c.value.post, c.value.accounts[0]).value.mint == outMint
  {
    hide LittleEndian, Patch, Patched;
    c, outMint := None, 0;
    if start + hop.accountCount > |accounts| {
      return Panicked, c, outMint;
    }
    var ixAccounts := accounts[start..start + hop.accountCount];
    var ixData := hop.data;
    if !first {
      if hop.inAmountOffset + 8 > |ixData| {
        return Panicked, c, outMint;
      }
      ixData := Patch(ixData, hop.inAmountOffset, inAmount);
    }
    DataUnique(hop, first, inAmount, ixData);
    if |ixAccounts| < 2 {
      return Panicked, c, outMint;
    }
    var instruction := Instruction(ixAccounts[1].pubkey, ixAccounts[2..], ixData);
    var tokenBefore := GetToken(w, ixAccounts[0]);
    if tokenBefore.None? {
      return ProgramError, c, outMint;
    }
    var invoked := invoke(w, instruction, ixAccounts);
    if invoked.None? {
      return ProgramError, c, outMint;
    }
    var tokenAfter := GetToken(invoked.value, ixAccounts[0]);
    if tokenAfter.None? {
      return ProgramError, c, outMint;
    }
    if tokenAfter.value.balance < tokenBefore.value.balance {
      return Panicked, c, outMint;
    }
    outcome := Success;
    outMint := tokenAfter.value.mint;
    c := Some(Call(instruction, ixAccounts, w, invoked.value, tokenBefore.value.balance, tokenAfter.value.balance));
  }

  /** The data passed on is the only one a done hop can have. */
  lemma DataUnique(hop: Hop, first: bool, inAmount: nat, ixData: seq<Byte>)
    requires first || hop.inAmountOffset + 8 <= |hop.data|
    requires ixData == if first then hop.data else Patch(hop.data, hop.inAmountOffset, inAmount)
    ensures forall data :: (if first then data == hop.data else Patched(hop.data, hop.inAmountOffset, inAmount, data))
                           <==> data == ixData
  {
    hide Patch, Patched;
    forall data
      ensures (if first then data == hop.data else Patched(hop.data, hop.inAmountOffset, inAmount, data))
              <==> data == ixData
    {
      if !first {
        PatchedIff(hop.data, hop.inAmountOffset, inAmount, data);
      }
    }
  }

  /** The gain of the last hop, which is what the slippage check looks at. */
  ghost function FinalAmount(calls: seq<Call>): nat
  {
    Incoming(calls, |calls|)
  }

  /** The payload after its header. */
  function HopBytes(payload: seq<Byte>): seq<Byte>
  {
    if |payload| >= 9 then payload[9..] else []
  }

  /** Why the program stops after these calls: no header, no input account, or it is missing; the next hop
      cannot be read, or does not succeed; or the input account is missing after the first hop, or gained. */
  ghost predicate StopsAs(invoke: Invoke, w0: World, accounts: seq<AccountMeta>, payload: seq<Byte>, calls: seq<Call>,
                          outcome: Outcome)
  {
    var i, parsed := |calls|, ParseHops(HopBytes(payload), |calls|);
    if |payload| < 9 || accounts == [] then calls == [] && outcome == Panicked
    else if accounts[0].pubkey !in w0.tokens then calls == [] && outcome == ProgramError
    else
      && i < payload[8] && parsed.Some? && |parsed.value.0| == i
      && if ParseHop(parsed.value.1).None? then outcome == Panicked
         else
           var hop, start := ParseHop(parsed.value.1).value.0, StartOf(parsed.value.0, i);
           || (&& outcome != Success
               && EndsAs(invoke, WorldAt(w0, calls, i), accounts, start, hop, i == 0, Incoming(calls, i), outcome))
           || (&& i == 0
               && exists c: Call :: c.pre == w0 && HopDone(invoke, accounts, start, hop, true, 0, c)
                    && if accounts[0].pubkey !in c.post.tokens then outcome == ProgramError
                       else
                         && outcome == Panicked
                         && c.post.tokens[accounts[0].pubkey].balance > w0.tokens[accounts[0].pubkey].balance)
  }

  method ExecuteSwapV3(invoke: Invoke, w0: World, accounts: seq<AccountMeta>, payload: seq<Byte>)
    returns (outcome: Outcome, calls: seq<Call>, event: Option<SwapEvent>)
    // Whatever the outcome, the hops invoked so far are a run of the first hops of the payload.
    ensures ParseHops(HopBytes(payload), |calls|).Some?
    ensures Run(invoke, accounts, w0, ParseHops(HopBytes(payload), |calls|).value.0, calls)
    // The outcome is decided by the slippage check exactly when the whole payload runs through.
    ensures outcome in {Success, Slippage} ==>
              && RunsThrough(invoke, accounts, w0, payload, calls)
              && (outcome.Success? <==> FinalAmount(calls) >= ParseSwap(payload).value.0.minOutAmount)
              && event.Some? && event.value == EventOf(w0, accounts, calls)
    ensures outcome !in {Success, Slippage} ==> forall full :: !RunsThrough(invoke, accounts, w0, payload, full)
    ensures outcome !in {Success, Slippage} ==>
              event == None && StopsAs(invoke, w0, accounts, payload, calls, outcome)
  {
    hide HopDone, Run, ParseHop, LittleEndian, FromLittleEndian, Blocked, EventOf, EndsAs;
    calls, event := [], None;
    EmptyRun(invoke, accounts, w0);
    var minOut := ReadU64(payload);
    if minOut.None? {
      return Panicked, calls, event;
    }
    var count := ReadU8(minOut.value.1);
    if count.None? {
      return Panicked, calls, event;
    }
    var minOutAmount, numberOfIx := minOut.value.0, count.value.0;
    if accounts == [] {
      return Panicked, calls, event;
    }
    var source := GetToken(w0, accounts[0]);
    if source.None? {
      return ProgramError, calls, event;
    }
    var inAmount: Amount := 0;
    var ixAccountIndex := 1;
    var data := count.value.1;
    var inputAmount: nat, inputMint, outputMint := 0, 0, 0;
    var w := w0;
    ghost var hops: seq<Hop> := [];
    HeaderSplit(payload);
    NoEvent(w0, accounts);
    var i := 0;
    while i < numberOfIx
      invariant 0 <= i <= numberOfIx && |calls| == |hops| == i
      invariant ParseHops(HopBytes(payload), i) == Some((hops, data))
      invariant Run(invoke, accounts, w0, hops, calls)
      invariant ixAccountIndex == StartOf(hops, i) && inAmount == Incoming(calls, i) && w == WorldAt(w0, calls, i)
      invariant i > 0 ==> InputTaken(w0, accounts[0], calls[0])
      invariant i > 0 ==> inputMint == source.value.mint
                          && inputAmount == source.value.balance - GetToken(calls[0].post, accounts[0]).value.balance
      invariant EventOf(w0, accounts, calls) == SwapEvent(inputMint, inputAmount, outputMint, inAmount)
    {
      var parsed := ParseHop(data);
      if parsed.None? {
        StuckMeansNoRun(invoke, accounts, w0, payload, hops, data, calls);
        return Panicked, calls, event;
      }
      var hop := parsed.value.0;
      var status, c, outMint := ExecuteHop(invoke, w, accounts, ixAccountIndex, hop, i == 0, inAmount);
      if c.None? {
        StuckMeansNoRun(invoke, accounts, w0, payload, hops, data, calls);
        return status, calls, event;
      }
      if i == 0 {
        var now := GetToken(c.value.post, accounts[0]);
        if now.None? || now.value.balance > source.value.balance {
          OnlyThisCall(invoke, w0, accounts, hop, c.value);
          StuckMeansNoRun(invoke, accounts, w0, payload, hops, data, calls);
          return if now.None? then ProgramError else Panicked, calls, event;
        }
        inputAmount := source.value.balance - now.value.balance;
        inputMint := source.value.mint;
      }
      RunStep(invoke, accounts, w0, hops, calls, hop, c.value);
      HopDoneGain(invoke, accounts, ixAccountIndex, hop, i == 0, inAmount, c.value);
      EventStep(w0, accounts, calls, c.value);
      inAmount := c.value.after - c.value.before;
      data := parsed.value.1;
      ixAccountIndex := ixAccountIndex + hop.accountCount;
      outputMint := outMint;
      w := c.value.post;
      calls := calls + [c.value];
      hops := hops + [hop];
      i := i + 1;
    }
    event := Some(SwapEvent(inputMint, inputAmount, outputMint, inAmount));
    outcome := if inAmount < minOutAmount then Slippage else Success;
  }

  /** What is logged: what the first hop took from the input account, and what the last one
      added to its out account, with their mints. */
  ghost function EventOf(w0: World, accounts: seq<AccountMeta>, calls: seq<Call>): SwapEvent
  {
    if calls == [] || accounts == [] || !InputTaken(w0, accounts[0], calls[0]) || calls[|calls| - 1].accounts == []
       || calls[|calls| - 1].accounts[0].pubkey !in calls[|calls| - 1].post.tokens
    then SwapEvent(0, 0, 0, 0)
    else
      var input, last := w0.tokens[accounts[0].pubkey], calls[|calls| - 1];
      SwapEvent(input.mint, input.balance - calls[0].post.tokens[accounts[0].pubkey].balance,
                last.post.tokens[last.accounts[0].pubkey].mint, Incoming(calls, |calls|))
  }

  lemma NoEvent(w0: World, accounts: seq<AccountMeta>)
    ensures EventOf(w0, accounts, []) == SwapEvent(0, 0, 0, 0)
  {
  }

  lemma EventStep(w0: World, accounts: seq<AccountMeta>, calls: seq<Call>, c: Call)
    requires accounts != [] && c.accounts != [] && GetToken(c.post, c.accounts[0]).Some?
    requires InputTaken(w0, accounts[0], if calls == [] then c else calls[0]) && c.before <= c.after
    ensures var first := if calls == [] then c else calls[0];
            EventOf(w0, accounts, calls + [c])
            == SwapEvent(GetToken(w0, accounts[0]).value.mint,
                         GetToken(w0, accounts[0]).value.balance - GetToken(first.post, accounts[0]).value.balance,
                         GetToken(c.post, c.accounts[0]).value.mint, c.after - c.before)
  {
  }

  lemma OnlyThisCall(invoke: Invoke, w0: World, accounts: seq<AccountMeta>, hop: Hop, c: Call)
    requires accounts != [] && c.pre == w0 && HopDone(invoke, accounts, 1, hop, true, 0, c)
    requires !InputTaken(w0, accounts[0], c)
    ensures forall d: Call :: d.pre == w0 && HopDone(invoke, accounts, 1, hop, true, 0, d) ==>
              !InputTaken(w0, accounts[0], d)
  {
    hide HopDone, InputTaken;
    forall d: Call | d.pre == w0 && HopDone(invoke, accounts, 1, hop, true, 0, d)
      ensures !InputTaken(w0, accounts[0], d)
    {
      HopUnique(invoke, accounts, 1, hop, true, 0, c, d);
    }
  }

  lemma EmptyRun(invoke: Invoke, accounts: seq<AccountMeta>, w0: World)
    ensures Run(invoke, accounts, w0, [], [])
  {
  }

  lemma HopDoneGain(invoke: Invoke, accounts: seq<AccountMeta>, start: nat, hop: Hop, first: bool, inAmount: nat,
                    c: Call)
    requires HopDone(invoke, accounts, start, hop, first, inAmount, c)
    ensures c.before <= c.after && |c.accounts| == hop.accountCount >= 2
    ensures GetToken(c.post, c.accounts[0]).Some?
  {
  }

  // ---- Printed swaps ----

  /** Patching changes eight bytes, to the amount, and nothing else. */
  lemma PatchOnlyAtOffset(data: seq<Byte>, offset: nat, amount: Amount)
    requires offset + 8 <= |data|
    ensures var r := Patch(data, offset, amount);
            && |r| == |data|
            && FromLittleEndian(r[offset..offset + 8]) == amount
            && (forall i :: 0 <= i < |data| && !(offset <= i < offset + 8) ==> r[i] == data[i])
            && (forall k :: 0 <= k < 8 ==> r[offset + k] == amount / Pow256(k) % 256)
  {
    hide LittleEndian, FromLittleEndian, Pow256;
    forall k | 0 <= k < 8 ensures Patch(data, offset, amount)[offset + k] == amount / Pow256(k) % 256 {
      LittleEndianAt(amount, 8, k);
    }
    U64RoundTrip(amount, []);
    var le := LittleEndian(amount, 8);
    assert le + [] == le && le[..8] == le;
    assert Patch(data, offset, amount)[offset..offset + 8] == le;
  }

  /** The arguments of the printer, as the router passes them: one offset and one out account per
      instruction, everything small enough for its field and for the buffer. */
  ghost predicate Fits(instructions: seq<Instruction>, offsets: seq<nat>, outAccounts: seq<Pubkey>)
  {
    && |instructions| == |offsets| == |outAccounts| < 256
    && (forall i :: 0 <= i < |instructions| ==> |instructions[i].accounts| <= 253 && offsets[i] < 0x1_0000)
    && AllPrintable(instructions, offsets, |instructions|)
    && 10 + |EncodeHops(PrintedHops(instructions, offsets, |instructions|))| <= 1232
  }

  lemma {:induction false} HopDataFits(hops: seq<Hop>, i: nat)
    requires i < |hops|
    ensures |hops[i].data| <= |EncodeHops(hops)|
    decreases |hops|
  {
    if i < |hops| - 1 {
      HopDataFits(hops[..|hops| - 1], i);
    }
  }

  lemma {:induction false} PrintedStart(inAccount: Pubkey, instructions: seq<Instruction>, offsets: seq<nat>,
                                        outAccounts: seq<Pubkey>, n: nat)
    requires Fits(instructions, offsets, outAccounts) && n <= |instructions|
    ensures StartOf(PrintedHops(instructions, offsets, |instructions|), n)
            == |PrintedAccounts(inAccount, instructions, outAccounts, n)|
  {
    hide EncodeHops;
    if n > 0 {
      PrintedStart(inAccount, instructions, offsets, outAccounts, n - 1);
    }
  }

  lemma {:induction false} PrintedPrefix(inAccount: Pubkey, instructions: seq<Instruction>, outAccounts: seq<Pubkey>,
                                         m: nat, n: nat)
    requires m <= n <= |instructions| && n <= |outAccounts|
    ensures PrintedAccounts(inAccount, instructions, outAccounts, m)
              <= PrintedAccounts(inAccount, instructions, outAccounts, n)
    decreases n
  {
    if m < n {
      PrintedPrefix(inAccount, instructions, outAccounts, m, n - 1);
    }
  }

  /** The hops' slices of the printed accounts are consecutive, and hold what was printed. */
  lemma PrintedSlice(inAccount: Pubkey, instructions: seq<Instruction>, offsets: seq<nat>, outAccounts: seq<Pubkey>,
                     i: nat)
    requires Fits(instructions, offsets, outAccounts) && i < |instructions|
    ensures var hops := PrintedHops(instructions, offsets, |instructions|);
            var accounts := PrintedAccounts(inAccount, instructions, outAccounts, |instructions|);
            && StartOf(hops, i) + hops[i].accountCount <= |accounts|
            && accounts[StartOf(hops, i)..StartOf(hops, i) + hops[i].accountCount]
               == HopAccounts(instructions[i], outAccounts[i])
  {
    hide EncodeHops, StartOf, PrintedAccounts, HopAccounts, PrintedHop;
    var a := PrintedAccounts(inAccount, instructions, outAccounts, i);
    var b := HopAccounts(instructions[i], outAccounts[i]);
    PrintedStart(inAccount, instructions, offsets, outAccounts, i);
    PrintedPrefix(inAccount, instructions, outAccounts, i + 1, |instructions|);
    NextAccounts(inAccount, instructions, offsets, outAccounts, i);
    SliceOfConcat(a, b, PrintedAccounts(inAccount, instructions, outAccounts, |instructions|));
  }

  lemma NextAccounts(inAccount: Pubkey, instructions: seq<Instruction>, offsets: seq<nat>, outAccounts: seq<Pubkey>,
                     i: nat)
    requires i < |instructions| && i < |outAccounts| && i < |offsets| && |instructions[i].accounts| <= 253
    ensures PrintedAccounts(inAccount, instructions, outAccounts, i + 1)
            == PrintedAccounts(inAccount, instructions, outAccounts, i) + HopAccounts(instructions[i], outAccounts[i])
    ensures |HopAccounts(instructions[i], outAccounts[i])| == PrintedHop(instructions[i], offsets[i]).accountCount
  {
  }

  lemma SliceOfConcat<T>(a: seq<T>, b: seq<T>, all: seq<T>)
    requires a + b <= all
    ensures |a| + |b| <= |all| && all[|a|..|a| + |b|] == b
  {
  }

  /** Printing and parsing: the program recovers the version's low half, the minimum output and
      all the hops, with no byte and no account left over. */
  lemma PrintedParses(minOutAmount: nat, instructions: seq<Instruction>, offsets: seq<nat>, inAccount: Pubkey,
                      outAccounts: seq<Pubkey>, routerVersion: Byte)
    requires minOutAmount < U64 && Fits(instructions, offsets, outAccounts)
    ensures var n := |instructions|;
            var hops := PrintedHops(instructions, offsets, n);
            var d := ProcessInstruction(EncodeHeader(routerVersion, minOutAmount, n) + EncodeHops(hops));
            && d.SwapV3? && d.routerVersion == routerVersion % 16
            && ParseSwap(d.payload) == Some((Swap(minOutAmount, hops), []))
            && StartOf(hops, n) == |PrintedAccounts(inAccount, instructions, outAccounts, n)|
  {
    hide EncodeHops, EncodeHeader, ProcessInstruction, ParseSwap, PrintedAccounts, StartOf;
    var hops := PrintedHops(instructions, offsets, |instructions|);
    forall i | 0 <= i < |hops| ensures Encodable(hops[i]) {
      HopDataFits(hops, i);
    }
    SwapRoundTrip(routerVersion, Swap(minOutAmount, hops));
    PrintedStart(inAccount, instructions, offsets, outAccounts, |instructions|);
  }

  /** Printing and executing: in every run, hop `i` is the router's instruction `i` itself, apart
      from the amount patched into later hops. */
  lemma PrintedRun(instructions: seq<Instruction>, offsets: seq<nat>, inAccount: Pubkey, outAccounts: seq<Pubkey>,
                   invoke: Invoke, w0: World, calls: seq<Call>, i: nat)
    requires Fits(instructions, offsets, outAccounts) && i < |instructions|
    requires Run(invoke, PrintedAccounts(inAccount, instructions, outAccounts, |instructions|), w0,
                 PrintedHops(instructions, offsets, |instructions|), calls)
    ensures |calls| == |instructions|
    ensures CallIsInstruction(instructions[i], offsets[i], outAccounts[i], i == 0, Incoming(calls, i), calls[i])
  {
    hide EncodeHops, PrintedAccounts, CallIsInstruction, HopDone, StartOf, HopAccounts;
    var hops := PrintedHops(instructions, offsets, |instructions|);
    PrintedSlice(inAccount, instructions, offsets, outAccounts, i);
    PrintedCall(invoke, PrintedAccounts(inAccount, instructions, outAccounts, |instructions|), StartOf(hops, i),
                instructions[i], offsets[i], outAccounts[i], i == 0, Incoming(calls, i), calls[i]);
  }

  /** The call is the printed instruction, up to the patched amount. */
  ghost predicate CallIsInstruction(ix: Instruction, offset: nat, outAccount: Pubkey, first: bool, inAmount: nat,
                                    c: Call)
  {
    && (first || offset + 8 <= |ix.data|)
    && c.accounts == [AccountMeta(outAccount, false, true), AccountMeta(ix.programId, false, false)] + ix.accounts
    && c.instruction.programId == ix.programId && c.instruction.accounts == ix.accounts
    && (if first then c.instruction.data == ix.data else Patched(ix.data, offset, inAmount, c.instruction.data))
  }

  lemma PrintedCall(invoke: Invoke, accounts: seq<AccountMeta>, start: nat, ix: Instruction, offset: nat,
                    outAccount: Pubkey, first: bool, inAmount: nat, c: Call)
    requires |ix.accounts| <= 253
    requires HopDone(invoke, accounts, start, PrintedHop(ix, offset), first, inAmount, c)
    requires start + PrintedHop(ix, offset).accountCount <= |accounts|
    requires accounts[start..start + PrintedHop(ix, offset).accountCount] == HopAccounts(ix, outAccount)
    ensures CallIsInstruction(ix, offset, outAccount, first, inAmount, c)
  {
    hide Patched;
    assert HopAccounts(ix, outAccount)[2..] == ix.accounts;
  }
}
