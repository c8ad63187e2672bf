/** From the router's instructions to the effects of the on-chain run: printing (swap_ix.rs),
    dispatching (lib.rs) and executing (execute_swap_v3.rs) put together. */
module PrintedSwaps {
  import opened Common
  import opened SwapCodec
  import opened Executor

  /** The call was made, and the out account's balance around it measured and not lowered. */
  ghost predicate Measured(invoke: Invoke, c: Call)
  {
    && invoke(c.pre, c.instruction, c.accounts) == Some(c.post) && c.accounts != []
    && HasBalance(c.pre, c.accounts[0].pubkey, c.before) && HasBalance(c.post, c.accounts[0].pubkey, c.after)
    && c.before <= c.after
  }

  /** The calls are the router's first instructions, in order: each on the state the one before it
      left, and each but the first with what the one before it was measured to gain. */
  ghost predicate InstructionRun(invoke: Invoke, w0: World, instructions: seq<Instruction>, offsets: seq<nat>,
                                 outAccounts: seq<Pubkey>, calls: seq<Call>)
    requires |calls| <= |instructions| && |calls| <= |offsets| && |calls| <= |outAccounts|
  {
    forall i :: 0 <= i < |calls| ==>
      && CallIsInstruction(instructions[i], offsets[i], outAccounts[i], i == 0, Incoming(calls, i), calls[i])
      && Measured(invoke, calls[i]) && calls[i].pre == WorldAt(w0, calls, i)
  }

  function Input(inAccount: Pubkey): AccountMeta { AccountMeta(inAccount, false, true) }

  /** All the instructions ran, and the first did not add to the input account. */
  ghost predicate Completes(invoke: Invoke, w0: World, inAccount: Pubkey, instructions: seq<Instruction>,
                            offsets: seq<nat>, outAccounts: seq<Pubkey>, calls: seq<Call>)
    requires |instructions| == |offsets| == |outAccounts|
  {
    && |calls| == |instructions| && InstructionRun(invoke, w0, instructions, offsets, outAccounts, calls)
    && inAccount in w0.tokens
    && (calls != [] ==> InputTaken(w0, Input(inAccount), calls[0]))
  }

  /** One hop is done as parsed exactly when the printed instruction was called and measured. */
  lemma HopIsInstruction(invoke: Invoke, accounts: seq<AccountMeta>, start: nat, ix: Instruction, offset: nat,
                         outAccount: Pubkey, first: bool, inAmount: nat, c: Call)
    requires |ix.accounts| <= 253
    requires start + PrintedHop(ix, offset).accountCount <= |accounts|
    requires accounts[start..start + PrintedHop(ix, offset).accountCount] == HopAccounts(ix, outAccount)
    ensures HopDone(invoke, accounts, start, PrintedHop(ix, offset), first, inAmount, c) <==>
            CallIsInstruction(ix, offset, outAccount, first, inAmount, c) && Measured(invoke, c)
  {
    hide Patched, GetToken;
    assert HopAccounts(ix, outAccount)[2..] == ix.accounts;
  }

  /** A run of the first `m` printed hops is a run of the first `m` instructions, and conversely. */
  lemma PrintedRunIff(invoke: Invoke, w0: World, inAccount: Pubkey, instructions: seq<Instruction>, offsets: seq<nat>,
                      outAccounts: seq<Pubkey>, m: nat, calls: seq<Call>)
    requires Fits(instructions, offsets, outAccounts) && m <= |instructions|
    ensures Run(invoke, PrintedAccounts(inAccount, instructions, outAccounts, |instructions|), w0,
                PrintedHops(instructions, offsets, |instructions|)[..m], calls) <==>
            |calls| == m && InstructionRun(invoke, w0, instructions, offsets, outAccounts, calls)
  {
    hide EncodeHops, PrintedAccounts, CallIsInstruction, HopDone, StartOf, HopAccounts, Measured, PrintedHop;
    var hops := PrintedHops(instructions, offsets, |instructions|);
    var accounts := PrintedAccounts(inAccount, instructions, outAccounts, |instructions|);
    if |calls| == m {
      forall i | 0 <= i < m
        ensures HopDone(invoke, accounts, StartOf(hops[..m], i), hops[..m][i], i == 0, Incoming(calls, i),
                        calls[i]) <==>
                && CallIsInstruction(instructions[i], offsets[i], outAccounts[i], i == 0, Incoming(calls, i), calls[i])
                && Measured(invoke, calls[i])
      {
        assert hops[..m] + hops[m..] == hops;
        StartOfPrefix(hops[..m], hops[m..], i);
        PrintedSlice(inAccount, instructions, offsets, outAccounts, i);
        HopIsInstruction(invoke, accounts, StartOf(hops, i), instructions[i], offsets[i], outAccounts[i], i == 0,
                         Incoming(calls, i), calls[i]);
      }
    }
  }

  lemma PrintedRunsThrough(invoke: Invoke, w0: World, inAccount: Pubkey, instructions: seq<Instruction>,
                           offsets: seq<nat>, outAccounts: seq<Pubkey>, minOutAmount: nat, payload: seq<Byte>,
                           calls: seq<Call>)
    requires Fits(instructions, offsets, outAccounts)
    requires ParseSwap(payload) == Some((Swap(minOutAmount, PrintedHops(instructions, offsets, |instructions|)), []))
    ensures RunsThrough(invoke, PrintedAccounts(inAccount, instructions, outAccounts, |instructions|), w0, payload,
                        calls)
            <==> Completes(invoke, w0, inAccount, instructions, offsets, outAccounts, calls)
  {
    hide EncodeHops, ParseSwap, Run, InstructionRun, PrintedHop, InputTaken;
    var hops := PrintedHops(instructions, offsets, |instructions|);
    assert hops[..|instructions|] == hops;
    PrintedRunIff(invoke, w0, inAccount, instructions, offsets, outAccounts, |instructions|, calls);
    FirstAccount(inAccount, instructions, outAccounts, |instructions|);
  }

  lemma {:induction false} FirstAccount(inAccount: Pubkey, instructions: seq<Instruction>, outAccounts: seq<Pubkey>,
                                        n: nat)
    requires n <= |instructions| && n <= |outAccounts|
    ensures PrintedAccounts(inAccount, instructions, outAccounts, n) != []
    ensures PrintedAccounts(inAccount, instructions, outAccounts, n)[0] == Input(inAccount)
  {
    if n > 0 {
      FirstAccount(inAccount, instructions, outAccounts, n - 1);
    }
  }

  /** Logged is what the first call took from the input account and what the last one added to its out
      account, with their mints. */
  ghost predicate Logged(w0: World, inAccount: Pubkey, calls: seq<Call>, event: SwapEvent)
  {
    if calls == [] then event == SwapEvent(0, 0, 0, 0)
    else
      var first, last := calls[0], calls[|calls| - 1];
      && inAccount in w0.tokens && inAccount in first.post.tokens
      && event.inputMint == w0.tokens[inAccount].mint
      && event.inputAmount + first.post.tokens[inAccount].balance == w0.tokens[inAccount].balance
      && last.accounts != [] && last.accounts[0].pubkey in last.post.tokens
      && event.outputMint == last.post.tokens[last.accounts[0].pubkey].mint
      && event.outputAmount + last.before == last.after
  }

  lemma EventLogged(invoke: Invoke, w0: World, inAccount: Pubkey, instructions: seq<Instruction>, offsets: seq<nat>,
                    outAccounts: seq<Pubkey>, calls: seq<Call>, accounts: seq<AccountMeta>)
    requires |instructions| == |offsets| == |outAccounts| && accounts != [] && accounts[0] == Input(inAccount)
    requires Completes(invoke, w0, inAccount, instructions, offsets, outAccounts, calls)
    ensures Logged(w0, inAccount, calls, EventOf(w0, accounts, calls))
  {
    hide CallIsInstruction;
    if calls != [] {
      assert Measured(invoke, calls[|calls| - 1]);
    }
  }

  /** What the router prints is dispatched to the program and executed there. Whatever happens, the
      calls made are its first instructions. If all of them can run, they do, and the swap succeeds
      exactly when the last measured gain reaches the minimum; otherwise it fails. */
  method PrintAndExecute(minOutAmount: nat, instructions: seq<Instruction>, offsets: seq<nat>, inAccount: Pubkey,
                         outAccounts: seq<Pubkey>, programId: Pubkey, routerVersion: Byte, invoke: Invoke, w0: World)
    returns (outcome: Outcome, calls: seq<Call>, event: Option<SwapEvent>)
    requires minOutAmount < U64 && Fits(instructions, offsets, outAccounts)
    ensures |calls| <= |instructions| && InstructionRun(invoke, w0, instructions, offsets, outAccounts, calls)
    ensures outcome in {Success, Slippage} ==>
              && Completes(invoke, w0, inAccount, instructions, offsets, outAccounts, calls)
              && (outcome.Success? <==> FinalAmount(calls) >= minOutAmount)
              && event.Some? && Logged(w0, inAccount, calls, event.value)
    ensures outcome !in {Success, Slippage} ==>
              forall full :: !Completes(invoke, w0, inAccount, instructions, offsets, outAccounts, full)
  {
    hide EncodeHops, EncodeHeader, ParseSwap, ParseHops, Run, InstructionRun, PrintedHop, PrintedAccounts, RunsThrough,
         Completes, ProcessInstruction, EventOf, Logged, DataLaidOut, AccountsLaidOut;
    var ix := GenerateSwapIxData(minOutAmount, instructions, offsets, inAccount, outAccounts, programId, routerVersion);
    PrintedParses(minOutAmount, instructions, offsets, inAccount, outAccounts, routerVersion);
    var dispatch := ProcessInstruction(ix.data);
    ghost var hops := PrintedHops(instructions, offsets, |instructions|);
    outcome, calls, event := ExecuteSwapV3(invoke, w0, ix.accounts, dispatch.payload);
    HopsParsed(dispatch.payload, minOutAmount, hops, |calls|);
    PrintedRunIff(invoke, w0, inAccount, instructions, offsets, outAccounts, |calls|, calls);
    forall full
      ensures RunsThrough(invoke, ix.accounts, w0, dispatch.payload, full)
              <==> Completes(invoke, w0, inAccount, instructions, offsets, outAccounts, full)
    {
      PrintedRunsThrough(invoke, w0, inAccount, instructions, offsets, outAccounts, minOutAmount, dispatch.payload,
                         full);
    }
    if outcome in {Success, Slippage} {
      FirstAccount(inAccount, instructions, outAccounts, |instructions|);
      EventLogged(invoke, w0, inAccount, instructions, offsets, outAccounts, calls, ix.accounts);
    }
  }

  /** The first hops of a payload are the first of all its hops. */
  lemma HopsParsed(payload: seq<Byte>, minOutAmount: nat, hops: seq<Hop>, m: nat)
    requires ParseSwap(payload) == Some((Swap(minOutAmount, hops), []))
    requires ParseHops(HopBytes(payload), m).Some?
    ensures m <= |hops| && ParseHops(HopBytes(payload), m).value.0 == hops[..m]
  {
    hide ParseHops, ParseHop;
    HeaderSplit(payload);
    var data, n := HopBytes(payload), |hops|;
    ParseHopsLength(data, payload[8]);
    if m <= n {
      ParseHopsPrefix(data, m, n);
    } else {
      ParseHopsPrefix(data, n + 1, m);
      ParseHopsNext(data, n);
      NoHopInNothing();
      assert false;
    }
  }

  lemma NoHopInNothing()
    ensures ParseHop([]).None?
  {
  }

  lemma ParseHopsLength(data: seq<Byte>, n: nat)
    ensures ParseHops(data, n).Some? ==> |ParseHops(data, n).value.0| == n
  {
    hide ParseHops;
    if ParseHops(data, n).Some? {
      ParseHopsPrefix(data, n, n);
    }
  }
}
