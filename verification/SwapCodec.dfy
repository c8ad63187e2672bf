/** The compact binary form of a multi-hop swap: what the router prints (swap_ix.rs, utils.rs)
    and what the on-chain program reads back (lib.rs, execute_swap_v3.rs). */
module SwapCodec {
  import opened Common
  import Powers

  type Pubkey = nat

  datatype AccountMeta = AccountMeta(pubkey: Pubkey, isSigner: bool, isWritable: bool)

  datatype Instruction = Instruction(programId: Pubkey, accounts: seq<AccountMeta>, data: seq<Byte>)

  const BUFFER_SIZE: nat := 1232
  const EXECUTE_SWAP_V3: Byte := 1

  // ---- Encodings ----

  function EncodeUx16(n: nat): (r: seq<Byte>)
    ensures |r| >= 1
  {
    if n >= 255 then [255] + EncodeUx16(n - 255) else [n]
  }

  /** Little-endian bytes. */
  function LittleEndian(n: nat, size: nat): (r: seq<Byte>)
    ensures |r| == size
  {
    if size == 0 then [] else [n % 256] + LittleEndian(n / 256, size - 1)
  }

  function FromLittleEndian(b: seq<Byte>): nat
  {
    if b == [] then 0 else b[0] + 256 * FromLittleEndian(b[1..])
  }

  // ---- Writing into the buffer ----

  method WriteU8(buf: array<Byte>, at: nat, n: Byte) returns (written: nat)
    requires at < buf.Length
    modifies buf
    ensures written == 1
    ensures buf[..at + written] == old(buf[..at]) + [n]
    ensures buf[at + written..] == old(buf[at + 1..])
  {
    buf[at] := n;
    written := 1;
  }

  /** The source writes each chunk by a recursive call on the rest of the slice. */
  method WriteUx16(buf: array<Byte>, at: nat, n: nat) returns (written: nat)
    requires at + |EncodeUx16(n)| <= buf.Length
    modifies buf
    ensures written == |EncodeUx16(n)|
    ensures buf[..at + written] == old(buf[..at]) + EncodeUx16(n)
    ensures buf[at + written..] == old(buf[at + |EncodeUx16(n)|..])
    decreases n
  {
    if n >= 255 {
      buf[at] := 255;
      var more := WriteUx16(buf, at + 1, n - 255);
      written := 1 + more;
      assert old(buf[..at]) + [255] + EncodeUx16(n - 255) == old(buf[..at]) + EncodeUx16(n);
    } else {
      buf[at] := n;
      written := 1;
    }
  }

  method WriteBytes(buf: array<Byte>, at: nat, b: seq<Byte>) returns (written: nat)
    requires at + |b| <= buf.Length
    modifies buf
    ensures written == |b|
    ensures buf[..at + written] == old(buf[..at]) + b
    ensures buf[at + written..] == old(buf[at + |b|..])
  {
    var i := 0;
    while i < |b|
      invariant 0 <= i <= |b|
      invariant buf[..at + i] == old(buf[..at]) + b[..i]
      invariant buf[at + i..] == old(buf[..])[at + i..]
    {
      buf[at + i] := b[i];
      i := i + 1;
    }
    written := |b|;
  }

  method WriteU64(buf: array<Byte>, at: nat, n: nat) returns (written: nat)
    requires at + 8 <= buf.Length && n < U64
    modifies buf
    ensures written == 8
    ensures buf[..at + written] == old(buf[..at]) + LittleEndian(n, 8)
    ensures buf[at + written..] == old(buf[at + 8..])
  {
    written := WriteBytes(buf, at, LittleEndian(n, 8));
  }

  // ---- Reading ----

  /** Split off a part; out of range panics. */
  function ExtractPart(data: seq<Byte>, size: nat): Option<(seq<Byte>, seq<Byte>)>
  {
    if size <= |data| then Some((data[..size], data[size..])) else None
  }

  function ReadU8(data: seq<Byte>): Option<(Byte, seq<Byte>)>
  {
    var part := ExtractPart(data, 1);
    if part.None? then None else Some((part.value.0[0], part.value.1))
  }

  function ReadU64(data: seq<Byte>): Option<(nat, seq<Byte>)>
  {
    var part := ExtractPart(data, 8);
    if part.None? then None else Some((FromLittleEndian(part.value.0), part.value.1))
  }

  function ReadBytes(size: nat, data: seq<Byte>): Option<(seq<Byte>, seq<Byte>)>
  {
    ExtractPart(data, size)
  }

  /** One byte below 255, or 255 followed by the rest; a sum over 16 bits panics. */
  function ReadUx16(data: seq<Byte>): Option<(nat, seq<Byte>)>
  {
    if data == [] then None
    else if data[0] < 255 then Some((data[0], data[1..]))
    else
      var rest := ReadUx16(data[1..]);
      if rest.None? || 255 + rest.value.0 >= 0x1_0000 then None
      else Some((255 + rest.value.0, rest.value.1))
  }

  // ---- Single fields round trip ----

  lemma {:induction false} Ux16RoundTrip(n: nat, rest: seq<Byte>)
    requires n < 0x1_0000
    ensures ReadUx16(EncodeUx16(n) + rest) == Some((n, rest))
    decreases n
  {
    var all := EncodeUx16(n) + rest;
    if n >= 255 {
      Ux16RoundTrip(n - 255, rest);
      assert all[1..] == EncodeUx16(n - 255) + rest;
    } else {
      assert all[1..] == rest;
    }
  }

  lemma {:induction false} LittleEndianRoundTrip(n: nat, size: nat)
    requires n < Pow256(size)
    ensures FromLittleEndian(LittleEndian(n, size)) == n
    decreases size
  {
    if size > 0 {
      LittleEndianRoundTrip(n / 256, size - 1);
      assert LittleEndian(n, size)[1..] == LittleEndian(n / 256, size - 1);
    }
  }

  function Pow256(n: nat): (r: nat)
    ensures r > 0
  {
    if n == 0 then 1 else 256 * Pow256(n - 1)
  }

  lemma U64RoundTrip(n: nat, rest: seq<Byte>)
    requires n < U64
    ensures ReadU64(LittleEndian(n, 8) + rest) == Some((n, rest))
  {
    assert Pow256(8) == U64;
    LittleEndianRoundTrip(n, 8);
    var all := LittleEndian(n, 8) + rest;
    assert all[..8] == LittleEndian(n, 8) && all[8..] == rest;
  }

  // ---- A hop, and all hops ----

  /** What the data says of one hop. */
  datatype Hop = Hop(data: seq<Byte>, inAmountOffset: nat, accountCount: Byte)

  /** A hop as the data can hold it. */
  ghost predicate Encodable(h: Hop)
  {
    |h.data| < 0x1_0000 && h.inAmountOffset < 0x1_0000
  }

  function EncodeHop(h: Hop): seq<Byte>
  {
    EncodeUx16(|h.data|) + EncodeUx16(h.inAmountOffset) + h.data + [h.accountCount]
  }

  function EncodeHops(hops: seq<Hop>): seq<Byte>
  {
    if hops == [] then [] else EncodeHops(hops[..|hops| - 1]) + EncodeHop(hops[|hops| - 1])
  }

  function ParseHop(data: seq<Byte>): Option<(Hop, seq<Byte>)>
  {
    var ixSize := ReadUx16(data);
    if ixSize.None? then None else
    var offset := ReadUx16(ixSize.value.1);
    if offset.None? then None else
    var ixData := ReadBytes(ixSize.value.0, offset.value.1);
    if ixData.None? then None else
    var count := ReadU8(ixData.value.1);
    if count.None? then None else
    Some((Hop(ixData.value.0, offset.value.0, count.value.0), count.value.1))
  }

  /** The first `n` hops in the data, and what follows them. */
  function ParseHops(data: seq<Byte>, n: nat): Option<(seq<Hop>, seq<Byte>)>
  {
    if n == 0 then Some(([], data))
    else
      var init := ParseHops(data, n - 1);
      if init.None? then None
      else
        var next := ParseHop(init.value.1);
        if next.None? then None else Some((init.value.0 + [next.value.0], next.value.1))
  }

  lemma HopRoundTrip(h: Hop, rest: seq<Byte>)
    requires Encodable(h)
    ensures ParseHop(EncodeHop(h) + rest) == Some((h, rest))
  {
    hide EncodeUx16, ReadUx16;
    var a, b := EncodeUx16(|h.data|), EncodeUx16(h.inAmountOffset);
    var tail := h.data + [h.accountCount] + rest;
    assert EncodeHop(h) + rest == a + (b + tail);
    Ux16RoundTrip(|h.data|, b + tail);
    Ux16RoundTrip(h.inAmountOffset, tail);
    assert tail[..|h.data|] == h.data;
    assert tail[|h.data|..] == [h.accountCount] + rest;
    assert ([h.accountCount] + rest)[1..] == rest;
  }

  lemma {:induction false} HopsRoundTrip(hops: seq<Hop>, rest: seq<Byte>)
    requires forall i :: 0 <= i < |hops| ==> Encodable(hops[i])
    ensures ParseHops(EncodeHops(hops) + rest, |hops|) == Some((hops, rest))
    decreases |hops|
  {
    hide EncodeHop, ParseHop;
    if hops == [] {
      assert [] + rest == rest;
    } else {
      var init, last := hops[..|hops| - 1], hops[|hops| - 1];
      HopsRoundTrip(init, EncodeHop(last) + rest);
      assert EncodeHops(hops) + rest == EncodeHops(init) + (EncodeHop(last) + rest);
      HopRoundTrip(last, rest);
      assert hops == init + [last];
    }
  }

  // ---- The whole instruction ----

  /** First byte of the data: instruction number in the low half, router version in the high half
      (the shift drops the version's own high half). */
  function Discriminator(routerVersion: Byte): Byte
  {
    EXECUTE_SWAP_V3 + routerVersion * 16 % 256
  }

  datatype Dispatch = SwapV3(routerVersion: nat, payload: seq<Byte>) | Other(instruction: nat) | Panic

  /** The program's entry point splits the first byte again. */
  function ProcessInstruction(data: seq<Byte>): Dispatch
  {
    if data == [] then Panic
    else if data[0] % 16 == EXECUTE_SWAP_V3 then SwapV3(data[0] / 16, data[1..])
    else Other(data[0] % 16)
  }

  datatype Swap = Swap(minOutAmount: nat, hops: seq<Hop>)

  /** The payload's header and its hops; what follows the hops is the second component. */
  function ParseSwap(payload: seq<Byte>): Option<(Swap, seq<Byte>)>
  {
    var minOut := ReadU64(payload);
    if minOut.None? then None else
    var count := ReadU8(minOut.value.1);
    if count.None? then None else
    var hops := ParseHops(count.value.1, count.value.0);
    if hops.None? then None else
    Some((Swap(minOut.value.0, hops.value.0), hops.value.1))
  }

  function EncodeHeader(routerVersion: Byte, minOutAmount: nat, hopCount: nat): (r: seq<Byte>)
    ensures |r| == 10
  {
    [Discriminator(routerVersion)] + LittleEndian(minOutAmount, 8) + [hopCount % 256]
  }

  function EncodeSwap(routerVersion: Byte, s: Swap): seq<Byte>
  {
    EncodeHeader(routerVersion, s.minOutAmount, |s.hops|) + EncodeHops(s.hops)
  }

  /** Reading back what was printed gives the low half of the version, the minimum output and
      every hop, and leaves no byte over. */
  lemma SwapRoundTrip(routerVersion: Byte, s: Swap)
    requires s.minOutAmount < U64 && |s.hops| < 256
    requires forall i :: 0 <= i < |s.hops| ==> Encodable(s.hops[i])
    ensures var d := ProcessInstruction(EncodeSwap(routerVersion, s));
            && d.SwapV3? && d.routerVersion == routerVersion % 16
            && ParseSwap(d.payload) == Some((s, []))
    ensures ProcessInstruction(EncodeSwap(routerVersion, s)).routerVersion == routerVersion <==> routerVersion <= 15
  {
    hide LittleEndian, EncodeHops, ParseSwap, Encodable, ProcessInstruction, Discriminator;
    var payload := LittleEndian(s.minOutAmount, 8) + ([|s.hops|] + EncodeHops(s.hops));
    DiscriminatorIs(routerVersion);
    assert EncodeSwap(routerVersion, s) == [16 * (routerVersion % 16) + 1] + payload;
    DispatchMeaning(routerVersion % 16, 1, payload);
    PayloadRoundTrip(s);
  }

  lemma DiscriminatorIs(routerVersion: Byte)
    ensures Discriminator(routerVersion) == 16 * (routerVersion % 16) + 1
  {
  }

  lemma PayloadRoundTrip(s: Swap)
    requires s.minOutAmount < U64 && |s.hops| < 256
    requires forall i :: 0 <= i < |s.hops| ==> Encodable(s.hops[i])
    ensures ParseSwap(LittleEndian(s.minOutAmount, 8) + ([|s.hops|] + EncodeHops(s.hops))) == Some((s, []))
  {
    hide LittleEndian, EncodeHops, ReadU64, ParseHops, Encodable;
    var hops := EncodeHops(s.hops);
    var tail := [|s.hops|] + hops;
    U64RoundTrip(s.minOutAmount, tail);
    assert tail[1..] == hops;
    HopsRoundTrip(s.hops, []);
    assert hops + [] == hops;
  }

  // ---- The printer ----

  /** The hop printed for an instruction: two more accounts, for the out account and the program. */
  function PrintedHop(ix: Instruction, inAmountOffset: nat): Hop
    requires |ix.accounts| % 256 <= 253
  {
    Hop(ix.data, inAmountOffset, 2 + |ix.accounts| % 256)
  }

  /** The count fits a byte together with the two extra accounts, and the offset two bytes. */
  ghost predicate Printable(ix: Instruction, inAmountOffset: nat)
  {
    |ix.accounts| % 256 <= 253 && inAmountOffset < 0x1_0000
  }

  ghost predicate AllPrintable(instructions: seq<Instruction>, offsets: seq<nat>, n: nat)
    requires n <= |instructions| && n <= |offsets|
  {
    forall i :: 0 <= i < n ==> Printable(instructions[i], offsets[i])
  }

  ghost function PrintedHops(instructions: seq<Instruction>, offsets: seq<nat>, n: nat): (r: seq<Hop>)
    requires n <= |instructions| && n <= |offsets| && AllPrintable(instructions, offsets, n)
    ensures |r| == n
    ensures forall i :: 0 <= i < n ==> r[i] == PrintedHop(instructions[i], offsets[i])
  {
    seq(n, i requires 0 <= i < n => PrintedHop(instructions[i], offsets[i]))
  }

  /** The accounts printed for the first `n` hops, after the input account. */
  ghost function PrintedAccounts(inAccount: Pubkey, instructions: seq<Instruction>, outAccounts: seq<Pubkey>,
                                 n: nat): seq<AccountMeta>
    requires n <= |instructions| && n <= |outAccounts|
  {
    if n == 0 then [AccountMeta(inAccount, false, true)]
    else PrintedAccounts(inAccount, instructions, outAccounts, n - 1)
         + HopAccounts(instructions[n - 1], outAccounts[n - 1])
  }

  function HopAccounts(ix: Instruction, outAccount: Pubkey): seq<AccountMeta>
  {
    [AccountMeta(outAccount, false, true), AccountMeta(ix.programId, false, false)] + ix.accounts
  }

  /** Number of hops printed: the source zips the three lists. */
  function ZipLength(instructions: seq<Instruction>, offsets: seq<nat>, outAccounts: seq<Pubkey>): (n: nat)
    ensures n <= |instructions| && n <= |offsets| && n <= |outAccounts|
  {
    var m := if |instructions| < |offsets| then |instructions| else |offsets|;
    if m < |outAccounts| then m else |outAccounts|
  }

  // ---- The layout, byte by byte and account by account ----

  /** A number in chunks: 255 as often as it fits, then the remainder. */
  ghost predicate Ux16At(n: nat, data: seq<Byte>, at: nat)
  {
    && at + n / 255 < |data|
    && (forall k :: at <= k < at + n / 255 ==> data[k] == 255)
    && data[at + n / 255] == n % 255
  }

  /** One hop: the size of its data, its offset, its data and its number of accounts, two of them extra. */
  ghost predicate HopDataAt(ix: Instruction, offset: nat, data: seq<Byte>, at: nat)
  {
    var start := at + |ix.data| / 255 + 1 + offset / 255 + 1;
    && start + |ix.data| < |data|
    && Ux16At(|ix.data|, data, at) && Ux16At(offset, data, at + |ix.data| / 255 + 1)
    && data[start..start + |ix.data|] == ix.data
    && data[start + |ix.data|] == 2 + |ix.accounts| % 256
  }

  /** Where the data of hop `i` begins, behind the header's ten bytes and the hops before it. */
  ghost function DataStart(instructions: seq<Instruction>, offsets: seq<nat>, i: nat): nat
    requires i <= |instructions| && i <= |offsets|
  {
    if i == 0 then 10
    else
      DataStart(instructions, offsets, i - 1)
      + (|instructions[i - 1].data| / 255 + 1) + (offsets[i - 1] / 255 + 1) + |instructions[i - 1].data| + 1
  }

  ghost predicate HeaderAt(routerVersion: Byte, minOutAmount: nat, count: nat, data: seq<Byte>)
  {
    && |data| >= 10
    && data[0] == 1 + 16 * (routerVersion % 16)
    && (forall k :: 0 <= k < 8 ==> data[1 + k] == minOutAmount / Pow256(k) % 256)
    && data[9] == count % 256
  }

  ghost predicate DataLaidOut(routerVersion: Byte, minOutAmount: nat, instructions: seq<Instruction>, offsets: seq<nat>,
                              n: nat, data: seq<Byte>)
    requires n <= |instructions| && n <= |offsets|
  {
    && HeaderAt(routerVersion, minOutAmount, |instructions|, data)
    && |data| == DataStart(instructions, offsets, n)
    && forall i :: 0 <= i < n ==> HopDataAt(instructions[i], offsets[i], data, DataStart(instructions, offsets, i))
  }

  /** One hop: its out account, writable; its program; and the instruction's own accounts, unchanged. */
  ghost predicate HopAccountsAt(ix: Instruction, outAccount: Pubkey, accounts: seq<AccountMeta>, at: nat)
  {
    && at + 2 + |ix.accounts| <= |accounts|
    && accounts[at] == AccountMeta(outAccount, false, true)
    && accounts[at + 1] == AccountMeta(ix.programId, false, false)
    && accounts[at + 2..at + 2 + |ix.accounts|] == ix.accounts
  }

  /** Where the accounts of hop `i` begin, behind the input account and the hops before it. */
  ghost function AccountsStart(instructions: seq<Instruction>, i: nat): nat
    requires i <= |instructions|
  {
    if i == 0 then 1 else AccountsStart(instructions, i - 1) + 2 + |instructions[i - 1].accounts|
  }

  ghost predicate AccountsLaidOut(inAccount: Pubkey, instructions: seq<Instruction>, outAccounts: seq<Pubkey>, n: nat,
                                  accounts: seq<AccountMeta>)
    requires n <= |instructions| && n <= |outAccounts|
  {
    && |accounts| == AccountsStart(instructions, n)
    && accounts[0..1] == [AccountMeta(inAccount, false, true)]
    && forall i :: 0 <= i < n ==>
         HopAccountsAt(instructions[i], outAccounts[i], accounts, AccountsStart(instructions, i))
  }

  lemma {:induction false} AccountsAre(inAccount: Pubkey, instructions: seq<Instruction>, outAccounts: seq<Pubkey>,
                                       n: nat)
    requires n <= |instructions| && n <= |outAccounts|
    ensures AccountsLaidOut(inAccount, instructions, outAccounts, n,
                            PrintedAccounts(inAccount, instructions, outAccounts, n))
  {
    hide HopAccounts, HopAccountsAt;
    if n > 0 {
      AccountsAre(inAccount, instructions, outAccounts, n - 1);
      var before := PrintedAccounts(inAccount, instructions, outAccounts, n - 1);
      NextLaidOut(inAccount, instructions, outAccounts, n, before);
    }
  }

  lemma NextLaidOut(inAccount: Pubkey, instructions: seq<Instruction>, outAccounts: seq<Pubkey>, n: nat,
                    before: seq<AccountMeta>)
    requires 0 < n <= |instructions| && n <= |outAccounts|
    requires AccountsLaidOut(inAccount, instructions, outAccounts, n - 1, before)
    ensures AccountsLaidOut(inAccount, instructions, outAccounts, n,
                            before + HopAccounts(instructions[n - 1], outAccounts[n - 1]))
  {
    hide HopAccounts, HopAccountsAt;
    var all := before + HopAccounts(instructions[n - 1], outAccounts[n - 1]);
    NewAccounts(instructions[n - 1], outAccounts[n - 1], before);
    forall i | 0 <= i < n - 1
      ensures HopAccountsAt(instructions[i], outAccounts[i], all, AccountsStart(instructions, i))
    {
      MoreAccounts(instructions[i], outAccounts[i], before, all, AccountsStart(instructions, i));
    }
    assert before[0..1] == all[0..1];
  }

  lemma NewAccounts(ix: Instruction, outAccount: Pubkey, before: seq<AccountMeta>)
    ensures HopAccountsAt(ix, outAccount, before + HopAccounts(ix, outAccount), |before|)
    ensures |HopAccounts(ix, outAccount)| == 2 + |ix.accounts|
  {
  }

  lemma MoreAccounts(ix: Instruction, outAccount: Pubkey, a: seq<AccountMeta>, b: seq<AccountMeta>, at: nat)
    requires HopAccountsAt(ix, outAccount, a, at) && a <= b
    ensures HopAccountsAt(ix, outAccount, b, at)
  {
    assert b[at + 2..at + 2 + |ix.accounts|] == a[at + 2..at + 2 + |ix.accounts|];
  }

  /** Byte `k` of a number, least first. */
  lemma {:induction false} LittleEndianAt(n: nat, size: nat, k: nat)
    requires k < size
    ensures LittleEndian(n, size)[k] == n / Pow256(k) % 256
  {
    if k > 0 {
      LittleEndianAt(n / 256, size - 1, k - 1);
      DivDiv(n, 256, Pow256(k - 1));
    }
  }

  lemma DivDiv(n: nat, a: nat, b: nat)
    requires a > 0 && b > 0
    ensures a * b > 0 && n / a / b == n / (a * b)
  {
    var q := n / a;
    Powers.DivBounds(n, a);
    Powers.DivBounds(q, b);
    Powers.MulLeft(a, b * (q / b), q);
    Powers.MulLeft(a, q + 1, b * (q / b + 1));
    Powers.MulAssoc(a, b, q / b);
    Powers.MulAssoc(a, b, q / b + 1);
    Powers.DivUnique(n, a * b, q / b);
  }

  /** What is read is the number laid out there, if it fits 16 bits, and what follows it; and nothing else is. */
  lemma {:induction false} ReadUx16Meaning(data: seq<Byte>, n: nat, rest: seq<Byte>)
    ensures ReadUx16(data) == Some((n, rest)) <==>
              n < 65536 && Ux16At(n, data, 0) && rest == data[n / 255 + 1..]
    decreases |data|
  {
    if data != [] && data[0] == 255 {
      if n >= 255 {
        ReadUx16Meaning(data[1..], n - 255, rest);
        assert n / 255 == (n - 255) / 255 + 1 && n % 255 == (n - 255) % 255;
        ShiftedUx16(n, data);
        if n / 255 + 1 <= |data| {
          assert data[1..][n / 255..] == data[n / 255 + 1..];
        }
      }
    }
  }

  lemma ShiftedUx16(n: nat, data: seq<Byte>)
    requires n >= 255 && data != [] && data[0] == 255
    ensures Ux16At(n, data, 0) <==> Ux16At(n - 255, data[1..], 0)
  {
    var q := n / 255;
    assert q == (n - 255) / 255 + 1 && n % 255 == (n - 255) % 255;
    assert forall k :: 1 <= k < |data| ==> data[k] == data[1..][k - 1];
  }

  /** The first byte is 16 times the version plus the number of the instruction. */
  lemma DispatchMeaning(version: nat, number: nat, payload: seq<Byte>)
    requires version < 16 && number < 16
    ensures ProcessInstruction([]) == Panic
    ensures ProcessInstruction([16 * version + number] + payload)
            == if number == 1 then SwapV3(version, payload) else Other(number)
  {
    var data: seq<Byte> := [16 * version + number] + payload;
    assert data[1..] == payload;
  }

  lemma {:induction false} Ux16Is(n: nat, before: seq<Byte>, after: seq<Byte>)
    ensures |EncodeUx16(n)| == n / 255 + 1
    ensures Ux16At(n, before + EncodeUx16(n) + after, |before|)
    decreases n
  {
    if n >= 255 {
      var data := before + EncodeUx16(n) + after;
      Ux16Is(n - 255, before + [255], after);
      assert before + [255] + EncodeUx16(n - 255) + after == data;
      assert n / 255 == (n - 255) / 255 + 1;
    }
  }

  lemma HopDataIs(ix: Instruction, offset: nat, before: seq<Byte>)
    requires Printable(ix, offset)
    ensures HopDataAt(ix, offset, before + EncodeHop(PrintedHop(ix, offset)), |before|)
    ensures |EncodeHop(PrintedHop(ix, offset))| == (|ix.data| / 255 + 1) + (offset / 255 + 1) + |ix.data| + 1
  {
    hide EncodeUx16, Ux16At;
    var a, b, c := EncodeUx16(|ix.data|), EncodeUx16(offset), [2 + |ix.accounts| % 256];
    var all := before + EncodeHop(PrintedHop(ix, offset));
    Ux16Is(|ix.data|, before, b + ix.data + c);
    assert all == before + a + (b + ix.data + c);
    Ux16Is(offset, before + a, ix.data + c);
    assert all == before + a + b + (ix.data + c);
  }

  lemma MoreData(ix: Instruction, offset: nat, a: seq<Byte>, b: seq<Byte>, at: nat)
    requires HopDataAt(ix, offset, a, at) && a <= b
    ensures HopDataAt(ix, offset, b, at)
  {
    var start := at + |ix.data| / 255 + 1 + offset / 255 + 1;
    assert b[start..start + |ix.data|] == a[start..start + |ix.data|];
  }

  lemma {:induction false} DataIs(routerVersion: Byte, minOutAmount: nat, instructions: seq<Instruction>,
                                  offsets: seq<nat>, n: nat)
    requires n <= |instructions| && n <= |offsets| && AllPrintable(instructions, offsets, n)
    ensures DataLaidOut(routerVersion, minOutAmount, instructions, offsets, n,
                        EncodeHeader(routerVersion, minOutAmount, |instructions|)
                        + EncodeHops(PrintedHops(instructions, offsets, n)))
  {
    hide HopDataAt, EncodeHop, EncodeHops, DataLaidOut, HeaderAt, EncodeHeader, PrintedHop;
    var header := EncodeHeader(routerVersion, minOutAmount, |instructions|);
    if n == 0 {
      NoHops(instructions, offsets);
      assert header + [] == header;
      HeaderIs(routerVersion, minOutAmount, |instructions|);
      OnlyHeader(routerVersion, minOutAmount, instructions, offsets, header);
    } else {
      DataIs(routerVersion, minOutAmount, instructions, offsets, n - 1);
      OneMoreHop(instructions, offsets, n - 1);
      var before := header + EncodeHops(PrintedHops(instructions, offsets, n - 1));
      NextHopLaidOut(routerVersion, minOutAmount, instructions, offsets, n, before);
      assert before + EncodeHop(PrintedHop(instructions[n - 1], offsets[n - 1]))
        == header + EncodeHops(PrintedHops(instructions, offsets, n));
    }
  }

  lemma OnlyHeader(routerVersion: Byte, minOutAmount: nat, instructions: seq<Instruction>, offsets: seq<nat>,
                   header: seq<Byte>)
    requires HeaderAt(routerVersion, minOutAmount, |instructions|, header) && |header| == 10
    ensures DataLaidOut(routerVersion, minOutAmount, instructions, offsets, 0, header)
  {
  }

  lemma DataStartNext(instructions: seq<Instruction>, offsets: seq<nat>, n: nat)
    requires 0 < n <= |instructions| && n <= |offsets| && Printable(instructions[n - 1], offsets[n - 1])
    ensures DataStart(instructions, offsets, n)
            == DataStart(instructions, offsets, n - 1) + |EncodeHop(PrintedHop(instructions[n - 1], offsets[n - 1]))|
  {
    hide EncodeHop;
    HopDataIs(instructions[n - 1], offsets[n - 1], []);
  }

  lemma NextHopLaidOut(routerVersion: Byte, minOutAmount: nat, instructions: seq<Instruction>, offsets: seq<nat>,
                       n: nat, before: seq<Byte>)
    requires 0 < n <= |instructions| && n <= |offsets| && Printable(instructions[n - 1], offsets[n - 1])
    requires DataLaidOut(routerVersion, minOutAmount, instructions, offsets, n - 1, before)
    ensures DataLaidOut(routerVersion, minOutAmount, instructions, offsets, n,
                        before + EncodeHop(PrintedHop(instructions[n - 1], offsets[n - 1])))
  {
    hide HopDataAt, EncodeHop, HeaderAt, PrintedHop, DataStart;
    DataStartNext(instructions, offsets, n);
    var all := before + EncodeHop(PrintedHop(instructions[n - 1], offsets[n - 1]));
    HopDataIs(instructions[n - 1], offsets[n - 1], before);
    SameHeader(routerVersion, minOutAmount, |instructions|, before, all);
    forall i | 0 <= i < n - 1
      ensures HopDataAt(instructions[i], offsets[i], all, DataStart(instructions, offsets, i))
    {
      MoreData(instructions[i], offsets[i], before, all, DataStart(instructions, offsets, i));
    }
  }

  lemma SameHeader(routerVersion: Byte, minOutAmount: nat, count: nat, a: seq<Byte>, b: seq<Byte>)
    requires HeaderAt(routerVersion, minOutAmount, count, a) && a <= b
    ensures HeaderAt(routerVersion, minOutAmount, count, b)
  {
  }

  lemma HeaderIs(routerVersion: Byte, minOutAmount: nat, count: nat)
    ensures HeaderAt(routerVersion, minOutAmount, count, EncodeHeader(routerVersion, minOutAmount, count))
  {
    hide Pow256, LittleEndian;
    forall k | 0 <= k < 8 ensures LittleEndian(minOutAmount, 8)[k] == minOutAmount / Pow256(k) % 256 {
      LittleEndianAt(minOutAmount, 8, k);
    }
  }

  method GenerateSwapIxData(minOutAmount: nat, instructions: seq<Instruction>, inAmountOffsets: seq<nat>,
                            inAccount: Pubkey, outAccounts: seq<Pubkey>, programId: Pubkey, routerVersion: Byte)
    returns (r: Instruction)
    requires minOutAmount < U64
    requires AllPrintable(instructions, inAmountOffsets, ZipLength(instructions, inAmountOffsets, outAccounts))
    requires 10 + |EncodeHops(PrintedHops(instructions, inAmountOffsets,
                                          ZipLength(instructions, inAmountOffsets, outAccounts)))| <= 1232
    ensures var n := ZipLength(instructions, inAmountOffsets, outAccounts);
            r == Instruction(programId, PrintedAccounts(inAccount, instructions, outAccounts, n),
                             EncodeHeader(routerVersion, minOutAmount, |instructions|)
                             + EncodeHops(PrintedHops(instructions, inAmountOffsets, n)))
    // Byte by byte and account by account, for as many hops as the shortest list has.
    ensures exists n :: n <= |instructions| && n <= |inAmountOffsets| && n <= |outAccounts|
              && n in {|instructions|, |inAmountOffsets|, |outAccounts|} && r.programId == programId
              && DataLaidOut(routerVersion, minOutAmount, instructions, inAmountOffsets, n, r.data)
              && AccountsLaidOut(inAccount, instructions, outAccounts, n, r.accounts)
  {
    hide EncodeHeader, EncodeHops, EncodeHop, PrintedHop, HopAccounts, DataLaidOut, AccountsLaidOut;
    var accounts := [AccountMeta(inAccount, false, true)];
    var buf := new Byte[BUFFER_SIZE](_ => 0);
    var offset: nat := WriteHeader(buf, minOutAmount, |instructions|, routerVersion);
    ghost var header := buf[..offset];
    var n := ZipLength(instructions, inAmountOffsets, outAccounts);
    var i := 0;
    NoHops(instructions, inAmountOffsets);
    while i < n
      invariant 0 <= i <= n
      invariant offset == 10 + |EncodeHops(PrintedHops(instructions, inAmountOffsets, i))| <= buf.Length
      invariant buf[..offset] == header + EncodeHops(PrintedHops(instructions, inAmountOffsets, i))
      invariant accounts == PrintedAccounts(inAccount, instructions, outAccounts, i)
    {
      OneMoreHop(instructions, inAmountOffsets, i);
      HopsPrefix(instructions, inAmountOffsets, i + 1, n);
      var written := WriteHop(buf, offset, instructions[i], inAmountOffsets[i]);
      offset := offset + written;
      accounts := WithHop(accounts, instructions[i], outAccounts[i]);
      i := i + 1;
    }
    r := Instruction(programId, accounts, buf[..offset]);
    DataIs(routerVersion, minOutAmount, instructions, inAmountOffsets, n);
    AccountsAre(inAccount, instructions, outAccounts, n);
  }

  /** Push the accounts of one hop. */
  method WithHop(before: seq<AccountMeta>, ix: Instruction, outAccount: Pubkey) returns (accounts: seq<AccountMeta>)
    ensures accounts == before + HopAccounts(ix, outAccount)
  {
    accounts := before + [AccountMeta(outAccount, false, true)];
    accounts := accounts + [AccountMeta(ix.programId, false, false)];
    accounts := accounts + ix.accounts;
  }

  /** Discriminator, minimum output and number of hops. */
  method WriteHeader(buf: array<Byte>, minOutAmount: nat, count: nat, routerVersion: Byte) returns (offset: nat)
    requires buf.Length >= 10 && minOutAmount < U64
    modifies buf
    ensures offset == 10 && buf[..10] == EncodeHeader(routerVersion, minOutAmount, count)
  {
    hide LittleEndian;
    offset := 0;
    var w := WriteU8(buf, offset, Discriminator(routerVersion));
    offset := offset + w;
    w := WriteU64(buf, offset, minOutAmount);
    offset := offset + w;
    w := WriteU8(buf, offset, count % 256);
    offset := offset + w;
  }

  /** The four writes for one hop. */
  method WriteHop(buf: array<Byte>, at: nat, ix: Instruction, inAmountOffset: nat) returns (written: nat)
    requires Printable(ix, inAmountOffset)
    requires at + |EncodeHop(PrintedHop(ix, inAmountOffset))| <= buf.Length
    modifies buf
    ensures written == |EncodeHop(PrintedHop(ix, inAmountOffset))|
    ensures buf[..at + written] == old(buf[..at]) + EncodeHop(PrintedHop(ix, inAmountOffset))
  {
    hide EncodeUx16;
    ghost var start := buf[..at];
    ghost var sizes, count := EncodeUx16(|ix.data|) + EncodeUx16(inAmountOffset), 2 + |ix.accounts| % 256;
    ThreeParts(start, sizes, ix.data, [count]);
    assert EncodeHop(PrintedHop(ix, inAmountOffset)) == sizes + ix.data + [count];
    hide EncodeHop, PrintedHop;
    var offset := at;
    var w := WriteSizes(buf, offset, |ix.data|, inAmountOffset);
    offset := offset + w;
    w := WriteBytes(buf, offset, ix.data);
    offset := offset + w;
    w := WriteU8(buf, offset, 2 + |ix.accounts| % 256);
    written := offset + w - at;
  }

  /** The two 16-bit numbers in front of a hop's data. */
  method WriteSizes(buf: array<Byte>, at: nat, size: nat, inAmountOffset: nat) returns (written: nat)
    requires at + |EncodeUx16(size) + EncodeUx16(inAmountOffset)| <= buf.Length
    modifies buf
    ensures written == |EncodeUx16(size) + EncodeUx16(inAmountOffset)|
    ensures buf[..at + written] == old(buf[..at]) + (EncodeUx16(size) + EncodeUx16(inAmountOffset))
  {
    hide EncodeUx16;
    ghost var start := buf[..at];
    var w := WriteUx16(buf, at, size);
    written := w;
    w := WriteUx16(buf, at + written, inAmountOffset);
    written := written + w;
    assert start + EncodeUx16(size) + EncodeUx16(inAmountOffset)
      == start + (EncodeUx16(size) + EncodeUx16(inAmountOffset));
  }

  lemma ThreeParts(start: seq<Byte>, a: seq<Byte>, b: seq<Byte>, c: seq<Byte>)
    ensures start + a + b + c == start + (a + b + c)
  {
  }

  lemma NoHops(instructions: seq<Instruction>, offsets: seq<nat>)
    ensures EncodeHops(PrintedHops(instructions, offsets, 0)) == []
  {
  }

  lemma OneMoreHop(instructions: seq<Instruction>, offsets: seq<nat>, n: nat)
    requires n < |instructions| && n < |offsets| && AllPrintable(instructions, offsets, n + 1)
    ensures EncodeHops(PrintedHops(instructions, offsets, n + 1))
            == EncodeHops(PrintedHops(instructions, offsets, n)) + EncodeHop(PrintedHop(instructions[n], offsets[n]))
  {
    var longer := PrintedHops(instructions, offsets, n + 1);
    assert longer[..n] == PrintedHops(instructions, offsets, n);
  }

  lemma {:induction false} HopsPrefix(instructions: seq<Instruction>, offsets: seq<nat>, m: nat, n: nat)
    requires m <= n <= |instructions| && n <= |offsets| && AllPrintable(instructions, offsets, n)
    ensures |EncodeHops(PrintedHops(instructions, offsets, m))| <= |EncodeHops(PrintedHops(instructions, offsets, n))|
    decreases n
  {
    hide EncodeHops;
    if m < n {
      HopsPrefix(instructions, offsets, m, n - 1);
      OneMoreHop(instructions, offsets, n - 1);
    }
  }
}
