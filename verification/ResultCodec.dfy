/**
 The wire format of execution results: the client's packers, the server's
 parser, and the theorem that the second inverts the first for every register
 layout the two sides can be built with.
 */
module ResultCodec {
  import opened Bytes

  /** Bytes captured per memory change (CHECK_MEM_CUT_AT and MEM_CUT_AT). */
  const CUT_AT: nat := 16

  // ---------------------------------------------------------------------
  // Register layouts
  // ---------------------------------------------------------------------

  /** Entries of the server's regs_mapping table. */
  datatype RegName = Gp(i: nat) | Pstate | Fcsr | Fpsr | Fp(i: nat) | Vec(i: nat)

  /** A register as the client packs it: its index byte, its size in bytes, and
      which register of struct regs it is. */
  datatype Slot = Slot(index: byte, size: nat, reg: RegName)

  datatype Arch = Riscv64 | Aarch64

  /** The build flags that both sides have to agree on. */
  datatype Flags = Flags(arch: Arch, floats: bool, vector: bool, meta: bool, checkMem: bool)

  /** RISC-V builds need floats for vectors; on AArch64 the two exclude each other. */
  predicate Buildable(f: Flags) {
    match f.arch
    case Riscv64 => f.vector ==> f.floats
    case Aarch64 => !(f.floats && f.vector)
  }

  /** n registers of the given size whose wire indices start at first. */
  function Bank(first: nat, n: nat, size: nat, reg: nat -> RegName): seq<Slot>
    requires first + n <= 256
  {
    seq(n, (i: nat) requires 0 <= i < n => Slot(first + i, size, reg(i)))
  }

  const GP := (i: nat) => Gp(i)
  const FP := (i: nat) => Fp(i)
  const VEC := (i: nat) => Vec(i)

  /** The registers the client compares, in packing order, each with the
      index that its offset in struct regs gives. */
  function ClientSlots(f: Flags): seq<Slot> {
    match f.arch
    case Riscv64 =>
      Bank(0, 31, 8, GP)
      + (if f.floats then [Slot(31, 8, Fcsr)] + Bank(32, 32, 8, FP) else [])
      + (if f.vector then Bank(64, 32, 16, VEC) else [])
    case Aarch64 =>
      Bank(0, 32, 8, GP) + [Slot(32, 8, Pstate)]
      + (if f.floats || f.vector then [Slot(33, 8, Fpsr)] else [])
      + (if f.floats then Bank(34, 32, 8, FP) else [])
      + (if f.vector then Bank(34, 32, 16, VEC) else [])
  }

  function Gps(n: nat): seq<RegName> { seq(n, (i: nat) => Gp(i)) }
  function Fps(): seq<RegName> { seq(32, (i: nat) => Fp(i)) }
  function Vecs(): seq<RegName> { seq(32, (i: nat) => Vec(i)) }

  /** The server's table from wire index to register name. */
  function ServerNames(f: Flags): seq<RegName> {
    match f.arch
    case Riscv64 =>
      Gps(31)
      + (if f.floats then [Fcsr] + Fps() else [])
      + (if f.vector then Vecs() else [])
    case Aarch64 =>
      Gps(32) + [Pstate]
      + (if f.vector then [Fpsr] + Vecs() else if f.floats then [Fpsr] + Fps() else [])
  }

  /** The size the parser reads for a register: only names starting with v are wide. */
  function NameSize(name: RegName): nat {
    if name.Vec? then 16 else 8
  }

  /** Every slot has an entry of its size in the table. */
  predicate SlotsFit(slots: seq<Slot>, names: seq<RegName>) {
    && |slots| < 256
    && (forall i :: 0 <= i < |slots| ==>
          slots[i].index < |names| && NameSize(names[slots[i].index]) == slots[i].size)
  }

  /** What the round trip needs of a client layout and a server table. */
  ghost predicate Compatible(slots: seq<Slot>, names: seq<RegName>) {
    && SlotsFit(slots, names)
    && (forall i, j :: 0 <= i < j < |slots| ==> slots[i].index != slots[j].index)
    && (forall i, j :: 0 <= i < j < |names| ==> names[i] != names[j])
  }

  /** The tables on the two sides agree for every buildable flag combination. */
  lemma LayoutsAgree(f: Flags)
    requires Buildable(f)
    ensures Compatible(ClientSlots(f), ServerNames(f))
    ensures |ClientSlots(f)| == |ServerNames(f)| <= 96
    ensures forall i :: 0 <= i < |ClientSlots(f)| ==> ServerNames(f)[ClientSlots(f)[i].index] == ClientSlots(f)[i].reg
  {
    var s, n := ClientSlots(f), ServerNames(f);
    assert SlotsFollowNames(s, n) by {
      if f.arch.Riscv64? {
        RiscvSlots(f);
      } else {
        AarchSlots(f);
      }
    }
    NamesDistinct(f);
  }

  /** The wire index of every register, in numbers. */
  lemma WireIndices(f: Flags)
    requires Buildable(f)
    ensures var n := ServerNames(f);
      match f.arch
      case Riscv64 =>
        && |n| == (if f.vector then 96 else if f.floats then 64 else 31)
        && (forall i :: 0 <= i < 31 ==> n[i] == Gp(i))
        && (f.floats ==> n[31] == Fcsr && forall i :: 0 <= i < 32 ==> n[32 + i] == Fp(i))
        && (f.vector ==> forall i :: 0 <= i < 32 ==> n[64 + i] == Vec(i))
      case Aarch64 =>
        && |n| == (if f.vector || f.floats then 66 else 33)
        && (forall i :: 0 <= i < 32 ==> n[i] == Gp(i)) && n[32] == Pstate
        && (f.floats ==> n[33] == Fpsr && forall i :: 0 <= i < 32 ==> n[34 + i] == Fp(i))
        && (f.vector ==> n[33] == Fpsr && forall i :: 0 <= i < 32 ==> n[34 + i] == Vec(i))
  {
  }

  /** Slot i has index i and is the register of name i, with the size the parser reads. */
  ghost predicate SlotsFollowNames(s: seq<Slot>, n: seq<RegName>) {
    |s| == |n| && forall i :: 0 <= i < |s| ==> s[i] == Slot(s[i].index, NameSize(n[i]), n[i]) && s[i].index == i
  }

  lemma FollowAppend(s: seq<Slot>, n: seq<RegName>, s': seq<Slot>, n': seq<RegName>)
    requires SlotsFollowNames(s, n)
    requires |s'| == |n'|
    requires forall i :: 0 <= i < |s'| ==> s'[i].index == |s| + i && s'[i].size == NameSize(n'[i]) && s'[i].reg == n'[i]
    ensures SlotsFollowNames(s + s', n + n')
  {
  }

  lemma RiscvSlots(f: Flags)
    requires Buildable(f) && f.arch.Riscv64?
    ensures SlotsFollowNames(ClientSlots(f), ServerNames(f))
  {
    var s, n := Bank(0, 31, 8, GP), Gps(31);
    if f.floats {
      FollowAppend(s, n, [Slot(31, 8, Fcsr)] + Bank(32, 32, 8, FP), [Fcsr] + Fps());
      if f.vector {
        FollowAppend(s + ([Slot(31, 8, Fcsr)] + Bank(32, 32, 8, FP)), n + ([Fcsr] + Fps()), Bank(64, 32, 16, VEC), Vecs());
      }
    }
  }

  lemma AarchSlots(f: Flags)
    requires Buildable(f) && f.arch.Aarch64?
    ensures SlotsFollowNames(ClientSlots(f), ServerNames(f))
  {
    hide SlotsFollowNames, Bank;
    var s, n := Bank(0, 32, 8, GP) + [Slot(32, 8, Pstate)], Gps(32) + [Pstate];
    AarchBase();
    AarchWide();
    var s1, n1 := s + [Slot(33, 8, Fpsr)], n + [Fpsr];
    if f.floats {
      assert ClientSlots(f) == s1 + Bank(34, 32, 8, FP) && ServerNames(f) == n1 + Fps();
    } else if f.vector {
      assert ClientSlots(f) == s1 + Bank(34, 32, 16, VEC) && ServerNames(f) == n1 + Vecs();
    } else {
      assert ClientSlots(f) == s && ServerNames(f) == n;
    }
  }

  lemma AarchBase()
    ensures SlotsFollowNames(Bank(0, 32, 8, GP) + [Slot(32, 8, Pstate)], Gps(32) + [Pstate])
  {
    FollowAppend(Bank(0, 32, 8, GP), Gps(32), [Slot(32, 8, Pstate)], [Pstate]);
  }

  lemma AarchWide()
    ensures var s, n := Bank(0, 32, 8, GP) + [Slot(32, 8, Pstate)] + [Slot(33, 8, Fpsr)], Gps(32) + [Pstate] + [Fpsr];
      SlotsFollowNames(s + Bank(34, 32, 8, FP), n + Fps()) && SlotsFollowNames(s + Bank(34, 32, 16, VEC), n + Vecs())
  {
    AarchBase();
    FollowAppend(Bank(0, 32, 8, GP) + [Slot(32, 8, Pstate)], Gps(32) + [Pstate], [Slot(33, 8, Fpsr)], [Fpsr]);
    var s, n := Bank(0, 32, 8, GP) + [Slot(32, 8, Pstate)] + [Slot(33, 8, Fpsr)], Gps(32) + [Pstate] + [Fpsr];
    FollowAppend(s, n, Bank(34, 32, 8, FP), Fps());
    FollowAppend(s, n, Bank(34, 32, 16, VEC), Vecs());
  }

  lemma NamesDistinct(f: Flags)
    ensures forall i, j :: 0 <= i < j < |ServerNames(f)| ==> ServerNames(f)[i] != ServerNames(f)[j]
  {
  }

  // ---------------------------------------------------------------------
  // Client side
  // ---------------------------------------------------------------------

  /** The capture buffer of a memory change, always CUT_AT bytes. */
  type Capture = s: seq<byte> | |s| == 16 witness [0, 0, 0, 0, 0, 0, 0, 0, 0, 0, 0, 0, 0, 0, 0, 0]

  /** struct mem_change; val holds stale bytes after the first n. */
  datatype MemChange = MemChange(start: nat, n: nat, val: Capture, checksum: nat)

  /** struct result, with the register file as one value per slot. */
  datatype Outcome = Outcome(signum: int, cycle: nat, instret: nat, siAddr: nat, siPc: nat,
                             siCode: int, regs: seq<nat>, mem: seq<MemChange>)

  predicate MemChangeInRange(m: MemChange) {
    m.start < U64 && m.n < U32 && m.checksum < U32
  }

  predicate RegsInRange(slots: seq<Slot>, regs: seq<nat>) {
    |regs| == |slots| && forall i :: 0 <= i < |slots| ==> regs[i] < Pow256(slots[i].size)
  }

  predicate InRange(slots: seq<Slot>, r: Outcome) {
    OutcomeFits(r) && RegsInRange(slots, r.regs)
  }

  /** Values fit the C types of struct result; signal numbers fit the wire
      byte; without a signal the fault fields are zero (runner.c sets them). */
  predicate OutcomeFits(r: Outcome) {
    && 0 <= r.signum < U8
    && r.siAddr < U64 && r.siPc < U64
    && -0x8000_0000 <= r.siCode < 0x8000_0000
    && (r.signum == 0 ==> r.siAddr == 0 && r.siPc == 0 && r.siCode == 0)
    && |r.mem| < 256
    && forall i :: 0 <= i < |r.mem| ==> MemChangeInRange(r.mem[i])
  }

  /** One register entry of a packed result. */
  datatype RegEntry = RegEntry(slot: Slot, value: nat)

  /** The registers that changed, in packing order. */
  function Diffs(slots: seq<Slot>, before: seq<nat>, after: seq<nat>): (es: seq<RegEntry>)
    requires |slots| == |before| == |after|
    ensures |es| <= |slots|
  {
    if slots == [] then []
    else
      var k := |slots| - 1;
      Diffs(slots[..k], before[..k], after[..k])
      + if before[k] != after[k] then [RegEntry(slots[k], after[k])] else []
  }

  function EncReg(e: RegEntry): seq<byte> {
    [e.slot.index] + LE(e.slot.size, e.value)
  }

  function EncRegs(es: seq<RegEntry>): seq<byte> {
    if es == [] then [] else EncReg(es[0]) + EncRegs(es[1..])
  }

  function Cap(n: nat): nat {
    if n < CUT_AT then n else CUT_AT
  }

  function EncMem(m: MemChange): seq<byte>
  {
    LE(8, m.start) + LE(4, m.n) + m.val[..Cap(m.n)] + LE(4, m.checksum)
  }

  function EncMems(ms: seq<MemChange>): seq<byte>
  {
    if ms == [] then [] else EncMem(ms[0]) + EncMems(ms[1..])
  }

  function EncHead(f: Flags, r: Outcome): seq<byte> {
    [r.signum % U8]
    + (if !f.meta then []
       else LE(2, r.cycle % U16) + if f.arch.Riscv64? then LE(2, r.instret % U16) else [])
  }

  function EncFault(r: Outcome): seq<byte> {
    if r.signum == 0 then [] else LE(8, r.siAddr) + LE(8, r.siPc) + LE(4, r.siCode % U32)
  }

  function EncTail(f: Flags, r: Outcome): seq<byte>
  {
    if f.checkMem then [|r.mem| % U8] + EncMems(r.mem) else []
  }

  /** The bytes pack_inner_result produces. */
  function EncInner(f: Flags, slots: seq<Slot>, before: seq<nat>, r: Outcome): seq<byte>
    requires |before| == |slots| && InRange(slots, r)
  {
    var es := Diffs(slots, before, r.regs);
    EncHead(f, r) + [|es| % U8] + EncRegs(es) + EncFault(r) + EncTail(f, r)
  }

  /** Where everything is in a packed result: the signal, with META the low
      halves of the counters, the number of registers, their entries, then with
      a signal the fault address, program counter and code, and the memory part. */
  lemma InnerLayout(f: Flags, slots: seq<Slot>, before: seq<nat>, r: Outcome)
    requires |before| == |slots| && |slots| < 256 && InRange(slots, r)
    ensures var s, es := EncInner(f, slots, before, r), Diffs(slots, before, r.regs);
      var h: nat := if !f.meta then 1 else if f.arch.Riscv64? then 5 else 3;
      var e: nat := h + 1 + |EncRegs(es)|;
      var t: nat := e + if r.signum == 0 then 0 else 20;
      && t <= |s| && s[0] == r.signum && s[h] == |es| && s[h + 1..e] == EncRegs(es)
      && (f.meta ==> s[1..3] == LE(2, r.cycle % 65536))
      && (f.meta && f.arch.Riscv64? ==> s[3..5] == LE(2, r.instret % 65536))
      && (r.signum != 0 ==>
            s[e..e + 8] == LE(8, r.siAddr) && s[e + 8..e + 16] == LE(8, r.siPc) && s[e + 16..t] == LE(4, r.siCode % U32))
      && s[t..] == EncTail(f, r)
  {
    hide LE, Diffs, EncRegs, EncTail, EncHead, EncFault, Pow256;
    var es := Diffs(slots, before, r.regs);
    var a, b, c := EncHead(f, r), [|es| % U8], EncRegs(es);
    var d, g := EncFault(r), EncTail(f, r);
    var s := a + (b + (c + (d + g)));
    assert EncInner(f, slots, before, r) == s;
    Parts(a, b, c, d, g);
    HeadLayout(f, r);
    FaultLayout(r);
    SubPart(s, 0, a, 1, 3);
    SubPart(s, 0, a, 3, 5);
    var e := |a| + 1 + |c|;
    SubPart(s, e, d, 0, 8);
    SubPart(s, e, d, 8, 16);
    SubPart(s, e, d, 16, 20);
    assert s[|a|..|a| + 1][0] == s[|a|];
    assert s[0] == a[0];
  }

  lemma HeadLayout(f: Flags, r: Outcome)
    requires OutcomeFits(r)
    ensures var a := EncHead(f, r);
      && |a| == (if !f.meta then 1 else if f.arch.Riscv64? then 5 else 3) && a[0] == r.signum
      && (f.meta ==> a[1..3] == LE(2, r.cycle % 65536))
      && (f.meta && f.arch.Riscv64? ==> a[3..5] == LE(2, r.instret % 65536))
  {
    hide LE;
  }

  lemma FaultLayout(r: Outcome)
    ensures var d := EncFault(r);
      && |d| == (if r.signum == 0 then 0 else 20)
      && (r.signum != 0 ==> d[0..8] == LE(8, r.siAddr) && d[8..16] == LE(8, r.siPc) && d[16..20] == LE(4, r.siCode % U32))
  {
    hide LE;
  }

  lemma SubPart(s: seq<byte>, at: nat, d: seq<byte>, i: nat, j: nat)
    requires at + |d| <= |s| && s[at..at + |d|] == d
    ensures i <= j <= |d| ==> s[at + i..at + j] == d[i..j]
  {
    if i <= j <= |d| {
      var x, y := s[at + i..at + j], d[i..j];
      forall k | 0 <= k < j - i
        ensures x[k] == y[k]
      {
        assert d[i + k] == s[at..at + |d|][i + k] == s[at + (i + k)];
      }
    }
  }

  lemma Parts(a: seq<byte>, b: seq<byte>, c: seq<byte>, d: seq<byte>, g: seq<byte>)
    ensures var s, x, y, z := a + (b + (c + (d + g))), |a|, |a| + |b|, |a| + |b| + |c|;
      && s[..x] == a && s[x..y] == b && s[y..z] == c && s[z..z + |d|] == d && s[z + |d|..] == g
  {
    Front(a, b + (c + (d + g)));
    Behind(a, b, c + (d + g));
    Regroup(a, b, c + (d + g));
    Behind(a + b, c, d + g);
    Regroup(a + b, c, d + g);
    Behind(a + b + c, d, g);
  }

  lemma Front(a: seq<byte>, post: seq<byte>)
    ensures (a + post)[..|a|] == a
  {
  }

  lemma Behind(pre: seq<byte>, d: seq<byte>, post: seq<byte>)
    ensures var s, x := pre + (d + post), |pre|;
      s[x..x + |d|] == d && s[x + |d|..] == post
  {
  }

  lemma Regroup(a: seq<byte>, b: seq<byte>, c: seq<byte>)
    ensures a + (b + c) == a + b + c
  {
  }

  /** A packed reply body: one result, or one result per executed prefix. */
  datatype Reply = Single(r: Outcome) | Multi(rs: seq<Outcome>)

  predicate ReplyInRange(slots: seq<Slot>, p: Reply) {
    match p
    case Single(r) => InRange(slots, r)
    case Multi(rs) => |rs| < 256 && forall i :: 0 <= i < |rs| ==> InRange(slots, rs[i])
  }

  function EncInners(f: Flags, slots: seq<Slot>, before: seq<nat>, rs: seq<Outcome>): seq<byte>
    requires |before| == |slots|
    requires forall i :: 0 <= i < |rs| ==> InRange(slots, rs[i])
  {
    if rs == [] then [] else EncInner(f, slots, before, rs[0]) + EncInners(f, slots, before, rs[1..])
  }

  /** The frame body: the tag byte and the packed results. */
  function EncBody(f: Flags, slots: seq<Slot>, before: seq<nat>, p: Reply): (s: seq<byte>)
    requires |before| == |slots| && ReplyInRange(slots, p)
    ensures 0 < |s|
  {
    match p
    case Single(r) => [0] + EncInner(f, slots, before, r)
    case Multi(rs) => [1] + [|rs|] + EncInners(f, slots, before, rs)
  }

  // ---------------------------------------------------------------------
  // Server side
  // ---------------------------------------------------------------------

  datatype MemDiff = MemDiff(start: nat, n: nat, val: nat, checksum: nat)

  datatype Parsed = Parsed(signum: nat, cycle: Option<nat>, instret: Option<nat>,
                           regs: map<RegName, nat>, siAddr: nat, siPc: nat, siCode: nat,
                           mem: Option<seq<MemDiff>>)

  /** One parsed reply; a multi result may hold None where no data was left. */
  datatype ParsedReply = PSingle(r: Parsed) | PMulti(rs: seq<Option<Parsed>>)

  /** Ways parsing ends the server process: a short field, a register index
      outside the table, no data for a result, or a cursor past the end. */
  datatype Failure = StructError | IndexError | NoResult | Overrun

  datatype Res<+T> = Ok(value: T) | Err(error: Failure) {
    predicate IsFailure() { Err? }
    function PropagateFailure<U>(): Res<U>
      requires Err?
    { Err(error) }
    function Extract(): T
      requires Ok?
    { value }
  }

  /** struct.unpack of an n-byte field at offset r. */
  function Read(data: seq<byte>, r: nat, n: nat): Res<nat> {
    if r + n <= |data| then Ok(FromLE(data[r..r + n])) else Err(StructError)
  }

  /** int.from_bytes of a slice, which Python clips silently. */
  function ReadClipped(data: seq<byte>, r: nat, n: nat): nat {
    FromLE(data[Min(r, |data|)..Min(r + n, |data|)])
  }

  /** Reads k register entries at offset r into acc. */
  function ParseRegs(data: seq<byte>, names: seq<RegName>, r: nat, k: nat, acc: map<RegName, nat>)
    : Res<(map<RegName, nat>, nat)>
    decreases k
  {
    if k == 0 then Ok((acc, r))
    else
      var i :- Read(data, r, 1);
      if i >= |names| then Err(IndexError)
      else if names[i].Vec? then
        ParseRegs(data, names, r + 17, k - 1, acc[names[i] := ReadClipped(data, r + 1, 16)])
      else
        var v :- Read(data, r + 1, 8);
        ParseRegs(data, names, r + 9, k - 1, acc[names[i] := v])
  }

  /** Reads one memory change at offset r. */
  function ParseMem(data: seq<byte>, r: nat): Res<(MemDiff, nat)> {
    var start :- Read(data, r, 8);
    var n :- Read(data, r + 8, 4);
    var val := ReadClipped(data, r + 12, Cap(n));
    var checksum :- Read(data, r + 12 + Cap(n), 4);
    Ok((MemDiff(start, n, val, checksum), r + 16 + Cap(n)))
  }

  function ParseMems(data: seq<byte>, r: nat, k: nat, acc: seq<MemDiff>): Res<(seq<MemDiff>, nat)>
    decreases k
  {
    if k == 0 then Ok((acc, r))
    else
      var m :- ParseMem(data, r);
      ParseMems(data, m.1, k - 1, acc + [m.0])
  }

  /** The counters of a META build. */
  function ParseMeta(data: seq<byte>, f: Flags, r: nat): Res<(Option<nat>, Option<nat>, nat)> {
    if !f.meta then Ok((None, None, r))
    else
      var cycle :- Read(data, r, 2);
      if f.arch.Aarch64? then Ok((Some(cycle), None, r + 2))
      else
        var instret :- Read(data, r + 2, 2);
        Ok((Some(cycle), Some(instret), r + 4))
  }

  /** The fault fields, present exactly when there was a signal. */
  function ParseFault(data: seq<byte>, signum: nat, r: nat): Res<(nat, nat, nat, nat)> {
    if signum == 0 then Ok((0, 0, 0, r))
    else
      var a :- Read(data, r, 8);
      var p :- Read(data, r + 8, 8);
      var c :- Read(data, r + 16, 4);
      Ok((a, p, c, r + 20))
  }

  function ParseTail(data: seq<byte>, f: Flags, r: nat): Res<(Option<seq<MemDiff>>, nat)> {
    if !f.checkMem then Ok((None, r))
    else
      var k :- Read(data, r, 1);
      var ms :- ParseMems(data, r + 1, k, []);
      Ok((Some(ms.0), ms.1))
  }

  /** parse_one_result: None when there is no data at all. */
  function ParseOne(data: seq<byte>, f: Flags, names: seq<RegName>): Res<(Option<Parsed>, nat)> {
    if data == [] then Ok((None, 0))
    else
      var signum := data[0];
      var meta :- ParseMeta(data, f, 1);
      var k :- Read(data, meta.2, 1);
      var regs :- ParseRegs(data, names, meta.2 + 1, k, map[]);
      var fault :- ParseFault(data, signum, regs.1);
      var tail :- ParseTail(data, f, fault.3);
      Ok((Some(Parsed(signum, meta.0, meta.1, regs.0, fault.0, fault.1, fault.2, tail.0)), tail.1))
  }

  /** data[r:] as Python slices it. */
  function From(data: seq<byte>, r: nat): seq<byte> {
    data[Min(r, |data|)..]
  }

  /** The loop of parse_one_result_full_seq: k results from offset r on. */
  function ParseSeq(data: seq<byte>, f: Flags, names: seq<RegName>, r: nat, k: nat, acc: seq<Option<Parsed>>)
    : Res<(seq<Option<Parsed>>, nat)>
    decreases k
  {
    if k == 0 then Ok((acc, r))
    else
      var one :- ParseOne(From(data, r), f, names);
      ParseSeq(data, f, names, r + one.1, k - 1, acc + [one.0])
  }

  /** One round of the loop of parse_results: a tag byte and one reply. */
  function ParseReply(data: seq<byte>, f: Flags, names: seq<RegName>): (p: Res<(ParsedReply, nat)>)
    ensures p.Ok? ==> 1 <= p.value.1
  {
    var tag :- Read(data, 0, 1);
    if tag != 1 then
      var one :- ParseOne(data[1..], f, names);
      if one.0.None? then Err(NoResult) else Ok((PSingle(one.0.value), 1 + one.1))
    else
      var k :- Read(data, 1, 1);
      var rs :- ParseSeq(data[1..], f, names, 1, k, []);
      assert 1 <= rs.1 by { ParseSeqGrows(data[1..], f, names, 1, k, []); }
      Ok((PMulti(rs.0), 1 + rs.1))
  }

  lemma {:induction false} ParseSeqGrows(data: seq<byte>, f: Flags, names: seq<RegName>, r: nat, k: nat, acc: seq<Option<Parsed>>)
    ensures var p := ParseSeq(data, f, names, r, k, acc); p.Ok? ==> r <= p.value.1
    decreases k
  {
    if k > 0 {
      var one := ParseOne(From(data, r), f, names);
      if one.Ok? {
        ParseSeqGrows(data, f, names, r + one.value.1, k - 1, acc + [one.value.0]);
      }
    }
  }

  /** parse_results: replies until the data is used up exactly. */
  function ParseAll(data: seq<byte>, f: Flags, names: seq<RegName>): Res<seq<ParsedReply>>
    decreases |data|
  {
    var p :- ParseReply(data, f, names);
    if p.1 > |data| then Err(Overrun)
    else if p.1 == |data| then Ok([p.0])
    else
      var rest :- ParseAll(data[p.1..], f, names);
      Ok([p.0] + rest)
  }
}
