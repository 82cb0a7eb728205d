/**
 The packers and parsers of execution results as they run: writes through a
 running offset into a byte buffer with a back-patched register count, and a
 cursor that advances over the received bytes. Each is proved against the
 functions of ResultCodec: a packer leaves the buffer with the encoding at the
 offset and unchanged elsewhere, and a parser returns what the functions
 return, errors included.
 */
module ResultWire {
  import opened Bytes
  import opened ResultCodec
  import opened ResultRoundTrip

  // ---------------------------------------------------------------------
  // Packing
  // ---------------------------------------------------------------------

  /** Bytes already written at off, then b at the advanced offset. */
  method PutAfter(out: array<byte>, ghost o: seq<byte>, ghost off: nat, ghost done: seq<byte>, at: nat, b: seq<byte>)
    returns (next: nat)
    requires |o| == out.Length && off + |done| + |b| <= |o|
    requires out[..] == Splice(o, off, done) && at == off + |done|
    modifies out
    ensures out[..] == Splice(o, off, done + b)
    ensures next == off + |done + b|
  {
    next := Put(out, at, b);
    SpliceExtend(o, off, done, b);
  }

  method PackHead(out: array<byte>, off: nat, f: Flags, r: Outcome) returns (i: nat)
    requires off + |EncHead(f, r)| <= out.Length
    modifies out
    ensures out[..] == Splice(old(out[..]), off, EncHead(f, r))
    ensures i == off + |EncHead(f, r)|
  {
    hide LE;
    ghost var o := out[..];
    ghost var s := [r.signum % U8];
    i := Put(out, off, [r.signum % U8]);
    if f.meta {
      ghost var c := LE(2, r.cycle % U16);
      if f.arch.Riscv64? {
        ghost var t := LE(2, r.instret % U16);
        assert EncHead(f, r) == s + c + t;
        i := PutAfter(out, o, off, s, i, LE(2, r.cycle % U16));
        i := PutAfter(out, o, off, s + c, i, LE(2, r.instret % U16));
      } else {
        assert EncHead(f, r) == s + c;
        i := PutAfter(out, o, off, s, i, LE(2, r.cycle % U16));
      }
    } else {
      assert EncHead(f, r) == s;
    }
  }

  lemma {:induction false} DiffsGrow(slots: seq<Slot>, before: seq<nat>, after: seq<nat>, k: nat)
    requires |slots| == |before| == |after| && k <= |slots|
    ensures Diffs(slots[..k], before[..k], after[..k]) <= Diffs(slots, before, after)
    ensures |EncRegs(Diffs(slots[..k], before[..k], after[..k]))| <= |EncRegs(Diffs(slots, before, after))|
  {
    var part, all := Diffs(slots[..k], before[..k], after[..k]), Diffs(slots, before, after);
    if k == |slots| {
      assert slots[..k] == slots && before[..k] == before && after[..k] == after;
    } else {
      var n := |slots| - 1;
      DiffsGrow(slots[..n], before[..n], after[..n], k);
      assert slots[..n][..k] == slots[..k] && before[..n][..k] == before[..k] && after[..n][..k] == after[..k];
      assert all[..|part|] == part;
      EncRegsAppend(part, all[|part|..]);
      assert part + all[|part|..] == all;
    }
  }

  /** Diffs of one more slot, and the bytes it adds. */
  lemma DiffsStep(slots: seq<Slot>, before: seq<nat>, after: seq<nat>, k: nat)
    requires |slots| == |before| == |after| && k < |slots|
    ensures var p, q := Diffs(slots[..k], before[..k], after[..k]), Diffs(slots[..k + 1], before[..k + 1], after[..k + 1]);
      if before[k] != after[k] then
        && q == p + [RegEntry(slots[k], after[k])]
        && EncRegs(q) == EncRegs(p) + [slots[k].index] + LE(slots[k].size, after[k])
      else q == p
  {
    var p := Diffs(slots[..k], before[..k], after[..k]);
    assert slots[..k + 1][..k] == slots[..k] && before[..k + 1][..k] == before[..k] && after[..k + 1][..k] == after[..k];
    var e := RegEntry(slots[k], after[k]);
    EncRegsAppend(p, [e]);
    assert EncRegs([e]) == EncReg(e);
    assert EncRegs(p) + EncReg(e) == EncRegs(p) + [slots[k].index] + LE(slots[k].size, after[k]);
  }

  /** The register section: skip the count byte, write the changed registers, patch the count. */
  method PackRegs(out: array<byte>, off: nat, slots: seq<Slot>, before: seq<nat>, after: seq<nat>) returns (i: nat)
    requires |slots| == |before| == |after| < 256
    requires off + 1 + |EncRegs(Diffs(slots, before, after))| <= out.Length
    modifies out
    ensures out[..] == Splice(old(out[..]), off, [|Diffs(slots, before, after)|] + EncRegs(Diffs(slots, before, after)))
    ensures i == off + 1 + |EncRegs(Diffs(slots, before, after))|
  {
    hide LE, EncRegs, Diffs, Splice;
    ghost var o := out[..];
    ghost var hole := [o[off]];
    i := off + 1;
    var regsDiff: byte := 0;
    assert Diffs([], [], []) == [] && EncRegs([]) == [] by { NoDiffs(); }
    assert slots[..0] == [] && before[..0] == [] && after[..0] == [];
    assert Splice(o, off, hole) == o by { SpliceHole(o, off); }
    assert hole + [] == hole;
    for k := 0 to |slots|
      invariant regsDiff == |Diffs(slots[..k], before[..k], after[..k])| <= k
      invariant i == off + 1 + |EncRegs(Diffs(slots[..k], before[..k], after[..k]))| <= out.Length
      invariant out[..] == Splice(o, off, hole + EncRegs(Diffs(slots[..k], before[..k], after[..k])))
    {
      ghost var p := EncRegs(Diffs(slots[..k], before[..k], after[..k]));
      DiffsStep(slots, before, after, k);
      DiffsGrow(slots, before, after, k + 1);
      if before[k] != after[k] {
        regsDiff := regsDiff + 1;
        i := PutAfter(out, o, off, hole + p, i, [slots[k].index]);
        i := PutAfter(out, o, off, hole + p + [slots[k].index], i, LE(slots[k].size, after[k]));
        assert hole + p + [slots[k].index] + LE(slots[k].size, after[k])
          == hole + (p + [slots[k].index] + LE(slots[k].size, after[k]));
      }
    }
    assert slots[..|slots|] == slots && before[..|slots|] == before && after[..|slots|] == after;
    ghost var e := EncRegs(Diffs(slots, before, after));
    out[off] := regsDiff;
    assert out[..] == Splice(o, off, hole + e)[off := regsDiff];
    FillHole(o, off, e, regsDiff);
  }

  /** The count is written where a byte was left out. */
  lemma SpliceHole(o: seq<byte>, off: nat)
    requires off < |o|
    ensures Splice(o, off, [o[off]]) == o
  {
  }

  lemma FillHole(o: seq<byte>, off: nat, e: seq<byte>, b: byte)
    requires off + 1 + |e| <= |o|
    ensures Splice(o, off, [o[off]] + e)[off := b] == Splice(o, off, [b] + e)
  {
    assert Splice(o, off, [o[off]] + e)[off := b] == Splice(o, off, [b] + e);
  }

  lemma NoDiffs()
    ensures Diffs([], [], []) == [] && EncRegs([]) == []
  {
  }

  method PackFault(out: array<byte>, off: nat, r: Outcome) returns (i: nat)
    requires off + |EncFault(r)| <= out.Length
    modifies out
    ensures out[..] == Splice(old(out[..]), off, EncFault(r))
    ensures i == off + |EncFault(r)|
  {
    hide LE;
    i := off;
    ghost var o := out[..];
    if r.signum != 0 {
      ghost var a, p := LE(8, r.siAddr), LE(8, r.siPc);
      i := Put(out, i, LE(8, r.siAddr));
      i := PutAfter(out, o, off, a, i, LE(8, r.siPc));
      i := PutAfter(out, o, off, a + p, i, LE(4, r.siCode % U32));
    } else {
      assert Splice(o, off, []) == o;
    }
  }

  method PackMem(out: array<byte>, off: nat, m: MemChange) returns (i: nat)
    requires off + |EncMem(m)| <= out.Length
    modifies out
    ensures out[..] == Splice(old(out[..]), off, EncMem(m))
    ensures i == off + |EncMem(m)|
  {
    hide LE;
    ghost var o := out[..];
    ghost var s, n := LE(8, m.start), LE(4, m.n);
    i := Put(out, off, LE(8, m.start));
    i := PutAfter(out, o, off, s, i, LE(4, m.n));
    var nCap := if m.n < CUT_AT then m.n else CUT_AT;
    i := PutAfter(out, o, off, s + n, i, m.val[..nCap]);
    i := PutAfter(out, o, off, s + n + m.val[..nCap], i, LE(4, m.checksum));
  }

  lemma {:induction false} EncMemsStep(ms: seq<MemChange>, k: nat)
    requires k < |ms|
    ensures EncMems(ms[..k + 1]) == EncMems(ms[..k]) + EncMem(ms[k])
    ensures |EncMems(ms[..k + 1])| <= |EncMems(ms)|
  {
    EncMemsAppend(ms[..k], [ms[k]]);
    assert ms[..k] + [ms[k]] == ms[..k + 1];
    assert EncMems([ms[k]]) == EncMem(ms[k]);
    EncMemsAppend(ms[..k + 1], ms[k + 1..]);
    assert ms[..k + 1] + ms[k + 1..] == ms;
  }

  lemma {:induction false} EncMemsAppend(a: seq<MemChange>, b: seq<MemChange>)
    ensures EncMems(a + b) == EncMems(a) + EncMems(b)
  {
    if a == [] {
      assert a + b == b;
    } else {
      assert (a + b)[1..] == a[1..] + b;
      EncMemsAppend(a[1..], b);
    }
  }

  lemma NoMems()
    ensures EncMems([]) == []
  {
  }

  method PackMems(out: array<byte>, off: nat, ms: seq<MemChange>) returns (i: nat)
    requires off + |EncMems(ms)| <= out.Length
    modifies out
    ensures out[..] == Splice(old(out[..]), off, EncMems(ms))
    ensures i == off + |EncMems(ms)|
  {
    hide EncMem, EncMems, Splice;
    i := off;
    ghost var o := out[..];
    NoMems();
    SpliceNothing(o, off);
    assert ms[..0] == [];
    for k := 0 to |ms|
      invariant i == off + |EncMems(ms[..k])| <= out.Length
      invariant out[..] == Splice(o, off, EncMems(ms[..k]))
    {
      ghost var p := EncMems(ms[..k]);
      EncMemsStep(ms, k);
      i := PackMem(out, i, ms[k]);
      SpliceExtend(o, off, p, EncMem(ms[k]));
    }
    assert ms[..|ms|] == ms;
  }

  method PackTail(out: array<byte>, off: nat, f: Flags, r: Outcome) returns (i: nat)
    requires |r.mem| < 256
    requires off + |EncTail(f, r)| <= out.Length
    modifies out
    ensures out[..] == Splice(old(out[..]), off, EncTail(f, r))
    ensures i == off + |EncTail(f, r)|
  {
    hide EncMems, Splice;
    i := off;
    ghost var o := out[..];
    if f.checkMem {
      i := Put(out, off, [|r.mem|]);
      i := PackMems(out, i, r.mem);
      SpliceExtend(o, off, [|r.mem|], EncMems(r.mem));
    } else {
      SpliceNothing(o, off);
    }
  }

  lemma MemFits(r: Outcome)
    requires OutcomeFits(r)
    ensures |r.mem| < 256
  {
  }

  /** pack_inner_result: writes exactly the encoding, nothing around it. */
  method PackInnerResult(out: array<byte>, off: nat, f: Flags, slots: seq<Slot>, before: seq<nat>, r: Outcome)
    returns (i: nat)
    requires |before| == |slots| < 256 && InRange(slots, r)
    requires off + |EncInner(f, slots, before, r)| <= out.Length
    modifies out
    ensures out[..] == Splice(old(out[..]), off, EncInner(f, slots, before, r))
    ensures i == off + |EncInner(f, slots, before, r)|
  {
    hide EncHead, EncRegs, EncFault, EncTail, Diffs, Splice, OutcomeFits;
    MemFits(r);
    ghost var o := out[..];
    ghost var es := Diffs(slots, before, r.regs);
    ghost var h, g, d, t := EncHead(f, r), [|es|] + EncRegs(es), EncFault(r), EncTail(f, r);
    assert EncInner(f, slots, before, r) == h + g + d + t;
    i := PackHead(out, off, f, r);
    i := PackRegs(out, i, slots, before, r.regs);
    SpliceExtend(o, off, h, g);
    i := PackFault(out, i, r);
    SpliceExtend(o, off, h + g, d);
    i := PackTail(out, i, f, r);
    SpliceExtend(o, off, h + g + d, t);
  }

  /** pack_result, up to its assertion on the length. */
  method PackResult(out: array<byte>, off: nat, f: Flags, slots: seq<Slot>, before: seq<nat>, r: Outcome)
    returns (i: nat, ok: bool)
    requires |before| == |slots| < 256 && InRange(slots, r)
    requires off + 2 + |EncBody(f, slots, before, Single(r))| <= out.Length
    modifies out
    ensures ok <==> |EncBody(f, slots, before, Single(r))| < U16
    ensures ok ==> i == off + 2 + |EncBody(f, slots, before, Single(r))|
    ensures ok ==> out[..] == Splice(old(out[..]), off, Frame(EncBody(f, slots, before, Single(r))))
  {
    hide EncInner, InRange, LE, Splice;
    ghost var o := out[..];
    ghost var hole := o[off..off + 2];
    ghost var e := EncInner(f, slots, before, r);
    i := off + 2;
    SpliceSame(o, off, 2);
    i := PutAfter(out, o, off, hole, i, [0]);
    i := PackInnerResult(out, i, f, slots, before, r);
    SpliceExtend(o, off, hole + [0], e);
    assert hole + [0] + e == hole + ([0] + e);
    ok := i - off - 2 < U16;
    if ok {
      PatchLength(out, o, off, hole, [0] + e, i - off - 2);
    }
  }

  /** Writes the length of a body into the two bytes reserved for it. */
  method PatchLength(out: array<byte>, ghost o: seq<byte>, off: nat, ghost hole: seq<byte>, ghost body: seq<byte>, n: nat)
    requires |o| == out.Length && |hole| == 2 && off + 2 + |body| <= |o|
    requires n == |body| < U16
    requires out[..] == Splice(o, off, hole + body)
    modifies out
    ensures out[..] == Splice(o, off, Frame(body))
  {
    hide LE;
    var _ := Put(out, off, LE(2, n));
    assert Splice(Splice(o, off, hole + body), off, LE(2, n)) == Splice(o, off, LE(2, n) + body);
  }

  lemma {:induction false} EncInnersAppend(f: Flags, slots: seq<Slot>, before: seq<nat>, a: seq<Outcome>, b: seq<Outcome>)
    requires |before| == |slots|
    requires forall i :: 0 <= i < |a| ==> InRange(slots, a[i])
    requires forall i :: 0 <= i < |b| ==> InRange(slots, b[i])
    ensures forall i :: 0 <= i < |a + b| ==> InRange(slots, (a + b)[i])
    ensures EncInners(f, slots, before, a + b) == EncInners(f, slots, before, a) + EncInners(f, slots, before, b)
  {
    hide InRange, EncInner;
    if a == [] {
      assert a + b == b;
    } else {
      assert (a + b)[1..] == a[1..] + b;
      EncInnersAppend(f, slots, before, a[1..], b);
    }
  }

  lemma EncInnersStep(f: Flags, slots: seq<Slot>, before: seq<nat>, rs: seq<Outcome>, k: nat)
    requires |before| == |slots| && k < |rs|
    requires forall i :: 0 <= i < |rs| ==> InRange(slots, rs[i])
    ensures EncInners(f, slots, before, rs[..k + 1]) == EncInners(f, slots, before, rs[..k]) + EncInner(f, slots, before, rs[k])
    ensures |EncInners(f, slots, before, rs[..k + 1])| <= |EncInners(f, slots, before, rs)|
  {
    hide InRange, EncInner;
    EncInnersAppend(f, slots, before, rs[..k], [rs[k]]);
    assert rs[..k] + [rs[k]] == rs[..k + 1];
    var e := EncInner(f, slots, before, rs[k]);
    assert EncInners(f, slots, before, [rs[k]]) == e + [] == e;
    EncInnersAppend(f, slots, before, rs[..k + 1], rs[k + 1..]);
    assert rs[..k + 1] + rs[k + 1..] == rs;
  }

  lemma NoInners(f: Flags, slots: seq<Slot>, before: seq<nat>)
    requires |before| == |slots|
    ensures EncInners(f, slots, before, []) == []
  {
  }

  lemma SpliceSame(o: seq<byte>, off: nat, n: nat)
    requires off + n <= |o|
    ensures Splice(o, off, o[off..off + n]) == o
  {
  }

  /** The loop of pack_results over the executed prefixes. */
  method PackInners(out: array<byte>, off: nat, f: Flags, slots: seq<Slot>, before: seq<nat>, rs: seq<Outcome>)
    returns (i: nat)
    requires |before| == |slots| < 256
    requires forall i :: 0 <= i < |rs| ==> InRange(slots, rs[i])
    requires off + |EncInners(f, slots, before, rs)| <= out.Length
    modifies out
    ensures out[..] == Splice(old(out[..]), off, EncInners(f, slots, before, rs))
    ensures i == off + |EncInners(f, slots, before, rs)|
  {
    hide EncInner, InRange, Splice, EncInners;
    i := off;
    ghost var o := out[..];
    NoInners(f, slots, before);
    SpliceNothing(o, off);
    assert rs[..0] == [];
    for l := 0 to |rs|
      invariant i == off + |EncInners(f, slots, before, rs[..l])| <= out.Length
      invariant out[..] == Splice(o, off, EncInners(f, slots, before, rs[..l]))
    {
      ghost var p := EncInners(f, slots, before, rs[..l]);
      EncInnersStep(f, slots, before, rs, l);
      i := PackInnerResult(out, i, f, slots, before, rs[l]);
      SpliceExtend(o, off, p, EncInner(f, slots, before, rs[l]));
    }
    assert rs[..|rs|] == rs;
  }

  /** pack_results, up to its assertion on the length. */
  method PackResults(out: array<byte>, off: nat, f: Flags, slots: seq<Slot>, before: seq<nat>, rs: seq<Outcome>)
    returns (i: nat, ok: bool)
    requires |before| == |slots| < 256 && ReplyInRange(slots, Multi(rs))
    requires off + 2 + |EncBody(f, slots, before, Multi(rs))| <= out.Length
    modifies out
    ensures ok <==> |EncBody(f, slots, before, Multi(rs))| < U16
    ensures ok ==> i == off + 2 + |EncBody(f, slots, before, Multi(rs))|
    ensures ok ==> out[..] == Splice(old(out[..]), off, Frame(EncBody(f, slots, before, Multi(rs))))
  {
    hide EncInner, InRange, LE, Splice, EncInners;
    ghost var o := out[..];
    ghost var hole := o[off..off + 2];
    ghost var head := [1] + [|rs|];
    ghost var e := EncInners(f, slots, before, rs);
    i := off + 2;
    SpliceSame(o, off, 2);
    i := PutAfter(out, o, off, hole, i, [1]);
    i := PutAfter(out, o, off, hole + [1], i, [|rs|]);
    assert hole + [1] + [|rs|] == hole + head;
    i := PackInners(out, i, f, slots, before, rs);
    SpliceExtend(o, off, hole + head, e);
    assert hole + head + e == hole + (head + e);
    ok := i - off - 2 < U16;
    if ok {
      PatchLength(out, o, off, hole, head + e, i - off - 2);
    }
  }

  // ---------------------------------------------------------------------
  // Parsing
  // ---------------------------------------------------------------------

  /** The register loop: k entries from cursor r on. */
  method ReadRegs(data: seq<byte>, names: seq<RegName>, start: nat, k: nat)
    returns (res: Res<(map<RegName, nat>, nat)>)
    ensures res == ParseRegs(data, names, start, k, map[])
  {
    var regs: map<RegName, nat> := map[];
    var r := start;
    for j := 0 to k
      invariant ParseRegs(data, names, start, k, map[]) == ParseRegs(data, names, r, k - j, regs)
    {
      var index := Read(data, r, 1);
      if index.Err? {
        return Err(index.error);
      }
      r := r + 1;
      if index.value >= |names| {
        return Err(IndexError);
      }
      var reg := names[index.value];
      if reg.Vec? {
        regs := regs[reg := ReadClipped(data, r, 16)];
        r := r + 16;
      } else {
        var value := Read(data, r, 8);
        if value.Err? {
          return Err(value.error);
        }
        regs := regs[reg := value.value];
        r := r + 8;
      }
    }
    return Ok((regs, r));
  }

  /** The memory-change loop. */
  method ReadMems(data: seq<byte>, start: nat, k: nat) returns (res: Res<(seq<MemDiff>, nat)>)
    ensures res == ParseMems(data, start, k, [])
  {
    hide ParseMem;
    var diffs: seq<MemDiff> := [];
    var r := start;
    for j := 0 to k
      invariant ParseMems(data, start, k, []) == ParseMems(data, r, k - j, diffs)
    {
      var m := ParseMem(data, r);
      if m.Err? {
        return Err(m.error);
      }
      diffs := diffs + [m.value.0];
      r := m.value.1;
    }
    return Ok((diffs, r));
  }

  /** parse_one_result. */
  method ParseOneResult(data: seq<byte>, f: Flags, names: seq<RegName>) returns (res: Res<(Option<Parsed>, nat)>)
    ensures res == ParseOne(data, f, names)
  {
    hide ParseRegs, ParseMems, FromLE;
    if data == [] {
      return Ok((None, 0));
    }
    var signum := data[0];
    var meta := ParseMeta(data, f, 1);
    if meta.Err? { return Err(meta.error); }
    var r := meta.value.2;
    var k := Read(data, r, 1);
    if k.Err? { return Err(k.error); }
    var regs := ReadRegs(data, names, r + 1, k.value);
    if regs.Err? { return Err(regs.error); }
    var fault := ParseFault(data, signum, regs.value.1);
    if fault.Err? { return Err(fault.error); }
    r := fault.value.3;
    var mem: Option<seq<MemDiff>> := None;
    if f.checkMem {
      var n := Read(data, r, 1);
      if n.Err? { return Err(n.error); }
      var ms := ReadMems(data, r + 1, n.value);
      if ms.Err? { return Err(ms.error); }
      mem, r := Some(ms.value.0), ms.value.1;
    }
    return Ok((Some(Parsed(signum, meta.value.0, meta.value.1, regs.value.0,
                           fault.value.0, fault.value.1, fault.value.2, mem)), r));
  }

  /** parse_one_result_full_seq. */
  method ParseFullSeq(data: seq<byte>, f: Flags, names: seq<RegName>) returns (res: Res<(seq<Option<Parsed>>, nat)>)
    ensures res == (var k := Read(data, 0, 1); if k.Err? then Err(k.error) else ParseSeq(data, f, names, 1, k.value, []))
  {
    hide ParseOne, FromLE;
    var k := Read(data, 0, 1);
    if k.Err? {
      return Err(k.error);
    }
    var r := 1;
    var results: seq<Option<Parsed>> := [];
    for j := 0 to k.value
      invariant ParseSeq(data, f, names, 1, k.value, []) == ParseSeq(data, f, names, r, k.value - j, results)
    {
      var one := ParseOneResult(From(data, r), f, names);
      if one.Err? {
        return Err(one.error);
      }
      results := results + [one.value.0];
      r := r + one.value.1;
    }
    return Ok((results, r));
  }

  /** parse_results: the cursor aread walks over the data until it is used up. */
  method ParseResults(data: seq<byte>, f: Flags, names: seq<RegName>) returns (res: Res<seq<ParsedReply>>)
    ensures res == ParseAll(data, f, names)
  {
    hide ParseOne, ParseSeq, FromLE;
    var aread := 0;
    var results: seq<ParsedReply> := [];
    assert data[0..] == data;
    PrependLaws(results, [], ParseAll(data, f, names));
    while true
      invariant aread <= |data|
      invariant aread == 0 || aread < |data|
      invariant ParseAll(data, f, names) == Prepend(results, ParseAll(data[aread..], f, names))
      decreases |data| - aread
    {
      var rest := data[aread..];
      var tag := Read(rest, 0, 1);
      if tag.Err? {
        return Err(tag.error);
      }
      var reply: ParsedReply;
      var read: nat;
      if tag.value != 1 {
        var one := ParseOneResult(rest[1..], f, names);
        if one.Err? { return Err(one.error); }
        if one.value.0.None? { return Err(NoResult); }
        reply, read := PSingle(one.value.0.value), one.value.1;
      } else {
        assert Read(rest, 1, 1) == Read(rest[1..], 0, 1) by {
          if |rest| > 1 { assert rest[1..2] == rest[1..][0..1]; }
        }
        var many := ParseFullSeq(rest[1..], f, names);
        if many.Err? { return Err(many.error); }
        reply, read := PMulti(many.value.0), many.value.1;
      }
      assert ParseReply(rest, f, names) == Ok((reply, 1 + read));
      if aread + 1 + read > |data| {
        return Err(Overrun);
      }
      assert 1 + read < |rest| ==> ParseAll(rest, f, names) == Prepend([reply], ParseAll(rest[1 + read..], f, names));
      assert data[aread..][1 + read..] == data[aread + 1 + read..];
      PrependLaws(results, [reply], ParseAll(data[aread + 1 + read..], f, names));
      results := results + [reply];
      aread := aread + 1 + read;
      if aread == |data| {
        return Ok(results);
      }
    }
  }

  lemma PrependLaws(a: seq<ParsedReply>, b: seq<ParsedReply>, rest: Res<seq<ParsedReply>>)
    ensures Prepend([], rest) == rest
    ensures Prepend(a, Prepend(b, rest)) == Prepend(a + b, rest)
  {
    if rest.Ok? {
      assert [] + rest.value == rest.value;
      assert a + (b + rest.value) == a + b + rest.value;
    }
  }

  /** Results read so far, put in front of what the rest parses to. */
  function Prepend(done: seq<ParsedReply>, rest: Res<seq<ParsedReply>>): Res<seq<ParsedReply>> {
    match rest
    case Ok(rs) => Ok(done + rs)
    case Err(e) => Err(e)
  }
}
