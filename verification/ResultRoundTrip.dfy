/**
 The parser inverts the packer, and comparing parsed results is comparing
 machine states. Each part of a packed result has a lemma that reads it back at
 any offset of a longer byte string, and the lemmas are put together along the
 layout of the format. The view of an outcome is what the server knows of it:
 all its fields, with the registers given as a map of those that changed.
 */
module ResultRoundTrip {
  import opened Bytes
  import opened ResultCodec

  // ---------------------------------------------------------------------
  // What the server should see
  // ---------------------------------------------------------------------

  /** The entries name registers of the table and their values fit. */
  predicate EntriesFit(names: seq<RegName>, es: seq<RegEntry>) {
    forall i :: 0 <= i < |es| ==>
      es[i].slot.index < |names| && es[i].slot.size == NameSize(names[es[i].slot.index]) && es[i].value < Pow256(es[i].slot.size)
  }

  /** The register map after reading the entries es on top of acc. */
  function RegMap(names: seq<RegName>, es: seq<RegEntry>, acc: map<RegName, nat>): map<RegName, nat>
    requires EntriesFit(names, es)
  {
    if es == [] then acc
    else RegMap(names, es[1..], acc[names[es[0].slot.index] := es[0].value])
  }

  function MemView(m: MemChange): MemDiff
  {
    MemDiff(m.start, m.n, FromLE(m.val[..Min(m.n, 16)]), m.checksum)
  }

  function MemViews(ms: seq<MemChange>): (vs: seq<MemDiff>)
    ensures |vs| == |ms|
    ensures forall i :: 0 <= i < |ms| ==> vs[i] == MemView(ms[i])
  {
    if ms == [] then [] else [MemView(ms[0])] + MemViews(ms[1..])
  }

  /** The name of the register in slot i. */
  function NameOf(slots: seq<Slot>, names: seq<RegName>, i: nat): RegName
    requires i < |slots| && slots[i].index < |names|
  {
    names[slots[i].index]
  }

  /** The changed registers by name, said without the packing order. */
  ghost predicate IsChangeMap(slots: seq<Slot>, names: seq<RegName>, before: seq<nat>, after: seq<nat>, m: map<RegName, nat>)
    requires Compatible(slots, names) && |slots| == |before| == |after|
  {
    && (forall i :: 0 <= i < |slots| ==>
          (NameOf(slots, names, i) in m <==> before[i] != after[i])
          && (before[i] != after[i] ==> m[NameOf(slots, names, i)] == after[i]))
    && (forall x :: x in m ==> exists i :: 0 <= i < |slots| && x == NameOf(slots, names, i))
  }

  /** The parsed form of a result: signal, fault, memory and changed registers. */
  ghost predicate IsView(f: Flags, slots: seq<Slot>, names: seq<RegName>, before: seq<nat>, r: Outcome, p: Parsed)
    requires Compatible(slots, names) && |slots| == |before| && InRange(slots, r)
  {
    && p.signum == r.signum
    && p.siAddr == r.siAddr && p.siPc == r.siPc && p.siCode == r.siCode % U32
    && p.cycle == CycleView(f, r) && p.instret == InstretView(f, r) && p.mem == TailView(f, r)
    && IsChangeMap(slots, names, before, r.regs, p.regs)
  }

  function CycleView(f: Flags, r: Outcome): Option<nat> {
    if f.meta then Some(r.cycle % U16) else None
  }

  function InstretView(f: Flags, r: Outcome): Option<nat> {
    if f.meta && f.arch.Riscv64? then Some(r.instret % U16) else None
  }

  function TailView(f: Flags, r: Outcome): Option<seq<MemDiff>> {
    if f.checkMem then Some(MemViews(r.mem)) else None
  }

  /** The parsed form of a result whose register entries are es. */
  function PartsView(f: Flags, names: seq<RegName>, es: seq<RegEntry>, r: Outcome): Parsed
    requires EntriesFit(names, es) && OutcomeFits(r)
  {
    Parsed(r.signum, CycleView(f, r), InstretView(f, r), RegMap(names, es, map[]),
           r.siAddr, r.siPc, r.siCode % U32, TailView(f, r))
  }

  lemma {:induction false} DiffsFit(slots: seq<Slot>, names: seq<RegName>, before: seq<nat>, after: seq<nat>)
    requires |slots| == |before| && RegsInRange(slots, after) && SlotsFit(slots, names)
    ensures EntriesFit(names, Diffs(slots, before, after))
  {
    if slots != [] {
      var k := |slots| - 1;
      DiffsFit(slots[..k], names, before[..k], after[..k]);
    }
  }

  /** The function behind IsView. */
  function View(f: Flags, slots: seq<Slot>, names: seq<RegName>, before: seq<nat>, r: Outcome): Parsed
    requires |slots| == |before| && InRange(slots, r)
    requires SlotsFit(slots, names)
  {
    DiffsFit(slots, names, before, r.regs);
    PartsView(f, names, Diffs(slots, before, r.regs), r)
  }

  function ReplyView(f: Flags, slots: seq<Slot>, names: seq<RegName>, before: seq<nat>, p: Reply): ParsedReply
    requires |slots| == |before| && ReplyInRange(slots, p)
    requires SlotsFit(slots, names)
  {
    match p
    case Single(r) => PSingle(View(f, slots, names, before, r))
    case Multi(rs) => PMulti(Views(f, slots, names, before, rs))
  }

  function Views(f: Flags, slots: seq<Slot>, names: seq<RegName>, before: seq<nat>, rs: seq<Outcome>): (vs: seq<Option<Parsed>>)
    requires |slots| == |before|
    requires forall i :: 0 <= i < |rs| ==> InRange(slots, rs[i])
    requires SlotsFit(slots, names)
    ensures |vs| == |rs|
    ensures forall i :: 0 <= i < |rs| ==> vs[i] == Some(View(f, slots, names, before, rs[i]))
  {
    if rs == [] then [] else [Some(View(f, slots, names, before, rs[0]))] + Views(f, slots, names, before, rs[1..])
  }

  // ---------------------------------------------------------------------
  // Register maps
  // ---------------------------------------------------------------------

  lemma {:induction false} RegMapAppend(names: seq<RegName>, es: seq<RegEntry>, e: RegEntry, acc: map<RegName, nat>)
    requires EntriesFit(names, es) && EntriesFit(names, es + [e])
    ensures e.slot.index < |names|
    ensures RegMap(names, es + [e], acc) == RegMap(names, es, acc)[names[e.slot.index] := e.value]
  {
    if es == [] {
      assert (es + [e])[1..] == [];
      assert (es + [e])[0] == e;
    } else {
      assert (es + [e])[1..] == es[1..] + [e];
      assert (es + [e])[|es|] == e;
      RegMapAppend(names, es[1..], e, acc[names[es[0].slot.index] := es[0].value]);
    }
  }

  /** The parsed register map is exactly the set of changes. */
  lemma {:induction false} RegMapIsChangeMap(slots: seq<Slot>, names: seq<RegName>, before: seq<nat>, after: seq<nat>)
    requires Compatible(slots, names) && |slots| == |before| && RegsInRange(slots, after)
    ensures EntriesFit(names, Diffs(slots, before, after))
    ensures IsChangeMap(slots, names, before, after, RegMap(names, Diffs(slots, before, after), map[]))
  {
    hide IsChangeMap, Compatible, RegMap, SlotsFit;
    CompatibleFits(slots, names);
    DiffsFit(slots, names, before, after);
    if slots == [] {
      assert IsChangeMap([], names, [], [], RegMap(names, [], map[])) by { EmptyChangeMap(names); }
    } else {
      var k := |slots| - 1;
      var s, b, a := slots[..k], before[..k], after[..k];
      PrefixCompatible(slots, names, k);
      RegMapIsChangeMap(s, names, b, a);
      var m := RegMap(names, Diffs(s, b, a), map[]);
      var last := NameOf(slots, names, k);
      LastIsNew(slots, names, before, after, m);
      var e := RegEntry(slots[k], after[k]);
      if before[k] != after[k] {
        RegMapAppend(names, Diffs(s, b, a), e, map[]);
        var m' := m[last := after[k]];
        assert RegMap(names, Diffs(slots, before, after), map[]) == m';
        ExtendChangeMap(slots, names, before, after, m, m');
      } else {
        assert Diffs(slots, before, after) == Diffs(s, b, a);
        ExtendChangeMap(slots, names, before, after, m, m);
      }
    }
  }

  lemma CompatibleFits(slots: seq<Slot>, names: seq<RegName>)
    requires Compatible(slots, names)
    ensures SlotsFit(slots, names)
    ensures forall i :: 0 <= i < |slots| ==> slots[i].index < |names|
  {
  }

  lemma PrefixCompatible(slots: seq<Slot>, names: seq<RegName>, k: nat)
    requires Compatible(slots, names) && k <= |slots|
    ensures Compatible(slots[..k], names)
  {
  }

  lemma EmptyChangeMap(names: seq<RegName>)
    requires Compatible([], names)
    ensures IsChangeMap([], names, [], [], RegMap(names, [], map[]))
  {
  }

  /** The last register's name is not among the earlier changes. */
  lemma LastIsNew(slots: seq<Slot>, names: seq<RegName>, before: seq<nat>, after: seq<nat>, m: map<RegName, nat>)
    requires Compatible(slots, names) && |slots| == |before| == |after| && slots != []
    requires Compatible(slots[..|slots| - 1], names)
    requires IsChangeMap(slots[..|slots| - 1], names, before[..|slots| - 1], after[..|slots| - 1], m)
    ensures NameOf(slots, names, |slots| - 1) !in m
  {
    var k := |slots| - 1;
    var s := slots[..k];
    forall i | 0 <= i < k
      ensures NameOf(s, names, i) != NameOf(slots, names, k)
    {
      assert s[i] == slots[i];
    }
  }

  lemma ExtendChangeMap(slots: seq<Slot>, names: seq<RegName>, before: seq<nat>, after: seq<nat>, m: map<RegName, nat>, m': map<RegName, nat>)
    requires Compatible(slots, names) && |slots| == |before| == |after| && slots != []
    requires var k := |slots| - 1;
      && IsChangeMap(slots[..k], names, before[..k], after[..k], m)
      && NameOf(slots, names, k) !in m
      && m' == (if before[k] != after[k] then m[NameOf(slots, names, k) := after[k]] else m)
    ensures IsChangeMap(slots, names, before, after, m')
  {
    var k := |slots| - 1;
    var s := slots[..k];
    forall i | 0 <= i < |slots|
      ensures NameOf(slots, names, i) in m' <==> before[i] != after[i]
      ensures before[i] != after[i] ==> m'[NameOf(slots, names, i)] == after[i]
    {
      if i < k {
        assert NameOf(slots, names, i) == NameOf(s, names, i);
        assert NameOf(slots, names, i) != NameOf(slots, names, k);
      }
    }
    forall x | x in m'
      ensures exists i :: 0 <= i < |slots| && x == NameOf(slots, names, i)
    {
      if x in m {
        var i :| 0 <= i < k && x == NameOf(s, names, i);
        assert x == NameOf(slots, names, i);
      } else {
        assert x == NameOf(slots, names, k);
      }
    }
  }

  /** Overlaying the parsed map on the registers before gives the registers after. */
  function Overlay(slots: seq<Slot>, names: seq<RegName>, before: seq<nat>, m: map<RegName, nat>): (after: seq<nat>)
    requires |slots| == |before|
    requires SlotsFit(slots, names)
    ensures |after| == |before|
  {
    seq(|slots|, i requires 0 <= i < |slots| =>
      if NameOf(slots, names, i) in m then m[NameOf(slots, names, i)] else before[i])
  }

  lemma OverlayRestores(slots: seq<Slot>, names: seq<RegName>, before: seq<nat>, after: seq<nat>, m: map<RegName, nat>)
    requires Compatible(slots, names) && |slots| == |before| == |after|
    requires IsChangeMap(slots, names, before, after, m)
    ensures Overlay(slots, names, before, m) == after
  {
  }

  lemma ChangeMapsEqual(slots: seq<Slot>, names: seq<RegName>, before: seq<nat>, a: seq<nat>, b: seq<nat>, ma: map<RegName, nat>, mb: map<RegName, nat>)
    requires Compatible(slots, names) && |slots| == |before| == |a| == |b|
    requires IsChangeMap(slots, names, before, a, ma) && IsChangeMap(slots, names, before, b, mb)
    ensures ma == mb <==> a == b
  {
    if ma == mb {
      OverlayRestores(slots, names, before, a, ma);
      OverlayRestores(slots, names, before, b, mb);
    }
    if a == b {
      forall x
        ensures x in ma <==> x in mb
        ensures x in ma && x in mb ==> ma[x] == mb[x]
      {
        if x in ma {
          var i :| 0 <= i < |slots| && x == NameOf(slots, names, i);
        }
        if x in mb {
          var i :| 0 <= i < |slots| && x == NameOf(slots, names, i);
        }
      }
      assert ma == mb;
    }
  }

  // ---------------------------------------------------------------------
  // Parsing what was packed
  // ---------------------------------------------------------------------

  /** At offset r, data continues with s. */
  ghost predicate At(data: seq<byte>, r: nat, s: seq<byte>) {
    r + |s| <= |data| && data[r..r + |s|] == s
  }

  lemma AtSplit(data: seq<byte>, r: nat, a: seq<byte>, b: seq<byte>)
    requires At(data, r, a + b)
    ensures At(data, r, a) && At(data, r + |a|, b)
  {
    assert data[r..r + |a|] == (a + b)[..|a|];
    assert data[r + |a|..r + |a| + |b|] == (a + b)[|a|..];
  }

  lemma ReadField(data: seq<byte>, r: nat, n: nat, v: nat)
    requires At(data, r, LE(n, v)) && v < Pow256(n)
    ensures Read(data, r, n) == Ok(v)
    ensures ReadClipped(data, r, n) == v
  {
    LERoundTrip(n, v);
  }

  lemma {:induction false} RegsRoundTrip(data: seq<byte>, names: seq<RegName>, r: nat, es: seq<RegEntry>, acc: map<RegName, nat>)
    requires At(data, r, EncRegs(es))
    requires EntriesFit(names, es)
    ensures ParseRegs(data, names, r, |es|, acc) == Ok((RegMap(names, es, acc), r + |EncRegs(es)|))
    decreases |es|
  {
    if es != [] {
      var e := es[0];
      var i := e.slot.index;
      AtSplit(data, r, EncReg(e), EncRegs(es[1..]));
      AtSplit(data, r, [i], LE(e.slot.size, e.value));
      assert Read(data, r, 1) == Ok(i) by {
        assert data[r..r + 1] == [i];
        assert FromLE([i]) == i;
      }
      ReadField(data, r + 1, e.slot.size, e.value);
      RegsRoundTrip(data, names, r + 1 + e.slot.size, es[1..], acc[names[i] := e.value]);
    }
  }

  lemma MemRoundTrip(data: seq<byte>, r: nat, m: MemChange)
    requires MemChangeInRange(m) && At(data, r, EncMem(m))
    ensures ParseMem(data, r) == Ok((MemView(m), r + |EncMem(m)|))
  {
    hide LE, FromLE, Pow256;
    var cap := m.val[..Cap(m.n)];
    assert Read(data, r, 8) == Ok(m.start) && Read(data, r + 8, 4) == Ok(m.n) by {
      Widths();
      assert EncMem(m) == LE(8, m.start) + LE(4, m.n) + (cap + LE(4, m.checksum));
      AtSplit3(data, r, LE(8, m.start), LE(4, m.n), cap + LE(4, m.checksum));
      ReadField(data, r, 8, m.start);
      ReadField(data, r + 8, 4, m.n);
    }
    assert ReadClipped(data, r + 12, |cap|) == FromLE(cap) && Read(data, r + 12 + |cap|, 4) == Ok(m.checksum) by {
      Widths();
      AtSplit3(data, r, LE(8, m.start) + LE(4, m.n), cap, LE(4, m.checksum));
      ReadField(data, r + 12 + |cap|, 4, m.checksum);
    }
  }

  lemma AtSplit3(data: seq<byte>, r: nat, a: seq<byte>, b: seq<byte>, c: seq<byte>)
    requires At(data, r, a + b + c)
    ensures At(data, r, a) && At(data, r + |a|, b) && At(data, r + |a| + |b|, c)
  {
    AtSplit(data, r, a + b, c);
    AtSplit(data, r, a, b);
  }

  lemma {:induction false} MemsRoundTrip(data: seq<byte>, r: nat, ms: seq<MemChange>, acc: seq<MemDiff>)
    requires forall i :: 0 <= i < |ms| ==> MemChangeInRange(ms[i])
    requires At(data, r, EncMems(ms))
    ensures ParseMems(data, r, |ms|, acc) == Ok((acc + MemViews(ms), r + |EncMems(ms)|))
    decreases |ms|
  {
    hide ParseMem, EncMem, MemView, MemChangeInRange;
    if ms == [] {
      assert acc + MemViews(ms) == acc;
    } else {
      var e, es := EncMem(ms[0]), EncMems(ms[1..]);
      assert ParseMem(data, r) == Ok((MemView(ms[0]), r + |e|)) by {
        AtSplit(data, r, e, es);
        MemRoundTrip(data, r, ms[0]);
      }
      assert At(data, r + |e|, es) by {
        AtSplit(data, r, e, es);
      }
      MemsRoundTrip(data, r + |e|, ms[1..], acc + [MemView(ms[0])]);
      assert acc + [MemView(ms[0])] + MemViews(ms[1..]) == acc + MemViews(ms);
    }
  }

  lemma HeadRoundTrip(data: seq<byte>, f: Flags, r: Outcome)
    requires At(data, 0, EncHead(f, r)) && OutcomeFits(r)
    ensures data != [] && data[0] == r.signum
    ensures ParseMeta(data, f, 1) ==
      Ok((CycleView(f, r), InstretView(f, r), |EncHead(f, r)|))
  {
    Widths();
    assert data[0] == EncHead(f, r)[0];
    if f.meta {
      var c, i := LE(2, r.cycle % U16), LE(2, r.instret % U16);
      if f.arch.Riscv64? {
        assert EncHead(f, r) == [r.signum] + (c + i);
        AtSplit(data, 0, [r.signum], c + i);
        AtSplit(data, 1, c, i);
        ReadField(data, 3, 2, r.instret % U16);
      } else {
        assert EncHead(f, r) == [r.signum] + c;
        AtSplit(data, 0, [r.signum], c);
      }
      ReadField(data, 1, 2, r.cycle % U16);
    }
  }

  lemma FaultRoundTrip(data: seq<byte>, r: nat, o: Outcome)
    requires At(data, r, EncFault(o)) && OutcomeFits(o)
    ensures ParseFault(data, o.signum, r) == Ok((o.siAddr, o.siPc, o.siCode % U32, r + |EncFault(o)|))
  {
    Widths();
    if o.signum != 0 {
      AtSplit3(data, r, LE(8, o.siAddr), LE(8, o.siPc), LE(4, o.siCode % U32));
      ReadField(data, r, 8, o.siAddr);
      ReadField(data, r + 8, 8, o.siPc);
      ReadField(data, r + 16, 4, o.siCode % U32);
    }
  }

  lemma TailRoundTrip(data: seq<byte>, f: Flags, r: nat, o: Outcome)
    requires OutcomeFits(o)
    requires At(data, r, EncTail(f, o))
    ensures ParseTail(data, f, r) == Ok((TailView(f, o), r + |EncTail(f, o)|))
  {
    hide EncMems, ParseMems, MemViews, At, Read, MemChangeInRange;
    if f.checkMem {
      var k, es := [|o.mem|], EncMems(o.mem);
      AtSplit(data, r, k, es);
      CountRoundTrip(data, r, |o.mem|);
      MemsRoundTrip(data, r + 1, o.mem, []);
      assert [] + MemViews(o.mem) == MemViews(o.mem);
    }
  }

  /** One packed result, followed by anything, parses to its view and is consumed exactly. */
  lemma InnerRoundTrip(f: Flags, slots: seq<Slot>, names: seq<RegName>, before: seq<nat>, r: Outcome, rest: seq<byte>)
    requires SlotsFit(slots, names) && |slots| == |before| && InRange(slots, r)
    ensures ParseOne(EncInner(f, slots, before, r) + rest, f, names)
      == Ok((Some(View(f, slots, names, before, r)), |EncInner(f, slots, before, r)|))
  {
    var es := Diffs(slots, before, r.regs);
    DiffsFit(slots, names, before, r.regs);
    InnerParts(f, names, es, r, EncInner(f, slots, before, r), rest);
  }

  /** The same for any list of register entries that fits the table. */
  lemma InnerParts(f: Flags, names: seq<RegName>, es: seq<RegEntry>, r: Outcome, e: seq<byte>, rest: seq<byte>)
    requires EntriesFit(names, es) && |es| < 256 && OutcomeFits(r)
    requires e == EncHead(f, r) + [|es|] + EncRegs(es) + EncFault(r) + EncTail(f, r)
    ensures ParseOne(e + rest, f, names) == Ok((Some(PartsView(f, names, es, r)), |e|))
  {
    hide ParseMeta, ParseRegs, ParseFault, ParseTail, EncHead, EncRegs, EncFault, EncTail, RegMap, OutcomeFits, EntriesFit, TailView, CycleView, InstretView;
    var data := e + rest;
    var a, c, g, d, t := EncHead(f, r), [|es|], EncRegs(es), EncFault(r), EncTail(f, r);
    var h := |a|;
    assert data == a + c + g + d + t + rest;
    assert data != [] && data[0] == r.signum
      && ParseMeta(data, f, 1) == Ok((CycleView(f, r), InstretView(f, r), h)) by {
      AtPieces(a, c, g, d, t, rest);
      HeadRoundTrip(data, f, r);
    }
    assert Read(data, h, 1) == Ok(|es|) by {
      AtPieces(a, c, g, d, t, rest);
      CountRoundTrip(data, h, |es|);
    }
    assert ParseRegs(data, names, h + 1, |es|, map[]) == Ok((RegMap(names, es, map[]), h + 1 + |g|)) by {
      AtPieces(a, c, g, d, t, rest);
      RegsRoundTrip(data, names, h + 1, es, map[]);
    }
    assert ParseFault(data, r.signum, h + 1 + |g|) == Ok((r.siAddr, r.siPc, r.siCode % U32, h + 1 + |g| + |d|)) by {
      AtPieces(a, c, g, d, t, rest);
      FaultRoundTrip(data, h + 1 + |g|, r);
    }
    assert ParseTail(data, f, h + 1 + |g| + |d|) == Ok((TailView(f, r), h + 1 + |g| + |d| + |t|)) by {
      AtPieces(a, c, g, d, t, rest);
      TailRoundTrip(data, f, h + 1 + |g| + |d|, r);
    }
    assert |e| == h + 1 + |g| + |d| + |t|;
  }

  lemma CountRoundTrip(data: seq<byte>, r: nat, k: byte)
    requires At(data, r, [k])
    ensures Read(data, r, 1) == Ok(k)
  {
    assert data[r..r + 1] == [k];
    assert FromLE([k]) == k;
  }

  lemma AtPieces(a: seq<byte>, b: seq<byte>, c: seq<byte>, d: seq<byte>, e: seq<byte>, rest: seq<byte>)
    ensures var data := a + b + c + d + e + rest;
      && At(data, 0, a) && At(data, |a|, b) && At(data, |a| + |b|, c)
      && At(data, |a| + |b| + |c|, d) && At(data, |a| + |b| + |c| + |d|, e)
  {
    var data := a + b + c + d + e + rest;
    AtPrefix(a + b + c + d + e, rest);
    AtSplit(data, 0, a + b + c + d, e);
    AtSplit(data, 0, a + b + c, d);
    AtSplit(data, 0, a + b, c);
    AtSplit(data, 0, a, b);
  }

  lemma AtPrefix(a: seq<byte>, rest: seq<byte>)
    ensures At(a + rest, 0, a)
  {
  }

  lemma {:induction false} SeqRoundTrip(data: seq<byte>, f: Flags, slots: seq<Slot>, names: seq<RegName>, before: seq<nat>,
                                       r: nat, rs: seq<Outcome>, acc: seq<Option<Parsed>>)
    requires SlotsFit(slots, names) && |slots| == |before|
    requires forall i :: 0 <= i < |rs| ==> InRange(slots, rs[i])
    requires At(data, r, EncInners(f, slots, before, rs))
    ensures ParseSeq(data, f, names, r, |rs|, acc)
      == Ok((acc + Views(f, slots, names, before, rs), r + |EncInners(f, slots, before, rs)|))
    decreases |rs|
  {
    hide ParseOne, EncInner, View, InRange, SlotsFit;
    if rs == [] {
      assert acc + Views(f, slots, names, before, rs) == acc;
    } else {
      var e, es := EncInner(f, slots, before, rs[0]), EncInners(f, slots, before, rs[1..]);
      var v := Some(View(f, slots, names, before, rs[0]));
      assert ParseOne(From(data, r), f, names) == Ok((v, |e|)) by {
        AtSplit(data, r, e, es);
        assert data[r..] == e + data[r + |e|..];
        InnerRoundTrip(f, slots, names, before, rs[0], data[r + |e|..]);
      }
      assert At(data, r + |e|, es) by {
        AtSplit(data, r, e, es);
      }
      SeqRoundTrip(data, f, slots, names, before, r + |e|, rs[1..], acc + [v]);
      assert acc + [v] + Views(f, slots, names, before, rs[1..]) == acc + Views(f, slots, names, before, rs);
    }
  }

  /** A packed reply body parses to its view and is consumed exactly. */
  lemma ReplyRoundTrip(f: Flags, slots: seq<Slot>, names: seq<RegName>, before: seq<nat>, p: Reply, rest: seq<byte>)
    requires SlotsFit(slots, names) && |slots| == |before| && ReplyInRange(slots, p)
    ensures ParseReply(EncBody(f, slots, before, p) + rest, f, names)
      == Ok((ReplyView(f, slots, names, before, p), |EncBody(f, slots, before, p)|))
  {
    hide ParseOne, EncInner, View, InRange, SlotsFit;
    match p
    case Single(r) =>
      var e := EncInner(f, slots, before, r);
      var data := [0] + e + rest;
      assert Read(data, 0, 1) == Ok(0) by { CountRoundTrip(data, 0, 0); }
      assert data[1..] == e + rest;
      InnerRoundTrip(f, slots, names, before, r, rest);
    case Multi(rs) =>
      MultiRoundTrip(f, slots, names, before, rs, rest);
  }

  lemma BehindCount(count: seq<byte>, es: seq<byte>, rest: seq<byte>)
    requires |count| == 1
    ensures At(count + es + rest, 1, es)
  {
    var data := count + es + rest;
    assert data[1..1 + |es|] == es;
  }

  lemma MultiRoundTrip(f: Flags, slots: seq<Slot>, names: seq<RegName>, before: seq<nat>, rs: seq<Outcome>, rest: seq<byte>)
    requires SlotsFit(slots, names) && |slots| == |before| && ReplyInRange(slots, Multi(rs))
    ensures ParseReply(EncBody(f, slots, before, Multi(rs)) + rest, f, names)
      == Ok((PMulti(Views(f, slots, names, before, rs)), |EncBody(f, slots, before, Multi(rs))|))
  {
    hide ParseOne, EncInner, ParseSeq, View, InRange;
    var es := EncInners(f, slots, before, rs);
    var data := [1] + [|rs|] + es + rest;
    assert Read(data, 0, 1) == Ok(1) by { CountRoundTrip(data, 0, 1); }
    assert Read(data, 1, 1) == Ok(|rs|) by { CountRoundTrip(data, 1, |rs|); }
    assert ParseSeq(data[1..], f, names, 1, |rs|, []) == Ok((Views(f, slots, names, before, rs), 1 + |es|)) by {
      BehindCount([|rs|], es, rest);
      assert data[1..] == [|rs|] + es + rest;
      SeqRoundTrip(data[1..], f, slots, names, before, 1, rs, []);
      assert [] + Views(f, slots, names, before, rs) == Views(f, slots, names, before, rs);
    }
  }

  /** The concatenated bodies of several replies. */
  function EncBodies(f: Flags, slots: seq<Slot>, befores: seq<seq<nat>>, ps: seq<Reply>): seq<byte>
    requires |befores| == |ps|
    requires forall i :: 0 <= i < |ps| ==> |befores[i]| == |slots| && ReplyInRange(slots, ps[i])
  {
    if ps == [] then []
    else EncBody(f, slots, befores[0], ps[0]) + EncBodies(f, slots, befores[1..], ps[1..])
  }

  function ReplyViews(f: Flags, slots: seq<Slot>, names: seq<RegName>, befores: seq<seq<nat>>, ps: seq<Reply>): (vs: seq<ParsedReply>)
    requires |befores| == |ps|
    requires forall i :: 0 <= i < |ps| ==> |befores[i]| == |slots| && ReplyInRange(slots, ps[i])
    requires SlotsFit(slots, names)
    ensures |vs| == |ps|
    ensures forall i :: 0 <= i < |ps| ==> vs[i] == ReplyView(f, slots, names, befores[i], ps[i])
  {
    if ps == [] then []
    else [ReplyView(f, slots, names, befores[0], ps[0])] + ReplyViews(f, slots, names, befores[1..], ps[1..])
  }

  /** parse_results recovers every reply of a nonempty list, in order. */
  lemma {:induction false} BodiesRoundTrip(f: Flags, slots: seq<Slot>, names: seq<RegName>, befores: seq<seq<nat>>, ps: seq<Reply>)
    requires SlotsFit(slots, names)
    requires |befores| == |ps| && ps != []
    requires forall i :: 0 <= i < |ps| ==> |befores[i]| == |slots| && ReplyInRange(slots, ps[i])
    ensures ParseAll(EncBodies(f, slots, befores, ps), f, names) == Ok(ReplyViews(f, slots, names, befores, ps))
    decreases |ps|
  {
    hide ParseReply, EncBody, ReplyView, ReplyInRange, SlotsFit;
    var v, vs := ReplyView(f, slots, names, befores[0], ps[0]), ReplyViews(f, slots, names, befores[1..], ps[1..]);
    assert ReplyViews(f, slots, names, befores, ps) == [v] + vs;
    var b := EncBody(f, slots, befores[0], ps[0]);
    var rest := EncBodies(f, slots, befores[1..], ps[1..]);
    ReplyRoundTrip(f, slots, names, befores[0], ps[0], rest);
    assert (b + rest)[|b|..] == rest;
    if |ps| == 1 {
      assert rest == [] && vs == [] && [v] + vs == [v];
    } else {
      BodiesRoundTrip(f, slots, names, befores[1..], ps[1..]);
      assert |rest| > 0 by {
        assert rest == EncBody(f, slots, befores[1], ps[1]) + EncBodies(f, slots, befores[1..][1..], ps[1..][1..]);
      }
    }
  }

  /** The whole round trip for one result, in the terms of the source: signal,
      fault and memory fields come back, and the parsed map overlaid on the
      initial registers is the final register file. */
  lemma WireRoundTrip(f: Flags, before: seq<nat>, r: Outcome, rest: seq<byte>)
    requires Buildable(f)
    requires |before| == |ClientSlots(f)| && InRange(ClientSlots(f), r)
    ensures var slots, names := ClientSlots(f), ServerNames(f);
      var p := ParseOne(EncInner(f, slots, before, r) + rest, f, names);
      && Compatible(slots, names)
      && p.Ok? && p.value.0.Some?
      && p.value.1 == |EncInner(f, slots, before, r)|
      && IsView(f, slots, names, before, r, p.value.0.value)
      && (forall i :: 0 <= i < |slots| ==> (slots[i].reg in p.value.0.value.regs <==> before[i] != r.regs[i]))
      && (forall i :: 0 <= i < |slots| && before[i] != r.regs[i] ==> p.value.0.value.regs[slots[i].reg] == r.regs[i])
      && Overlay(slots, names, before, p.value.0.value.regs) == r.regs
  {
    LayoutsAgree(f);
    InnerRoundTrip(f, ClientSlots(f), ServerNames(f), before, r, rest);
    ViewIsView(f, ClientSlots(f), ServerNames(f), before, r);
    OverlayRestores(ClientSlots(f), ServerNames(f), before, r.regs, View(f, ClientSlots(f), ServerNames(f), before, r).regs);
    var slots, names := ClientSlots(f), ServerNames(f);
    assert forall i :: 0 <= i < |slots| ==> NameOf(slots, names, i) == slots[i].reg;
  }

  lemma ViewIsView(f: Flags, slots: seq<Slot>, names: seq<RegName>, before: seq<nat>, r: Outcome)
    requires Compatible(slots, names) && |slots| == |before| && InRange(slots, r)
    ensures IsView(f, slots, names, before, r, View(f, slots, names, before, r))
  {
    RegMapIsChangeMap(slots, names, before, r.regs);
  }

  // ---------------------------------------------------------------------
  // Equality on the two sides
  // ---------------------------------------------------------------------

  /** mem_change_equal: only the captured prefix is compared. */
  predicate MemChangeEqual(a: MemChange, b: MemChange)
  {
    a.start == b.start && a.n == b.n && a.checksum == b.checksum && a.val[..Min(a.n, 16)] == b.val[..Min(b.n, 16)]
  }

  /** result_equal on the client. */
  predicate OutcomeEqual(f: Flags, a: Outcome, b: Outcome)
  {
    && a.signum == b.signum
    && a.siAddr == b.siAddr && a.siPc == b.siPc && a.siCode == b.siCode
    && a.regs == b.regs
    && (f.checkMem ==> |a.mem| == |b.mem| && forall i :: 0 <= i < |a.mem| ==> MemChangeEqual(a.mem[i], b.mem[i]))
  }

  /** Result.__eq__ on the server; the META counters play no part. */
  predicate ParsedEqual(a: Parsed, b: Parsed) {
    && a.signum == b.signum
    && a.siAddr == b.siAddr && a.siPc == b.siPc && a.siCode == b.siCode
    && (a.mem.Some? ==> a.mem == b.mem)
    && a.regs == b.regs
  }

  /** The part of a parsed result that __eq__ and __hash__ look at. */
  function EqKey(p: Parsed): Parsed {
    p.(cycle := None, instret := None)
  }

  /** __eq__ compares keys exactly when the two sides agree on recording memory
      or the left one does; otherwise it ignores memory and is not symmetric. */
  lemma ParsedEqualIsKey(a: Parsed, b: Parsed)
    ensures a.mem.Some? || b.mem.None? ==> (ParsedEqual(a, b) <==> EqKey(a) == EqKey(b))
    ensures a.mem.None? && b.mem.Some? ==> !ParsedEqual(b, a) && EqKey(a) != EqKey(b)
  {
    if EqKey(a) == EqKey(b) {
      assert EqKey(a).mem == EqKey(b).mem && EqKey(a).regs == EqKey(b).regs;
    }
  }

  lemma MemViewInjective(a: MemChange, b: MemChange)
    requires MemChangeInRange(a) && MemChangeInRange(b)
    ensures MemView(a) == MemView(b) <==> MemChangeEqual(a, b)
  {
    if a.n == b.n {
      FromLEInjective(a.val[..Cap(a.n)], b.val[..Cap(b.n)]);
    }
  }

  lemma MemViewsInjective(a: seq<MemChange>, b: seq<MemChange>)
    requires forall i :: 0 <= i < |a| ==> MemChangeInRange(a[i])
    requires forall i :: 0 <= i < |b| ==> MemChangeInRange(b[i])
    ensures MemViews(a) == MemViews(b) <==> |a| == |b| && forall i :: 0 <= i < |a| ==> MemChangeEqual(a[i], b[i])
  {
    if |a| == |b| {
      forall i | 0 <= i < |a|
        ensures MemView(a[i]) == MemView(b[i]) <==> MemChangeEqual(a[i], b[i])
      {
        MemViewInjective(a[i], b[i]);
      }
      if MemViews(a) == MemViews(b) {
        forall i | 0 <= i < |a|
          ensures MemChangeEqual(a[i], b[i])
        {
          assert MemViews(a)[i] == MemViews(b)[i];
        }
      }
    }
  }

  /** Parsed results compare equal exactly when the machine states do. */
  lemma EqualityAgrees(f: Flags, before: seq<nat>, a: Outcome, b: Outcome, pa: Parsed, pb: Parsed)
    requires Buildable(f) && |before| == |ClientSlots(f)|
    requires InRange(ClientSlots(f), a) && InRange(ClientSlots(f), b)
    requires Compatible(ClientSlots(f), ServerNames(f))
    requires IsView(f, ClientSlots(f), ServerNames(f), before, a, pa)
    requires IsView(f, ClientSlots(f), ServerNames(f), before, b, pb)
    ensures ParsedEqual(pa, pb) <==> OutcomeEqual(f, a, b)
  {
    hide IsChangeMap, MemViews, MemChangeEqual, Compatible, ClientSlots, ServerNames;
    ChangeMapsEqual(ClientSlots(f), ServerNames(f), before, a.regs, b.regs, pa.regs, pb.regs);
    MemViewsInjective(a.mem, b.mem);
    assert a.siCode == b.siCode <==> pa.siCode == pb.siCode;
  }

  // ---------------------------------------------------------------------
  // Frame sizes
  // ---------------------------------------------------------------------

  /** The largest number of bytes n changed registers can take. */
  function SlotBytes(slots: seq<Slot>): nat {
    if slots == [] then 0 else SlotBytes(slots[..|slots| - 1]) + 1 + slots[|slots| - 1].size
  }

  lemma {:induction false} EncRegsAppend(a: seq<RegEntry>, b: seq<RegEntry>)
    ensures EncRegs(a + b) == EncRegs(a) + EncRegs(b)
  {
    if a == [] {
      assert a + b == b;
    } else {
      assert (a + b)[1..] == a[1..] + b;
      EncRegsAppend(a[1..], b);
    }
  }

  lemma {:induction false} EncRegsBound(slots: seq<Slot>, before: seq<nat>, after: seq<nat>)
    requires |slots| == |before| == |after|
    ensures |EncRegs(Diffs(slots, before, after))| <= SlotBytes(slots)
  {
    if slots != [] {
      var k := |slots| - 1;
      EncRegsBound(slots[..k], before[..k], after[..k]);
      var e := RegEntry(slots[k], after[k]);
      EncRegsAppend(Diffs(slots[..k], before[..k], after[..k]), [e]);
      assert EncRegs([e]) == EncReg(e);
      assert Diffs(slots[..k], before[..k], after[..k]) + [] == Diffs(slots[..k], before[..k], after[..k]);
    }
  }

  lemma {:induction false} EncMemsBound(ms: seq<MemChange>)
    ensures |EncMems(ms)| <= 32 * |ms|
  {
    if ms != [] {
      EncMemsBound(ms[1..]);
    }
  }

  lemma {:induction false} SlotBytesBound(slots: seq<Slot>, wide: nat)
    requires forall i :: 0 <= i < |slots| ==> slots[i].size <= if i < wide then 8 else 16
    ensures SlotBytes(slots) <= 9 * |slots| + if |slots| > wide then 8 * (|slots| - wide) else 0
  {
    if slots != [] {
      SlotBytesBound(slots[..|slots| - 1], wide);
    }
  }

  /** At most 96 registers, of which at most 32 are wide. */
  lemma SlotsBound(f: Flags)
    requires Buildable(f)
    ensures SlotBytes(ClientSlots(f)) <= 1120
  {
    var slots, wide := ClientSlots(f), if f.arch.Riscv64? then 64 else 34;
    hide SlotBytes;
    assert |slots| <= wide + 32;
    assert forall i :: 0 <= i < |slots| ==> slots[i].size <= if i < wide then 8 else 16 by {
      if f.arch.Riscv64? { RiscvSlots(f); } else { AarchSlots(f); }
    }
    SlotBytesBound(slots, wide);
  }

  /** With 100 memory changes, the cap of the scan, an inner result takes at most 4347 bytes. */
  lemma InnerBound(f: Flags, before: seq<nat>, r: Outcome)
    requires Buildable(f)
    requires |before| == |ClientSlots(f)| && InRange(ClientSlots(f), r)
    requires |r.mem| <= 100
    ensures |EncInner(f, ClientSlots(f), before, r)| <= 4347
  {
    hide ClientSlots, SlotBytes, EncRegs, EncMems, Diffs;
    SlotsBound(f);
    EncRegsBound(ClientSlots(f), before, r.regs);
    EncMemsBound(r.mem);
  }

  lemma {:induction false} InnersBound(f: Flags, before: seq<nat>, rs: seq<Outcome>)
    requires Buildable(f) && |before| == |ClientSlots(f)|
    requires forall i :: 0 <= i < |rs| ==> InRange(ClientSlots(f), rs[i]) && |rs[i].mem| <= 100
    ensures |EncInners(f, ClientSlots(f), before, rs)| <= 4347 * |rs|
  {
    if rs != [] {
      InnerBound(f, before, rs[0]);
      InnersBound(f, before, rs[1..]);
    }
  }

  /** The number of inner results of a reply. */
  function Prefixes(p: Reply): nat {
    match p
    case Single(_) => 1
    case Multi(rs) => |rs|
  }

  /** So a body of m prefixes has at most 2 + 4347 m bytes, and the 16-bit frame
      length cannot overflow for up to 15 prefixes. */
  lemma FrameFits(f: Flags, before: seq<nat>, p: Reply)
    requires Buildable(f) && |before| == |ClientSlots(f)|
    requires ReplyInRange(ClientSlots(f), p)
    requires p.Single? ==> |p.r.mem| <= 100
    requires p.Multi? ==> forall i :: 0 <= i < |p.rs| ==> |p.rs[i].mem| <= 100
    ensures |EncBody(f, ClientSlots(f), before, p)| <= 2 + 4347 * Prefixes(p)
    ensures Prefixes(p) <= 15 ==> |EncBody(f, ClientSlots(f), before, p)| < U16
  {
    hide ClientSlots, EncInner, InRange;
    match p
    case Single(r) => InnerBound(f, before, r);
    case Multi(rs) => InnersBound(f, before, rs);
  }
}
