/**
 * The `ROP` object: its configuration, the `gadgets` and
 * `interesting_gadget` dicts it fills, and the methods that fill them.
 * The architecture, the offsets and the load address are given (they come
 * from `readelf` in the source); the decoder and the template matcher are
 * given as functions.
 */
module Ropgen {
  import opened Wrappers
  import opened PyBuiltins
  import opened Mode
  import opened Tail
  import opened Store
  import opened Scan
  import opened Select

  /**
   * The inner loop of `find_gadgets`: render decoded instructions into `tmp`
   * until one is a tail. `found` tells whether a tail was reached; then `tmp`
   * is the candidate, otherwise every rendered instruction.
   */
  method CollectTail(arch: string, disassembly: seq<Insn>) returns (tmp: seq<string>, found: bool)
    ensures found <==> TailPrefix(arch, RenderAll(disassembly)).Some?
    ensures found ==> tmp == TailPrefix(arch, RenderAll(disassembly)).value
    ensures !found ==> tmp == RenderAll(disassembly)
  {
    tmp := [];
    found := false;
    var j := 0;
    while j < |disassembly|
      invariant 0 <= j <= |disassembly|
      invariant tmp == RenderAll(disassembly)[..j]
      invariant forall k :: 0 <= k < j ==> !CheckEnd(arch, tmp[k])
    {
      var decoded := disassembly[j];
      var inst := decoded.mnemonic + " " + decoded.opStr;
      inst := Strip(inst);
      assert inst == RenderAll(disassembly)[j];
      tmp := tmp + [inst];
      if CheckEnd(arch, inst) {
        found := true;
        TailPrefixFirst(arch, RenderAll(disassembly), j);
        assert tmp == RenderAll(disassembly)[..j + 1];
        break;
      }
      j := j + 1;
    }
    if !found {
      assert tmp == RenderAll(disassembly);
      TailPrefixSpec(arch, RenderAll(disassembly));
    }
  }

  /**
   * The report loop at the end of `find_gadgets`: one line per stored
   * gadget, in insertion order.
   */
  method ReportText(gadgets: Dict) returns (toWrite: string)
    ensures toWrite == Report(gadgets)
  {
    toWrite := "";
    var j := 0;
    while j < |gadgets|
      invariant 0 <= j <= |gadgets|
      invariant toWrite == Report(gadgets[..j])
    {
      var address := gadgets[j].address;
      var instructions := gadgets[j].insns;
      ReportSnoc(gadgets, j);
      var head := FormatHex08(address) + ": ";
      var tail := Join("; ", instructions) + "\n";
      assert head + tail == ReportLine(gadgets[j]);
      assert toWrite + head + tail == toWrite + (head + tail);
      toWrite := toWrite + head;
      toWrite := toWrite + tail;
      j := j + 1;
    }
    assert gadgets[..j] == gadgets;
  }

  /**
   * Decode the window at `offset` and collect up to the first tail: the
   * candidate of that offset, if any.
   */
  method CandidateAt(t: Target, offset: int) returns (c: Option<seq<string>>)
    ensures c == GadgetAt(t, offset)
  {
    var disassembly := t.decode(Slice(t.content, offset, offset + Window), t.va + offset);
    var tmp, found := CollectTail(t.arch, disassembly);
    if found {
      c := Some(tmp);
    } else {
      c := None;
    }
  }

  /**
   * One pass of the `find_gadgets` loop body at `offset`: store the
   * candidate there under `va + offset`, unless there is none or the same
   * instruction list is already stored.
   */
  method ScanAt(t: Target, store: Dict, offset: int) returns (d: Dict)
    ensures d == Step(t.va, CandidatesOf(t), store, offset)
  {
    var c := CandidateAt(t, offset);
    if c.Some? && c.value !in Values(store) {
      d := DictSet(store, t.va + offset, c.value);
    } else {
      d := store;
    }
  }

  /** The scan loop of `find_gadgets` over `offsets`, in order. */
  method ScanFile(t: Target, store: Dict, offsets: seq<int>) returns (d: Dict)
    ensures d == ScanAll(t.va, CandidatesOf(t), store, offsets)
  {
    d := store;
    for n := 0 to |offsets|
      invariant d == ScanAll(t.va, CandidatesOf(t), store, offsets[..n])
    {
      ScanAllSnoc(t.va, CandidatesOf(t), store, offsets[..n], offsets[n]);
      assert offsets[..n + 1] == offsets[..n] + [offsets[n]];
      d := ScanAt(t, d, offsets[n]);
    }
    assert offsets[..|offsets|] == offsets;
  }

  class Rop {
    const arch: string
    const engine: Engine
    const instructionSize: nat
    const patterns: Option<seq<string>>
    const start: int
    const end: int
    const va: int
    /** `dis_engine.disasm`, reduced to the mnemonics and operands it yields. */
    const decode: Decoder
    /** `re.match` on the interesting templates. */
    const matches: Matcher

    /** `self.gadgets`: start address to instruction list, in insertion order. */
    var gadgets: Dict
    /** `self.interesting_gadget` */
    var interesting: Dict
    /** The calls made to the `make_function` hook so far. */
    ghost var hookLog: seq<Gadget>

    /** The configuration is what `set_mode` chose for `arch`. */
    ghost predicate Configured() {
      SetMode(arch) == Success(Config(engine, instructionSize, patterns))
    }

    /** The offsets advance, and both dicts are real dicts without repeated content. */
    ghost predicate Valid()
      reads this
    {
      && instructionSize > 0
      && KeysUnique(gadgets) && ContentUnique(gadgets)
      && KeysUnique(interesting) && ContentUnique(interesting)
    }

    /** What the scan of `fileContent` works on. */
    function TargetOf(fileContent: seq<byte>): Target {
      Target(arch, decode, fileContent, va)
    }

    /** The offsets `find_gadgets` visits: `range(start, end + 2 * instruction_size, instruction_size)`. */
    function Offsets(): seq<int>
      requires instructionSize > 0
    {
      Range(start, end + instructionSize * 2, instructionSize)
    }

    /** A fresh object for a supported architecture, configured by `set_mode`. */
    constructor (arch: string, start: int, end: int, va: int, decode: Decoder, matches: Matcher)
      requires Supported(arch)
      ensures Configured() && Valid()
      ensures this.arch == arch && this.start == start && this.end == end && this.va == va
      ensures this.decode == decode && this.matches == matches
      ensures gadgets == [] && interesting == [] && hookLog == []
    {
      var c := SetMode(arch).value;
      this.arch := arch;
      engine := c.engine;
      instructionSize := c.instructionSize;
      patterns := c.patterns;
      this.start := start;
      this.end := end;
      this.va := va;
      this.decode := decode;
      this.matches := matches;
      gadgets := [];
      interesting := [];
      hookLog := [];
    }

    /**
     * `find_gadgets` on the bytes of the file: scans every offset of
     * `Offsets()` in order, storing each new candidate under `va + offset`,
     * and returns the report text, one line per stored gadget.
     */
    method FindGadgets(fileContent: seq<byte>) returns (toWrite: string)
      requires Valid()
      modifies this
      ensures Valid()
      ensures gadgets == ScanAll(va, CandidatesOf(TargetOf(fileContent)), old(gadgets), Offsets())
      ensures toWrite == Report(gadgets)
      ensures interesting == old(interesting) && hookLog == old(hookLog)
    {
      gadgets := ScanFile(TargetOf(fileContent), gadgets, Offsets());
      ScanAllKeepsUnique(va, CandidatesOf(TargetOf(fileContent)), old(gadgets), Offsets());
      toWrite := ReportText(gadgets);
    }

    /** `make_function`: a hook that does nothing; the model records the call. */
    method MakeFunction(address: int, gadgetList: seq<string>)
      modifies this
      ensures hookLog == old(hookLog) + [Gadget(address, gadgetList)]
      ensures gadgets == old(gadgets) && interesting == old(interesting)
    {
      hookLog := hookLog + [Gadget(address, gadgetList)];
    }

    /**
     * `check_interesting`: without templates (aarch64) it returns `False` and
     * changes nothing; otherwise it returns `None` after the selection loop
     * over the stored gadgets and the templates, flagging, hooking and
     * writing as `SelectAll` says.
     */
    method CheckInteresting() returns (r: Option<bool>, toWrite: string)
      requires Valid()
      modifies this
      ensures Valid() && gadgets == old(gadgets)
      ensures patterns.None? ==>
        r == Some(false) && toWrite == "" && interesting == old(interesting) && hookLog == old(hookLog)
      ensures patterns.Some? ==>
        && r.None?
        && interesting == SelectAll(matches, patterns.value, gadgets, Selection(old(interesting), [], "")).flagged
        && hookLog == old(hookLog) + SelectAll(matches, patterns.value, gadgets, Selection(old(interesting), [], "")).hooked
        && toWrite == SelectAll(matches, patterns.value, gadgets, Selection(old(interesting), [], "")).text
    {
      toWrite := "";
      if patterns.None? {
        return Some(false), toWrite;
      }
      var pats := patterns.value;
      ghost var s0 := Selection(interesting, [], "");
      ghost var log0 := hookLog;
      ghost var hooks: seq<Gadget> := [];
      var n := 0;
      while n < |gadgets|
        invariant 0 <= n <= |gadgets| && gadgets == old(gadgets)
        invariant SelectAll(matches, pats, gadgets[..n], s0) == Selection(interesting, hooks, toWrite)
        invariant hookLog == log0 + hooks
      {
        var address := gadgets[n].address;
        var i := gadgets[n].insns;
        var gadget := Join("; ", i);
        ghost var before := Selection(interesting, hooks, toWrite);
        assert gadgets[..n + 1][..n] == gadgets[..n];
        var p := 0;
        while p < |pats|
          invariant 0 <= p <= |pats| && gadgets == old(gadgets)
          invariant SelectPats(matches, pats[..p], gadgets[n], before) == Selection(interesting, hooks, toWrite)
          invariant hookLog == log0 + hooks
        {
          assert pats[..p + 1][..p] == pats[..p];
          if matches(pats[p], gadget) && i !in Values(interesting) {
            interesting := DictSet(interesting, address, i);
            MakeFunction(address, i);
            hooks := hooks + [Gadget(address, i)];
            var line := FormatHex08(address) + ": " + gadget + "\n";
            assert line == ReportLine(Gadget(address, i));
            toWrite := toWrite + line;
          }
          p := p + 1;
        }
        assert pats[..p] == pats;
        n := n + 1;
      }
      assert gadgets[..n] == gadgets;
      SelectAllKeepsUnique(matches, pats, gadgets, s0);
      r := None;
    }

    /**
     * `initialize`: `find_gadgets`, then `check_interesting`. On a fresh
     * object, the stored gadgets are those of `Gadgets`, and the flagged ones
     * are exactly the stored gadgets matching some template, hooked in order.
     */
    method Initialize(fileContent: seq<byte>) returns (report: string, interestingText: string)
      requires Valid()
      modifies this
      ensures Valid()
      ensures gadgets == ScanAll(va, CandidatesOf(TargetOf(fileContent)), old(gadgets), Offsets())
      ensures report == Report(gadgets)
      ensures old(gadgets) == [] ==> gadgets == Gadgets(TargetOf(fileContent), Offsets())
      ensures patterns.None? ==> interesting == old(interesting) && interestingText == "" && hookLog == old(hookLog)
      ensures patterns.Some? && old(interesting) == [] ==>
        && interesting == Filter(matches, patterns.value, gadgets)
        && hookLog == old(hookLog) + interesting
        && interestingText == Report(interesting)
    {
      report := FindGadgets(fileContent);
      ghost var flaggedBefore := interesting;
      var _, text := CheckInteresting();
      interestingText := text;
      if patterns.Some? && flaggedBefore == [] {
        SelectAllFlagged(matches, patterns.value, gadgets);
        FlaggedIsFilter(matches, patterns.value, gadgets);
      }
    }
  }

  /** A fresh object's first `initialize` stores only well-formed, distinct gadgets at increasing addresses. */
  lemma InitializeProperties(r: Rop, fileContent: seq<byte>)
    requires r.instructionSize > 0
    ensures var t := r.TargetOf(fileContent);
      var offs := r.Offsets();
      var d := Gadgets(t, offs);
      && Increasing(offs)
      && ContentUnique(d) && KeysIncreasing(d)
      && (forall j :: 0 <= j < |d| ==> IsGadget(r.arch, d[j].insns))
  {
    var t := r.TargetOf(fileContent);
    var offs := r.Offsets();
    RangeElements(r.start, r.end + r.instructionSize * 2, r.instructionSize);
    assert Increasing(offs);
    ScanDedupOrdered(t, offs);
    ScanTailOnly(t, offs);
  }

  /**
   * What a configured object's constants mean: a supported architecture, a
   * positive step equal to the engine's alignment, and templates for every
   * architecture except aarch64.
   */
  lemma ConfiguredMeaning(r: Rop)
    requires r.Configured()
    ensures Supported(r.arch)
    ensures r.instructionSize == Alignment(r.engine.arch) > 0
    ensures r.patterns.None? <==> r.arch == ArchAArch64
  {
  }
}
