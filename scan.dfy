/**
 * The specification of `ROP.find_gadgets`' scan: at every start offset a
 * window of at most 20 bytes is decoded, its instructions are rendered, and
 * the instructions up to and including the first gadget tail form the
 * candidate, which the store keeps unless an equal list is already stored.
 */
module Scan {
  import opened Wrappers
  import opened PyBuiltins
  import opened Tail
  import opened Store

  newtype byte = x: int | 0 <= x < 256

  /** One instruction as the decoder reports it. */
  datatype Insn = Insn(mnemonic: string, opStr: string)

  /**
   * The disassembler: a byte window and the virtual address of its first
   * byte in, the instructions it could decode out (possibly none).
   */
  type Decoder = (seq<byte>, int) -> seq<Insn>

  /** Bytes handed to the decoder at each offset. */
  const Window: nat := 20

  /** What one scan works on: architecture, decoder, file bytes and load bias. */
  datatype Target = Target(arch: string, decode: Decoder, content: seq<byte>, va: int)

  /** `f"{mnemonic} {op_str}".strip()` */
  function Render(d: Insn): string {
    Strip(d.mnemonic + " " + d.opStr)
  }

  /**
   * An instruction without operands renders as its mnemonic; with operands,
   * as mnemonic, one space and operands (for trimmed decoder output).
   */
  lemma RenderForms(m: string, op: string)
    requires Trimmed(m) && m != ""
    requires Trimmed(op)
    ensures Render(Insn(m, "")) == m
    ensures op != "" ==> Render(Insn(m, op)) == m + " " + op
  {
    StripTrailing(m, " ");
    assert m + " " + "" == m + " ";
    if op != "" {
      var full := m + " " + op;
      assert full[0] == m[0] && full[|full| - 1] == op[|op| - 1];
      StripTrailing(full, "");
      assert full + "" == full;
    }
  }

  /** Stripping a trimmed non-empty `t` followed by whitespace `w` gives `t`. */
  lemma {:induction false} StripTrailing(t: string, w: string)
    requires t != [] && Trimmed(t) && AllSpace(w)
    ensures Strip(t + w) == t
  {
    assert StripLeft(t + w) == t + w by {
      assert (t + w)[0] == t[0];
    }
    StripRightSpaces(t, w);
  }

  lemma {:induction false} StripRightSpaces(t: string, w: string)
    requires t != [] && Trimmed(t) && AllSpace(w)
    ensures StripRight(t + w) == t
    decreases |w|
  {
    if w == [] {
      assert t + w == t;
    } else {
      var s := t + w;
      assert s[..|s| - 1] == t + w[..|w| - 1];
      assert s[|s| - 1] == w[|w| - 1];
      StripRightSpaces(t, w[..|w| - 1]);
    }
  }

  function RenderAll(ds: seq<Insn>): (r: seq<string>)
    ensures |r| == |ds| && forall j :: 0 <= j < |ds| ==> r[j] == Render(ds[j])
  {
    seq(|ds|, j requires 0 <= j < |ds| => Render(ds[j]))
  }

  /** A well-formed gadget: non-empty, ends with a tail and has no tail before that. */
  predicate IsGadget(arch: string, g: seq<string>) {
    |g| > 0 && CheckEnd(arch, g[|g| - 1])
    && forall t :: 0 <= t < |g| - 1 ==> !CheckEnd(arch, g[t])
  }

  /**
   * The candidate built from one decode: the rendered instructions up to and
   * including the first tail; none at all when no instruction is a tail.
   */
  function TailPrefix(arch: string, xs: seq<string>): Option<seq<string>>
  {
    if xs == [] then None
    else if CheckEnd(arch, xs[0]) then Some([xs[0]])
    else match TailPrefix(arch, xs[1..])
      case None => None
      case Some(t) => Some([xs[0]] + t)
  }

  /**
   * There is a candidate iff some instruction is a tail, and a candidate is
   * a well-formed gadget and a prefix of the rendered decode.
   */
  lemma {:induction false} TailPrefixSpec(arch: string, xs: seq<string>)
    ensures TailPrefix(arch, xs).None? <==> forall k :: 0 <= k < |xs| ==> !CheckEnd(arch, xs[k])
    ensures TailPrefix(arch, xs).Some? ==>
      && IsGadget(arch, TailPrefix(arch, xs).value)
      && |TailPrefix(arch, xs).value| <= |xs|
      && TailPrefix(arch, xs).value == xs[..|TailPrefix(arch, xs).value|]
    decreases |xs|
  {
    if xs != [] && !CheckEnd(arch, xs[0]) {
      var ys := xs[1..];
      TailPrefixSpec(arch, ys);
      if TailPrefix(arch, ys).None? {
        forall k | 0 < k < |xs| ensures !CheckEnd(arch, xs[k]) {
          assert xs[k] == ys[k - 1];
        }
      } else {
        var t := TailPrefix(arch, ys).value;
        var r := [xs[0]] + t;
        assert TailPrefix(arch, xs) == Some(r);
        forall i | 0 <= i < |r| - 1 ensures !CheckEnd(arch, r[i]) {
          if i > 0 {
            assert r[i] == t[i - 1];
          }
        }
        assert r[|r| - 1] == t[|t| - 1];
        assert xs[..|r|] == [xs[0]] + ys[..|t|];
      }
    }
  }

  /** When `xs[n]` is the first tail, the candidate is exactly `xs[..n + 1]`. */
  lemma {:induction false} TailPrefixFirst(arch: string, xs: seq<string>, n: nat)
    requires n < |xs| && CheckEnd(arch, xs[n])
    requires forall k :: 0 <= k < n ==> !CheckEnd(arch, xs[k])
    ensures TailPrefix(arch, xs) == Some(xs[..n + 1])
  {
    if n > 0 {
      forall k | 0 <= k < n - 1 ensures !CheckEnd(arch, xs[1..][k]) {
        assert xs[1..][k] == xs[k + 1];
      }
      assert xs[1..][n - 1] == xs[n];
      TailPrefixFirst(arch, xs[1..], n - 1);
      assert !CheckEnd(arch, xs[0]);
      assert xs[1..][..n] == xs[1..n + 1];
      assert [xs[0]] + xs[1..n + 1] == xs[..n + 1];
    } else {
      assert xs[..1] == [xs[0]];
    }
  }

  /** The candidate found at offset `i`, if any. */
  function GadgetAt(t: Target, i: int): Option<seq<string>> {
    TailPrefix(t.arch, RenderAll(t.decode(Slice(t.content, i, i + Window), t.va + i)))
  }

  /** A candidate found at an offset is a well-formed gadget. */
  lemma GadgetAtSpec(t: Target, i: int)
    ensures GadgetAt(t, i).Some? ==> IsGadget(t.arch, GadgetAt(t, i).value)
  {
    var xs := RenderAll(t.decode(Slice(t.content, i, i + Window), t.va + i));
    assert GadgetAt(t, i) == TailPrefix(t.arch, xs);
    TailPrefixSpec(t.arch, xs);
  }

  /** A map from start offset to the candidate found there. */
  type Candidates = int -> Option<seq<string>>

  function CandidatesOf(t: Target): Candidates {
    i => GadgetAt(t, i)
  }

  /** One iteration of the scan loop at offset `i`, storing under `va + i`. */
  function Step(va: int, cand: Candidates, d: Dict, i: int): Dict {
    match cand(i)
    case None => d
    case Some(g) => InsertUnique(d, va + i, g)
  }

  /** The store after the scan loop has visited `offs` in order, starting from `d`. */
  function ScanAll(va: int, cand: Candidates, d: Dict, offs: seq<int>): Dict
    decreases |offs|
  {
    if offs == [] then d
    else Step(va, cand, ScanAll(va, cand, d, offs[..|offs| - 1]), offs[|offs| - 1])
  }

  /** Scanning one more offset is one more loop iteration. */
  lemma ScanAllSnoc(va: int, cand: Candidates, d: Dict, offs: seq<int>, o: int)
    ensures ScanAll(va, cand, d, offs + [o]) == Step(va, cand, ScanAll(va, cand, d, offs), o)
  {
    assert (offs + [o])[..|offs|] == offs;
  }

  predicate Increasing(offs: seq<int>) {
    forall a, b :: 0 <= a < b < |offs| ==> offs[a] < offs[b]
  }

  /**
   * What the store holds after scanning `offs` from empty: addresses increase
   * in insertion order, lists are pairwise distinct, every entry is the
   * candidate of a scanned offset at `va + offset`, and every candidate found
   * is stored at that address or a smaller one.
   */
  ghost predicate ScanInv(va: int, cand: Candidates, offs: seq<int>, d: Dict) {
    KeysIncreasing(d) && ContentUnique(d) && Sound(va, cand, offs, d) && Complete(va, cand, offs, d)
  }

  /** Every entry is the candidate of a scanned offset, stored at `va` plus that offset. */
  ghost predicate Sound(va: int, cand: Candidates, offs: seq<int>, d: Dict) {
    forall j :: 0 <= j < |d| ==>
      exists n :: 0 <= n < |offs| && d[j].address == va + offs[n] && cand(offs[n]) == Some(d[j].insns)
  }

  /** Every candidate found is stored, at its own address or a smaller one. */
  ghost predicate Complete(va: int, cand: Candidates, offs: seq<int>, d: Dict) {
    forall n :: 0 <= n < |offs| && cand(offs[n]).Some? ==>
      exists j :: 0 <= j < |d| && d[j].insns == cand(offs[n]).value && d[j].address <= va + offs[n]
  }

  lemma {:induction false} ScanAllInv(va: int, cand: Candidates, offs: seq<int>)
    requires Increasing(offs)
    ensures ScanInv(va, cand, offs, ScanAll(va, cand, [], offs))
    decreases |offs|
  {
    if offs != [] {
      var p := offs[..|offs| - 1];
      var o := offs[|offs| - 1];
      assert offs == p + [o];
      assert Increasing(p);
      ScanAllInv(va, cand, p);
      assert forall n :: 0 <= n < |p| ==> p[n] < o by {
        forall n | 0 <= n < |p| ensures p[n] < o {
          assert offs[n] == p[n];
        }
      }
      ScanInvStep(va, cand, p, o, ScanAll(va, cand, [], p));
    }
  }

  /** Scanning more offsets from any store keeps a dict's keys and lists pairwise distinct. */
  lemma {:induction false} ScanAllKeepsUnique(va: int, cand: Candidates, d: Dict, offs: seq<int>)
    requires KeysUnique(d) && ContentUnique(d)
    ensures KeysUnique(ScanAll(va, cand, d, offs)) && ContentUnique(ScanAll(va, cand, d, offs))
    decreases |offs|
  {
    if offs != [] {
      var p := offs[..|offs| - 1];
      ScanAllKeepsUnique(va, cand, d, p);
      StepKeepsUnique(va, cand, ScanAll(va, cand, d, p), offs[|offs| - 1]);
    }
  }

  /** One loop iteration keeps a dict's keys and lists pairwise distinct. */
  lemma StepKeepsUnique(va: int, cand: Candidates, d: Dict, o: int)
    requires KeysUnique(d) && ContentUnique(d)
    ensures KeysUnique(Step(va, cand, d, o)) && ContentUnique(Step(va, cand, d, o))
  {
    if cand(o).Some? {
      InsertKeepsUnique(d, va + o, cand(o).value);
    }
  }

  // The three parts of `ScanInv` one at a time: `Sound` and `Complete` side
  // by side let the solver chase their existentials without end.

  lemma ScanAllSound(va: int, cand: Candidates, offs: seq<int>)
    requires Increasing(offs)
    ensures Sound(va, cand, offs, ScanAll(va, cand, [], offs))
  {
    ScanAllInv(va, cand, offs);
  }

  lemma ScanAllComplete(va: int, cand: Candidates, offs: seq<int>)
    requires Increasing(offs)
    ensures Complete(va, cand, offs, ScanAll(va, cand, [], offs))
  {
    ScanAllInv(va, cand, offs);
  }

  lemma ScanAllUnique(va: int, cand: Candidates, offs: seq<int>)
    requires Increasing(offs)
    ensures KeysIncreasing(ScanAll(va, cand, [], offs)) && ContentUnique(ScanAll(va, cand, [], offs))
  {
    ScanAllInv(va, cand, offs);
  }

  /** One loop iteration keeps `ScanInv`, given that offsets increase. */
  lemma ScanInvStep(va: int, cand: Candidates, p: seq<int>, o: int, d0: Dict)
    requires forall n :: 0 <= n < |p| ==> p[n] < o
    requires ScanInv(va, cand, p, d0)
    ensures ScanInv(va, cand, p + [o], Step(va, cand, d0, o))
  {
    forall j | 0 <= j < |d0|
      ensures d0[j].address < va + o
    {
      var n :| 0 <= n < |p| && d0[j].address == va + p[n] && cand(p[n]) == Some(d0[j].insns);
    }
    match cand(o)
    case None =>
      ScanInvKeep(va, cand, p, o, d0);
    case Some(g) =>
      if g in Values(d0) {
        var j :| 0 <= j < |d0| && Values(d0)[j] == g;
        ScanInvKeep(va, cand, p, o, d0);
      } else {
        assert !HasKey(d0, va + o);
        ScanInvAppend(va, cand, p, o, d0, g);
      }
  }

  /** An iteration that stores nothing new keeps `ScanInv` if its candidate is already stored. */
  lemma ScanInvKeep(va: int, cand: Candidates, p: seq<int>, o: int, d0: Dict)
    requires ScanInv(va, cand, p, d0)
    requires cand(o).Some? ==>
      exists j :: 0 <= j < |d0| && d0[j].insns == cand(o).value && d0[j].address <= va + o
    ensures ScanInv(va, cand, p + [o], d0)
  {
    var offs := p + [o];
    forall j | 0 <= j < |d0|
      ensures exists n :: 0 <= n < |offs| && d0[j].address == va + offs[n] && cand(offs[n]) == Some(d0[j].insns)
    {
      var n :| 0 <= n < |p| && d0[j].address == va + p[n] && cand(p[n]) == Some(d0[j].insns);
      assert offs[n] == p[n];
    }
    forall n | 0 <= n < |offs| && cand(offs[n]).Some?
      ensures exists j :: 0 <= j < |d0| && d0[j].insns == cand(offs[n]).value && d0[j].address <= va + offs[n]
    {
      if n < |p| {
        assert offs[n] == p[n];
      }
    }
  }

  /** An iteration that stores a new list at `va + o` keeps `ScanInv`. */
  lemma ScanInvAppend(va: int, cand: Candidates, p: seq<int>, o: int, d0: Dict, g: seq<string>)
    requires ScanInv(va, cand, p, d0) && cand(o) == Some(g) && g !in Values(d0)
    requires forall j :: 0 <= j < |d0| ==> d0[j].address < va + o
    ensures ScanInv(va, cand, p + [o], d0 + [Gadget(va + o, g)])
  {
    var d := d0 + [Gadget(va + o, g)];
    forall a, b | 0 <= a < b < |d|
      ensures d[a].address < d[b].address && d[a].insns != d[b].insns
    {
      assert d[a] == d0[a];
      if b < |d0| {
        assert d[b] == d0[b];
      } else {
        assert Values(d0)[a] == d0[a].insns;
      }
    }
    AppendSound(va, cand, p, o, d0, g);
    AppendComplete(va, cand, p, o, d0, g);
  }

  lemma AppendSound(va: int, cand: Candidates, p: seq<int>, o: int, d0: Dict, g: seq<string>)
    requires Sound(va, cand, p, d0) && cand(o) == Some(g)
    ensures Sound(va, cand, p + [o], d0 + [Gadget(va + o, g)])
  {
    var offs := p + [o];
    var d := d0 + [Gadget(va + o, g)];
    forall j | 0 <= j < |d|
      ensures exists n :: 0 <= n < |offs| && d[j].address == va + offs[n] && cand(offs[n]) == Some(d[j].insns)
    {
      if j == |d0| {
        assert offs[|p|] == o && d[j] == Gadget(va + o, g);
      } else {
        var n :| 0 <= n < |p| && d0[j].address == va + p[n] && cand(p[n]) == Some(d0[j].insns);
        assert offs[n] == p[n] && d[j] == d0[j];
      }
    }
    assert forall j :: 0 <= j < |d| ==>
      exists n :: 0 <= n < |offs| && d[j].address == va + offs[n] && cand(offs[n]) == Some(d[j].insns);
    assert Sound(va, cand, offs, d);
  }

  lemma AppendComplete(va: int, cand: Candidates, p: seq<int>, o: int, d0: Dict, g: seq<string>)
    requires Complete(va, cand, p, d0) && cand(o) == Some(g)
    ensures Complete(va, cand, p + [o], d0 + [Gadget(va + o, g)])
  {
    var offs := p + [o];
    var d := d0 + [Gadget(va + o, g)];
    forall n | 0 <= n < |offs| && cand(offs[n]).Some?
      ensures exists j :: 0 <= j < |d| && d[j].insns == cand(offs[n]).value && d[j].address <= va + offs[n]
    {
      if n == |p| {
        assert d[|d0|].insns == g && d[|d0|].address == va + offs[n];
      } else {
        assert offs[n] == p[n];
        var j :| 0 <= j < |d0| && d0[j].insns == cand(p[n]).value && d0[j].address <= va + p[n];
        assert d[j] == d0[j];
      }
    }
  }

  // -----------------------------------------------------------------------
  // What a scan from an empty store produces
  // -----------------------------------------------------------------------

  /** The store `find_gadgets` builds from empty over the offsets `offs`. */
  function Gadgets(t: Target, offs: seq<int>): Dict {
    ScanAll(t.va, CandidatesOf(t), [], offs)
  }

  /**
   * Tail-only: every stored gadget is non-empty, ends with a tail and has no
   * earlier tail, and it is exactly the candidate (the rendered decode up to
   * the first tail) of the scanned offset it is stored under.
   */
  lemma ScanTailOnly(t: Target, offs: seq<int>)
    requires Increasing(offs)
    ensures var d := Gadgets(t, offs);
      forall j :: 0 <= j < |d| ==>
        && IsGadget(t.arch, d[j].insns)
        && exists n :: 0 <= n < |offs| && d[j].address == t.va + offs[n] && GadgetAt(t, offs[n]) == Some(d[j].insns)
  {
    var d := Gadgets(t, offs);
    ScanAllSound(t.va, CandidatesOf(t), offs);
    forall j | 0 <= j < |d|
      ensures IsGadget(t.arch, d[j].insns)
      ensures exists n :: 0 <= n < |offs| && d[j].address == t.va + offs[n] && GadgetAt(t, offs[n]) == Some(d[j].insns)
    {
      var n :| 0 <= n < |offs| && d[j].address == t.va + offs[n] && CandidatesOf(t)(offs[n]) == Some(d[j].insns);
      assert GadgetAt(t, offs[n]) == Some(d[j].insns);
      GadgetAtSpec(t, offs[n]);
    }
  }

  /**
   * Dedup and ordering: no two stored gadgets have equal instruction lists,
   * and addresses strictly increase in insertion order (so no key is ever
   * overwritten and the report lists gadgets by increasing address).
   */
  lemma ScanDedupOrdered(t: Target, offs: seq<int>)
    requires Increasing(offs)
    ensures ContentUnique(Gadgets(t, offs)) && KeysIncreasing(Gadgets(t, offs))
    ensures KeysUnique(Gadgets(t, offs))
  {
    ScanAllUnique(t.va, CandidatesOf(t), offs);
  }

  /**
   * Completeness and first occurrence: the candidate of every scanned offset
   * is stored, and under the address of the smallest offset producing it.
   */
  lemma ScanFirstOccurrence(t: Target, offs: seq<int>, d: Dict)
    requires Increasing(offs) && d == Gadgets(t, offs)
    ensures forall n :: 0 <= n < |offs| && GadgetAt(t, offs[n]).Some? ==>
      GadgetAt(t, offs[n]).value in Values(d)
    ensures forall j, n :: 0 <= j < |d| && 0 <= n < |offs| && GadgetAt(t, offs[n]) == Some(d[j].insns) ==>
      d[j].address <= t.va + offs[n]
  {
    var cand := CandidatesOf(t);
    ScanAllComplete(t.va, cand, offs);
    ScanAllUnique(t.va, cand, offs);
    FirstOccurrenceOf(t.va, cand, offs, d);
    forall n | 0 <= n < |offs|
      ensures cand(offs[n]) == GadgetAt(t, offs[n])
    {
    }
  }

  /** With distinct lists, the entry `Complete` promises is the only one holding that list. */
  lemma FirstOccurrenceOf(va: int, cand: Candidates, offs: seq<int>, d: Dict)
    requires ContentUnique(d) && Complete(va, cand, offs, d)
    ensures forall n :: 0 <= n < |offs| && cand(offs[n]).Some? ==> cand(offs[n]).value in Values(d)
    ensures forall j, n :: 0 <= j < |d| && 0 <= n < |offs| && cand(offs[n]) == Some(d[j].insns) ==>
      d[j].address <= va + offs[n]
  {
    forall j, n | 0 <= j < |d| && 0 <= n < |offs| && cand(offs[n]) == Some(d[j].insns)
      ensures d[j].address <= va + offs[n]
    {
      var j' :| 0 <= j' < |d| && d[j'].insns == cand(offs[n]).value && d[j'].address <= va + offs[n];
      assert d[j'].insns == d[j].insns;
    }
    forall n | 0 <= n < |offs| && cand(offs[n]).Some?
      ensures cand(offs[n]).value in Values(d)
    {
      var j :| 0 <= j < |d| && d[j].insns == cand(offs[n]).value && d[j].address <= va + offs[n];
      assert Values(d)[j] == d[j].insns;
    }
  }

  /** An offset whose decode has no tail stores nothing under its address. */
  lemma ScanNoTailNoGadget(t: Target, offs: seq<int>, n: nat)
    requires Increasing(offs) && n < |offs| && GadgetAt(t, offs[n]).None?
    ensures !HasKey(Gadgets(t, offs), t.va + offs[n])
  {
    NoCandidateNoEntry(t.va, CandidatesOf(t), offs, n);
  }

  lemma NoCandidateNoEntry(va: int, cand: Candidates, offs: seq<int>, n: nat)
    requires Increasing(offs) && n < |offs| && cand(offs[n]).None?
    ensures !HasKey(ScanAll(va, cand, [], offs), va + offs[n])
  {
    var d := ScanAll(va, cand, [], offs);
    ScanAllSound(va, cand, offs);
    forall j | 0 <= j < |d|
      ensures d[j].address != va + offs[n]
    {
      var m :| 0 <= m < |offs| && d[j].address == va + offs[m] && cand(offs[m]) == Some(d[j].insns);
      assert offs[m] != offs[n];
    }
  }

  /** A range where no decode reaches a tail yields an empty store, not an error. */
  lemma ScanNothingFound(t: Target, offs: seq<int>)
    requires Increasing(offs)
    requires forall n :: 0 <= n < |offs| ==> GadgetAt(t, offs[n]).None?
    ensures Gadgets(t, offs) == []
  {
    var cand := CandidatesOf(t);
    assert forall n :: 0 <= n < |offs| ==> cand(offs[n]).None?;
    NoCandidatesEmpty(t.va, cand, offs);
  }

  lemma NoCandidatesEmpty(va: int, cand: Candidates, offs: seq<int>)
    requires Increasing(offs)
    requires forall n :: 0 <= n < |offs| ==> cand(offs[n]).None?
    ensures ScanAll(va, cand, [], offs) == []
  {
    ScanAllSound(va, cand, offs);
  }
}
