/**
 * The specification of `ROP.check_interesting` and of the report text: every
 * stored gadget, in insertion order, is joined with "; " and tested against
 * each template of the architecture; a match whose instruction list is not
 * flagged yet is flagged under the gadget's address, handed to the
 * `make_function` hook and written as one report line.
 */
module Select {
  import opened Wrappers
  import opened PyBuiltins
  import opened Store

  /** `re.match(pattern, text) is not None` for the templates of the run. */
  type Matcher = (string, string) -> bool

  /** `"; ".join(instructions)` */
  function GadgetText(g: Gadget): string {
    Join("; ", g.insns)
  }

  /** One report line: `f"{address:#08x}: "`, the joined instructions, a newline. */
  function ReportLine(g: Gadget): string {
    FormatHex08(g.address) + ": " + GadgetText(g) + "\n"
  }

  /** The report lines of a dict, in insertion order. */
  function Report(d: Dict): string
    decreases |d|
  {
    if d == [] then "" else Report(d[..|d| - 1]) + ReportLine(d[|d| - 1])
  }

  /** The report of the first `j + 1` entries adds the line of entry `j`. */
  lemma ReportSnoc(d: Dict, j: nat)
    requires j < |d|
    ensures Report(d[..j + 1]) == Report(d[..j]) + ReportLine(d[j])
  {
    assert d[..j + 1][..j] == d[..j];
  }

  /** The report of two dicts one after the other is the two reports one after the other. */
  lemma {:induction false} ReportAppend(d: Dict, e: Dict)
    ensures Report(d + e) == Report(d) + Report(e)
    decreases |e|
  {
    if e == [] {
      assert d + e == d;
    } else {
      var e' := e[..|e| - 1];
      var line := ReportLine(e[|e| - 1]);
      assert (d + e)[..|d + e| - 1] == d + e';
      assert (d + e)[|d + e| - 1] == e[|e| - 1];
      assert Report(d + e) == Report(d + e') + line;
      ReportAppend(d, e');
      assert Report(d) + Report(e') + line == Report(d) + (Report(e') + line);
    }
  }

  // -----------------------------------------------------------------------
  // Reading a report line back
  // -----------------------------------------------------------------------

  /** The index of the first ':' of `s`, or `|s|` when there is none. */
  function ColonIndex(s: string): (r: nat)
    ensures r <= |s| && (r < |s| ==> s[r] == ':')
    ensures forall k :: 0 <= k < r ==> s[k] != ':'
  {
    if s == [] then 0 else if s[0] == ':' then 0 else 1 + ColonIndex(s[1..])
  }

  /** The address column of a report line: the number in front of the first ':'. */
  function LineAddress(line: string): Option<int> {
    ParseFormatted(line[..ColonIndex(line)])
  }

  lemma {:induction false} HexDigitsNoColon(n: nat)
    ensures ':' !in HexDigits(n)
    decreases n
  {
    if n >= 16 {
      HexDigitsNoColon(n / 16);
    }
  }

  lemma {:induction false} ZerosNoColon(n: nat)
    ensures ':' !in Zeros(n)
  {
    if n > 0 {
      ZerosNoColon(n - 1);
    }
  }

  /** The address of a report line reads back as the gadget's address, whatever its instructions. */
  lemma ReportLineAddress(g: Gadget)
    ensures LineAddress(ReportLine(g)) == Some(g.address)
  {
    var f := FormatHex08(g.address);
    var n := g.address;
    HexDigitsNoColon(if n < 0 then -n else n);
    var pad := Zeros(if |(if n < 0 then "-" else "")| + 2 + |HexDigits(if n < 0 then -n else n)| < 8
      then 8 - |(if n < 0 then "-" else "")| - 2 - |HexDigits(if n < 0 then -n else n)| else 0);
    ZerosNoColon(|pad|);
    assert ':' !in f;
    var line := ReportLine(g);
    assert line == f + (": " + GadgetText(g) + "\n");
    assert line[|f|] == ':';
    forall k | 0 <= k < |f| ensures line[k] != ':' {
      assert line[k] == f[k];
    }
    assert ColonIndex(line) == |f|;
    assert line[..|f|] == f;
    FormatHex08RoundTrip(g.address);
  }

  // -----------------------------------------------------------------------
  // The selection loop
  // -----------------------------------------------------------------------

  /**
   * What `check_interesting` changes or produces: the `interesting_gadget`
   * dict, the calls of the `make_function` hook in order, and `to_write`.
   */
  datatype Selection = Selection(flagged: Dict, hooked: seq<Gadget>, text: string)

  const NoSelection := Selection([], [], "")

  /** Flagging `g`: store it, call the hook on it and write its line. */
  function Flag(g: Gadget, s: Selection): Selection {
    Selection(DictSet(s.flagged, g.address, g.insns), s.hooked + [g], s.text + ReportLine(g))
  }

  /** The inner loop body: test one pattern against `g`. */
  function FlagStep(m: Matcher, p: string, g: Gadget, s: Selection): Selection {
    if m(p, GadgetText(g)) && g.insns !in Values(s.flagged) then Flag(g, s) else s
  }

  /** The inner loop over the patterns, for one gadget. */
  function SelectPats(m: Matcher, pats: seq<string>, g: Gadget, s: Selection): Selection
    decreases |pats|
  {
    if pats == [] then s
    else FlagStep(m, pats[|pats| - 1], g, SelectPats(m, pats[..|pats| - 1], g, s))
  }

  /** The outer loop over the stored gadgets, in insertion order. */
  function SelectAll(m: Matcher, pats: seq<string>, gs: Dict, s: Selection): Selection
    decreases |gs|
  {
    if gs == [] then s
    else SelectPats(m, pats, gs[|gs| - 1], SelectAll(m, pats, gs[..|gs| - 1], s))
  }

  /** Some pattern of the list prefix-matches `text`. */
  predicate AnyMatch(m: Matcher, pats: seq<string>, text: string) {
    exists p :: 0 <= p < |pats| && m(pats[p], text)
  }

  /**
   * A gadget is flagged at most once by the inner loop: it is flagged exactly
   * when some pattern matches and its list is not flagged yet, and then
   * the later patterns find it flagged.
   */
  lemma {:induction false} SelectPatsOnce(m: Matcher, pats: seq<string>, g: Gadget, s: Selection)
    ensures SelectPats(m, pats, g, s) ==
      if AnyMatch(m, pats, GadgetText(g)) && g.insns !in Values(s.flagged) then Flag(g, s) else s
    decreases |pats|
  {
    if pats != [] {
      var p := pats[..|pats| - 1];
      var q := pats[|pats| - 1];
      SelectPatsOnce(m, p, g, s);
      var text := GadgetText(g);
      if AnyMatch(m, p, text) {
        var i :| 0 <= i < |p| && m(p[i], text);
        assert pats[i] == p[i];
      } else if m(q, text) {
        assert pats[|pats| - 1] == q;
      } else {
        forall i | 0 <= i < |pats| ensures !m(pats[i], text) {
          if i < |p| {
            assert pats[i] == p[i];
          }
        }
      }
    }
  }

  /** The selection keeps the flagged dict's keys and lists pairwise distinct, whatever it starts from. */
  lemma {:induction false} SelectAllKeepsUnique(m: Matcher, pats: seq<string>, gs: Dict, s: Selection)
    requires KeysUnique(s.flagged) && ContentUnique(s.flagged)
    ensures KeysUnique(SelectAll(m, pats, gs, s).flagged) && ContentUnique(SelectAll(m, pats, gs, s).flagged)
    decreases |gs|
  {
    if gs != [] {
      var g := gs[|gs| - 1];
      var s' := SelectAll(m, pats, gs[..|gs| - 1], s);
      SelectAllKeepsUnique(m, pats, gs[..|gs| - 1], s);
      SelectPatsOnce(m, pats, g, s');
      InsertKeepsUnique(s'.flagged, g.address, g.insns);
    }
  }

  /**
   * The reference selection: the stored gadgets that match a pattern, each
   * kept unless an equal list was kept before it.
   */
  function Flagged(m: Matcher, pats: seq<string>, gs: Dict): Dict
    decreases |gs|
  {
    if gs == [] then []
    else
      var f := Flagged(m, pats, gs[..|gs| - 1]);
      var g := gs[|gs| - 1];
      if AnyMatch(m, pats, GadgetText(g)) && g.insns !in Values(f) then f + [g] else f
  }

  /** The stored gadgets that match a pattern, in insertion order. */
  function Filter(m: Matcher, pats: seq<string>, gs: Dict): Dict
    decreases |gs|
  {
    if gs == [] then []
    else
      var f := Filter(m, pats, gs[..|gs| - 1]);
      var g := gs[|gs| - 1];
      if AnyMatch(m, pats, GadgetText(g)) then f + [g] else f
  }

  /**
   * From an empty dict, `check_interesting` flags the reference selection,
   * calls the hook on exactly those gadgets in that order, and writes their
   * report lines.
   */
  lemma {:induction false} SelectAllFlagged(m: Matcher, pats: seq<string>, gs: Dict)
    requires KeysUnique(gs)
    ensures var f := Flagged(m, pats, gs);
      SelectAll(m, pats, gs, NoSelection) == Selection(f, f, Report(f))
    decreases |gs|
  {
    if gs != [] {
      var p := gs[..|gs| - 1];
      var g := gs[|gs| - 1];
      assert KeysUnique(p) by {
        forall a, b | 0 <= a < b < |p| ensures p[a].address != p[b].address {
          assert p[a] == gs[a] && p[b] == gs[b];
        }
      }
      SelectAllFlagged(m, pats, p);
      var f := Flagged(m, pats, p);
      FlaggedSpec(m, pats, p);
      assert !HasKey(f, g.address) by {
        forall j | 0 <= j < |f| ensures f[j].address != g.address {
          var i :| 0 <= i < |p| && p[i] == f[j];
          assert gs[i] == p[i];
        }
      }
      SelectPatsOnce(m, pats, g, Selection(f, f, Report(f)));
    }
  }

  /**
   * What the reference selection promises: it holds stored gadgets only,
   * in insertion order, with pairwise distinct lists, each matching some
   * pattern; and every stored gadget that matches has its list flagged
   * (`FlaggedEarliest` says under which gadget).
   */
  lemma {:induction false} FlaggedSpec(m: Matcher, pats: seq<string>, gs: Dict)
    ensures var f := Flagged(m, pats, gs);
      && |f| <= |gs|
      && (forall j :: 0 <= j < |f| ==> exists i :: 0 <= i < |gs| && gs[i] == f[j])
      && ContentUnique(f)
      && (forall j :: 0 <= j < |f| ==> AnyMatch(m, pats, GadgetText(f[j])))
      && (forall i :: 0 <= i < |gs| && AnyMatch(m, pats, GadgetText(gs[i])) ==> gs[i].insns in Values(f))
    decreases |gs|
  {
    if gs != [] {
      var p := gs[..|gs| - 1];
      var g := gs[|gs| - 1];
      FlaggedSpec(m, pats, p);
      var f0 := Flagged(m, pats, p);
      var f := Flagged(m, pats, gs);
      forall j | 0 <= j < |f| ensures exists i :: 0 <= i < |gs| && gs[i] == f[j] {
        if j < |f0| {
          var i :| 0 <= i < |p| && p[i] == f0[j];
          assert gs[i] == f[j];
        } else {
          assert gs[|gs| - 1] == f[j];
        }
      }
      forall a, b | 0 <= a < b < |f| ensures f[a].insns != f[b].insns {
        if b == |f0| {
          assert Values(f0)[a] == f0[a].insns;
        }
      }
      forall i | 0 <= i < |gs| && AnyMatch(m, pats, GadgetText(gs[i]))
        ensures gs[i].insns in Values(f)
      {
        if i < |p| {
          assert gs[i] == p[i];
          var j :| 0 <= j < |f0| && Values(f0)[j] == p[i].insns;
          assert Values(f)[j] == f[j].insns;
        } else if g.insns !in Values(f0) {
          assert Values(f)[|f0|] == g.insns;
        }
      }
    }
  }

  /**
   * Every stored gadget that matches has its list flagged under a gadget
   * stored at the same position or before it in insertion order.
   */
  lemma {:induction false} FlaggedEarliest(m: Matcher, pats: seq<string>, gs: Dict, i: int)
    requires 0 <= i < |gs| && AnyMatch(m, pats, GadgetText(gs[i]))
    ensures exists j, e ::
              && 0 <= j < |Flagged(m, pats, gs)| && 0 <= e <= i
              && gs[e] == Flagged(m, pats, gs)[j] && gs[e].insns == gs[i].insns
    decreases |gs|
  {
    var p := gs[..|gs| - 1];
    var g := gs[|gs| - 1];
    var f0 := Flagged(m, pats, p);
    var f := Flagged(m, pats, gs);
    assert f == f0 || f == f0 + [g];
    if i < |p| {
      assert gs[i] == p[i];
      FlaggedEarliest(m, pats, p, i);
      var j, e :| 0 <= j < |f0| && 0 <= e <= i && p[e] == f0[j] && p[e].insns == p[i].insns;
      assert gs[e] == f[j];
    } else if g.insns !in Values(f0) {
      assert gs[i] == f[|f0|];
    } else {
      FlaggedSpec(m, pats, p);
      var j :| 0 <= j < |f0| && Values(f0)[j] == g.insns;
      var e :| 0 <= e < |p| && p[e] == f0[j];
      assert gs[e] == f[j];
    }
  }

  /** `g` is a stored gadget kept by `Filter` iff it matches some pattern. */
  lemma {:induction false} FilterMembers(m: Matcher, pats: seq<string>, gs: Dict, g: Gadget)
    ensures g in Filter(m, pats, gs) <==> g in gs && AnyMatch(m, pats, GadgetText(g))
    decreases |gs|
  {
    if gs != [] {
      var p := gs[..|gs| - 1];
      FilterMembers(m, pats, p, g);
      assert gs == p + [gs[|gs| - 1]];
    }
  }

  /** When the stored lists are distinct, as `find_gadgets` leaves them, the dedup never fires. */
  lemma {:induction false} FlaggedIsFilter(m: Matcher, pats: seq<string>, gs: Dict)
    requires ContentUnique(gs)
    ensures Flagged(m, pats, gs) == Filter(m, pats, gs)
    decreases |gs|
  {
    if gs != [] {
      var p := gs[..|gs| - 1];
      var g := gs[|gs| - 1];
      assert ContentUnique(p) by {
        forall a, b | 0 <= a < b < |p| ensures p[a].insns != p[b].insns {
          assert p[a] == gs[a] && p[b] == gs[b];
        }
      }
      FlaggedIsFilter(m, pats, p);
      var f := Flagged(m, pats, p);
      FlaggedSpec(m, pats, p);
      forall j | 0 <= j < |f| ensures Values(f)[j] != g.insns {
        var i :| 0 <= i < |p| && p[i] == f[j];
        assert gs[i] == p[i];
      }
    }
  }

  /**
   * Running the selection again changes nothing once every matching stored
   * gadget has its list flagged: no gadget is flagged twice.
   */
  lemma {:induction false} SelectAllSaturated(m: Matcher, pats: seq<string>, gs: Dict, s: Selection)
    requires forall i :: 0 <= i < |gs| && AnyMatch(m, pats, GadgetText(gs[i])) ==> gs[i].insns in Values(s.flagged)
    ensures SelectAll(m, pats, gs, s) == s
    decreases |gs|
  {
    if gs != [] {
      var p := gs[..|gs| - 1];
      forall i | 0 <= i < |p| && AnyMatch(m, pats, GadgetText(p[i]))
        ensures p[i].insns in Values(s.flagged)
      {
        assert p[i] == gs[i];
      }
      SelectAllSaturated(m, pats, p, s);
      SelectPatsOnce(m, pats, gs[|gs| - 1], s);
    }
  }

  /** A second `check_interesting` after a first one from empty flags, hooks and writes nothing. */
  lemma SelectTwice(m: Matcher, pats: seq<string>, gs: Dict)
    requires KeysUnique(gs)
    ensures var s := SelectAll(m, pats, gs, NoSelection);
      SelectAll(m, pats, gs, s) == s
  {
    SelectAllFlagged(m, pats, gs);
    FlaggedSpec(m, pats, gs);
    SelectAllSaturated(m, pats, gs, SelectAll(m, pats, gs, NoSelection));
  }
}

/**
 * A faithful matcher for the templates `^(pop r..; )*ret` and
 * `^(pop e..; )*ret` under `re.match`: anchored at the start, `.` any
 * character but a newline, nothing required after `ret`.
 */
module PopChain {
  import opened PyBuiltins
  import opened Store
  import opened Select
  import opened Mode

  /** One `pop X..; ` repetition for register letter `reg`: nine characters. */
  predicate PopBlock(reg: char, b: string) {
    |b| == 9 && b[..4] == "pop " && b[4] == reg && b[5] != '\n' && b[6] != '\n' && b[7..] == "; "
  }

  /** A rendered `pop` of a register whose name is `reg` and two more characters. */
  predicate PopInsn(reg: char, s: string) {
    |s| == 7 && s[..4] == "pop " && s[4] == reg && s[5] != '\n' && s[6] != '\n'
  }

  /** `re.match(r"^(pop X..; )*ret", s)` succeeds. */
  function PopsRet(reg: char, s: string): bool
    decreases |s|
  {
    (|s| >= 3 && s[..3] == "ret") || (|s| >= 9 && PopBlock(reg, s[..9]) && PopsRet(reg, s[9..]))
  }

  /** `(pop X..; )*ret` matches `s[..e]` exactly (the regex's possible end positions). */
  ghost predicate RetEndsAt(reg: char, s: string, e: int)
    decreases |s|
  {
    (|s| >= 3 && s[..3] == "ret" && e == 3)
    || (|s| >= 9 && PopBlock(reg, s[..9]) && RetEndsAt(reg, s[9..], e - 9))
  }

  /** The matcher succeeds iff the regex has some end position. */
  lemma {:induction false} PopsRetMeaning(reg: char, s: string)
    ensures PopsRet(reg, s) <==> exists e :: RetEndsAt(reg, s, e)
    decreases |s|
  {
    if |s| >= 3 && s[..3] == "ret" {
      assert RetEndsAt(reg, s, 3);
      assert PopsRet(reg, s);
      assert exists e :: RetEndsAt(reg, s, e);
    } else if |s| >= 9 && PopBlock(reg, s[..9]) {
      PopsRetMeaning(reg, s[9..]);
      if PopsRet(reg, s[9..]) {
        var e :| RetEndsAt(reg, s[9..], e);
        assert RetEndsAt(reg, s, e + 9);
      }
      forall e | RetEndsAt(reg, s, e) ensures PopsRet(reg, s[9..]) {
        assert RetEndsAt(reg, s[9..], e - 9);
        assert exists e' :: RetEndsAt(reg, s[9..], e');
      }
      assert PopsRet(reg, s) == PopsRet(reg, s[9..]);
      assert PopsRet(reg, s[9..]) ==> exists e :: RetEndsAt(reg, s, e);
    }
  }

  /** The `i`-th nine-character block of `s` is a `pop X..; ` repetition. */
  ghost predicate PopBlockAt(reg: char, s: string, i: nat) {
    9 * i + 9 <= |s| && PopBlock(reg, s[9 * i..9 * i + 9])
  }

  /** `s` starts with `n` pop blocks and then `ret`. */
  ghost predicate PopsThenRet(reg: char, s: string, n: nat) {
    9 * n + 3 <= |s| && (forall i :: 0 <= i < n ==> PopBlockAt(reg, s, i)) && s[9 * n..9 * n + 3] == "ret"
  }

  /** The matcher succeeds iff the text is some number of pop blocks followed by `ret`. */
  lemma {:induction false} PopsRetBlocks(reg: char, s: string)
    ensures PopsRet(reg, s) <==> exists n: nat :: PopsThenRet(reg, s, n)
    decreases |s|
  {
    if PopsRet(reg, s) {
      if |s| >= 3 && s[..3] == "ret" {
        assert PopsThenRet(reg, s, 0);
      } else {
        var t := s[9..];
        PopsRetBlocks(reg, t);
        var m: nat :| PopsThenRet(reg, t, m);
        ShiftedBlocks(reg, s, m);
        assert PopsThenRet(reg, s, m + 1);
      }
    } else {
      forall n: nat | PopsThenRet(reg, s, n) ensures false {
        if n > 0 {
          var t := s[9..];
          assert PopBlockAt(reg, s, 0);
          assert s[..9] == s[0..9];
          UnshiftedBlocks(reg, s, n - 1);
          PopsRetBlocks(reg, t);
          assert false;
        }
      }
    }
  }

  /** A slice of `s` past its first nine characters is the same slice of `s[9..]`, shifted. */
  lemma DropBlock(s: string, a: int, b: int)
    requires 9 <= a <= b <= |s|
    ensures s[a..b] == s[9..][a - 9..b - 9]
  {
  }

  lemma ShiftedBlocks(reg: char, s: string, m: nat)
    requires |s| >= 9 && PopBlock(reg, s[..9]) && PopsThenRet(reg, s[9..], m)
    ensures PopsThenRet(reg, s, m + 1)
  {
    var t := s[9..];
    forall i | 0 <= i < m + 1 ensures PopBlockAt(reg, s, i) {
      if i > 0 {
        assert PopBlockAt(reg, t, i - 1);
        DropBlock(s, 9 * i, 9 * i + 9);
      } else {
        assert s[..9] == s[0..9];
      }
    }
    DropBlock(s, 9 * (m + 1), 9 * (m + 1) + 3);
  }

  lemma UnshiftedBlocks(reg: char, s: string, m: nat)
    requires PopsThenRet(reg, s, m + 1)
    ensures PopsThenRet(reg, s[9..], m)
  {
    var t := s[9..];
    forall i | 0 <= i < m ensures PopBlockAt(reg, t, i) {
      assert PopBlockAt(reg, s, i + 1);
      DropBlock(s, 9 * (i + 1), 9 * (i + 1) + 9);
    }
    DropBlock(s, 9 * (m + 1), 9 * (m + 1) + 3);
  }

  /** Every match of `(pop X..; )*ret` consumes at least the three letters of `ret`. */
  lemma {:induction false} RetEndsAfterRet(reg: char, s: string, e: int)
    requires RetEndsAt(reg, s, e)
    ensures 3 <= e <= |s|
    decreases |s|
  {
    if !(|s| >= 3 && s[..3] == "ret" && e == 3) {
      RetEndsAfterRet(reg, s[9..], e - 9);
    }
  }

  /**
   * `re.match` of the first x86 template as Python builds it,
   * `^(pop e..; )*ret^(pop e..; )call e..`: the second `^` holds only at
   * position 0, after which one pop and a `call e..` must follow.
   */
  ghost predicate ConcatenatedX86Matches(s: string) {
    exists e :: RetEndsAt('e', s, e) && e == 0
      && |s| - e >= 17 && PopBlock('e', s[e..e + 9]) && s[e + 9..e + 15] == "call e"
      && s[e + 15] != '\n' && s[e + 16] != '\n'
  }

  /** The joined first x86 template can match no rendered gadget at all. */
  lemma ConcatenatedX86NeverMatches(s: string)
    ensures !ConcatenatedX86Matches(s)
    ensures PatternsX86[0] == @"^(pop e..; )*ret^(pop e..; )call e.."
  {
    if ConcatenatedX86Matches(s) {
      var e :| RetEndsAt('e', s, e) && e == 0
        && |s| - e >= 17 && PopBlock('e', s[e..e + 9]) && s[e + 9..e + 15] == "call e"
        && s[e + 15] != '\n' && s[e + 16] != '\n';
      RetEndsAfterRet('e', s, e);
    }
  }

  /** A chain of register pops closed by `ret` matches the template for that register letter. */
  lemma {:induction false} PopChainMatches(reg: char, pops: seq<string>)
    requires forall i :: 0 <= i < |pops| ==> PopInsn(reg, pops[i])
    ensures PopsRet(reg, Join("; ", pops + ["ret"]))
    decreases |pops|
  {
    if pops == [] {
      assert pops + ["ret"] == ["ret"];
    } else {
      var xs := pops + ["ret"];
      var rest := pops[1..];
      assert xs[1..] == rest + ["ret"];
      PopChainMatches(reg, rest);
      var s := Join("; ", xs);
      assert s == pops[0] + "; " + Join("; ", rest + ["ret"]);
      assert s[..9] == pops[0] + "; ";
      assert s[9..] == Join("; ", rest + ["ret"]);
    }
  }

  /** A bare `ret` or an unterminated chain of pops: the matcher's two edges. */
  lemma PopsRetExamples()
    ensures PopsRet('r', "ret")
    ensures PopsRet('r', "pop rdi; ret")
    ensures !PopsRet('r', "pop rdi; pop rsi")
    ensures !PopsRet('r', "pop edi; ret")
  {
    assert "pop rdi; ret"[..9] == "pop rdi; ";
    assert "pop rdi; ret"[9..] == "ret";
    assert "pop rdi; pop rsi"[9..] == "pop rsi";
    assert "pop rsi"[..3] == "pop";
    assert "pop rdi; pop rsi"[..3] == "pop";
    assert "pop edi; ret"[..9][4] == 'e';
  }

  /**
   * With a matcher faithful to `^(pop r..; )*ret` (the second x64 template),
   * every stored gadget made of register pops ending in `ret` is flagged.
   */
  lemma PopChainFlagged(m: Matcher, gs: Dict, i: nat, pops: seq<string>)
    requires forall s :: m(PatternsX64[1], s) == PopsRet('r', s)
    requires i < |gs| && gs[i].insns == pops + ["ret"]
    requires forall k :: 0 <= k < |pops| ==> PopInsn('r', pops[k])
    ensures gs[i].insns in Values(Flagged(m, PatternsX64, gs))
  {
    PopChainMatches('r', pops);
    assert m(PatternsX64[1], GadgetText(gs[i]));
    FlaggedSpec(m, PatternsX64, gs);
  }
}
