/**
 * `ROP.check_end`: does one rendered instruction end a gadget on the given
 * architecture? Each regular expression of the source is written out as a
 * string predicate with Python's `re.match` semantics: anchored at the start
 * only, `.` matching any character but a newline, and `$` matching at the end
 * or just before a final newline.
 */
module Tail {
  import opened Mode

  predicate StartsWith(s: string, prefix: string) {
    |prefix| <= |s| && s[..|prefix|] == prefix
  }

  predicate NoNewline(s: string) {
    forall k :: 0 <= k < |s| ==> s[k] != '\n'
  }

  /** `re.match(r"call r..?", s)` */
  predicate CallRegister64(s: string) {
    StartsWith(s, "call r") && |s| >= 7 && s[6] != '\n'
  }

  /** `re.match(r"call e..", s)` */
  predicate CallRegister32(s: string) {
    StartsWith(s, "call e") && |s| >= 8 && s[6] != '\n' && s[7] != '\n'
  }

  /** `re.match(r"s[vw][ci] .*?", s)`; the lazy `.*?` may match nothing. */
  predicate SupervisorCall(s: string) {
    |s| >= 4 && s[0] == 's' && (s[1] == 'v' || s[1] == 'w')
    && (s[2] == 'c' || s[2] == 'i') && s[3] == ' '
  }

  /**
   * The search `re` performs for the tail `.*?, pc}` of `pop {.*?, pc}` from
   * position `j`: try `, pc}` here, else let `.` consume one more character.
   */
  function PopPcFrom(s: string, j: nat): bool
    requires j <= |s|
    decreases |s| - j
  {
    if j + 5 <= |s| && s[j..j + 5] == ", pc}" then true
    else if j < |s| && s[j] != '\n' then PopPcFrom(s, j + 1)
    else false
  }

  /** `re.match(r"pop {.*?, pc}", s)` */
  predicate PopPc(s: string) {
    StartsWith(s, "pop {") && PopPcFrom(s, 5)
  }

  /** The regular expression's reading: `, pc}` at `k`, after newline-free text. */
  ghost predicate PopPcAt(s: string, k: int) {
    5 <= k && k + 5 <= |s| && NoNewline(s[5..k]) && s[k..k + 5] == ", pc}"
  }

  lemma {:induction false} PopPcFromSearch(s: string, j: nat)
    requires 5 <= j <= |s| && NoNewline(s[5..j])
    ensures PopPcFrom(s, j) <==> exists k :: j <= k && PopPcAt(s, k)
    decreases |s| - j
  {
    if j + 5 <= |s| && s[j..j + 5] == ", pc}" {
      assert PopPcAt(s, j);
    } else if j < |s| && s[j] != '\n' {
      assert s[5..j + 1] == s[5..j] + [s[j]];
      PopPcFromSearch(s, j + 1);
      assert !PopPcAt(s, j);
    } else {
      forall k | j <= k
        ensures !PopPcAt(s, k)
      {
        if k > j && k + 5 <= |s| {
          assert s[5..k][j - 5] == s[j];
        }
      }
    }
  }

  /** `pop {...}` ends with `, pc}` somewhere, with no newline before it. */
  lemma PopPcMeaning(s: string)
    ensures PopPc(s) <==> StartsWith(s, "pop {") && exists k :: PopPcAt(s, k)
  {
    if StartsWith(s, "pop {") {
      assert s[5..5] == "";
      PopPcFromSearch(s, 5);
    }
  }

  /** Where `bl?x?` stops: after `b`, an optional `l`, then an optional `x`. */
  function BranchOperandStart(s: string): (p: nat)
    requires |s| >= 1
    ensures 1 <= p <= 3 && p <= |s|
  {
    var p := if |s| > 1 && s[1] == 'l' then 2 else 1;
    if |s| > p && s[p] == 'x' then p + 1 else p
  }

  /**
   * `re.match(r"bl?x? ..$", s)`. The greedy reading of `bl?x?` is the only one
   * that can succeed, because a space must follow it.
   */
  predicate BranchRegister(s: string) {
    |s| >= 1 && s[0] == 'b' &&
    var p := BranchOperandStart(s);
    p + 3 <= |s| && s[p] == ' ' && s[p + 1] != '\n' && s[p + 2] != '\n'
    && (p + 3 == |s| || (p + 4 == |s| && s[p + 3] == '\n'))
  }

  /** `s` is `m`, a space and two non-newline characters (and possibly a final newline). */
  predicate BranchShape(s: string, m: string) {
    (|s| == |m| + 3 || (|s| == |m| + 4 && s[|m| + 3] == '\n'))
    && s[..|m|] == m && s[|m|] == ' ' && s[|m| + 1] != '\n' && s[|m| + 2] != '\n'
  }

  lemma BranchRegisterMeaning(s: string)
    ensures BranchRegister(s) <==>
      BranchShape(s, "b") || BranchShape(s, "bl") || BranchShape(s, "bx") || BranchShape(s, "blx")
  {
    if BranchShape(s, "b") || BranchShape(s, "bl") || BranchShape(s, "bx") || BranchShape(s, "blx") {
      assert s[0] == 'b';
    }
  }

  /** `ROP.check_end` */
  function CheckEnd(arch: string, inst: string): bool
  {
    if arch == ArchX64 then
      inst == "ret" || inst == "syscall" || CallRegister64(inst)
    else if arch == ArchX86 then
      inst == "ret" || inst == "int 0x80" || CallRegister32(inst)
    else if arch == ArchArm then
      PopPc(inst) || SupervisorCall(inst) || BranchRegister(inst)
    else if arch == ArchAArch64 then
      SupervisorCall(inst) || inst == "ret" || PopPc(inst)
    else
      false
  }

  /**
   * arm: a `pop {` whose register list reaches `, pc}`, a supervisor call
   * `s[vw][ci] `, or `b`, `bl`, `bx` or `blx` with a two-character operand.
   */
  lemma CheckEndArm(s: string)
    ensures CheckEnd(ArchArm, s) <==>
      (StartsWith(s, "pop {") && exists k :: PopPcAt(s, k))
      || SupervisorCall(s)
      || BranchShape(s, "b") || BranchShape(s, "bl") || BranchShape(s, "bx") || BranchShape(s, "blx")
  {
    PopPcMeaning(s);
    BranchRegisterMeaning(s);
  }

  /** aarch64: a supervisor call, `ret`, or the same `pop {..., pc}` test as arm. */
  lemma CheckEndAArch64(s: string)
    ensures CheckEnd(ArchAArch64, s) <==>
      SupervisorCall(s) || s == "ret" || (StartsWith(s, "pop {") && exists k :: PopPcAt(s, k))
  {
    PopPcMeaning(s);
  }

  /** No architecture other than the four supported ones has any gadget tail. */
  lemma CheckEndUnknown(arch: string, s: string)
    requires !Supported(arch)
    ensures !CheckEnd(arch, s)
  {
  }

  /**
   * The tails of the x86 family and of the arm family never overlap, and
   * `ret` is the only instruction that is a tail both on x64 and on x86, or
   * both on x64 and on aarch64 (or aarch64 and x86); every other aarch64
   * tail is an arm tail too.
   */
  lemma CheckEndCrossArch(s: string)
    ensures !(CheckEnd(ArchArm, s) && (CheckEnd(ArchX64, s) || CheckEnd(ArchX86, s)))
    ensures CheckEnd(ArchX64, s) && CheckEnd(ArchX86, s) ==> s == "ret"
    ensures CheckEnd(ArchAArch64, s) && CheckEnd(ArchX64, s) ==> s == "ret"
    ensures CheckEnd(ArchAArch64, s) && CheckEnd(ArchX86, s) ==> s == "ret"
    ensures CheckEnd(ArchAArch64, s) ==> s == "ret" || CheckEnd(ArchArm, s)
  {
    if |s| > 0 {
      if s[0] == 'p' || s[0] == 's' || s[0] == 'b' {
        if s == "syscall" {
          assert s[1] == 'y';
        }
      }
    }
  }

  /** The instruction shapes the source's comments give as examples, and some near misses. */
  lemma TailExamples()
    ensures !CheckEnd(ArchArm, "syscall") && !CheckEnd(ArchAArch64, "syscall")
    ensures !CheckEnd(ArchX86, "syscall") && !CheckEnd(ArchArm, "ret")
    ensures !CheckEnd(ArchX64, "int 0x80") && !CheckEnd(ArchX64, "call eax")
    ensures !CheckEnd(ArchX86, "call rax") && !CheckEnd(ArchX64, "svc #0")
    ensures CheckEnd(ArchArm, "svc #0") && CheckEnd(ArchArm, "pop {r4, pc}")
    ensures CheckEnd(ArchArm, "blx r3") && CheckEnd(ArchArm, "bx sb")
  {
    assert "int 0x80"[..6][0] != "call r"[0];
    assert "call eax"[..6][5] != "call r"[5];
    assert "call rax"[..6][5] != "call e"[5];
    assert PopPcAt("pop {r4, pc}", 7);
    PopPcMeaning("pop {r4, pc}");
    assert BranchShape("blx r3", "blx");
    BranchRegisterMeaning("blx r3");
    assert BranchShape("bx sb", "bx");
    BranchRegisterMeaning("bx sb");
  }
}
