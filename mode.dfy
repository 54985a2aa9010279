/**
 * Per-architecture configuration chosen by `ROP.set_mode`: the decoder
 * engine, the step between scanned offsets and the list of "interesting"
 * gadget templates.
 */
module Mode {
  import opened Wrappers

  /** The architecture names the rest of the program compares against. */
  const ArchX64: string := "x64"
  const ArchX86: string := "x86"
  const ArchArm: string := "arm"
  const ArchAArch64: string := "aarch64"

  predicate Supported(arch: string) {
    arch == ArchX64 || arch == ArchX86 || arch == ArchArm || arch == ArchAArch64
  }

  /** Capstone's architecture and mode constants, as configuration values. */
  datatype CsArch = CsArchX86 | CsArchArm | CsArchArm64
  datatype CsMode = CsMode32 | CsMode64 | CsModeArm
  datatype Engine = Cs(arch: CsArch, mode: CsMode)

  /** Everything `set_mode` fixes for a run. */
  datatype Config = Config(engine: Engine, instructionSize: nat, patterns: Option<seq<string>>)

  datatype ModeError = UnknownArchitecture(arch: string)

  /**
   * The x86 templates. The source lacks a comma after the first string, so
   * Python joins the first two literals into ONE pattern: the list has three
   * entries, and the first has a `^` in the middle.
   */
  const PatternsX86: seq<string> :=
    [ @"^(pop e..; )*ret" + @"^(pop e..; )call e..",
      @"^(pop e..; )jmp e..",
      @"^mov dword ptr \[e..\], e..; ret" ]

  const PatternsX64: seq<string> :=
    [ @"^(pop e..; )*ret",
      @"^(pop r..; )*ret",
      @"^mov [dq]word ptr \[r..\], r..; ret",
      @"^mov [dq]word ptr \[r..\], e..; ret" ]

  const PatternsArm: seq<string> :=
    [ @"^pop {(...?, )+pc}",
      @"^bl?x? ...?$",
      @"^str.*? r..?, \[r..?\]" ]

  /** The minimum instruction alignment of an instruction set, in bytes. */
  function Alignment(a: CsArch): nat {
    match a
    case CsArchX86 => 1
    case CsArchArm => 4
    case CsArchArm64 => 4
  }

  /**
   * `set_mode`: an unknown architecture is an error (the source prints it and
   * exits); otherwise the engine, a step equal to the engine's instruction
   * alignment, and the template list, which aarch64 lacks.
   */
  function SetMode(arch: string): (r: Result<Config, ModeError>)
    ensures r.Success? <==> Supported(arch)
    ensures r.Failure? ==> r.error == UnknownArchitecture(arch)
    ensures r.Success? ==> r.value.instructionSize == Alignment(r.value.engine.arch) > 0
    ensures r.Success? ==> (r.value.engine.arch == CsArchX86 <==> arch == ArchX64 || arch == ArchX86)
    ensures r.Success? ==> (r.value.patterns.None? <==> arch == ArchAArch64)
  {
    if arch == ArchX64 then
      Success(Config(Cs(CsArchX86, CsMode64), 1, Some(PatternsX64)))
    else if arch == ArchX86 then
      Success(Config(Cs(CsArchX86, CsMode32), 1, Some(PatternsX86)))
    else if arch == ArchArm then
      Success(Config(Cs(CsArchArm, CsModeArm), 4, Some(PatternsArm)))
    else if arch == ArchAArch64 then
      Success(Config(Cs(CsArchArm64, CsModeArm), 4, None))
    else
      Failure(UnknownArchitecture(arch))
  }

  /** The step between scanned offsets: 1 on x86 and x64, 4 on arm and aarch64. */
  lemma InstructionSizes()
    ensures SetMode(ArchX64).value.instructionSize == 1
    ensures SetMode(ArchX86).value.instructionSize == 1
    ensures SetMode(ArchArm).value.instructionSize == 4
    ensures SetMode(ArchAArch64).value.instructionSize == 4
    ensures |SetMode(ArchX86).value.patterns.value| == 3
  {
  }
}
