# Ropgen gadget discovery, modelled in Dafny

Ropgen (`ropgen.py`) looks for ROP gadgets in an ELF binary. Its `ROP` object
does the following:

- It picks a Capstone engine, an instruction step and a list of "interesting"
  templates for the architecture (`set_mode`).
- It walks the file offsets from `start` up to, but not including,
  `end + 2 * instruction_size`. At each offset it decodes a window of at most
  20 bytes.
- It renders each decoded instruction as `mnemonic op_str`, stripped. It keeps
  the instructions up to and including the first gadget tail (`check_end`).
- It stores that list under `va + offset`, unless an equal list is already
  stored (`find_gadgets`).
- It writes one report line per stored gadget: the address as `#08x`, then the
  instructions joined with `"; "`.
- It flags the stored gadgets whose joined text matches a template, each list
  at most once, and hands them to the `make_function` hook
  (`check_interesting`).

The model has these modules:

| module | what it holds |
|---|---|
| `PyBuiltins` | The Python built-ins these steps use: `str.strip`, `str.join`, slicing, `range` and `#08x`. |
| `Mode` | The `set_mode` table, including the template lists as Python builds them. |
| `Tail` | `check_end`. Every regular expression is written out as a string predicate with `re.match` semantics. |
| `Store` | A Python dict as an insertion-ordered sequence of address/list pairs. It has `d[k] = v` and the store's deduplicating insertion. |
| `Scan` | The specification of the scan loop: a fold of one step per offset. It has the tail-only, dedup, ordering and first-occurrence theorems. |
| `Select` | The specification of the report and of the selection loop, the reference selection it computes, and its idempotence. |
| `PopChain` | A concrete matcher for the `^(pop X..; )*ret` templates. It also proves that the first x86 template can never match. |
| `Ropgen` | The `Rop` class with its decoder loop, report loop, `FindGadgets`, `CheckInteresting`, `MakeFunction` and `Initialize`. Each method is proved against the specification functions above. |

Details of the code and how the model treats them:

- **Address width.** `#08x` counts the `0x` prefix, and any `-` sign, in its
  minimum width of 8. The address column is at least 8 characters wide, and a
  non-negative address gets at least 6 hex digits. `PyBuiltins.FormatHex08`
  follows this.
- **x86 template list.** `patterns_x86` lacks a comma after its first string,
  so Python joins the first two literals. The list has three entries, and the
  first has a `^` in the middle. `Mode.PatternsX86` keeps this.
- **aarch64 templates.** `patterns_aarch64` is `None`, so `check_interesting`
  returns `False` and flags nothing.
- **The dicts.** `gadgets` and `interesting_gadget` are class attributes in the
  source. They are fields of the object here, and a fresh object starts them
  empty.

## Model

| member | source | states |
|---|---|---|
| PyBuiltins.StripLeftSpec | ropgen.py:250 | `lstrip` removes exactly a leading whitespace run: the result is a suffix, what was removed is all whitespace, and the result does not start with whitespace |
| PyBuiltins.StripRightSpec | ropgen.py:250 | `rstrip` removes exactly a trailing whitespace run: the result is a prefix, what was removed is all whitespace, and the result does not end with whitespace |
| PyBuiltins.StripSpec | ropgen.py:250 | `strip()` gives a trimmed string that sits in the input between two all-whitespace parts, and leaves a trimmed string unchanged |
| PyBuiltins.SliceWindow | ropgen.py:243 | `file_content[i:i+20]` at a non-negative offset is at most 20 bytes: the full window, the rest of the file, or empty past the end, never an error |
| PyBuiltins.RangeElements | ropgen.py:239-241 | the scanned offsets are exactly `start, start+k, start+2k, ...`, all below the stop value, the next one would not be, and they strictly increase |
| PyBuiltins.Join | ropgen.py:269 | `"; ".join`; `JoinLength` and `JoinSnoc` state what it gives |
| PyBuiltins.JoinLength | ropgen.py:269 | the joined text has the length of all items plus one separator between each two neighbours; no items give the empty string |
| PyBuiltins.JoinSnoc | ropgen.py:335 | joining one more item appends the separator and the item |
| PyBuiltins.FormatHex08 | ropgen.py:268 | `f"{address:#08x}"`; `FormatHex08RoundTrip` states its width, prefix and read-back |
| PyBuiltins.FormatHex08RoundTrip | ropgen.py:268 | `#08x` is at least 8 characters, starts with `0x` (or `-0x`), and reads back as the address |
| Mode.SetMode | ropgen.py:105-133 | an unknown architecture is an error; otherwise the step equals the engine's alignment, the x86 engine is chosen exactly for x64/x86, and only aarch64 has no templates |
| Mode.InstructionSizes | ropgen.py:110-129 | the step is 1 for x64 and x86 and 4 for arm and aarch64; the x86 template list has three entries |
| Tail.PopPcMeaning | ropgen.py:302 | the lazy search of `pop {.*?, pc}` succeeds iff `, pc}` occurs after `pop {` with no newline in between |
| Tail.BranchRegisterMeaning | ropgen.py:311 | `bl?x? ..$` matches iff the instruction is `b`, `bl`, `bx` or `blx`, a space and two non-newline characters, optionally followed by one final newline |
| Tail.CheckEndArm | ropgen.py:300-312 | an arm tail is a `pop {..., pc}`, a supervisor call `s[vw][ci] `, or a register branch of the `b`/`bl`/`bx`/`blx` shape |
| Tail.CheckEndAArch64 | ropgen.py:314-324 | an aarch64 tail is a supervisor call, exactly `ret`, or a `pop {..., pc}` |
| Tail.CheckEndUnknown | ropgen.py:326 | no instruction is a tail on an architecture outside the four supported ones |
| Tail.CheckEnd | ropgen.py:278-326 | the tail test; `CheckEndArm`, `CheckEndAArch64` and `CheckEndUnknown` characterise it per architecture, and `CheckEndCrossArch` relates the architectures |
| Tail.CheckEndCrossArch | ropgen.py:278-326 | for every instruction: no arm tail is an x64 or x86 tail, `ret` is the only instruction that is a tail on two of x64, x86 and aarch64, and every other aarch64 tail is an arm tail |
| Tail.TailExamples | ropgen.py:301-310 | the instructions in the source's comments (`pop {r4, pc}`, `svc #0`, `blx r3`, `bx sb`) are arm tails, and some near misses on other architectures are not |
| Store.Lookup | ropgen.py:261-264 | a key has a value iff it is in the dict; `LookupFirst` says which value |
| Store.LookupFirst | ropgen.py:261-264 | the value found for a key is the list of the first entry with that key |
| Store.DictSet | ropgen.py:264 | `d[k] = v` maps `k` to `v` and every other key as before; a new key goes at the end, and an existing key keeps the length; `DictSetReplaces` states that it keeps its place |
| Store.DictSetKeysUnique | ropgen.py:264 | assignment never leaves a key twice in the dict |
| Store.DictSetReplaces | ropgen.py:340 | assigning an existing key changes that one entry and no other |
| Store.InsertUnique | ropgen.py:260-264 | the list is stored afterwards; a list already stored under any address leaves the dict unchanged; a new list under a new key is appended; `InsertUniqueStores` covers the rest |
| Store.InsertUniqueStores | ropgen.py:260-264 | in a dict with unique keys, a list not stored yet ends up under its key and every other key keeps its value; a new key is appended, and an existing key's entry is replaced in place with the length unchanged |
| Store.InsertKeepsUnique | ropgen.py:260-264 | the deduplicating insertion keeps keys unique and lists pairwise distinct |
| Store.InsertIdempotent | ropgen.py:260-264 | inserting the same list again, at any address, changes nothing |
| Scan.Render | ropgen.py:249-250 | one rendered instruction; `RenderForms` and `PyBuiltins.StripSpec` state what it gives |
| Scan.RenderForms | ropgen.py:249-250 | an instruction without operands renders as its mnemonic; with operands, as mnemonic, one space, operands |
| Scan.TailPrefixSpec | ropgen.py:246-258 | a decode has a candidate iff some instruction is a tail; a candidate is a well-formed gadget (non-empty, last is a tail, none before) and a prefix of the rendered decode |
| Scan.TailPrefixFirst | ropgen.py:248-256 | when instruction `n` is the first tail, the candidate is exactly the first `n + 1` rendered instructions |
| Scan.GadgetAt | ropgen.py:243-256 | the candidate at one offset; `GadgetAtSpec` and `TailPrefixSpec` state what it is |
| Scan.GadgetAtSpec | ropgen.py:243-258 | a candidate found at an offset is a well-formed gadget |
| Scan.Step | ropgen.py:257-264 | one iteration of the scan loop; `StepKeepsUnique` and `ScanInvStep` state what it keeps |
| Scan.ScanAll | ropgen.py:239-264 | the scan loop over a list of offsets; `ScanAllInv`, `ScanTailOnly`, `ScanDedupOrdered` and `ScanFirstOccurrence` state what it builds |
| Scan.ScanAllInv | ropgen.py:239-264 | over increasing offsets from an empty store: increasing addresses, distinct lists, every entry the candidate of a scanned offset, every candidate stored at its own address or a smaller one |
| Scan.ScanInvStep | ropgen.py:260-264 | one iteration of the loop body keeps that invariant |
| Scan.ScanAllKeepsUnique | ropgen.py:260-264 | from any store with unique keys and distinct lists, scanning keeps both |
| Scan.StepKeepsUnique | ropgen.py:260-264 | one iteration keeps keys unique and lists distinct |
| Scan.ScanTailOnly | ropgen.py:246-264 | every stored gadget is well-formed and is exactly the candidate of the scanned offset it is stored under |
| Scan.ScanDedupOrdered | ropgen.py:260-264 | no two stored gadgets have equal lists, and addresses strictly increase in insertion order, so no key is overwritten |
| Scan.ScanFirstOccurrence | ropgen.py:239-264 | every candidate found is stored, under the address of the smallest offset that produces it |
| Scan.ScanNoTailNoGadget | ropgen.py:257-258 | an offset whose decode has no tail stores nothing under its address |
| Scan.ScanNothingFound | ropgen.py:239-264 | if no decode reaches a tail, the store stays empty |
| Select.ReportLine | ropgen.py:268-269 | one report line; `ReportLineAddress` reads its address back |
| Select.Report | ropgen.py:266-269 | the report of a dict; `ReportAppend` states how it splits |
| Select.ReportAppend | ropgen.py:266-269 | the report of two dicts, one after the other, is their two reports concatenated |
| Select.ReportLineAddress | ropgen.py:268-269 | the text before the first `:` of a report line reads back as the gadget's address, whatever its instructions |
| Select.FlagStep | ropgen.py:337-342 | the test of one template against one gadget; `SelectPatsOnce` states its effect over a template list |
| Select.SelectPats | ropgen.py:336-342 | the loop over the templates for one gadget; `SelectPatsOnce` states what it does |
| Select.SelectAll | ropgen.py:334-342 | the loop over the stored gadgets; `SelectAllFlagged`, `SelectAllKeepsUnique` and `SelectTwice` state what it produces |
| Select.SelectPatsOnce | ropgen.py:336-342 | the pattern loop flags a gadget exactly when some template matches and its list is not flagged yet, and then it flags it only once |
| Select.SelectAllKeepsUnique | ropgen.py:334-342 | the selection keeps the flagged dict's keys unique and lists distinct |
| Select.SelectAllFlagged | ropgen.py:333-342 | from an empty flagged dict, the selection flags the reference selection, hooks exactly those gadgets in order, and writes their report lines |
| Select.FlaggedSpec | ropgen.py:334-342 | flagged gadgets are stored gadgets with distinct lists, each matching a template, and every matching stored gadget has its list flagged |
| Select.FlaggedEarliest | ropgen.py:334-342 | every matching stored gadget has its list flagged under a gadget stored at its own position or earlier in insertion order |
| Select.FilterMembers | ropgen.py:334-338 | a gadget is in the filtered list iff it is stored and matches some template |
| Select.FlaggedIsFilter | ropgen.py:337-338 | when the stored lists are distinct, the flagged gadgets are exactly the stored gadgets that match a template |
| Select.SelectAllSaturated | ropgen.py:337-338 | once every matching gadget's list is flagged, the selection changes nothing |
| Select.SelectTwice | ropgen.py:328-342 | running the selection a second time flags, hooks and writes nothing more |
| PopChain.PopsRet | ropgen.py:48 | the matcher for `^(pop X..; )*ret`; `PopsRetBlocks` and `PopsRetMeaning` give its two readings |
| PopChain.PopsRetMeaning | ropgen.py:48 | the matcher for `^(pop X..; )*ret` succeeds iff the regular expression has an end position |
| PopChain.PopsRetBlocks | ropgen.py:48 | the matcher succeeds iff the text is some number of nine-character `pop X..; ` blocks followed by `ret` |
| PopChain.ConcatenatedX86NeverMatches | ropgen.py:41-42 | the first x86 template is the joined string, and it matches no text at all |
| PopChain.PopChainMatches | ropgen.py:47-48 | register pops closed by `ret`, joined with `"; "`, match the template |
| PopChain.PopsRetExamples | ropgen.py:48 | `ret` and `pop rdi; ret` match `^(pop r..; )*ret`; a chain without `ret`, or with an `e` register, does not |
| PopChain.PopChainFlagged | ropgen.py:334-342 | with a faithful matcher, every stored x64 gadget of register pops ending in `ret` has its list flagged |
| Ropgen.CollectTail | ropgen.py:246-256 | the inner loop finds a tail iff the decode has one; then `tmp` is the candidate, otherwise every rendered instruction |
| Ropgen.CandidateAt | ropgen.py:243-258 | decoding the window at an offset and collecting up to the first tail gives that offset's candidate |
| Ropgen.ScanAt | ropgen.py:243-264 | one pass of the loop body is one step of the scan specification |
| Ropgen.ScanFile | ropgen.py:239-264 | the offset loop computes the scan specification over the offsets, in order |
| Ropgen.ReportText | ropgen.py:266-269 | the report loop builds one line per stored gadget, in insertion order |
| Ropgen.Rop.constructor | ropgen.py:105-133 | a fresh object carries what `set_mode` chose for its architecture, with empty dicts |
| Ropgen.Rop.FindGadgets | ropgen.py:234-269 | the stored dict becomes the scan of every offset of the range, keys and lists stay unique, the flagged dict is untouched, and the text is the report |
| Ropgen.Rop.MakeFunction | ropgen.py:350-351 | the hook changes neither dict; the model records the call |
| Ropgen.Rop.CheckInteresting | ropgen.py:328-342 | without templates: returns `False` and changes nothing; otherwise returns `None`, and the flagged dict, the hook calls and the text are those of the selection specification |
| Ropgen.Rop.Initialize | ropgen.py:230-232 | on a fresh object: the stored gadgets are the scan of the file, the flagged ones are exactly the stored gadgets that match a template, the hook is called on them in order, and the second text is their report |
| Ropgen.InitializeProperties | ropgen.py:239-264 | on a fresh object the offsets increase, and the stored gadgets are well-formed, have distinct lists, and sit at increasing addresses |
| Ropgen.ConfiguredMeaning | ropgen.py:105-133 | a configured object has a supported architecture, a positive step equal to the engine's alignment, and templates unless it is aarch64 |

## Left out

- `set_arch`, `set_offsets`, `get_section_info` and `find_next_section_info` are not modelled. They run `readelf` and parse its output. The architecture, `start`, `end` and `va` are given to the constructor instead.
- The `supported_archs` table belongs to `set_arch`, so it is not modelled either.
- The Capstone disassembler is the abstract function `decode`. The model sees only the mnemonic and operand string of each decoded instruction. The engine is recorded only as the arguments passed to `capstone.Cs`.
- General regular expressions are not modelled. The templates of `check_interesting` go through the abstract `matches` function. Only `^(pop r..; )*ret`, `^(pop e..; )*ret` and the joined x86 template are given a concrete reading.
- File I/O is not modelled. The binary's bytes are a parameter. `_gadgets.asm` is not written: `FindGadgets` and `CheckInteresting` return their `to_write` text instead. The file's `N gadgets found` header and the `Interesting Gadgets:` section header are not produced.
- The `len(self.interesting_gadget) > 0` test in `check_interesting` only decides whether the text is written to the file, so it is not modelled.
- Console printing and command-line handling are not modelled.
- Ropgen.Rop.constructor: requires a supported architecture. The source prints an error and exits on any other architecture; that path is `Mode.SetMode`'s `Failure`.
- Ropgen.Rop.FindGadgets: the loop builds the store as a value and assigns it to `gadgets` once. The source mutates the dict at each iteration, and each iteration reads `self.gadgets.values()` for the duplicate test. `ScanFile` passes the store from one iteration to the next, and `ScanAt` tests the stored lists of the store so far, so every iteration sees what the source's would.
- Ropgen.Rop.MakeFunction: the source hook does nothing. The model's only effect is a ghost log of the calls, so the contracts can say which gadgets were handed to it.
- Sharing of `gadgets` and `interesting_gadget` between `ROP` objects is not modelled. In the source they are class attributes, so a second object would see and extend the first one's dicts. Here they are fields of each object, and the constructor starts them empty.
