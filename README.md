# Verification specifications of PAVED documents, in Dafny

pave reads PAVED markdown documents. A document's `## Verification` section
holds fenced code blocks of shell commands. `extract_verification_spec` turns
that section into a `VerificationSpec`: the document's path, the line of the
section heading, and one `VerificationItem` per command with default
expectations (exit code 0, 30-second timeout, no working directory and no
output matcher). The commands come from `extract_commands_from_block`, a
line-by-line state machine over one block's text. The state machine:

- skips blank lines and `#` comment lines;
- strips one leading `$ ` shell prompt;
- joins lines that end in `\` into one command, each joint becoming a space.

This project models that pipeline and proves what it does.

- `wrappers.dfy` holds `Option`.
- `seqs.dfy` holds small sequence facts used by the proofs.
- `text.dfy` models the Rust string operations the extractor relies on:
  - `str::lines`;
  - `str::trim`, over exactly the characters `char::is_whitespace` accepts (the Unicode White_Space set);
  - `strip_prefix` and `strip_suffix`.
- `parser.dfy` gives the shape of a parsed document as the extractor receives it.
- `verification.dfy` holds the data types, the two operations and their properties.
- `scenarios.dfy` works through the three-line continuation from the source's tests.

Both operations are methods with loops, as in the source.

- `ExtractVerificationSpec` runs `extract_verification_spec`. Its nested loops over the blocks and their commands sit in `CollectItems`.
  It is proved equal to the function `VerificationSpecOf`, whose contract states the
  `None` cases and the shape of every item.
- `ExtractCommandsFromLines` runs the loop of `extract_commands_from_block`.
  `ExtractCommandsFromBlock` feeds it `Lines(content)`.
- The loop is proved equal to `Commands(Fragments(lines))`. This reference
  definition is written independently of the state machine and works one group at a time.
  - A fragment is a significant line, trimmed, with its prompt removed.
  - A group is a run of fragments ending in `\`, closed by one fragment that does not end in `\`.
- The loop invariant splits the fragments read so far into two parts:
  - a closed part, whose commands have all been emitted;
  - a pending continuation run, whose joined text is the scratch buffer.

Three facts about the extractor's code are worth stating:

- The flush of `src/verification.rs:112-115` never fires. It is meant to end
  a command on a blank or comment line outside a continuation, but there the
  buffer is always empty. `ExtractCommandsFromLines` keeps that branch and
  proves, as a loop invariant, that `in_continuation` holds exactly when the
  buffer is non-empty.
- Each joint of a continued command keeps the space that stood before the `\`,
  and one more space is appended (lines 127-133). So `cargo build \` /
  `  --release \` / `  --features all` gives
  `cargo build  --release  --features all`, with two spaces. The test at line
  331 expects exactly that, and `Scenarios.ContinuationExample` proves it from
  the block's text.
- Blank and `#` lines are skipped inside a continuation too (lines 111-116).
  `SkippedLineIsIgnored` proves that they never end a continuation and never
  add text.

The data types follow the source's records field for field:

- `VerificationSpec` is the struct at `src/verification.rs:10-19`.
- `VerificationItem` is the struct at lines 21-34, and `DefaultItem` is its `Default` at 36-46.
- `OutputMatcher` is the enum at 48-57.

`PathBuf` becomes a string, `usize` a `nat`, and `i32` and `u32` bounded newtypes.

## Model

| member | source | states |
|---|---|---|
| Verification.ExtractCommandsFromBlock | src/verification.rs:102-151 | the commands of a block are exactly `ExtractCommands(content)`: the group-wise reading of the block's lines |
| Verification.ExtractCommandsFromLines | src/verification.rs:103-150 | the line loop returns `Commands(Fragments(lines))`. Its invariants: `in_continuation` holds iff the buffer is non-empty; the buffer is the joined pending run; the emitted commands are those of the closed groups. The flush at lines 112-115 is therefore never taken |
| Verification.SkippedStep | src/verification.rs:110-117 | a blank or `#` line adds no fragment |
| Verification.FragmentStep | src/verification.rs:119-124 | any other line adds its trimmed text, without a leading `$ `, as one fragment |
| Verification.JoinedStep | src/verification.rs:127-134 | a fragment ending in `\` extends the buffer by its text without the backslash, then one space |
| Verification.GroupStep | src/verification.rs:126-142 | a fragment not ending in `\` closes the pending group as one command. With no run pending, the command is the fragment itself; otherwise it is the buffer followed by the fragment, trimmed |
| Verification.CommandsOfGroup | src/verification.rs:126-142 | a continuation run closed by a fragment yields exactly one command: the fragment alone, or the joined run plus the fragment, trimmed |
| Verification.CommandsOfTail | src/verification.rs:145-148 | a block that ends inside a continuation emits its trimmed buffer as a last command; otherwise nothing more |
| Verification.CommandsAfterClosed | src/verification.rs:107-143 | once no continuation is pending, the commands already emitted do not depend on the lines that follow |
| Verification.CommandCount | src/verification.rs:126-148 | the number of commands is the number of fragments not ending in `\`, plus one when the block ends mid-continuation |
| Verification.SkippedLineIsIgnored | src/verification.rs:110-117 | inserting a blank or `#` line anywhere, including inside a continuation, leaves the commands unchanged |
| Verification.StandaloneLine | src/verification.rs:140-142 | outside a continuation, a significant line without a trailing `\` is emitted as exactly its fragment, between the commands before and after it |
| Verification.IndentationIsIgnored | src/verification.rs:108 | leading whitespace on a line does not change how it is read |
| Verification.ClassifySkipped | src/verification.rs:108-117 | `Classify` (the trim and the blank-or-`#` test) skips a line exactly when it is all whitespace or its first non-whitespace character is `#` |
| Verification.ClassifyFragment | src/verification.rs:119-124 | the fragment `Classify` yields through `WithoutPrompt` (`command_part`) is the trimmed line with exactly one `$ ` removed when the trimmed line starts with `$ ` (so `$ $ x` gives `$ x`), and the trimmed line itself otherwise. It is never empty and never ends with whitespace |
| Verification.PromptIsStripped | src/verification.rs:119-124 | `$ x` and `x` give the same fragment `x` |
| Verification.PromptedLineExtractsAlike | src/verification.rs:119-124 | a block with `$ cargo test` on a line extracts exactly like the block with `cargo test` there |
| Verification.DefaultItem | src/verification.rs:36-46 | the default item has an empty command, no working directory, exit code `Some(0)`, no output matcher and timeout `Some(30)` |
| Verification.ItemsFor | src/verification.rs:75-81 | one item per command, in order, carrying that command and the default fields |
| Verification.VerificationSpecOf | src/verification.rs:63-94 | the specification is `None` when there is no `Verification` section, when the section has no code block, and exactly when no executable block yields a command. A `Some` result carries the document's path and the heading line, and holds a non-empty item list. Item `i` carries the `i`-th command of the executable blocks, with default fields |
| Verification.ExtractVerificationSpec | src/verification.rs:63-94 | the section lookup, the two early returns and the final wrapping, around `CollectItems`, return exactly `VerificationSpecOf(doc)` |
| Verification.CollectItems | src/verification.rs:70-83 | the loop over the blocks, with its inner loop over each executable block's commands, collects exactly `ItemsFor(ExecutableCommands(blocks, ExtractCommands))`: one default item per command of the executable blocks, in block order |
| Verification.ExecutableCommandsOfBlock | src/verification.rs:72-83 | `ExecutableCommands` (the gate at 74 and the flattening loop): a single block contributes its extracted commands when it is executable, and nothing otherwise |
| Verification.ExecutableCommandsConcat | src/verification.rs:72-83 | the commands of consecutive runs of blocks are those of each run, in block order |
| Verification.NonExecutableBlocksYieldNothing | src/verification.rs:73-74 | blocks not flagged executable contribute no command |
| Verification.NoExecutableBlockNoSpec | src/verification.rs:72-87 | a Verification section whose blocks are all non-executable gives `None` |
| Verification.LeadingRun | src/verification.rs:127 | the length of the leading run of `\`-ended fragments: every fragment before it ends in `\`, the one at it does not |
| Text.Lines | src/verification.rs:107 | `str::lines`: no line contains `\n`, and the text is empty exactly when there are no lines |
| Text.LastLine | src/verification.rs:107 | a non-empty text without `\n` is one line, even though no terminator ends it |
| Text.FirstLine | src/verification.rs:107 | a line ended by `\n` is split off as it stands, and the rest is split on its own |
| Text.CrlfLine | src/verification.rs:107 | a line ended by `\r\n` is split off without its `\r`, and the rest is split on its own |
| Text.LinesOfUnlines | src/verification.rs:107 | lines without `\n` and without a trailing `\r`, joined with `\n` terminators, are split back into the same lines |
| Text.UnlinesOfLines | src/verification.rs:107 | a text without `\r` that ends in `\n` is rebuilt from its lines |
| Text.LineEnd | src/verification.rs:107 | the index of the first `\n`, or the length when there is none |
| Text.TrimSpec | src/verification.rs:108 | `Trim`, the model of `str::trim` over `IsWhitespace` (the White_Space set that `char::is_whitespace` tests), returns a piece of the string with only whitespace around it. The result is empty exactly when the string is all whitespace; otherwise it starts and ends with non-whitespace |
| Text.StripPrefix | src/verification.rs:120 | `Some(r)` exactly when the string starts with the prefix, and then the prefix followed by `r` is the string |
| Text.StripSuffix | src/verification.rs:127 | `Some(r)` exactly when the string ends with the character, and then `r` followed by it is the string |
| Parser.GetSection | src/verification.rs:64 | the section lookup as this model assumes it: `None` exactly when no section has the name, otherwise the first section that has it |
| Scenarios.ContinuationExample | src/verification.rs:314-333 | the block text `cargo build \` / `  --release \` / `  --features all`, each line ended by a newline, extracts to the single command `cargo build  --release  --features all` |
| Scenarios.BlockLines | src/verification.rs:107 | that block text splits into its three lines |

## Left out

- The markdown parser (`ParsedDoc::parse_content`, `get_section` and the `is_executable` classifier) is not part of this model.
  A document arrives already split into sections, and each block arrives with its `is_executable` flag.
  `Parser.GetSection` is a first-match lookup by exact name. That is an assumption about code not shown, not a proved fact.
- `src/main.rs` and `src/cli.rs` are command-line dispatch, printing, argument parsing and file I/O. They hold no logic this model needs.
- `OutputMatcher` is a three-variant datatype only. Nothing in the source matches output against it, so substring and regex matching are not modelled.
- `PathBuf` is a string copied through unchanged.
- Rust's `usize` for `section_line` is a `nat`. Its bounds never matter here.
- `i32` and `u32` are only used for the default values 0 and 30, which fit.
- The model does not claim that commands are non-empty. A lone `\` line produces an empty command, as in the source.
- The derived `Clone` and `PartialEq` tests hold trivially for Dafny values and are not restated.
- `ExtractCommandsFromBlock` and `ExtractCommandsFromLines` split one Rust function in two. The outer one applies `str::lines`; the inner one is the loop over the lines.
  Nothing is lost: the split only separates the line split from the loop.
- `ExtractVerificationSpec` and `CollectItems` also split one Rust function in two. `CollectItems` is the loop over the blocks, and the outer method does the lookup and the `None` checks around it.
  The split only separates the loop from its surroundings, so nothing is lost.
