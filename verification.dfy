/**
 * Verification specifications of PAVED documents: the commands of a
 * document's "Verification" section, with what is expected of each.
 *
 * `ExtractCommandsFromBlock` turns one code block into shell commands with a
 * line-by-line state machine; `ExtractVerificationSpec` runs it over the
 * executable blocks of the section and collects the result. Each method is
 * proved equal to a specification function, and the promised behaviour is
 * proved about those functions.
 */
module Verification {
  import opened Wrappers
  import opened Text
  import opened Parser
  import opened Seqs

  newtype i32 = x: int | -0x8000_0000 <= x < 0x8000_0000
  newtype u32 = x: int | 0 <= x < 0x1_0000_0000

  /** How a command's output is checked. Nothing here interprets it. */
  datatype OutputMatcher =
    | Contains(substring: string)
    | Regex(pattern: string)
    | ExitCodeOnly

  /** One command to run and what is expected of it. */
  datatype VerificationItem = VerificationItem(
    command: string,
    workingDir: Option<Path>,
    expectedExitCode: Option<i32>,
    expectedOutput: Option<OutputMatcher>,
    timeoutSecs: Option<u32>)

  /** The commands of one document, with the line of its Verification heading. */
  datatype VerificationSpec = VerificationSpec(
    sourceFile: Path,
    sectionLine: nat,
    items: seq<VerificationItem>)

  /** Every field but the command holds its default. */
  predicate HasDefaultFields(item: VerificationItem) {
    && item.workingDir == None
    && item.expectedExitCode == Some(0)
    && item.expectedOutput == None
    && item.timeoutSecs == Some(30)
  }

  /** `VerificationItem::default()`: no command, exit code 0 expected, 30-second timeout. */
  function DefaultItem(): (item: VerificationItem)
    ensures item.command == [] && HasDefaultFields(item)
  {
    VerificationItem("", None, Some(0), None, Some(30))
  }

  // ---------------------------------------------------------------------
  // Lines and fragments

  /** What one line of a code block means to the extractor. */
  datatype LineKind =
    | Skipped               // blank, or a `#` comment
    | Fragment(text: string) // command text, with a leading "$ " prompt removed

  /** The text after a leading "$ " shell prompt, or the whole text when there is none. */
  function WithoutPrompt(trimmed: string): string {
    match StripPrefix(trimmed, "$ ")
    case Some(cmd) => cmd
    case None => trimmed
  }

  /** A line is skipped when its trimmed text is empty or starts with `#`. */
  function Classify(line: string): LineKind {
    var trimmed := Trim(line);
    if trimmed == [] || trimmed[0] == '#' then Skipped
    else Fragment(WithoutPrompt(trimmed))
  }

  /** A line is skipped exactly when it is all whitespace or its first non-whitespace character is `#`. */
  lemma ClassifySkipped(line: string)
    ensures var k := LeadingWhitespace(line);
            Classify(line) == Skipped <==>
            (forall i :: 0 <= i < |line| ==> IsWhitespace(line[i])) || (k < |line| && line[k] == '#')
  {
    var k := LeadingWhitespace(line);
    TrimSpec(line);
    TrimStartDrops(line);
    TrimEndKeeps(line[k..]);
    if Trim(line) != [] {
      assert Trim(line)[0] == line[k];
    }
  }

  /**
   * The fragment of a significant line is the trimmed line, with exactly one
   * "$ " prompt removed when it starts with one (so "$ $ x" gives "$ x"); it
   * is never empty and never ends with whitespace.
   */
  lemma ClassifyFragment(line: string)
    requires Classify(line).Fragment?
    ensures var f := Classify(line).text;
            && f != [] && !IsWhitespace(f[|f| - 1])
            && (Trim(line) == f || Trim(line) == "$ " + f)
    ensures var f, t := Classify(line).text, Trim(line);
            && ("$ " <= t ==> t == "$ " + f)
            && (!("$ " <= t) ==> f == t)
  {
    var t := Trim(line);
    TrimSpec(line);
    var f := WithoutPrompt(t);
    if "$ " <= t {
      assert t == "$ " + f;
      assert t[1] == ' ';
      assert |t| != 2;
      assert f[|f| - 1] == t[|t| - 1];
    }
  }

  /** The fragments of the significant lines, in order. */
  function Fragments(lines: seq<string>): seq<string> {
    if lines == [] then []
    else
      Fragments(lines[..|lines| - 1]) +
      match Classify(lines[|lines| - 1])
      case Skipped => []
      case Fragment(f) => [f]
  }

  predicate EndsWithBackslash(fragment: string) {
    fragment != [] && fragment[|fragment| - 1] == '\\'
  }

  /** No fragment is waiting for its continuation. */
  predicate Closed(fragments: seq<string>) {
    fragments == [] || !EndsWithBackslash(fragments[|fragments| - 1])
  }

  /** A non-empty run of fragments that all end with a backslash. */
  predicate ContinuationRun(run: seq<string>) {
    forall i :: 0 <= i < |run| ==> EndsWithBackslash(run[i])
  }

  /** Each fragment of a run without its backslash and followed by one space. */
  function Joined(run: seq<string>): string {
    if run == [] then []
    else
      Joined(run[..|run| - 1]) +
      (match StripSuffix(run[|run| - 1], '\\') case Some(w) => w case None => run[|run| - 1]) +
      " "
  }

  /** How many fragments at the front end with a backslash. */
  function LeadingRun(fragments: seq<string>): (k: nat)
    ensures k <= |fragments|
    ensures forall i :: 0 <= i < k ==> EndsWithBackslash(fragments[i])
    ensures k < |fragments| ==> !EndsWithBackslash(fragments[k])
  {
    if fragments == [] || !EndsWithBackslash(fragments[0]) then 0
    else 1 + LeadingRun(fragments[1..])
  }

  /**
   * The commands of a sequence of fragments, one group at a time. A group is
   * a run of backslash-ended fragments followed by one fragment that is not
   * (or by the end of the block). A group without a run is its fragment as
   * it stands; any other group is its joined text, trimmed.
   */
  function Commands(fragments: seq<string>): seq<string>
    decreases |fragments|
  {
    if fragments == [] then []
    else
      var k := LeadingRun(fragments);
      if k == |fragments| then [Trim(Joined(fragments))]
      else [GroupCommand(fragments, k)] + Commands(fragments[k + 1..])
  }

  /**
   * The command of the group closed by fragment `k`: that fragment alone, or
   * the joined run before it followed by it, trimmed.
   */
  function GroupCommand(fragments: seq<string>, k: nat): string
    requires k < |fragments|
  {
    if k == 0 then fragments[0] else Trim(Joined(fragments[..k]) + fragments[k])
  }

  /** A group that closes inside `p` reads the same in `p + g`. */
  lemma GroupCommandOfPrefix(p: seq<string>, g: seq<string>, k: nat)
    requires k < |p|
    ensures GroupCommand(p + g, k) == GroupCommand(p, k)
  {
    assert (p + g)[..k] == p[..k];
  }

  /** The commands of a block given as lines. */
  function CommandsOfLines(lines: seq<string>): seq<string> {
    Commands(Fragments(lines))
  }

  /** The commands of a block's text: what `ExtractCommandsFromBlock` computes. */
  function ExtractCommands(content: string): seq<string> {
    CommandsOfLines(Lines(content))
  }

  // ---------------------------------------------------------------------
  // The extractor

  /** `extract_commands_from_block`: the line loop below, over `content.lines()`. */
  method ExtractCommandsFromBlock(content: string) returns (commands: seq<string>)
    ensures commands == ExtractCommands(content)
  {
    commands := ExtractCommandsFromLines(Lines(content));
  }

  /**
   * The loop of `extract_commands_from_block`. It keeps the fragments read
   * so far split into a closed part, whose commands are all emitted, and a
   * trailing continuation run, whose joined text is the scratch buffer.
   */
  method ExtractCommandsFromLines(lines: seq<string>) returns (commands: seq<string>)
    ensures commands == CommandsOfLines(lines)
  {
    commands := [];
    var currentCommand: string := "";
    var inContinuation := false;
    ghost var closed: seq<string> := [];
    ghost var run: seq<string> := [];
    for i := 0 to |lines|
      invariant Fragments(lines[..i]) == closed + run
      invariant Closed(closed) && ContinuationRun(run)
      invariant commands == Commands(closed)
      invariant currentCommand == Joined(run)
      invariant inContinuation <==> run != []
      invariant inContinuation <==> currentCommand != []
    {
      var trimmed := Trim(lines[i]);
      if trimmed == [] || trimmed[0] == '#' {
        SkippedStep(lines, i);
        // Never taken: outside a continuation the buffer is always empty.
        assert !inContinuation ==> currentCommand == [];
        if !inContinuation && currentCommand != [] {
          commands := commands + [Trim(currentCommand)];
          currentCommand := [];
        }
        continue;
      }
      var commandPart := WithoutPrompt(trimmed);
      FragmentStep(lines, i, commandPart);
      match StripSuffix(commandPart, '\\')
      case Some(withoutBackslash) =>
        if inContinuation {
          currentCommand := currentCommand + withoutBackslash;
        } else {
          assert Joined(run) + withoutBackslash == withoutBackslash;
          currentCommand := withoutBackslash;
        }
        currentCommand := currentCommand + " ";
        inContinuation := true;
        JoinedStep(run, commandPart);
        AppendOne(closed, run, commandPart);
        run := run + [commandPart];
      case None =>
        GroupStep(closed, run, commandPart);
        if inContinuation {
          currentCommand := currentCommand + commandPart;
          commands := commands + [Trim(currentCommand)];
          currentCommand := [];
          inContinuation := false;
        } else {
          commands := commands + [commandPart];
        }
        closed := closed + run + [commandPart];
        run := [];
        ConcatEmpty(closed);
    }
    WholePrefix(lines);
    if currentCommand != [] {
      commands := commands + [Trim(currentCommand)];
    }
    CommandsOfTail(closed, run);
  }

  /** Reading a blank or comment line adds no fragment. */
  lemma SkippedStep(lines: seq<string>, i: int)
    requires 0 <= i < |lines|
    requires Trim(lines[i]) == [] || Trim(lines[i])[0] == '#'
    ensures Fragments(lines[..i + 1]) == Fragments(lines[..i])
  {
    PrefixOfPrefix(lines, i, i + 1);
  }

  /** Reading a significant line adds its fragment. */
  lemma FragmentStep(lines: seq<string>, i: int, f: string)
    requires 0 <= i < |lines|
    requires Trim(lines[i]) != [] && Trim(lines[i])[0] != '#'
    requires f == WithoutPrompt(Trim(lines[i]))
    ensures Fragments(lines[..i + 1]) == Fragments(lines[..i]) + [f]
  {
    PrefixOfPrefix(lines, i, i + 1);
  }

  /** Reading one more backslash-ended fragment extends the buffer by its text and a space. */
  lemma JoinedStep(run: seq<string>, f: string)
    requires EndsWithBackslash(f)
    ensures Joined(run + [f]) == Joined(run) + StripSuffix(f, '\\').value + " "
  {
    assert (run + [f])[..|run|] == run;
  }

  lemma AppendOne(closed: seq<string>, run: seq<string>, f: string)
    ensures closed + run + [f] == closed + (run + [f])
    ensures ContinuationRun(run) && EndsWithBackslash(f) ==> ContinuationRun(run + [f])
  {
  }

  /** A fragment without a backslash closes the pending group as one command. */
  lemma GroupStep(closed: seq<string>, run: seq<string>, f: string)
    requires Closed(closed) && ContinuationRun(run) && !EndsWithBackslash(f)
    ensures Closed(closed + run + [f])
    ensures Commands(closed + run + [f]) ==
            Commands(closed) + [if run == [] then f else Trim(Joined(run) + f)]
  {
    CommandsOfGroup(run, f);
    CommandsAfterClosed(closed, run + [f]);
    ConcatAssoc(closed, run, [f]);
  }

  // ---------------------------------------------------------------------
  // Properties of the reference definition

  /** `p + g` has the leading run of `p` when that run ends inside `p`. */
  lemma LeadingRunOfPrefix(p: seq<string>, g: seq<string>)
    requires LeadingRun(p) < |p|
    ensures LeadingRun(p + g) == LeadingRun(p)
  {
    assert forall i :: 0 <= i < |p| ==> (p + g)[i] == p[i];
  }

  /** The commands of a closed prefix are emitted before, and independently of, what follows. */
  lemma {:induction false} CommandsAfterClosed(p: seq<string>, g: seq<string>)
    requires Closed(p)
    ensures Commands(p + g) == Commands(p) + Commands(g)
    decreases |p|
  {
    if p == [] {
      assert p + g == g;
    } else {
      var k := LeadingRun(p);
      LeadingRunOfPrefix(p, g);
      SplitConcat(p, g, k);
      CommandsAfterClosed(p[k + 1..], g);
      GroupCommandOfPrefix(p, g, k);
      ConcatAssoc([GroupCommand(p, k)], Commands(p[k + 1..]), Commands(g));
    }
  }

  /**
   * A continuation run closed by a fragment without a backslash yields one
   * command: the fragment alone when the run is empty, otherwise the joined
   * run followed by the fragment, trimmed.
   */
  lemma CommandsOfGroup(run: seq<string>, last: string)
    requires ContinuationRun(run) && !EndsWithBackslash(last)
    ensures Commands(run + [last]) == [if run == [] then last else Trim(Joined(run) + last)]
  {
    var g := run + [last];
    var k := LeadingRun(g);
    assert forall i :: 0 <= i < |run| ==> g[i] == run[i];
    assert g[|run|] == last;
    assert k == |run|;
    assert g[..k] == run;
    assert g[k + 1..] == [];
  }

  /** A block that ends inside a continuation emits the joined run, trimmed. */
  lemma CommandsOfRun(run: seq<string>)
    requires run != [] && ContinuationRun(run)
    ensures Commands(run) == [Trim(Joined(run))]
  {
    assert LeadingRun(run) == |run|;
  }

  /** The commands of a closed part followed by a pending run. */
  lemma CommandsOfTail(closed: seq<string>, run: seq<string>)
    requires Closed(closed) && ContinuationRun(run)
    ensures Commands(closed + run) == Commands(closed) + (if run == [] then [] else [Trim(Joined(run))])
  {
    CommandsAfterClosed(closed, run);
    if run != [] {
      CommandsOfRun(run);
    } else {
      ConcatEmpty(closed);
    }
  }

  /** The number of fragments that do not end with a backslash. */
  function Terminated(fragments: seq<string>): nat {
    if fragments == [] then 0
    else Terminated(fragments[..|fragments| - 1]) + (if EndsWithBackslash(fragments[|fragments| - 1]) then 0 else 1)
  }

  /** The count of a concatenation is the sum of the counts. */
  lemma {:induction false} TerminatedConcat(a: seq<string>, b: seq<string>)
    ensures Terminated(a + b) == Terminated(a) + Terminated(b)
    decreases |b|
  {
    if b == [] {
      ConcatEmpty(a);
    } else {
      var b' := b[..|b| - 1];
      InitOfConcat(a, b);
      TerminatedConcat(a, b');
    }
  }

  /** Every fragment of a continuation run ends with a backslash. */
  lemma {:induction false} TerminatedOfRun(run: seq<string>)
    requires ContinuationRun(run)
    ensures Terminated(run) == 0
  {
    if run != [] {
      TerminatedOfRun(run[..|run| - 1]);
    }
  }

  /** A closed group adds one command in front of the commands of what follows it. */
  lemma CommandsOfFirstGroup(fragments: seq<string>)
    requires LeadingRun(fragments) < |fragments|
    ensures |Commands(fragments)| == 1 + |Commands(fragments[LeadingRun(fragments) + 1..])|
  {
  }

  /** A group closed by fragment `k` holds exactly one fragment without a backslash. */
  lemma TerminatedOfGroup(fragments: seq<string>, k: nat)
    requires k < |fragments| && ContinuationRun(fragments[..k]) && !EndsWithBackslash(fragments[k])
    ensures Terminated(fragments) == 1 + Terminated(fragments[k + 1..])
  {
    var group, rest := fragments[..k + 1], fragments[k + 1..];
    TakeDrop(fragments, k + 1);
    TerminatedConcat(group, rest);
    PrefixOfPrefix(fragments, k, k + 1);
    TerminatedOfRun(fragments[..k]);
    assert Terminated(group) == Terminated(group[..k]) + 1;
  }

  /** Dropping a prefix that ends with a closing fragment keeps whether the sequence is closed. */
  lemma ClosedAfterGroup(fragments: seq<string>, k: nat)
    requires k < |fragments| && !EndsWithBackslash(fragments[k])
    ensures Closed(fragments) <==> Closed(fragments[k + 1..])
  {
    var rest := fragments[k + 1..];
    if rest != [] {
      assert fragments[|fragments| - 1] == rest[|rest| - 1];
    }
  }

  /**
   * One command per fragment without a trailing backslash, plus one when the
   * block ends inside a continuation.
   */
  lemma {:induction false} CommandCount(fragments: seq<string>)
    ensures |Commands(fragments)| == Terminated(fragments) + (if Closed(fragments) then 0 else 1)
    decreases |fragments|
  {
    if fragments != [] {
      var k := LeadingRun(fragments);
      if k == |fragments| {
        TerminatedOfRun(fragments);
      } else {
        CommandsOfFirstGroup(fragments);
        assert ContinuationRun(fragments[..k]);
        TerminatedOfGroup(fragments, k);
        ClosedAfterGroup(fragments, k);
        CommandCount(fragments[k + 1..]);
      }
    }
  }

  /** The fragments of two blocks of lines are those of each, in order. */
  lemma {:induction false} FragmentsConcat(a: seq<string>, b: seq<string>)
    ensures Fragments(a + b) == Fragments(a) + Fragments(b)
    decreases |b|
  {
    if b == [] {
      ConcatEmpty(a);
    } else {
      var b' := b[..|b| - 1];
      InitOfConcat(a, b);
      FragmentsConcat(a, b');
    }
  }

  /** A blank or comment line never changes the commands, wherever it stands. */
  lemma SkippedLineIsIgnored(before: seq<string>, line: string, after: seq<string>)
    requires Classify(line) == Skipped
    ensures CommandsOfLines(before + [line] + after) == CommandsOfLines(before + after)
  {
    FragmentsConcat(before + [line], after);
    FragmentsConcat(before, [line]);
    FragmentsConcat(before, after);
    assert [line][..0] == [];
    assert Fragments([line]) == [];
    assert Fragments(before) + [] == Fragments(before);
    assert Fragments(before + [line] + after) == Fragments(before + after);
  }

  /**
   * Outside a continuation, a significant line without a trailing backslash
   * is emitted on its own as exactly its fragment.
   */
  lemma StandaloneLine(before: seq<string>, line: string, after: seq<string>)
    requires Closed(Fragments(before))
    requires Classify(line).Fragment? && !EndsWithBackslash(Classify(line).text)
    ensures CommandsOfLines(before + [line] + after) ==
            CommandsOfLines(before) + [Classify(line).text] + CommandsOfLines(after)
  {
    var f := Classify(line).text;
    var p := Fragments(before);
    FragmentsConcat(before + [line], after);
    FragmentsConcat(before, [line]);
    assert Fragments([line]) == Fragments([]) + [f];
    CommandsAfterClosed(p + [f], Fragments(after));
    CommandsAfterClosed(p, [f]);
    CommandsOfGroup([], f);
    assert [] + [f] == [f];
  }

  /** Indenting a line does not change what it means. */
  lemma IndentationIsIgnored(pad: string, line: string)
    requires forall i :: 0 <= i < |pad| ==> IsWhitespace(pad[i])
    ensures Classify(pad + line) == Classify(line)
  {
    var k := LeadingWhitespace(line);
    TrimStartDrops(line);
    TrimStartOfPadded(pad + line[..k], line[k..]);
    assert pad + line == (pad + line[..k]) + line[k..];
  }

  /** A trimmed line and the same line behind a "$ " prompt give the same fragment. */
  lemma PromptIsStripped(x: string)
    requires x != [] && Trim(x) == x && x[0] != '#'
    requires StripPrefix(x, "$ ").None?
    ensures Classify("$ " + x) == Classify(x) == Fragment(x)
  {
    TrimSpec(x);
    var s := "$ " + x;
    assert s[|s| - 1] == x[|x| - 1];
    TrimOfTrimmed(s);
    assert StripPrefix(s, "$ ") == Some(x);
  }

  /** A line with a "$ " prompt extracts exactly like the line without it. */
  lemma PromptedLineExtractsAlike(before: seq<string>, x: string, after: seq<string>)
    requires x != [] && Trim(x) == x && x[0] != '#'
    requires StripPrefix(x, "$ ").None?
    ensures CommandsOfLines(before + ["$ " + x] + after) == CommandsOfLines(before + [x] + after)
  {
    PromptIsStripped(x);
    FragmentsConcat(before + ["$ " + x], after);
    FragmentsConcat(before, ["$ " + x]);
    FragmentsConcat(before + [x], after);
    FragmentsConcat(before, [x]);
    assert Fragments(["$ " + x]) == Fragments([]) + [x];
    assert Fragments([x]) == Fragments([]) + [x];
  }

  // ---------------------------------------------------------------------
  // The specification builder

  /**
   * What `extract` finds in the executable blocks, block by block, in
   * document order; the specification uses it with `ExtractCommands`.
   */
  function ExecutableCommands(blocks: seq<CodeBlock>, extract: string -> seq<string>): seq<string> {
    if blocks == [] then []
    else
      var block := blocks[|blocks| - 1];
      ExecutableCommands(blocks[..|blocks| - 1], extract) +
      (if block.isExecutable then extract(block.content) else [])
  }

  /** A single block contributes what `extract` finds in it when it is executable, and nothing otherwise. */
  lemma ExecutableCommandsOfBlock(block: CodeBlock, extract: string -> seq<string>)
    ensures ExecutableCommands([block], extract) == if block.isExecutable then extract(block.content) else []
  {
    var single: seq<CodeBlock> := [block];
    assert single[..0] == [];
  }

  /** One more block adds what `extract` finds in it when it is executable. */
  lemma ExecutableCommandsStep(blocks: seq<CodeBlock>, b: int, extract: string -> seq<string>)
    requires 0 <= b < |blocks|
    ensures ExecutableCommands(blocks[..b + 1], extract) ==
            ExecutableCommands(blocks[..b], extract) +
            (if blocks[b].isExecutable then extract(blocks[b].content) else [])
  {
    PrefixOfPrefix(blocks, b, b + 1);
  }

  /** The default item for each command, in order. */
  function ItemsFor(commands: seq<string>): (items: seq<VerificationItem>)
    ensures |items| == |commands|
    ensures forall i :: 0 <= i < |items| ==> items[i].command == commands[i] && HasDefaultFields(items[i])
  {
    var items := seq(|commands|, i requires 0 <= i < |commands| => DefaultItem().(command := commands[i]));
    assert forall i :: 0 <= i < |items| ==> items[i] == DefaultItem().(command := commands[i]);
    items
  }

  /** Pushing the item of one more command. */
  lemma ItemsForStep(done: seq<string>, commands: seq<string>, c: int)
    requires 0 <= c < |commands|
    ensures ItemsFor(done + commands[..c + 1]) == ItemsFor(done + commands[..c]) + [DefaultItem().(command := commands[c])]
  {
    assert done + commands[..c + 1] == (done + commands[..c]) + [commands[c]];
  }

  /** The specification `extract_verification_spec` returns for a document. */
  function VerificationSpecOf(doc: ParsedDoc): (r: Option<VerificationSpec>)
    ensures GetSection(doc.sections, "Verification").None? ==> r.None?
    ensures (GetSection(doc.sections, "Verification").Some? &&
             GetSection(doc.sections, "Verification").value.codeBlocks == []) ==> r.None?
    ensures r.Some? <==>
            GetSection(doc.sections, "Verification").Some? &&
            ExecutableCommands(GetSection(doc.sections, "Verification").value.codeBlocks, ExtractCommands) != []
    ensures r.Some? ==>
              (var section := GetSection(doc.sections, "Verification").value;
               var commands := ExecutableCommands(section.codeBlocks, ExtractCommands);
               && r.value.sourceFile == doc.path
               && r.value.sectionLine == section.startLine
               && r.value.items != []
               && |r.value.items| == |commands|
               && forall i :: 0 <= i < |commands| ==>
                    r.value.items[i].command == commands[i] && HasDefaultFields(r.value.items[i]))
  {
    match GetSection(doc.sections, "Verification")
    case None => None
    case Some(section) =>
      if section.codeBlocks == [] then None
      else
        var commands := ExecutableCommands(section.codeBlocks, ExtractCommands);
        if commands == [] then None
        else Some(VerificationSpec(doc.path, section.startLine, ItemsFor(commands)))
  }

  /** `extract_verification_spec`. */
  method ExtractVerificationSpec(doc: ParsedDoc) returns (r: Option<VerificationSpec>)
    ensures r == VerificationSpecOf(doc)
  {
    var found := GetSection(doc.sections, "Verification");
    if found.None? {
      return None;
    }
    var section := found.value;
    if section.codeBlocks == [] {
      return None;
    }
    var items := CollectItems(section.codeBlocks);
    if items == [] {
      return None;
    }
    r := Some(VerificationSpec(doc.path, section.startLine, items));
  }

  /** The loop over the blocks of `extract_verification_spec`: one default item per command of each executable block. */
  method CollectItems(blocks: seq<CodeBlock>) returns (items: seq<VerificationItem>)
    ensures items == ItemsFor(ExecutableCommands(blocks, ExtractCommands))
  {
    items := [];
    ghost var done: seq<string> := [];
    for b := 0 to |blocks|
      invariant done == ExecutableCommands(blocks[..b], ExtractCommands)
      invariant items == ItemsFor(done)
    {
      var block := blocks[b];
      ExecutableCommandsStep(blocks, b, ExtractCommands);
      if block.isExecutable {
        var commands := ExtractCommandsFromBlock(block.content);
        for c := 0 to |commands|
          invariant items == ItemsFor(done + commands[..c])
        {
          ItemsForStep(done, commands, c);
          items := items + [DefaultItem().(command := commands[c])];
        }
        WholePrefix(commands);
        done := done + commands;
      }
    }
    WholePrefix(blocks);
  }

  /** The commands of two runs of blocks are those of each, in order. */
  lemma {:induction false} ExecutableCommandsConcat(a: seq<CodeBlock>, b: seq<CodeBlock>, extract: string -> seq<string>)
    ensures ExecutableCommands(a + b, extract) == ExecutableCommands(a, extract) + ExecutableCommands(b, extract)
    decreases |b|
  {
    if b == [] {
      ConcatEmpty(a);
    } else {
      var b' := b[..|b| - 1];
      InitOfConcat(a, b);
      ExecutableCommandsConcat(a, b', extract);
    }
  }

  /** Blocks that are not executable contribute no command. */
  lemma {:induction false} NonExecutableBlocksYieldNothing(blocks: seq<CodeBlock>, extract: string -> seq<string>)
    requires forall i :: 0 <= i < |blocks| ==> !blocks[i].isExecutable
    ensures ExecutableCommands(blocks, extract) == []
  {
    if blocks != [] {
      NonExecutableBlocksYieldNothing(blocks[..|blocks| - 1], extract);
    }
  }

  /** A Verification section with no executable block yields no specification. */
  lemma NoExecutableBlockNoSpec(doc: ParsedDoc)
    requires GetSection(doc.sections, "Verification").Some?
    requires var blocks := GetSection(doc.sections, "Verification").value.codeBlocks;
             forall i :: 0 <= i < |blocks| ==> !blocks[i].isExecutable
    ensures VerificationSpecOf(doc) == None
  {
    NonExecutableBlocksYieldNothing(GetSection(doc.sections, "Verification").value.codeBlocks, ExtractCommands);
  }
}
