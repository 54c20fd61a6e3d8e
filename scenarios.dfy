/**
 * A worked block: a command continued over three lines. Each line's
 * backslash becomes a space and the space before it stays, so the command
 * keeps two spaces at each joint.
 */
module Scenarios {
  import opened Wrappers
  import opened Text
  import opened Verification
  import opened Seqs

  const Line1: string := "cargo build \\"
  const Line2: string := "  --release \\"
  const Line3: string := "  --features all"

  /** The block's text as the fence holds it, each line ended by a newline. */
  const Block: string := Line1 + "\n" + (Line2 + "\n" + (Line3 + "\n"))

  const Joint: string := "cargo build  --release  "
  const Expected: string := "cargo build  --release  --features all"

  /** A piece of command text that the classifier keeps as it stands. */
  lemma PlainFragment(f: string)
    requires f != [] && !IsWhitespace(f[0]) && !IsWhitespace(f[|f| - 1])
    requires f[0] != '#' && f[0] != '$'
    ensures Classify(f) == Fragment(f)
  {
    TrimOfTrimmed(f);
  }

  lemma Line2Fragment()
    ensures Classify(Line2) == Fragment("--release \\")
  {
    var f := "--release \\";
    assert Line2 == "  " + f;
    IndentationIsIgnored("  ", f);
    PlainFragment(f);
  }

  lemma Line3Fragment()
    ensures Classify(Line3) == Fragment("--features all")
  {
    var f := "--features all";
    assert Line3 == "  " + f;
    IndentationIsIgnored("  ", f);
    PlainFragment(f);
  }

  /** A single significant line yields its fragment. */
  lemma OneFragment(line: string, f: string)
    requires Classify(line) == Fragment(f)
    ensures Fragments([line]) == [f]
  {
    var single: seq<string> := [line];
    assert single[..0] == [];
  }

  /** Three significant lines yield their three fragments. */
  lemma ThreeFragments(l1: string, l2: string, l3: string, f1: string, f2: string, f3: string)
    requires Classify(l1) == Fragment(f1) && Classify(l2) == Fragment(f2) && Classify(l3) == Fragment(f3)
    ensures Fragments([l1, l2, l3]) == [f1, f2, f3]
  {
    OneFragment(l1, f1);
    OneFragment(l2, f2);
    OneFragment(l3, f3);
    FragmentsConcat([l1], [l2]);
    assert [l1] + [l2] == [l1, l2];
    FragmentsConcat([l1, l2], [l3]);
    assert [l1, l2] + [l3] == [l1, l2, l3];
  }

  lemma ContinuationFragments()
    ensures Fragments([Line1, Line2, Line3]) == ["cargo build \\", "--release \\", "--features all"]
  {
    PlainFragment(Line1);
    Line2Fragment();
    Line3Fragment();
    ThreeFragments(Line1, Line2, Line3, Line1, "--release \\", "--features all");
  }

  /** Two backslash-ended fragments join into their texts, each followed by a space. */
  lemma TwoJoined(f1: string, f2: string, w1: string, w2: string)
    requires StripSuffix(f1, '\\') == Some(w1) && StripSuffix(f2, '\\') == Some(w2)
    ensures Joined([f1, f2]) == w1 + " " + w2 + " "
  {
    var first: seq<string> := [f1];
    assert first[..0] == [];
    assert Joined(first) == w1 + " ";
    assert [f1, f2][..1] == first;
  }

  lemma ContinuationJoint()
    ensures Joined(["cargo build \\", "--release \\"]) == Joint
  {
    var f1, f2 := "cargo build \\", "--release \\";
    assert f1 == "cargo build " + "\\";
    assert f2 == "--release " + "\\";
    TwoJoined(f1, f2, "cargo build ", "--release ");
    assert "cargo build " + " " + "--release " + " " == Joint;
  }

  lemma JointThenLast()
    ensures Joint + "--features all" == Expected
  {
  }

  lemma ContinuationCommands()
    ensures Commands(["cargo build \\", "--release \\", "--features all"]) == [Expected]
  {
    var f1, f2, f3 := "cargo build \\", "--release \\", "--features all";
    var fs := [f1, f2, f3];
    assert LeadingRun([f3]) == 0;
    assert LeadingRun([f2, f3]) == 1 by { assert [f2, f3][1..] == [f3]; }
    assert LeadingRun(fs) == 2 by { assert fs[1..] == [f2, f3]; }
    assert fs[..2] == [f1, f2];
    ContinuationJoint();
    JointThenLast();
    TrimOfTrimmed(Expected);
    assert fs[3..] == [];
  }

  /** The three lines make one command, with two spaces at each joint. */
  lemma ContinuationLines()
    ensures CommandsOfLines([Line1, Line2, Line3]) == ["cargo build  --release  --features all"]
  {
    ContinuationFragments();
    ContinuationCommands();
  }

  /** One line ended by a newline splits back into that line. */
  lemma OneLine(l: string)
    requires '\n' !in l && StripSuffix(l, '\r').None?
    ensures Lines(l + "\n") == [l]
  {
    FirstLine(l, "");
    ConcatEmpty(l + "\n");
  }

  /** A line ended by a newline, in front of text that splits into `ls`, adds itself in front. */
  lemma LineBefore(l: string, rest: string, ls: seq<string>)
    requires '\n' !in l && StripSuffix(l, '\r').None?
    requires Lines(rest) == ls
    ensures Lines(l + "\n" + rest) == [l] + ls
  {
    FirstLine(l, rest);
  }

  /** Three lines, each ended by a newline, split back into the three lines. */
  lemma ThreeLines(l1: string, l2: string, l3: string)
    requires '\n' !in l1 && '\n' !in l2 && '\n' !in l3
    requires StripSuffix(l1, '\r').None? && StripSuffix(l2, '\r').None? && StripSuffix(l3, '\r').None?
    ensures Lines(l1 + "\n" + (l2 + "\n" + (l3 + "\n"))) == [l1, l2, l3]
  {
    OneLine(l3);
    LineBefore(l2, l3 + "\n", [l3]);
    LineBefore(l1, l2 + "\n" + (l3 + "\n"), [l2, l3]);
  }

  /** The block splits into its three lines. */
  lemma BlockLines()
    ensures Lines(Block) == [Line1, Line2, Line3]
  {
    ThreeLines(Line1, Line2, Line3);
  }

  /** The block's text extracts to one command, with two spaces at each joint. */
  lemma ContinuationExample()
    ensures ExtractCommands("cargo build \\" + "\n" + ("  --release \\" + "\n" + ("  --features all" + "\n"))) ==
            ["cargo build  --release  --features all"]
  {
    BlockLines();
    ContinuationLines();
  }
}
