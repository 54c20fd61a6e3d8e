/**
 * The few operations of Rust's `str` that the command extractor relies on,
 * over strings as sequences of Unicode scalar values: `lines`, `trim`,
 * `strip_prefix` and `strip_suffix`.
 */
module Text {
  import opened Wrappers
  import opened Seqs

  /** `char::is_whitespace`: the characters with the Unicode White_Space property. */
  predicate IsWhitespace(c: char) {
    var n := c as int;
    || 0x09 <= n <= 0x0D
    || n == 0x20 || n == 0x85 || n == 0xA0 || n == 0x1680
    || 0x2000 <= n <= 0x200A
    || n == 0x2028 || n == 0x2029 || n == 0x202F || n == 0x205F || n == 0x3000
  }

  /** The number of whitespace characters at the front of `s`. */
  function LeadingWhitespace(s: string): (n: nat)
    ensures n <= |s|
    ensures forall i :: 0 <= i < n ==> IsWhitespace(s[i])
    ensures n < |s| ==> !IsWhitespace(s[n])
  {
    if s == [] || !IsWhitespace(s[0]) then 0 else 1 + LeadingWhitespace(s[1..])
  }

  /** The length of `s` without the whitespace at its end. */
  function ContentEnd(s: string): (n: nat)
    ensures n <= |s|
    ensures forall i :: n <= i < |s| ==> IsWhitespace(s[i])
    ensures n > 0 ==> !IsWhitespace(s[n - 1])
  {
    if s == [] || !IsWhitespace(s[|s| - 1]) then |s| else ContentEnd(s[..|s| - 1])
  }

  /** `str::trim_start`: drops the leading whitespace. */
  function TrimStart(s: string): string {
    if s != [] && IsWhitespace(s[0]) then TrimStart(s[1..]) else s
  }

  /** `str::trim_end`: drops the trailing whitespace. */
  function TrimEnd(s: string): string {
    if s != [] && IsWhitespace(s[|s| - 1]) then TrimEnd(s[..|s| - 1]) else s
  }

  /** `str::trim`: the part of `s` between its leading and trailing whitespace. */
  function Trim(s: string): string {
    TrimEnd(TrimStart(s))
  }

  /** `TrimStart` drops exactly the leading whitespace. */
  lemma {:induction false} TrimStartDrops(s: string)
    ensures TrimStart(s) == s[LeadingWhitespace(s)..]
  {
    if s != [] && IsWhitespace(s[0]) {
      TrimStartDrops(s[1..]);
      assert s[1..][LeadingWhitespace(s[1..])..] == s[LeadingWhitespace(s)..];
    }
  }

  /** `TrimEnd` keeps exactly the part before the trailing whitespace. */
  lemma {:induction false} TrimEndKeeps(s: string)
    ensures TrimEnd(s) == s[..ContentEnd(s)]
  {
    if s != [] && IsWhitespace(s[|s| - 1]) {
      TrimEndKeeps(s[..|s| - 1]);
      assert s[..|s| - 1][..ContentEnd(s[..|s| - 1])] == s[..ContentEnd(s)];
    }
  }

  /** `r` sits at offset `a` of `s` with only whitespace around it. */
  ghost predicate Bordered(s: string, a: int, r: string) {
    && 0 <= a <= a + |r| <= |s|
    && s[a..a + |r|] == r
    && (forall i :: 0 <= i < a ==> IsWhitespace(s[i]))
    && (forall i :: a + |r| <= i < |s| ==> IsWhitespace(s[i]))
  }

  /**
   * `Trim(s)` is a piece of `s` with only whitespace around it; it is empty
   * exactly when `s` is all whitespace, and otherwise starts and ends with a
   * character that is not whitespace.
   */
  lemma TrimSpec(s: string)
    ensures exists a :: Bordered(s, a, Trim(s))
    ensures Trim(s) == [] <==> forall i :: 0 <= i < |s| ==> IsWhitespace(s[i])
    ensures Trim(s) != [] ==> !IsWhitespace(Trim(s)[0]) && !IsWhitespace(Trim(s)[|Trim(s)| - 1])
  {
    var a := LeadingWhitespace(s);
    TrimStartDrops(s);
    TrimEndKeeps(s[a..]);
    var r := Trim(s);
    assert Bordered(s, a, r);
    if r == [] {
      assert ContentEnd(s[a..]) == 0;
    } else {
      assert !IsWhitespace(s[a]);
    }
  }

  /** A string that neither starts nor ends with whitespace is its own trim. */
  lemma TrimOfTrimmed(s: string)
    requires s == [] || (!IsWhitespace(s[0]) && !IsWhitespace(s[|s| - 1]))
    ensures Trim(s) == s
  {
  }

  /** Whitespace in front of a string that starts with non-whitespace is all `TrimStart` drops. */
  lemma {:induction false} TrimStartOfPadded(pad: string, s: string)
    requires forall i :: 0 <= i < |pad| ==> IsWhitespace(pad[i])
    requires s == [] || !IsWhitespace(s[0])
    ensures TrimStart(pad + s) == s
  {
    if pad != [] {
      assert (pad + s)[0] == pad[0];
      assert (pad + s)[1..] == pad[1..] + s;
      TrimStartOfPadded(pad[1..], s);
    } else {
      assert pad + s == s;
    }
  }

  /** `str::strip_prefix` with a string pattern. */
  function StripPrefix(s: string, prefix: string): (r: Option<string>)
    ensures r.Some? <==> prefix <= s
    ensures r.Some? ==> prefix + r.value == s
  {
    if |prefix| <= |s| && s[..|prefix|] == prefix then Some(s[|prefix|..]) else None
  }

  /** `str::strip_suffix` with a `char` pattern. */
  function StripSuffix(s: string, c: char): (r: Option<string>)
    ensures r.Some? <==> (s != [] && s[|s| - 1] == c)
    ensures r.Some? ==> r.value + [c] == s
  {
    if s != [] && s[|s| - 1] == c then Some(s[..|s| - 1]) else None
  }

  /** Index of the first `'\n'` of `s`, or `|s|` when there is none. */
  function LineEnd(s: string): (n: nat)
    ensures n <= |s|
    ensures forall i :: 0 <= i < n ==> s[i] != '\n'
    ensures n < |s| ==> s[n] == '\n'
  {
    if s == [] || s[0] == '\n' then 0 else 1 + LineEnd(s[1..])
  }

  /** Drops one `'\r'` that ended a `"\r\n"` terminator. */
  function DropCarriageReturn(line: string): string {
    match StripSuffix(line, '\r')
    case Some(l) => l
    case None => line
  }

  /**
   * `str::lines`: splits at `"\n"` or `"\r\n"`; the last terminator is
   * optional and does not produce an empty final line. A lone `'\r'` at the
   * very end, with no `'\n'` after it, stays in the last line.
   */
  function Lines(s: string): (ls: seq<string>)
    ensures forall i :: 0 <= i < |ls| ==> '\n' !in ls[i]
    ensures s == [] <==> ls == []
    decreases |s|
  {
    if s == [] then []
    else
      var n := LineEnd(s);
      if n == |s| then [s]
      else [DropCarriageReturn(s[..n])] + Lines(s[n + 1..])
  }

  /** A text without `'\n'` is one line, even without a terminator. */
  lemma LastLine(a: string)
    requires a != [] && '\n' !in a
    ensures Lines(a) == [a]
  {
    assert LineEnd(a) == |a|;
  }

  /** A line ended by `"\n"` is split off as it stands. */
  lemma FirstLine(a: string, b: string)
    requires '\n' !in a && StripSuffix(a, '\r').None?
    ensures Lines(a + "\n" + b) == [a] + Lines(b)
  {
    var s := a + "\n" + b;
    PartsOf(a, '\n', b);
    assert LineEnd(s) == |a|;
  }

  /** A line ended by `"\r\n"` is split off without its `'\r'`. */
  lemma CrlfLine(a: string, b: string)
    requires '\n' !in a
    ensures Lines(a + "\r\n" + b) == [a] + Lines(b)
  {
    var s := a + "\r\n" + b;
    PartsOf(a + "\r", '\n', b);
    assert a + "\r" + "\n" + b == s;
    assert LineEnd(s) == |a| + 1;
    assert StripSuffix(a + "\r", '\r') == Some(a);
  }

  /** Each line followed by `"\n"`: the text that `Lines` splits back. */
  function Unlines(ls: seq<string>): string {
    if ls == [] then [] else ls[0] + "\n" + Unlines(ls[1..])
  }

  /** Splitting the joined lines gives the lines back. */
  lemma {:induction false} LinesOfUnlines(ls: seq<string>)
    requires forall i :: 0 <= i < |ls| ==> '\n' !in ls[i] && StripSuffix(ls[i], '\r').None?
    ensures Lines(Unlines(ls)) == ls
  {
    if ls != [] {
      var s := Unlines(ls);
      var n := LineEnd(s);
      PartsOf(ls[0], '\n', Unlines(ls[1..]));
      assert n == |ls[0]|;
      LinesOfUnlines(ls[1..]);
    }
  }

  /** A text without `'\r'` ending in `"\n"` is rebuilt from its lines. */
  lemma {:induction false} UnlinesOfLines(s: string)
    requires forall i :: 0 <= i < |s| ==> s[i] != '\r'
    requires s == [] || s[|s| - 1] == '\n'
    ensures Unlines(Lines(s)) == s
    decreases |s|
  {
    if s != [] {
      var n := LineEnd(s);
      var line, rest := s[..n], s[n + 1..];
      assert line == [] || line[|line| - 1] == s[n - 1];
      assert DropCarriageReturn(line) == line;
      UnlinesOfLines(rest);
      SplitAround(s, n);
    }
  }
}
