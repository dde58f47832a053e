/** Writing a document's plain text, optionally with trailing whitespace
    trimmed from every line. Text is a sequence of UTF-16 characters,
    modelled as `char`. */
module DocumentWriters {

  /** `QChar::isSpace`: the ASCII blanks and controls tab through carriage
      return, the next-line and no-break-space characters, and the Unicode
      space, line and paragraph separators. */
  predicate IsSpace(c: char) {
    || ('\t' <= c <= '\r') || c == ' '
    || c == '\U{0085}' || c == '\U{00A0}' || c == '\U{1680}'
    || ('\U{2000}' <= c <= '\U{200A}')
    || c == '\U{2028}' || c == '\U{2029}' || c == '\U{202F}' || c == '\U{205F}' || c == '\U{3000}'
  }

  predicate IsBreakChar(c: char) {
    c == '\n' || c == '\r'
  }

  /** A line: text with no line-break character in it. */
  predicate IsLine(s: string) {
    forall i | 0 <= i < |s| :: !IsBreakChar(s[i])
  }

  /** The index of the first `\n` or `\r`, or the length. */
  function FirstBreak(s: string): (i: nat)
    ensures i <= |s| && IsLine(s[..i])
    ensures i < |s| ==> IsBreakChar(s[i])
  {
    if |s| == 0 || IsBreakChar(s[0]) then 0
    else
      var k := FirstBreak(s[1..]);
      assert s[..k + 1] == [s[0]] + s[1..][..k];
      k + 1
  }

  /** The length of the separator at `i`: `\r\n` is one separator. */
  function BreakLength(s: string, i: nat): (n: nat)
    requires i < |s| && IsBreakChar(s[i])
    ensures 1 <= n <= 2 && i + n <= |s|
  {
    if s[i] == '\r' && i + 1 < |s| && s[i + 1] == '\n' then 2 else 1
  }

  /** Splitting on `\n`, `\r\n` and `\r`, keeping empty parts: there is
      always at least one part, and each part is a line. */
  function Lines(s: string): (r: seq<string>)
    ensures |r| >= 1
    decreases |s|
  {
    var i := FirstBreak(s);
    if i == |s| then [s]
    else [s[..i]] + Lines(s[i + BreakLength(s, i)..])
  }

  /** Each part of the split is a line. */
  lemma {:induction false} LinesAreLines(s: string)
    ensures forall j | 0 <= j < |Lines(s)| :: IsLine(Lines(s)[j])
    decreases |s|
  {
    var i := FirstBreak(s);
    if i < |s| {
      var rest := s[i + BreakLength(s, i)..];
      LinesAreLines(rest);
      LinesUnfold(s, i);
      forall j | 0 <= j < |Lines(s)| ensures IsLine(Lines(s)[j]) {
        if j > 0 {
          assert Lines(s)[j] == Lines(rest)[j - 1];
        }
      }
    }
  }

  /** The lines joined with `\n`. */
  function Join(lines: seq<string>): string
    requires |lines| >= 1
  {
    if |lines| == 1 then lines[0] else lines[0] + "\n" + Join(lines[1..])
  }

  /** A line with its maximal run of trailing whitespace removed. */
  function TrimLine(line: string): (r: string)
    ensures |r| <= |line| && r == line[..|r|]
    ensures r == [] || !IsSpace(r[|r| - 1])
    ensures forall k | |r| <= k < |line| :: IsSpace(line[k])
  {
    if |line| > 0 && IsSpace(line[|line| - 1]) then TrimLine(line[..|line| - 1]) else line
  }

  /** The trailing-whitespace loop of `trimWhitespace`, for one line. */
  method TrimTrailing(line: string) returns (r: string)
    ensures r == TrimLine(line)
  {
    var n := |line| - 1;
    assert line[..n + 1] == line;
    while n >= 0 && IsSpace(line[n])
      invariant -1 <= n < |line|
      invariant TrimLine(line[..n + 1]) == TrimLine(line)
    {
      TrimStep(line, n);
      n := n - 1;
    }
    r := line[..n + 1];
  }

  lemma TrimStep(line: string, n: nat)
    requires n < |line| && IsSpace(line[n])
    ensures TrimLine(line[..n + 1]) == TrimLine(line[..n])
  {
    assert line[..n + 1][..n] == line[..n];
  }

  /** What `trimWhitespace` computes: every line trimmed, rejoined with
      `\n`. */
  function Trimmed(s: string): string {
    var lines := Lines(s);
    Join(seq(|lines|, j requires 0 <= j < |lines| => TrimLine(lines[j])))
  }

  /** `result` after the first `i` lines have been appended, each but the
      last followed by `\n`. */
  function JoinedPrefix(lines: seq<string>, i: nat): string
    requires 1 <= |lines| && i <= |lines|
  {
    if i == 0 then ""
    else if i < |lines| then Join(lines[..i]) + "\n"
    else Join(lines)
  }

  lemma {:induction false} JoinSnoc(lines: seq<string>, x: string)
    requires |lines| >= 1
    ensures Join(lines + [x]) == Join(lines) + "\n" + x
    decreases |lines|
  {
    if |lines| == 1 {
      assert (lines + [x])[1..] == [x];
    } else {
      assert (lines + [x])[1..] == lines[1..] + [x];
      JoinSnoc(lines[1..], x);
    }
  }

  lemma JoinedPrefixStep(lines: seq<string>, i: nat)
    requires 1 <= |lines| && i < |lines|
    ensures JoinedPrefix(lines, i + 1) ==
      JoinedPrefix(lines, i) + lines[i] + (if i < |lines| - 1 then "\n" else "")
  {
    if i > 0 {
      assert lines[..i + 1] == lines[..i] + [lines[i]];
      JoinSnoc(lines[..i], lines[i]);
    } else {
      assert lines[..1] == [lines[0]];
    }
    if i + 1 == |lines| {
      assert lines[..i + 1] == lines;
    }
  }

  /** `trimWhitespace`: split into lines, trim each, append each with a
      `\n` after all but the last. */
  method TrimWhitespace(s: string) returns (result: string)
    ensures result == Trimmed(s)
  {
    var lines := Lines(s);
    ghost var trimmed := seq(|lines|, j requires 0 <= j < |lines| => TrimLine(lines[j]));
    result := "";
    var i := 0;
    while i < |lines|
      invariant 0 <= i <= |lines|
      invariant result == JoinedPrefix(trimmed, i)
    {
      var line := TrimTrailing(lines[i]);
      JoinedPrefixStep(trimmed, i);
      result := result + line;
      if i < |lines| - 1 {
        result := result + "\n";
      }
      i := i + 1;
    }
  }

  // Splitting what was joined gives the lines back.

  lemma LineHasNoBreak(l: string, rest: string)
    requires IsLine(l)
    ensures FirstBreak(l + rest) == |l| + FirstBreak(rest)
    decreases |l|
  {
    if |l| > 0 {
      assert (l + rest)[0] == l[0];
      assert (l + rest)[1..] == l[1..] + rest;
      LineHasNoBreak(l[1..], rest);
    } else {
      assert l + rest == rest;
    }
  }

  lemma {:induction false} SplitJoin(lines: seq<string>)
    requires |lines| >= 1 && forall j | 0 <= j < |lines| :: IsLine(lines[j])
    ensures Lines(Join(lines)) == lines
    decreases |lines|
  {
    if |lines| == 1 {
      LineHasNoBreak(lines[0], "");
      assert lines[0] + "" == lines[0];
    } else {
      var l := lines[0];
      var rest := Join(lines[1..]);
      var s := l + "\n" + rest;
      LineHasNoBreak(l, "\n" + rest);
      assert s == l + ("\n" + rest);
      assert FirstBreak("\n" + rest) == 0;
      assert FirstBreak(s) == |l|;
      assert s[..|l|] == l;
      assert s[|l| + 1..] == rest;
      SplitJoin(lines[1..]);
      assert lines == [l] + lines[1..];
    }
  }

  lemma TrimLineKeepsLine(line: string)
    requires IsLine(line)
    ensures IsLine(TrimLine(line))
  {
    var r := TrimLine(line);
    forall i | 0 <= i < |r| ensures !IsBreakChar(r[i]) {
      assert r[i] == line[i];
    }
  }

  /** The lines of the result are the trimmed lines of the input: the same
      number of line breaks, all now `\n`, and no line ending in
      whitespace. */
  lemma TrimmedLines(s: string)
    ensures |Lines(Trimmed(s))| == |Lines(s)|
    ensures forall j | 0 <= j < |Lines(s)| :: Lines(Trimmed(s))[j] == TrimLine(Lines(s)[j])
    ensures forall j | 0 <= j < |Lines(Trimmed(s))| :: var l := Lines(Trimmed(s))[j]; l == [] || !IsSpace(l[|l| - 1])
  {
    var lines := Lines(s);
    var trimmed := seq(|lines|, j requires 0 <= j < |lines| => TrimLine(lines[j]));
    LinesAreLines(s);
    forall j | 0 <= j < |trimmed| ensures IsLine(trimmed[j]) {
      TrimLineKeepsLine(lines[j]);
    }
    SplitJoin(trimmed);
  }

  lemma TrimLineIdempotent(line: string)
    ensures TrimLine(TrimLine(line)) == TrimLine(line)
  {}

  /** Trimming twice is trimming once. */
  lemma TrimmedIdempotent(s: string)
    ensures Trimmed(Trimmed(s)) == Trimmed(s)
  {
    TrimmedLines(s);
    var lines := Lines(s);
    var once := Lines(Trimmed(s));
    var twice := seq(|once|, j requires 0 <= j < |once| => TrimLine(once[j]));
    forall j | 0 <= j < |once| ensures twice[j] == once[j] {
      TrimLineIdempotent(lines[j]);
    }
    assert twice == once;
    var trimmed := seq(|lines|, j requires 0 <= j < |lines| => TrimLine(lines[j]));
    LinesAreLines(s);
    forall j | 0 <= j < |trimmed| ensures IsLine(trimmed[j]) {
      TrimLineKeepsLine(lines[j]);
    }
    JoinHasNoReturn(trimmed);
    SplitJoinOfLines(Trimmed(s));
  }

  /** Joined lines contain no carriage return. */
  lemma {:induction false} JoinHasNoReturn(lines: seq<string>)
    requires |lines| >= 1 && forall j | 0 <= j < |lines| :: IsLine(lines[j])
    ensures forall i | 0 <= i < |Join(lines)| :: Join(lines)[i] != '\r'
    decreases |lines|
  {
    if |lines| > 1 {
      JoinHasNoReturn(lines[1..]);
      var s := Join(lines);
      var l := lines[0];
      var rest := Join(lines[1..]);
      assert s == l + "\n" + rest;
      forall i | 0 <= i < |s| ensures s[i] != '\r' {
        if i < |l| {
          assert s[i] == l[i];
        } else if i > |l| {
          assert s[i] == rest[i - |l| - 1];
        }
      }
    }
  }

  /** Joining the lines of a text that uses only `\n` gives it back. */
  lemma {:induction false} SplitJoinOfLines(s: string)
    requires forall i | 0 <= i < |s| :: s[i] != '\r'
    ensures Join(Lines(s)) == s
    decreases |s|
  {
    var i := FirstBreak(s);
    if i < |s| {
      var rest := s[i + 1..];
      assert BreakLength(s, i) == 1;
      SplitJoinOfLines(rest);
      JoinCons(s[..i], Lines(rest));
      SplitAround(s, i);
    }
  }

  lemma SplitAround(s: string, i: nat)
    requires i < |s| && s[i] == '\n'
    ensures s == s[..i] + "\n" + s[i + 1..]
  {
    assert s[i..] == [s[i]] + s[i + 1..];
    assert s == s[..i] + s[i..];
  }

  lemma JoinCons(a: string, lines: seq<string>)
    requires |lines| >= 1
    ensures Join([a] + lines) == a + "\n" + Join(lines)
  {
    assert ([a] + lines)[1..] == lines;
  }

  /** Text that is one line with no trailing whitespace comes back as it
      was. */
  lemma TrimmedLineUnchanged(s: string)
    requires IsLine(s) && (s == [] || !IsSpace(s[|s| - 1]))
    ensures Trimmed(s) == s
  {
    assert Lines(s) == [s];
  }

  /** A final line break survives: the text ends in an empty last line,
      which the result keeps after a `\n`. */
  lemma TrailingBreakSurvives(t: string)
    ensures var s := t + "\n";
      && Lines(s)[|Lines(s)| - 1] == ""
      && |Trimmed(s)| >= 1 && Trimmed(s)[|Trimmed(s)| - 1] == '\n'
  {
    var s := t + "\n";
    LastPartAfterBreak(s);
    var lines := Lines(s);
    FirstBreakAtMost(s, |s| - 1);
    var trimmed := seq(|lines|, j requires 0 <= j < |lines| => TrimLine(lines[j]));
    assert trimmed[|trimmed| - 1] == "";
    JoinEndsInBreak(trimmed);
  }

  /** The last part of a text ending in a break character is empty. */
  lemma {:induction false} LastPartAfterBreak(s: string)
    requires |s| > 0 && IsBreakChar(s[|s| - 1])
    ensures Lines(s)[|Lines(s)| - 1] == ""
    decreases |s|
  {
    FirstBreakAtMost(s, |s| - 1);
    var i := FirstBreak(s);
    var rest := s[i + BreakLength(s, i)..];
    LinesUnfold(s, i);
    LastOfCons(s[..i], Lines(rest));
    if rest == "" {
      assert Lines("") == [""];
    } else {
      assert rest[|rest| - 1] == s[|s| - 1];
      LastPartAfterBreak(rest);
    }
  }

  lemma LinesUnfold(s: string, i: nat)
    requires i == FirstBreak(s) && i < |s|
    ensures Lines(s) == [s[..i]] + Lines(s[i + BreakLength(s, i)..])
  {}

  lemma LastOfCons(a: string, lines: seq<string>)
    requires |lines| >= 1
    ensures ([a] + lines)[|[a] + lines| - 1] == lines[|lines| - 1]
  {}

  /** No break is found later than a known break character. */
  lemma FirstBreakAtMost(s: string, k: nat)
    requires k < |s| && IsBreakChar(s[k])
    ensures FirstBreak(s) <= k
    decreases k
  {
    if k > 0 && !IsBreakChar(s[0]) {
      FirstBreakAtMost(s[1..], k - 1);
    }
  }

  /** Lines whose last one is empty join into text ending in `\n`. */
  lemma {:induction false} JoinEndsInBreak(lines: seq<string>)
    requires |lines| >= 2 && lines[|lines| - 1] == ""
    ensures |Join(lines)| >= 1 && Join(lines)[|Join(lines)| - 1] == '\n'
    decreases |lines|
  {
    if |lines| > 2 {
      JoinEndsInBreak(lines[1..]);
    } else {
      assert Join(lines[1..]) == "";
    }
  }

  /** The writer's state: whether trailing whitespace is trimmed. */
  datatype DocumentWriter = DocumentWriter(whitespaceTrimmed: bool)

  /** What writing needs of the device: it is writable already, or it can
      be opened for writing. */
  datatype Device = Device(writable: bool, opensForWriting: bool)

  /** Both constructors leave trimming off. */
  function NewWriter(): (w: DocumentWriter)
    ensures !w.whitespaceTrimmed
  {
    DocumentWriter(false)
  }

  /** `write`: fails without writing when the device is neither writable
      nor openable; otherwise writes the document's plain text, trimmed
      only when trimming is on. */
  function Write(w: DocumentWriter, d: Device, text: string): (r: (bool, string))
    ensures r.0 <==> d.writable || d.opensForWriting
    ensures !r.0 ==> r.1 == ""
    ensures r.0 && !w.whitespaceTrimmed ==> r.1 == text
    ensures r.0 && w.whitespaceTrimmed ==> r.1 == Trimmed(text)
  {
    if !d.writable && !d.opensForWriting then (false, "")
    else if w.whitespaceTrimmed then (true, Trimmed(text))
    else (true, text)
  }

  /** A trimming writer never writes a line that ends in whitespace, and a
      new writer writes text verbatim. */
  lemma WriteTrimsOnlyWhenEnabled(d: Device, text: string)
    requires d.writable || d.opensForWriting
    ensures Write(NewWriter(), d, text).1 == text
    ensures var out := Write(DocumentWriter(true), d, text).1;
      forall j | 0 <= j < |Lines(out)| :: var l := Lines(out)[j]; l == [] || !IsSpace(l[|l| - 1])
  {
    TrimmedLines(text);
  }
}
