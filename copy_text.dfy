/**
 The text a code block's copy button puts on the clipboard
 (js/main.js:27-30): the block's `innerText` with a leading shell prompt
 `"$ "` removed from every line, then every comment line `"# "` + at least one
 more character removed together with its newline, then JavaScript `trim()`.

 The regular expressions run with the `m` flag, so `^` means "start of a
 line". Here `'\n'` is the only line terminator (see README).

 The two regular expressions are modelled as line scanners (`StripPrompts`,
 `DropComments`) and proved equal to a line view of the text
 (`Lines`, `Join`, `Kept`); `SanitizeByLine` states the whole pipeline in
 that view.
 */
module CopyText {

  predicate NoNewline(line: string) {
    forall j :: 0 <= j < |line| ==> line[j] != '\n'
  }

  /** Where the first line of `s` ends: the first `'\n'`, or `|s|`. */
  function LineEnd(s: string): (k: nat)
    ensures k <= |s|
    ensures forall j :: 0 <= j < k ==> s[j] != '\n'
    ensures k < |s| ==> s[k] == '\n'
  {
    if s == [] || s[0] == '\n' then 0
    else
      1 + LineEnd(s[1..])
  }

  /** A line end is determined by the two properties `LineEnd` promises. */
  lemma LineEndUnique(s: string, k: nat)
    requires k <= |s| && NoNewline(s[..k])
    requires k < |s| ==> s[k] == '\n'
    ensures LineEnd(s) == k
  {
    assert forall j :: 0 <= j < k ==> s[..k][j] == s[j];
  }

  /** The text split at every `'\n'`; there is always at least one line. */
  function Lines(s: string): (ls: seq<string>)
    ensures |ls| >= 1
    ensures forall j :: 0 <= j < |ls| ==> NoNewline(ls[j])
    decreases |s|
  {
    var k := LineEnd(s);
    if k == |s| then [s] else [s[..k]] + Lines(s[k + 1..])
  }

  /** Lines glued back together with `'\n'`. */
  function Join(ls: seq<string>): string {
    if |ls| == 0 then "" else if |ls| == 1 then ls[0] else ls[0] + "\n" + Join(ls[1..])
  }

  /** Splitting and joining again gives the text back. */
  lemma {:induction false} JoinLines(s: string)
    ensures Join(Lines(s)) == s
    decreases |s|
  {
    var k := LineEnd(s);
    if k < |s| {
      var line, rest := s[..k], s[k + 1..];
      assert Lines(s) == [line] + Lines(rest);
      JoinLines(rest);
      JoinCons(line, Lines(rest));
      SplitAtNewline(s, k);
    }
  }

  /** A text is the part before a newline, the newline and the part after. */
  lemma SplitAtNewline(s: string, k: nat)
    requires k < |s| && s[k] == '\n'
    ensures s == s[..k] + "\n" + s[k + 1..]
  {
  }

  /** Joining newline-free lines and splitting again gives the lines back. */
  lemma {:induction false} LinesJoin(ls: seq<string>)
    requires |ls| >= 1
    requires forall j :: 0 <= j < |ls| ==> NoNewline(ls[j])
    ensures Lines(Join(ls)) == ls
  {
    var s := Join(ls);
    if |ls| == 1 {
      assert s[..|s|] == s;
      LineEndUnique(s, |s|);
    } else {
      var rest := Join(ls[1..]);
      assert s == ls[0] + "\n" + rest;
      assert s[..|ls[0]|] == ls[0];
      LineEndUnique(s, |ls[0]|);
      assert s[|ls[0]| + 1..] == rest;
      LinesJoin(ls[1..]);
    }
  }

  // ---------------------------------------------------------------------
  // .replace(/^\$ /gm, '')

  /** One line with a leading `"$ "` removed; only one prompt per line. */
  function StripPrompt(line: string): (r: string)
    ensures |line| >= 2 && line[..2] == "$ " ==> line == "$ " + r
    ensures !(|line| >= 2 && line[..2] == "$ ") ==> r == line
  {
    if |line| >= 2 && line[..2] == "$ " then line[2..] else line
  }

  /** The first regular expression, scanning line after line. */
  function StripPrompts(s: string): (r: string)
    ensures |r| <= |s|
    decreases |s|
  {
    var k := LineEnd(s);
    var line := StripPrompt(s[..k]);
    if k == |s| then line else line + "\n" + StripPrompts(s[k + 1..])
  }

  function StripEach(ls: seq<string>): (r: seq<string>)
    ensures |r| == |ls|
  {
    seq(|ls|, i requires 0 <= i < |ls| => StripPrompt(ls[i]))
  }

  /** Removing prompts works line by line: line i of the result is line i of
      the input with its prompt removed. */
  lemma {:induction false} StripPromptsByLine(s: string)
    ensures StripPrompts(s) == Join(StripEach(Lines(s)))
    decreases |s|
  {
    var k := LineEnd(s);
    if k < |s| {
      var line, rest := s[..k], s[k + 1..];
      var ls := Lines(rest);
      assert Lines(s) == [line] + ls;
      StripPromptsByLine(rest);
      StripEachCons(line, ls);
      JoinCons(StripPrompt(line), StripEach(ls));
    } else {
      assert s[..k] == s;
      assert Lines(s) == [s];
      assert StripEach([s]) == [StripPrompt(s)];
    }
  }

  lemma StripEachCons(line: string, ls: seq<string>)
    ensures StripEach([line] + ls) == [StripPrompt(line)] + StripEach(ls)
  {
    var a, b := StripEach([line] + ls), [StripPrompt(line)] + StripEach(ls);
    assert |a| == |b|;
    forall j | 0 <= j < |a|
      ensures a[j] == b[j]
    {
      if j > 0 {
        assert ([line] + ls)[j] == ls[j - 1];
      }
    }
  }

  lemma StripEachNoNewline(ls: seq<string>)
    requires forall j :: 0 <= j < |ls| ==> NoNewline(ls[j])
    ensures forall j :: 0 <= j < |ls| ==> NoNewline(StripEach(ls)[j])
  {
    forall j | 0 <= j < |ls|
      ensures NoNewline(StripEach(ls)[j])
    {
      var l := ls[j];
      if |l| >= 2 && l[..2] == "$ " {
        assert forall t :: 0 <= t < |l| - 2 ==> l[2..][t] == l[t + 2];
      }
    }
  }

  // ---------------------------------------------------------------------
  // .replace(/^# .+\n?/gm, '')

  /** `^# .+` matches the whole line: `"# "` and at least one more character. */
  predicate IsComment(line: string) {
    |line| >= 3 && line[..2] == "# "
  }

  /** The second regular expression, scanning line after line: a comment line
      goes together with the newline after it, if there is one. */
  function DropComments(s: string): (r: string)
    ensures |r| <= |s|
    decreases |s|
  {
    var k := LineEnd(s);
    if IsComment(s[..k]) then
      (if k == |s| then "" else DropComments(s[k + 1..]))
    else if k == |s| then s
    else s[..k] + "\n" + DropComments(s[k + 1..])
  }

  /** The lines that are not comments, in order. */
  function Kept(ls: seq<string>): (r: seq<string>)
    ensures |r| <= |ls|
  {
    if ls == [] then [] else (if IsComment(ls[0]) then [] else [ls[0]]) + Kept(ls[1..])
  }

  /** A line is kept exactly when it is one of the lines and no comment. */
  lemma {:induction false} KeptMembers(ls: seq<string>)
    ensures forall l :: l in Kept(ls) <==> l in ls && !IsComment(l)
  {
    if ls != [] {
      KeptMembers(ls[1..]);
      assert forall l :: l in ls <==> l == ls[0] || l in ls[1..];
    }
  }

  lemma {:induction false} KeptNoneMeansLastComment(ls: seq<string>)
    requires |ls| >= 1 && Kept(ls) == []
    ensures IsComment(Last(ls))
  {
    if |ls| > 1 {
      KeptNoneMeansLastComment(ls[1..]);
    }
  }

  function Last<T>(xs: seq<T>): T
    requires |xs| >= 1
  {
    xs[|xs| - 1]
  }

  lemma LastCons<T>(x: T, xs: seq<T>)
    requires |xs| >= 1
    ensures ([x] + xs)[1..] == xs && Last([x] + xs) == Last(xs)
  {
    assert ([x] + xs)[1..] == xs;
  }

  /** The newline a comment line on the last line cannot take with it. */
  function Leftover(ls: seq<string>): string
    requires |ls| >= 1
  {
    if IsComment(Last(ls)) && |Kept(ls)| > 0 then "\n" else ""
  }

  /** A comment line in front of the rest adds nothing. */
  lemma KeptConsComment(line: string, ls: seq<string>)
    requires |ls| >= 1 && IsComment(line)
    ensures Kept([line] + ls) == Kept(ls)
    ensures Leftover([line] + ls) == Leftover(ls)
  {
    LastCons(line, ls);
  }

  /** Joining a line in front of at least one more puts a newline between. */
  lemma JoinCons(line: string, ls: seq<string>)
    requires |ls| >= 1
    ensures Join([line] + ls) == line + "\n" + Join(ls)
  {
    assert ([line] + ls)[1..] == ls;
  }

  /** A line that is not a comment is kept in front of the rest. */
  lemma KeptConsKept(line: string, ls: seq<string>)
    requires |ls| >= 1 && !IsComment(line)
    ensures Kept([line] + ls) == [line] + Kept(ls)
    ensures Last([line] + ls) == Last(ls)
  {
    LastCons(line, ls);
  }

  /** Any other line in front of the rest is kept with a newline after it.
      When the rest keeps nothing, that newline is the one left over. */
  lemma KeptConsLine(line: string, ls: seq<string>)
    requires |ls| >= 1 && !IsComment(line)
    ensures Kept(ls) == [] ==>
      && Join(Kept([line] + ls)) + Leftover([line] + ls) == line + "\n"
      && Join(Kept(ls)) == "" && Leftover(ls) == ""
    ensures Kept(ls) != [] ==>
      && Join(Kept([line] + ls)) == line + "\n" + Join(Kept(ls))
      && Leftover([line] + ls) == Leftover(ls)
  {
    KeptConsKept(line, ls);
    if Kept(ls) == [] {
      KeptNoneMeansLastComment(ls);
      assert Kept([line] + ls) == [line];
      assert Leftover([line] + ls) == "\n";
    } else {
      JoinCons(line, Kept(ls));
    }
  }

  /** Dropping comments keeps exactly the non-comment lines, in order; a
      comment on the last line leaves the newline before it behind. */
  lemma {:induction false} DropCommentsByLine(s: string)
    ensures DropComments(s) == Join(Kept(Lines(s))) + Leftover(Lines(s))
    decreases |s|
  {
    var k := LineEnd(s);
    if k == |s| {
      assert s[..k] == s;
      assert Lines(s) == [s];
      assert DropComments(s) == if IsComment(s) then "" else s;
    } else {
      var line, rest := s[..k], s[k + 1..];
      var ls := Lines(rest);
      assert Lines(s) == [line] + ls;
      assert DropComments(s)
        == if IsComment(line) then DropComments(rest) else line + "\n" + DropComments(rest);
      DropCommentsByLine(rest);
      if IsComment(line) {
        KeptConsComment(line, ls);
      } else {
        DropCommentsStep(line, ls, DropComments(rest));
      }
    }
  }

  /** A line that is not a comment in front adds itself and a newline. */
  lemma DropCommentsStep(line: string, ls: seq<string>, d: string)
    requires |ls| >= 1 && !IsComment(line) && d == Join(Kept(ls)) + Leftover(ls)
    ensures line + "\n" + d == Join(Kept([line] + ls)) + Leftover([line] + ls)
  {
    var j, l := Join(Kept(ls)), Leftover(ls);
    KeptConsLine(line, ls);
    if Kept(ls) == [] {
      assert d == "";
    } else {
      AppendAssoc(line + "\n", j, l);
    }
  }

  lemma AppendAssoc<T>(a: seq<T>, b: seq<T>, c: seq<T>)
    ensures a + b + c == a + (b + c)
  {
  }

  // ---------------------------------------------------------------------
  // .trim()

  /** ECMAScript WhiteSpace and LineTerminator code points, which `trim`
      removes at both ends. */
  predicate IsSpace(c: char) {
    var n := c as int;
    || 0x09 <= n <= 0x0D || n == 0x20 || n == 0xA0 || n == 0x1680
    || 0x2000 <= n <= 0x200A || n == 0x2028 || n == 0x2029 || n == 0x202F
    || n == 0x205F || n == 0x3000 || n == 0xFEFF
  }

  /** The longest suffix that does not start with white space. */
  function TrimStart(s: string): (r: string)
    ensures |r| <= |s| && r == s[|s| - |r|..]
    ensures forall j :: 0 <= j < |s| - |r| ==> IsSpace(s[j])
    ensures r == [] || !IsSpace(r[0])
  {
    if s != [] && IsSpace(s[0]) then
      var r := TrimStart(s[1..]);
      assert forall j :: 0 <= j < |s| - 1 ==> s[1..][j] == s[j + 1];
      assert s[1..][|s| - 1 - |r|..] == s[|s| - |r|..];
      r
    else s
  }

  /** The longest prefix that does not end with white space. */
  function TrimEnd(s: string): (r: string)
    ensures |r| <= |s| && r == s[..|r|]
    ensures forall j :: |r| <= j < |s| ==> IsSpace(s[j])
    ensures r == [] || !IsSpace(r[|r| - 1])
  {
    if s != [] && IsSpace(s[|s| - 1]) then
      var r := TrimEnd(s[..|s| - 1]);
      assert forall j :: 0 <= j < |s| - 1 ==> s[..|s| - 1][j] == s[j];
      assert s[..|s| - 1][..|r|] == s[..|r|];
      r
    else s
  }

  /** `trim()`: neither end of the result is white space, and only white
      space was removed. */
  function Trim(s: string): (r: string)
    ensures |r| <= |s|
    ensures r == [] || (!IsSpace(r[0]) && !IsSpace(r[|r| - 1]))
  {
    var t := TrimStart(s);
    var r := TrimEnd(t);
    assert r != [] ==> r[0] == t[0];
    r
  }

  /** Text without white space at either end is left as it is. */
  lemma TrimmedIsFixed(s: string)
    requires s == [] || (!IsSpace(s[0]) && !IsSpace(s[|s| - 1]))
    ensures Trim(s) == s
  {
  }

  lemma {:induction false} TrimStartAppendSpace(s: string, c: char)
    requires IsSpace(c)
    ensures TrimStart(s + [c]) == if TrimStart(s) == [] then [] else TrimStart(s) + [c]
  {
    if s != [] && IsSpace(s[0]) {
      assert (s + [c])[1..] == s[1..] + [c];
      TrimStartAppendSpace(s[1..], c);
    }
  }

  /** A white-space character at the end changes nothing after `trim`. */
  lemma TrimAppendSpace(s: string, c: char)
    requires IsSpace(c)
    ensures Trim(s + [c]) == Trim(s)
  {
    TrimStartAppendSpace(s, c);
    var t := TrimStart(s);
    if t != [] {
      assert (t + [c])[..|t|] == t;
    }
  }

  // ---------------------------------------------------------------------
  // The whole chain

  /** The clipboard text for a code block whose `innerText` is `text`. */
  function Sanitize(text: string): (r: string)
    ensures r == [] || (!IsSpace(r[0]) && !IsSpace(r[|r| - 1]))
  {
    Trim(DropComments(StripPrompts(text)))
  }

  /** The copy transform in the line view: strip the prompt of every line,
      then drop the lines that are comments after that, rejoin and trim. */
  lemma SanitizeByLine(text: string)
    ensures Sanitize(text) == Trim(Join(Kept(StripEach(Lines(text)))))
  {
    var ms := StripEach(Lines(text));
    var stripped := StripPrompts(text);
    StripPromptsByLine(text);
    assert stripped == Join(ms);
    StripEachNoNewline(Lines(text));
    LinesJoin(ms);
    assert Lines(stripped) == ms;
    DropCommentsByLine(stripped);
    var kept := Join(Kept(ms));
    assert DropComments(stripped) == kept + Leftover(ms);
    if Leftover(ms) == "\n" {
      TrimAppendSpace(kept, '\n');
    } else {
      assert kept + Leftover(ms) == kept;
    }
  }

  lemma StripPromptOf(rest: string)
    ensures StripPrompt("$ " + rest) == rest
  {
    assert ("$ " + rest)[..2] == "$ ";
    assert ("$ " + rest)[2..] == rest;
  }

  lemma NoPromptOf(line: string)
    requires |line| >= 1 && line[0] != '$'
    ensures StripPrompt(line) == line
  {
    if |line| >= 2 {
      assert line[..2][0] == line[0];
    }
  }

  lemma CommentOf(rest: string)
    requires |rest| >= 1
    ensures IsComment("# " + rest)
  {
    assert ("# " + rest)[..2] == "# ";
  }

  lemma NoCommentOf(line: string)
    requires |line| >= 1 && line[0] != '#'
    ensures !IsComment(line)
  {
    if |line| >= 2 {
      assert line[..2][0] == line[0];
    }
  }

  /** A prompt line keeps its command, a comment line disappears with its
      newline, and an output line stays. */
  lemma SanitizeExample()
    ensures Sanitize("$ git status\n# a comment\noutput line") == "git status\noutput line"
  {
    var text := "$ git status\n# a comment\noutput line";
    SanitizeByLine(text);
    ExampleLines();
    ExampleOutput();
  }

  lemma ExampleLines()
    ensures Kept(StripEach(Lines("$ git status\n# a comment\noutput line")))
      == ["git status", "output line"]
  {
    var ls := ["$ git status", "# a comment", "output line"];
    assert Join(ls) == "$ git status\n# a comment\noutput line";
    LinesJoin(ls);
    ExampleStrip();
    ExampleKept();
  }

  lemma ExampleStrip()
    ensures StripEach(["$ git status", "# a comment", "output line"])
      == ["git status", "# a comment", "output line"]
  {
    assert "$ git status" == "$ " + "git status";
    StripPromptOf("git status");
    NoPromptOf("# a comment");
    NoPromptOf("output line");
  }

  lemma ExampleKept()
    ensures Kept(["git status", "# a comment", "output line"]) == ["git status", "output line"]
  {
    var ms := ["git status", "# a comment", "output line"];
    NoCommentOf("git status");
    NoCommentOf("output line");
    ExampleComments();
    assert ms[1..][1..] == ["output line"];
    assert Kept(ms[1..][1..]) == ["output line"];
    assert Kept(ms[1..]) == ["output line"];
  }

  lemma ExampleComments()
    ensures IsComment("# a comment") && IsComment("# x")
  {
    assert "# a comment" == "# " + "a comment";
    CommentOf("a comment");
    assert "# x" == "# " + "x";
    CommentOf("x");
  }

  lemma ExampleOutput()
    ensures Trim(Join(["git status", "output line"])) == "git status\noutput line"
  {
    assert Join(["git status", "output line"]) == "git status\noutput line";
    TrimmedIsFixed("git status\noutput line");
  }

  lemma ExamplePrompted()
    ensures StripPrompt("$ # x") == "# x"
  {
    assert "$ # x" == "$ " + "# x";
    StripPromptOf("# x");
  }

  /** The prompt goes first, so a prompted comment is then a comment. */
  lemma PromptedCommentDisappears()
    ensures Sanitize("$ # x") == ""
  {
    var ls := ["$ # x"];
    LinesJoin(ls);
    SanitizeByLine("$ # x");
    assert StripEach(ls)[0] == "# x" by {
      ExamplePrompted();
    }
    ExampleComments();
    assert Kept(StripEach(ls)) == [];
  }

  /** Only one prompt per line; `"#x"`, a bare `"# "` and a `"# "` inside a
      line are not comments. */
  lemma NotComments()
    ensures StripPrompt("$ $ x") == "$ x"
    ensures !IsComment("#x") && !IsComment("# ") && !IsComment("a # b")
    ensures IsComment("# x")
  {
    assert "a # b"[..2][0] == 'a';
  }
}
