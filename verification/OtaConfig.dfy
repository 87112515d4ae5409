/** The kernel= lines of config.txt: reading the active slot and rewriting it. */
module OtaConfig {
  import opened Common
  import opened OtaText

  const KERNEL_KEY := "kernel="

  predicate IsIndent(c: char) { c == ' ' || c == '\t' }

  function SkipIndent(s: string): (r: string)
    ensures |r| <= |s|
    ensures r != "" ==> !IsIndent(r[0])
  {
    if s != "" && IsIndent(s[0]) then SkipIndent(s[1..]) else s
  }

  /** The value without blanks around it and without a comment. */
  function NameOf(value: string): (name: string)
    ensures IsTrimmed(name) && '#' !in name
  {
    var name := Trimmed(value);
    var hash := FindChar(name, '#', 0);
    if hash < |name| then Trimmed(name[..hash]) else name
  }

  /** The image named by an effective kernel= line, or the empty string. */
  function KernelIfsFromLine(line: string): (name: string)
    ensures IsTrimmed(name) && '#' !in name
  {
    var rest := SkipIndent(line);
    if rest == "" || rest[0] == '#' || !(KERNEL_KEY <= rest) then "" else NameOf(rest[|KERNEL_KEY|..])
  }

  predicate IsEffective(line: string) { KernelIfsFromLine(line) != "" }

  // ---------- the names read are the names spelled ----------

  /** A value: the name among blanks, and perhaps a comment. */
  predicate ValueSpelled(value: string, pre: string, n: string, post: string, tail: string) {
    && AllBlank(pre) && AllBlank(post)
    && (tail == "" || tail[0] == '#')
    && value == pre + n + post + tail
  }

  predicate Indented(line: string, indent: string, rest: string) {
    (forall c :: c in indent ==> c == ' ' || c == '\t') && line == indent + rest
  }

  /** A kernel= line that spells n. */
  ghost predicate Spells(line: string, n: string) {
    exists indent, value, pre, post, tail ::
      Indented(line, indent, KERNEL_KEY + value) && ValueSpelled(value, pre, n, post, tail)
  }

  lemma {:induction false} SkipIndentOver(line: string, indent: string, rest: string)
    requires Indented(line, indent, rest) && rest != "" && !IsIndent(rest[0])
    ensures SkipIndent(line) == rest
  {
    if indent == "" {
      assert line == rest;
    } else {
      assert line[0] == indent[0] && indent[0] in indent;
      assert forall c :: c in indent[1..] ==> c in indent;
      assert line[1..] == indent[1..] + rest;
      SkipIndentOver(line[1..], indent[1..], rest);
    }
  }

  lemma {:induction false} IndentOf(line: string) returns (indent: string)
    ensures Indented(line, indent, SkipIndent(line))
  {
    indent := "";
    if line != "" && IsIndent(line[0]) {
      var more := IndentOf(line[1..]);
      indent := [line[0]] + more;
    }
  }

  /** A comment behind the name ends it. */
  lemma {:induction false} CommentCut(front: string, tail: string)
    requires '#' !in front && tail != "" && tail[0] == '#'
    ensures var name := TrimEnd(front + tail);
            FindChar(name, '#', 0) == |front| < |name| && name[..|front|] == front
  {
    var t := front + tail;
    var name := TrimEnd(t);
    hide TrimEnd;
    assert t[|front|] == '#' && t[..|front|] == front;
    assert |front| < |name| && name[..|front|] == t[..|front|] && name[|front|] == '#';
    FindCharAt(name, '#', 0, |front|);
  }

  lemma {:induction false} NotThere(s: string, c: char)
    requires c !in s
    ensures FindChar(s, c, 0) == |s|
  {
    hide FindChar;
  }

  lemma BlanksHoldNoHash(n: string, post: string)
    requires '#' !in n && AllBlank(post)
    ensures '#' !in n + post
  {
  }

  lemma PlainName(pre: string, n: string, post: string)
    requires AllBlank(pre) && AllBlank(post) && IsTrimmed(n) && '#' !in n
    ensures NameOf(pre + n + post) == n
  {
    TrimmedPadded(pre, n, post);
    NotThere(n, '#');
    hide Trimmed, FindChar, IsTrimmed;
  }

  lemma {:induction false} TrimmedBehind(pre: string, t: string)
    requires AllBlank(pre) && t != "" && !IsBlank(t[0])
    ensures Trimmed(pre + t) == TrimEnd(t)
  {
    TrimStartPadded(pre, t);
  }

  lemma TrimmedFront(n: string, post: string)
    requires AllBlank(post) && IsTrimmed(n)
    ensures Trimmed(n + post) == n
  {
    assert "" + n + post == n + post;
    TrimmedPadded("", n, post);
  }

  lemma CommentedName(pre: string, n: string, post: string, tail: string)
    requires AllBlank(pre) && AllBlank(post) && n != "" && IsTrimmed(n) && '#' !in n
    requires tail != "" && tail[0] == '#'
    ensures NameOf(pre + (n + post + tail)) == n
  {
    assert (n + post + tail)[0] == n[0];
    hide TrimStart, TrimEnd, FindChar, Trimmed, AllBlank;
    TrimmedBehind(pre, n + post + tail);
    BlanksHoldNoHash(n, post);
    CommentCut(n + post, tail);
    TrimmedFront(n, post);
  }

  lemma NameOfSpelled(value: string, pre: string, n: string, post: string, tail: string)
    requires ValueSpelled(value, pre, n, post, tail)
    requires n != "" && IsTrimmed(n) && '#' !in n
    ensures NameOf(value) == n
  {
    hide NameOf, AllBlank, IsTrimmed;
    if tail == "" {
      assert value == pre + n + post;
      PlainName(pre, n, post);
    } else {
      assert value == pre + (n + post + tail);
      CommentedName(pre, n, post, tail);
    }
  }

  lemma NameAround(value: string) returns (pre: string, post: string, tail: string)
    ensures ValueSpelled(value, pre, NameOf(value), post, tail)
  {
    hide Trimmed, FindChar, IsTrimmed, AllBlank;
    var name := Trimmed(value);
    var hash := FindChar(name, '#', 0);
    pre, post := TrimmedAround(value);
    if hash < |name| {
      var pre', post' := TrimmedAround(name[..hash]);
      var n := NameOf(value);
      hide NameOf;
      Regroup(value, pre, pre', n, post', name, hash, post);
      BlankParts(pre, pre');
      pre, post, tail := pre + pre', post', name[hash..] + post;
    } else {
      tail := "";
      hide NameOf;
      assert pre + name + post == pre + name + post + "";
    }
  }

  lemma BlankParts(a: string, b: string)
    requires AllBlank(a) && AllBlank(b)
    ensures AllBlank(a + b)
  {
  }

  lemma Regroup(value: string, pre: string, pre': string, n: string, post': string, name: string, hash: nat, post: string)
    requires value == pre + name + post && hash <= |name| && name[..hash] == pre' + n + post'
    ensures value == (pre + pre') + n + post' + (name[hash..] + post)
  {
    assert name == name[..hash] + name[hash..];
  }

  /** A line names n, that is, a line spells it: any indent, blanks and comment. */
  lemma KernelLineExact(line: string, n: string)
    requires n != "" && IsTrimmed(n) && '#' !in n
    ensures KernelIfsFromLine(line) == n <==> Spells(line, n)
  {
    hide NameOf, SkipIndent, Indented, ValueSpelled, IsTrimmed;
    if indent, value, pre, post, tail :|
      Indented(line, indent, KERNEL_KEY + value) && ValueSpelled(value, pre, n, post, tail)
    {
      var rest := KERNEL_KEY + value;
      assert rest[0] == 'k' && rest[|KERNEL_KEY|..] == value;
      SkipIndentOver(line, indent, rest);
      NameOfSpelled(value, pre, n, post, tail);
    }
    if KernelIfsFromLine(line) == n {
      var rest := SkipIndent(line);
      var value := rest[|KERNEL_KEY|..];
      assert rest == KERNEL_KEY + value;
      var indent := IndentOf(line);
      var pre, post, tail := NameAround(value);
      assert Indented(line, indent, KERNEL_KEY + value) && ValueSpelled(value, pre, n, post, tail);
    }
  }

  /** The first effective kernel= line decides. */
  function FirstKernel(lines: seq<string>): (r: Option<string>)
    ensures r.Some? ==> r.value != ""
  {
    if lines == [] then None
    else if IsEffective(lines[0]) then Some(KernelIfsFromLine(lines[0]))
    else FirstKernel(lines[1..])
  }

  function ActiveIfs(content: string): (r: Option<string>)
    ensures r.Some? ==> r.value != ""
  {
    FirstKernel(Lines(content))
  }

  /** A name the client can write: what kernel= would read back. */
  predicate IsName(n: string) {
    n != "" && IsTrimmed(n) && '#' !in n && '\n' !in n
  }

  function Relabel(line: string, n: string): string {
    if IsEffective(line) then KERNEL_KEY + n else line
  }

  function RelabelAll(lines: seq<string>, n: string): (r: seq<string>)
    ensures |r| == |lines|
    ensures forall i :: 0 <= i < |lines| ==> r[i] == Relabel(lines[i], n)
  {
    seq(|lines|, i requires 0 <= i < |lines| => Relabel(lines[i], n))
  }

  predicate HasKernel(lines: seq<string>) { exists i :: 0 <= i < |lines| && IsEffective(lines[i]) }

  function NewLines(lines: seq<string>, n: string): seq<string> {
    RelabelAll(lines, n) + if HasKernel(lines) then [] else [KERNEL_KEY + n]
  }

  /** The file set_active_ifs puts in place of config.txt. */
  function NewConfig(content: string, n: string): string {
    Render(NewLines(Lines(content), n))
  }

  // ---------- the two loops of the client ----------

  method GetActiveIfs(lines: seq<string>) returns (r: Option<string>)
    ensures r == FirstKernel(lines)
    ensures r.None? <==> !HasKernel(lines)
    ensures r.Some? ==> exists i :: 0 <= i < |lines| && IsEffective(lines[i]) && r.value == KernelIfsFromLine(lines[i]) &&
                                    forall j :: 0 <= j < i ==> !IsEffective(lines[j])
  {
    hide KernelIfsFromLine;
    assert lines[0..] == lines;
    for i := 0 to |lines|
      invariant forall j :: 0 <= j < i ==> !IsEffective(lines[j])
      invariant FirstKernel(lines) == FirstKernel(lines[i..])
    {
      assert lines[i..][0] == lines[i] && lines[i..][1..] == lines[i + 1..];
      var name := KernelIfsFromLine(lines[i]);
      if name != "" {
        return Some(name);
      }
    }
    return None;
  }

  method RewriteLines(lines: seq<string>, n: string) returns (out: seq<string>)
    ensures out == NewLines(lines, n)
  {
    hide KernelIfsFromLine;
    out := [];
    var found := false;
    for i := 0 to |lines|
      invariant |out| == i && forall j :: 0 <= j < i ==> out[j] == Relabel(lines[j], n)
      invariant found <==> exists j :: 0 <= j < i && IsEffective(lines[j])
    {
      if KernelIfsFromLine(lines[i]) != "" {
        out := out + [KERNEL_KEY + n];
        found := true;
      } else {
        out := out + [lines[i]];
      }
    }
    if !found {
      out := out + [KERNEL_KEY + n];
    }
    assert out == NewLines(lines, n);
  }

  // ---------- what rewriting achieves ----------

  lemma WrittenLineReadsBack(n: string)
    requires IsName(n)
    ensures KernelIfsFromLine(KERNEL_KEY + n) == n
  {
    hide KernelIfsFromLine;
    var line := KERNEL_KEY + n;
    assert Indented(line, "", line);
    assert ValueSpelled(n, "", n, "", "");
    KernelLineExact(line, n);
  }

  lemma {:induction false} FirstKernelOfNamed(lines: seq<string>, n: string)
    requires HasKernel(lines) && n != ""
    requires forall i :: 0 <= i < |lines| && IsEffective(lines[i]) ==> KernelIfsFromLine(lines[i]) == n
    ensures FirstKernel(lines) == Some(n)
  {
    if !IsEffective(lines[0]) {
      var i :| 0 <= i < |lines| && IsEffective(lines[i]);
      assert lines[1..][i - 1] == lines[i];
      forall j | 0 <= j < |lines[1..]| && IsEffective(lines[1..][j])
        ensures KernelIfsFromLine(lines[1..][j]) == n
      {
        assert lines[1..][j] == lines[j + 1];
      }
      FirstKernelOfNamed(lines[1..], n);
    }
  }

  lemma NewLinesNamed(lines: seq<string>, n: string)
    requires IsName(n)
    ensures var out := NewLines(lines, n);
            HasKernel(out) &&
            (forall i :: 0 <= i < |out| && IsEffective(out[i]) ==> KernelIfsFromLine(out[i]) == n) &&
            (forall i :: 0 <= i < |lines| && !IsEffective(lines[i]) ==> out[i] == lines[i])
  {
    hide KernelIfsFromLine;
    WrittenLineReadsBack(n);
    var out := NewLines(lines, n);
    assert IsEffective(KERNEL_KEY + n);
    if HasKernel(lines) {
      var i :| 0 <= i < |lines| && IsEffective(lines[i]);
      assert IsEffective(out[i]);
    } else {
      assert IsEffective(out[|lines|]);
    }
  }

  lemma NewLinesHaveNoNewline(lines: seq<string>, n: string)
    requires IsName(n) && forall l :: l in lines ==> '\n' !in l
    ensures forall l :: l in NewLines(lines, n) ==> '\n' !in l
  {
    hide KernelIfsFromLine;
    var out := NewLines(lines, n);
    forall i | 0 <= i < |out| ensures '\n' !in out[i] {
      if i < |lines| { assert lines[i] in lines; }
    }
  }

  /** For every file: the new file reads back as n, each line that named no kernel keeps its
      place and text, each that did now names n, and only a file without one gains a line. */
  lemma {:induction false} SwitchIsExact(content: string, n: string)
    requires IsName(n)
    ensures ActiveIfs(NewConfig(content, n)) == Some(n)
    ensures var before, after := Lines(content), Lines(NewConfig(content, n));
            |after| == |before| + (if HasKernel(before) then 0 else 1) &&
            (forall i :: 0 <= i < |before| && !IsEffective(before[i]) ==> after[i] == before[i]) &&
            (forall i :: 0 <= i < |after| && IsEffective(after[i]) ==> KernelIfsFromLine(after[i]) == n) &&
            (forall i :: 0 <= i < |before| && IsEffective(before[i]) ==> IsEffective(after[i]))
  {
    hide KernelIfsFromLine;
    var before := Lines(content);
    NewLinesHaveNoNewline(before, n);
    LinesOfRender(NewLines(before, n));
    NewLinesNamed(before, n);
    WrittenLineReadsBack(n);
    FirstKernelOfNamed(NewLines(before, n), n);
  }

  /** Switching twice to the same slot is switching once. */
  lemma SwitchIsIdempotent(content: string, n: string)
    requires IsName(n)
    ensures NewConfig(NewConfig(content, n), n) == NewConfig(content, n)
  {
    hide KernelIfsFromLine;
    var once := NewLines(Lines(content), n);
    NewLinesHaveNoNewline(Lines(content), n);
    LinesOfRender(once);
    NewLinesNamed(Lines(content), n);
    WrittenLineReadsBack(n);
    forall i | 0 <= i < |once| ensures Relabel(once[i], n) == once[i] {
      if i < |Lines(content)| && !IsEffective(Lines(content)[i]) {
      } else {
        assert once[i] == KERNEL_KEY + n;
      }
    }
    assert NewLines(once, n) == once;
  }

  // ---------- when config.txt cannot be read for the rewrite ----------

  ghost predicate KeptLines(before: seq<string>, after: seq<string>) {
    forall i :: 0 <= i < |before| && !IsEffective(before[i]) ==> i < |after| && after[i] == before[i]
  }

  /** Every line that names no kernel keeps its place and text. */
  ghost predicate KeepsOtherLines(before: string, after: string) {
    KeptLines(Lines(before), Lines(after))
  }

  predicate OnlyKernelLines(content: string) {
    forall l :: l in Lines(content) ==> IsEffective(l)
  }

  /** A file that could be read keeps its other lines. */
  lemma {:induction false} RewriteKeeps(content: string, n: string)
    requires IsName(n)
    ensures KeepsOtherLines(content, NewConfig(content, n))
  {
    SwitchIsExact(content, n);
    hide IsEffective, NewConfig;
  }

  lemma {:induction false} LinesOfNothing(n: string)
    requires IsName(n)
    ensures Lines(NewConfig("", n)) == [KERNEL_KEY + n] && IsEffective(KERNEL_KEY + n)
  {
    assert Lines("") == [] && NewLines([], n) == [KERNEL_KEY + n];
    NewLinesHaveNoNewline([], n);
    LinesOfRender([KERNEL_KEY + n]);
    WrittenLineReadsBack(n);
  }

  lemma {:induction false} KeptByOneLine(before: seq<string>, line: string)
    requires IsEffective(line)
    ensures KeptLines(before, [line]) <==> (forall l :: l in before ==> IsEffective(l))
  {
    hide IsEffective;
    if KeptLines(before, [line]) {
      forall l | l in before ensures IsEffective(l) {
        var i :| 0 <= i < |before| && before[i] == l;
      }
    } else {
      var i :| 0 <= i < |before| && !IsEffective(before[i]);
      assert before[i] in before;
    }
  }

  /** A file that could not be read is replaced by a kernel= line alone, which keeps its other lines
      exactly if it had none. */
  lemma RewriteOfNothing(content: string, n: string)
    requires IsName(n)
    ensures KeepsOtherLines(content, NewConfig("", n)) <==> OnlyKernelLines(content)
  {
    hide IsEffective, NewConfig, Lines, KeptLines;
    LinesOfNothing(n);
    KeptByOneLine(Lines(content), KERNEL_KEY + n);
  }

  lemma NoKernelKey(line: string)
    requires line != "" && !IsIndent(line[0]) && line[0] != 'k'
    ensures !IsEffective(line)
  {
    assert SkipIndent(line) == line;
    assert KERNEL_KEY[0] == 'k';
  }

  /** A failing input: the settings in front of the kernel= line are lost. */
  lemma SettingsAreLost()
    ensures var content := "arm_64bit=1\nkernel=ifs-rpi5.bin\n";
            !KeepsOtherLines(content, NewConfig("", "ifs-rpi5_B.bin"))
  {
    hide Lines, NewConfig, KernelIfsFromLine, KeepsOtherLines, IsEffective, KeptLines;
    var first, rest := "arm_64bit=1", "kernel=ifs-rpi5.bin\n";
    LinesCons(first, rest);
    assert "arm_64bit=1\nkernel=ifs-rpi5.bin\n" == first + "\n" + rest;
    NoKernelKey(first);
    assert Lines(first + "\n" + rest)[0] == first;
    RewriteOfNothing(first + "\n" + rest, "ifs-rpi5_B.bin");
  }
}
