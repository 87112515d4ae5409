/** The boot arguments of the devicetree: a command line that is cut into arguments in place, one
    "--"-delimited segment per bootstrap executable. */
module FdtCmdline {
  import opened Common
  import opened BootArgs

  const SPACE: Byte := 0x20
  const DASHES: Text := [0x2D, 0x2D]

  // ---------- what the command line says ----------

  function SkipSpaces(r: Text): (s: Text)
    ensures |s| <= |r|
  {
    if r != [] && r[0] == SPACE then SkipSpaces(r[1..]) else r
  }

  function WordLength(s: Text): (n: nat)
    ensures n <= |s|
  {
    if s != [] && s[0] != SPACE then 1 + WordLength(s[1..]) else 0
  }

  /** The first argument; empty if there is none. */
  function FirstWord(r: Text): Text {
    SkipSpaces(r)[..WordLength(SkipSpaces(r))]
  }

  /** What is left behind the first argument and the space after it. */
  function AfterWord(r: Text): (t: Text)
    ensures SkipSpaces(r) != [] ==> |t| < |r|
  {
    var s := SkipSpaces(r);
    var n := WordLength(s);
    if n < |s| then s[n + 1..] else []
  }

  function Words(r: Text): seq<Text>
    decreases |r|
  {
    if SkipSpaces(r) == [] then [] else [FirstWord(r)] + Words(AfterWord(r))
  }

  /** The arguments up to the first "--", and those after it. */
  function Segment(ws: seq<Text>): seq<Text> {
    if ws == [] || ws[0] == DASHES then [] else [ws[0]] + Segment(ws[1..])
  }

  function AfterSegment(ws: seq<Text>): (r: seq<Text>)
    ensures ws != [] ==> |r| < |ws|
  {
    if ws == [] then [] else if ws[0] == DASHES then ws[1..] else AfterSegment(ws[1..])
  }

  /** All segments of a command line. */
  function Segments(ws: seq<Text>): seq<seq<Text>>
    decreases |ws|
  {
    if ws == [] then [] else [Segment(ws)] + Segments(AfterSegment(ws))
  }

  /** What k calls leave unread. */
  function AfterSegments(ws: seq<Text>, k: nat): seq<Text>
    decreases k
  {
    if k == 0 then ws else AfterSegments(AfterSegment(ws), k - 1)
  }

  /** Call number k finds exactly the k-th segment; calls beyond the last segment find nothing. */
  lemma {:induction false} KthCallKthSegment(ws: seq<Text>, k: nat)
    ensures Segment(AfterSegments(ws, k)) == if k < |Segments(ws)| then Segments(ws)[k] else []
    ensures AfterSegment(AfterSegments(ws, k)) == AfterSegments(ws, k + 1)
    decreases k
  {
    if k > 0 {
      KthCallKthSegment(AfterSegment(ws), k - 1);
    }
    if ws == [] && k == 0 {
      assert Segments(ws) == [];
    }
  }

  predicate IsWord(w: Text) { w != [] && SPACE !in w && 0 !in w }

  /** A text of words: one space and a gap in front of each, and some spaces behind the last. */
  function Spaced(ws: seq<Text>, gaps: seq<nat>, trailing: nat): Text
    requires |ws| == |gaps|
  {
    if ws == [] then Spaces(trailing)
    else Spaces(gaps[0] + 1) + ws[0] + Spaced(ws[1..], gaps[1..], trailing)
  }

  function Spaces(n: nat): (s: Text)
    ensures |s| == n && forall i :: 0 <= i < n ==> s[i] == SPACE
  {
    seq(n, _ => SPACE)
  }

  lemma {:induction false} SkipSpacesOver(n: nat, t: Text)
    requires t != [] ==> t[0] != SPACE
    ensures SkipSpaces(Spaces(n) + t) == t
  {
    if n == 0 {
      assert Spaces(0) + t == t;
    } else {
      assert (Spaces(n) + t)[1..] == Spaces(n - 1) + t;
      SkipSpacesOver(n - 1, t);
    }
  }

  lemma {:induction false} WordLengthOf(w: Text, t: Text)
    requires SPACE !in w && (t != [] ==> t[0] == SPACE)
    ensures WordLength(w + t) == |w|
  {
    if w == [] {
      assert w + t == t;
    } else {
      assert (w + t)[1..] == w[1..] + t;
      WordLengthOf(w[1..], t);
    }
  }

  /** Cutting undoes joining: any words come back, with any gaps between them, with or without a space
      in front of the first one. */
  lemma {:induction false} WordsOfSpaced(ws: seq<Text>, gaps: seq<nat>, trailing: nat)
    requires |ws| == |gaps| && forall w :: w in ws ==> IsWord(w)
    ensures Words(Spaced(ws, gaps, trailing)) == ws
    ensures Spaced(ws, gaps, trailing) != [] ==> Words(Spaced(ws, gaps, trailing)[1..]) == ws
    decreases |ws|
  {
    hide *;
    SpacedUnfold(ws, gaps, trailing);
    if ws != [] {
      var rest := Spaced(ws[1..], gaps[1..], trailing);
      SpacedUnfold(ws[1..], gaps[1..], trailing);
      WordsOfSpaced(ws[1..], gaps[1..], trailing);
      WordThenRest(ws[0], gaps[0] + 1, rest);
      WordThenRest(ws[0], gaps[0], rest);
      assert ws == [ws[0]] + ws[1..];
      if rest == [] {
        SpacedUnfold([], [], 0);
      }
    }
  }

  lemma {:induction false} OnlySpaces(n: nat)
    ensures Words(Spaces(n)) == []
    ensures n > 0 ==> Spaces(n) != [] && Spaces(n)[0] == SPACE && Spaces(n)[1..] == Spaces(n - 1)
  {
    SkipSpacesOver(n, []);
    assert Spaces(n) + [] == Spaces(n);
  }

  lemma {:induction false} SpacedUnfold(ws: seq<Text>, gaps: seq<nat>, trailing: nat)
    requires |ws| == |gaps|
    ensures var s := Spaced(ws, gaps, trailing);
            && (s != [] ==> s[0] == SPACE)
            && (ws == [] ==> Words(s) == [] && (s != [] ==> Words(s[1..]) == []))
            && (ws != [] ==>
                  && s == Spaces(gaps[0] + 1) + ws[0] + Spaced(ws[1..], gaps[1..], trailing)
                  && s != [] && s[1..] == Spaces(gaps[0]) + ws[0] + Spaced(ws[1..], gaps[1..], trailing))
    ensures Words([]) == []
  {
    if ws != [] {
      var n, rest := gaps[0], Spaced(ws[1..], gaps[1..], trailing);
      assert Spaces(n + 1)[0] == SPACE && Spaces(n + 1)[1..] == Spaces(n);
      assert (Spaces(n + 1) + ws[0] + rest)[1..] == Spaces(n + 1)[1..] + ws[0] + rest;
    } else {
      OnlySpaces(trailing);
      if trailing > 0 {
        OnlySpaces(trailing - 1);
      }
    }
  }

  lemma {:induction false} WordThenRest(w: Text, n: nat, rest: Text)
    requires IsWord(w) && (rest != [] ==> rest[0] == SPACE)
    ensures Words(Spaces(n) + w + rest) == [w] + Words(if rest == [] then [] else rest[1..])
  {
    var r := Spaces(n) + w + rest;
    assert r == Spaces(n) + (w + rest);
    SkipSpacesOver(n, w + rest);
    WordLengthOf(w, rest);
    assert (w + rest)[..|w|] == w;
    if rest == [] {
      assert w + rest == w;
    } else {
      assert (w + rest)[|w| + 1..] == rest[1..];
    }
  }

  // ---------- the buffer ----------

  class Cmdline {
    // the copy of the property, and the static read position
    var buf: array<Byte>
    var next: Option<nat>
    // where its text ends
    ghost var end: nat

    constructor ()
      ensures next == None
    {
      buf, next, end := new Byte[0], None, 0;
    }

    /** The unread text is [next, end), closed by a NUL. */
    ghost predicate Valid()
      reads this, buf
    {
      next.Some? ==> TextAt(next.value)
    }

    ghost predicate TextAt(i: nat)
      reads this, buf
    {
      i <= end < buf.Length && buf[end] == 0 && forall k :: i <= k < end ==> buf[k] != 0
    }

    ghost function Unread(): Text
      requires Valid() && next.Some?
      reads this, buf
    {
      buf[next.value..end]
    }

    /** Skips spaces, closes the word with a NUL and returns where it starts and what follows it. */
    method FindNextArg(from: nat) returns (arg: nat, rest: nat)
      requires TextAt(from)
      modifies buf
      ensures TextAt(rest)
      ensures var r := old(buf[from..end]);
              && buf[rest..end] == AfterWord(r)
              && arg + |FirstWord(r)| <= end
              && buf[arg..arg + |FirstWord(r)|] == FirstWord(r) && buf[arg + |FirstWord(r)|] == 0
              && (FirstWord(r) == [] <==> SkipSpaces(r) == [])
    {
      hide SkipSpaces, WordLength, FirstWord, AfterWord;
      var str := SkipBlanks(from);
      ghost var r := buf[from..end];
      ghost var s := buf[str..end];
      if buf[str] == 0 {
        NoWord(r);
        return str, str;
      }
      var p := FindWordEnd(str);
      arg := str;
      WordSlices(buf[..], str, p, end, r);
      WordNotEmpty(s);
      if buf[p] != 0 {
        buf[p] := 0;
        rest := p + 1;
      } else {
        rest := p;
      }
    }

    method SkipBlanks(from: nat) returns (str: nat)
      requires TextAt(from)
      ensures TextAt(str) && from <= str && buf[str] != SPACE
      ensures buf[str..end] == SkipSpaces(buf[from..end])
    {
      str := from;
      while buf[str] == SPACE
        invariant from <= str <= end && SkipSpaces(buf[from..end]) == SkipSpaces(buf[str..end])
        decreases end - str
      {
        assert buf[str..end][1..] == buf[str + 1..end];
        str := str + 1;
      }
    }

    method FindWordEnd(str: nat) returns (p: nat)
      requires TextAt(str)
      ensures str <= p <= end && (buf[p] == SPACE || p == end)
      ensures WordLength(buf[str..end]) == p - str
    {
      p := str;
      while buf[p] != SPACE && buf[p] != 0
        invariant str <= p <= end
        invariant WordLength(buf[str..end]) == (p - str) + WordLength(buf[p..end])
        decreases end - p
      {
        assert buf[p..end][1..] == buf[p + 1..end];
        p := p + 1;
      }
    }

    /** The string at arg. */
    method TextOf(arg: nat, ghost w: Text) returns (t: Text)
      requires arg + |w| < buf.Length && buf[arg..arg + |w|] == w && buf[arg + |w|] == 0 && IsText(w)
      ensures t == w
    {
      var n := 0;
      while buf[arg + n] != 0
        invariant n <= |w|
        decreases |w| - n
      {
        n := n + 1;
      }
      t := buf[arg..arg + n];
    }

    /** Loads the property on first use. None: there is no tree, no node, no property or no memory. */
    method Load(prop: Option<seq<Byte>>)
      requires Valid()
      requires prop.Some? ==> 0 in prop.value
      modifies this
      ensures Valid() && (old(next).Some? ==> next == old(next) && buf == old(buf) && end == old(end))
      ensures old(next).None? ==> (next.Some? <==> prop.Some?)
      ensures buf == old(buf) || fresh(buf)
      ensures old(next).None? && prop.Some? ==> fresh(buf) && Unread() == CText(prop.value)
    {
      if next.Some? || prop.None? {
        return;
      }
      buf := new Byte[|prop.value|](i requires 0 <= i < |prop.value| => prop.value[i]);
      next := Some(0);
      CTextEnds(prop.value);
      end := |CText(prop.value)|;
      assert buf[..] == prop.value;
    }

    /** Takes the next word off the unread text and closes it in place. */
    method NextWord() returns (w: Text)
      requires Valid() && next.Some?
      modifies `next, buf
      ensures Valid() && next.Some?
      ensures w == FirstWord(old(Unread())) && Unread() == AfterWord(old(Unread()))
      ensures w == [] <==> SkipSpaces(old(Unread())) == []
      ensures IsText(w)
    {
      hide FirstWord, AfterWord, SkipSpaces;
      ghost var r := Unread();
      WordIsText(r);
      var arg, rest := FindNextArg(next.value);
      w := TextOf(arg, FirstWord(r));
      next := Some(rest);
    }

    /** What the next call reads: the unread text, or the property if nothing was loaded yet. */
    ghost function Source(prop: Option<seq<Byte>>): Text
      requires Valid() && (next.Some? || prop.Some?)
      reads this, buf
    {
      if next.Some? then Unread() else CText(prop.value)
    }

    /** Appends the next segment of the command line to argv. */
    method TweakCmdline(bap: Bootargs, prop: Option<seq<Byte>>)
      requires Valid() && bap.Valid() && buf != bap.mem
      requires prop.Some? ==> 0 in prop.value
      requires next.Some? || prop.Some? ==> Fits(bap, Segment(Words(Source(prop))))
      modifies this, buf, bap, bap.mem
      ensures buf == old(buf) || fresh(buf)
      ensures Valid() && bap.Valid() && bap.env == old(bap.env) && bap.tail == old(bap.tail)
      ensures old(next).None? && prop.None? ==> next.None? && bap.argv == old(bap.argv)
      ensures old(next).Some? || prop.Some? ==>
                && next.Some?
                && bap.argv == old(bap.argv) + Segment(old(Words(Source(prop))))
                && Words(Unread()) == AfterSegment(old(Words(Source(prop))))
    {
      hide Segment, AfterSegment, Words, CText, bap.Valid, Fits;
      Load(prop);
      if next.None? {
        return;
      }
      AppendSegment(bap);
    }

    method AppendSegment(bap: Bootargs)
      requires Valid() && next.Some? && bap.Valid() && buf != bap.mem
      requires Fits(bap, Segment(Words(Unread())))
      modifies `next, buf, bap, bap.mem
      ensures Valid() && next.Some? && bap.Valid() && bap.env == old(bap.env) && bap.tail == old(bap.tail)
      ensures bap.argv == old(bap.argv) + Segment(Words(old(Unread())))
      ensures Words(Unread()) == AfterSegment(Words(old(Unread())))
    {
      hide Segment, AfterSegment, Words, FirstWord, AfterWord, SkipSpaces, Fits, bap.Valid, Pack;
      ghost var all := Words(Unread());
      ghost var done: seq<Text> := [];
      while true
        invariant Valid() && next.Some? && bap.Valid()
        invariant bap.env == old(bap.env) && bap.tail == old(bap.tail)
        invariant bap.argv == old(bap.argv) + done
        invariant done + Segment(Words(Unread())) == Segment(all)
        invariant AfterSegment(Words(Unread())) == AfterSegment(all)
        invariant Fits(bap, Segment(Words(Unread())))
        decreases |Unread()|
      {
        ghost var r := Unread();
        WordStep(r);
        var w := NextWord();
        if w == [] || w == DASHES {
          assert done + [] == done;
          return;
        }
        AppendOne(bap, w, Segment(Words(AfterWord(r))));
        assert (done + [w]) + Segment(Words(AfterWord(r))) == done + ([w] + Segment(Words(AfterWord(r))));
        done := done + [w];
      }
    }

    method AppendOne(bap: Bootargs, w: Text, ghost rest: seq<Text>)
      requires bap.Valid() && IsText(w) && Fits(bap, [w] + rest)
      modifies bap, bap.mem
      ensures bap.Valid() && bap.env == old(bap.env) && bap.tail == old(bap.tail)
      ensures bap.argv == old(bap.argv) + [w]
      ensures Fits(bap, rest)
    {
      PackConcat([w], rest);
      PackOne(w);
      PackConcat(bap.argv, [w]);
      bap.SizeIsContents();
      FitsOne(bap, w, rest);
      hide Pack, bap.Valid, FrontRoom, bap.Room;
      var _ := bap.DoAdjust(None, Some(w), false);
      bap.SizeIsContents();
      bap.Counted();
    }

    lemma {:induction false} FitsOne(bap: Bootargs, w: Text, rest: seq<Text>)
      requires Fits(bap, [w] + rest) && bap.Valid()
      ensures bap.Room(None, Some(w), false)
      ensures FrontRoom(bap.args + |Pack(bap.argv)| + |w| + 1, rest)
    {
      PackConcat([w], rest);
      PackOne(w);
      bap.Counted();
      assert ([w] + rest)[1..] == rest;
      assert bap.Strings()[..|bap.argv|] == bap.argv;
    }

    /** What is left to read after k calls on the words ws, if there is a command line. */
    ghost predicate Left(prop: Option<seq<Byte>>, some: bool, ws: seq<Text>, k: nat)
      reads this, buf
    {
      && Valid() && (prop.Some? ==> 0 in prop.value) && (some <==> next.Some? || prop.Some?)
      && (some ==> Words(Source(prop)) == AfterSegments(ws, k))
    }

    method TweakOne(bap: Bootargs, prop: Option<seq<Byte>>, ghost some: bool, ghost ws: seq<Text>, ghost k: nat,
                    ghost was: Lists)
      requires Left(prop, some, ws, k) && buf != bap.mem
      requires Tweaked(bap, was, []) && (some ==> Fits(bap, SegmentOf(ws, k)))
      modifies this, buf, bap, bap.mem
      ensures Left(prop, some, ws, k + 1) && (buf == old(buf) || fresh(buf))
      ensures Tweaked(bap, was, if some then SegmentOf(ws, k) else [])
    {
      hide Words, Segment, AfterSegment, AfterSegments, SegmentOf, CText, Fits, bap.Valid;
      NextSegment(ws, k);
      TweakCmdline(bap, prop);
      assert was.argv + [] == was.argv;
    }

    /** One call for each executable, in order: the k-th one is given the k-th segment of the command
        line, and those beyond the last segment nothing. */
    method TweakAll(baps: seq<Bootargs>, prop: Option<seq<Byte>>, ghost olds: seq<Lists>,
                    ghost headers: set<Bootargs>, ghost mems: set<array<Byte>>)
      requires Apart(baps, headers, mems) && buf !in mems && |olds| == |baps|
      requires forall i :: 0 <= i < |baps| ==> Tweaked(baps[i], olds[i], [])
      requires Valid() && (prop.Some? ==> 0 in prop.value)
      requires next.Some? || prop.Some? ==>
                 forall i :: 0 <= i < |baps| ==> Fits(baps[i], SegmentOf(Words(Source(prop)), i))
      modifies this, buf, headers, mems
      ensures Valid()
      ensures forall i :: 0 <= i < |baps| ==>
                Tweaked(baps[i], olds[i],
                        if old(next.Some? || prop.Some?) then SegmentOf(old(Words(Source(prop))), i) else [])
    {
      ghost var some := next.Some? || prop.Some?;
      ghost var ws: seq<Text> := if some then Words(Source(prop)) else [];
      NextSegment(ws, 0);
      assert Left(prop, some, ws, 0);
      hide *;
      TweakRest(baps, prop, olds, headers, mems, some, ws);
      LeftIsValid(prop, some, ws, |baps|);
    }

    method TweakRest(baps: seq<Bootargs>, prop: Option<seq<Byte>>, ghost olds: seq<Lists>,
                     ghost headers: set<Bootargs>, ghost mems: set<array<Byte>>, ghost some: bool, ghost ws: seq<Text>)
      requires Apart(baps, headers, mems) && buf !in mems && |olds| == |baps| && Left(prop, some, ws, 0)
      requires forall i :: 0 <= i < |baps| ==> Tweaked(baps[i], olds[i], [])
      requires some ==> forall i :: 0 <= i < |baps| ==> Fits(baps[i], SegmentOf(ws, i))
      modifies this, buf, headers, mems
      ensures Left(prop, some, ws, |baps|)
      ensures forall i :: 0 <= i < |baps| ==> Tweaked(baps[i], olds[i], if some then SegmentOf(ws, i) else [])
    {
      hide Tweaked, Left, Fits, SegmentOf, Segments;
      for i := 0 to |baps|
        invariant Left(prop, some, ws, i) && (buf == old(buf) || fresh(buf))
        invariant forall j :: 0 <= j < i ==> Tweaked(baps[j], olds[j], if some then SegmentOf(ws, j) else [])
        invariant forall j :: i <= j < |baps| ==> Tweaked(baps[j], olds[j], [])
        invariant some ==> forall j :: i <= j < |baps| ==> Fits(baps[j], SegmentOf(ws, j))
      {
        TweakOne(baps[i], prop, some, ws, i, olds[i]);
      }
    }

    lemma {:induction false} LeftIsValid(prop: Option<seq<Byte>>, some: bool, ws: seq<Text>, k: nat)
      requires Left(prop, some, ws, k)
      ensures Valid()
    {
    }
  }

  /** What the boot arguments of an executable hold. */
  datatype Lists = Lists(argv: seq<Text>, env: seq<Text>, tail: seq<Byte>)

  /** The lists as they were, with some arguments added. */
  ghost predicate Tweaked(bap: Bootargs, was: Lists, added: seq<Text>)
    reads bap, bap.mem
  {
    bap.Valid() && bap.argv == was.argv + added && bap.env == was.env && bap.tail == was.tail
  }

  /** Different executables have different headers and memory. */
  ghost predicate Apart(baps: seq<Bootargs>, headers: set<Bootargs>, mems: set<array<Byte>>) {
    && (forall i :: 0 <= i < |baps| ==> baps[i] in headers && baps[i].mem in mems)
    && forall i, j :: 0 <= i < j < |baps| ==> baps[i] != baps[j] && baps[i].mem != baps[j].mem
  }

  /** The i-th segment, empty beyond the last one. */
  function SegmentOf(ws: seq<Text>, i: nat): seq<Text> {
    if i < |Segments(ws)| then Segments(ws)[i] else []
  }

  lemma {:induction false} NextSegment(ws: seq<Text>, i: nat)
    ensures AfterSegments(ws, 0) == ws
    ensures Segment(AfterSegments(ws, i)) == SegmentOf(ws, i)
    ensures AfterSegment(AfterSegments(ws, i)) == AfterSegments(ws, i + 1)
  {
    KthCallKthSegment(ws, i);
  }

  /** Memory in front of each string for the move that makes place for it. */
  predicate FrontRoom(front: nat, ws: seq<Text>)
    decreases |ws|
  {
    ws == [] || (|ws[0]| + 1 <= front && FrontRoom(front + |ws[0]| + 1, ws[1..]))
  }

  /** Room for further arguments: count, stored size, memory behind and in front. */
  ghost predicate Fits(bap: Bootargs, ws: seq<Text>)
    reads bap
  {
    && bap.argc + |ws| <= 127
    && bap.TotalLen() + |Pack(ws)| < 0x1_0000
    && bap.args + bap.TotalLen() - HEADER + |Pack(ws)| <= bap.mem.Length
    && FrontRoom(bap.args + |Pack(bap.argv)|, ws)
  }

  /** The C string at the front of a property value. */
  function CText(value: seq<Byte>): Text {
    if value == [] || value[0] == 0 then [] else [value[0]] + CText(value[1..])
  }

  lemma {:induction false} CTextEnds(value: seq<Byte>)
    requires 0 in value
    ensures |CText(value)| < |value| && value[|CText(value)|] == 0
    ensures CText(value) == value[..|CText(value)|] && 0 !in CText(value)
  {
    if value[0] != 0 {
      CTextEnds(value[1..]);
    }
  }

  /** How one word advances the segment. */
  lemma {:induction false} WordStep(r: Text)
    ensures |FirstWord(r)| <= |r|
    ensures SkipSpaces(r) == [] ==> Segment(Words(r)) == [] && AfterSegment(Words(r)) == []
                                    && Words(AfterWord(r)) == []
    ensures SkipSpaces(r) != [] ==> |AfterWord(r)| < |r|
    ensures SkipSpaces(r) != [] && FirstWord(r) == DASHES ==>
              Segment(Words(r)) == [] && AfterSegment(Words(r)) == Words(AfterWord(r))
    ensures SkipSpaces(r) != [] && FirstWord(r) != DASHES ==>
              && Segment(Words(r)) == [FirstWord(r)] + Segment(Words(AfterWord(r)))
              && AfterSegment(Words(r)) == AfterSegment(Words(AfterWord(r)))
  {
    var ws := Words(r);
    if SkipSpaces(r) != [] {
      assert ws[1..] == Words(AfterWord(r));
    }
  }

  lemma {:induction false} SkipSpacesSlice(r: Text)
    ensures forall b :: b in SkipSpaces(r) ==> b in r
  {
    if r != [] && r[0] == SPACE {
      SkipSpacesSlice(r[1..]);
    }
  }

  lemma WordIsText(r: Text)
    requires IsText(r)
    ensures IsText(FirstWord(r))
  {
    SkipSpacesSlice(r);
  }

  lemma {:induction false} WordNotEmpty(s: Text)
    requires s != [] && s[0] != SPACE
    ensures WordLength(s) > 0
  {
  }

  lemma {:induction false} NoWord(r: Text)
    requires SkipSpaces(r) == []
    ensures FirstWord(r) == [] && AfterWord(r) == []
  {
  }

  /** The word and the remainder as slices of memory. */
  lemma {:induction false} WordSlices(m: seq<Byte>, str: nat, p: nat, end: nat, r: Text)
    requires str <= p <= end <= |m| && m[str..end] == SkipSpaces(r) && WordLength(m[str..end]) == p - str
    ensures FirstWord(r) == m[str..p]
    ensures AfterWord(r) == if p < end then m[p + 1..end] else []
  {
    var s := m[str..end];
    assert s[..p - str] == m[str..p];
    if p < end {
      assert s[p - str + 1..] == m[p + 1..end];
    }
  }
}
