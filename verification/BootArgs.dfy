/** The packed argument and environment list handed to a bootstrap executable: a header and a buffer
    of NUL-terminated strings, argv first, then the environment, then whatever follows. */
module BootArgs {
  import opened Common

  /** The characters of a C string. */
  type Text = seq<Byte>

  predicate IsText(s: Text) { 0 !in s }

  /** Bytes of the header in front of the string buffer. */
  const HEADER := 8

  function Pack(ss: seq<Text>): seq<Byte> {
    if ss == [] then [] else ss[0] + [0] + Pack(ss[1..])
  }

  lemma {:induction false} PackConcat(a: seq<Text>, b: seq<Text>)
    ensures Pack(a + b) == Pack(a) + Pack(b)
  {
    if a == [] {
      assert a + b == b;
    } else {
      assert (a + b)[1..] == a[1..] + b;
      PackConcat(a[1..], b);
      assert a[0] + [0] + (Pack(a[1..]) + Pack(b)) == a[0] + [0] + Pack(a[1..]) + Pack(b);
    }
  }

  lemma PackOne(s: Text)
    ensures Pack([s]) == s + [0]
  {
    assert [s][1..] == [] && s + [0] + [] == s + [0];
  }

  /** The packed list around its k-th string. */
  lemma {:induction false} PackAround(ss: seq<Text>, k: nat)
    requires k < |ss|
    ensures Pack(ss) == Pack(ss[..k]) + (ss[k] + [0]) + Pack(ss[k + 1..])
  {
    hide *;
    Around(ss, k);
    PackConcat(ss[..k], [ss[k]] + ss[k + 1..]);
    PackConcat([ss[k]], ss[k + 1..]);
    PackOne(ss[k]);
    Assoc(Pack(ss[..k]), ss[k] + [0], Pack(ss[k + 1..]));
  }

  lemma Around<T>(ss: seq<T>, k: nat)
    requires k < |ss|
    ensures ss == ss[..k] + ([ss[k]] + ss[k + 1..]) && ss == ss[..k] + ss[k..]
  {
  }

  lemma PackNext(ss: seq<Text>, k: nat)
    requires k < |ss|
    ensures |Pack(ss[..k + 1])| == |Pack(ss[..k])| + |ss[k]| + 1
  {
    PackConcat(ss[..k], [ss[k]]);
    PackOne(ss[k]);
    assert ss[..k + 1] == ss[..k] + [ss[k]];
  }

  lemma Assoc<T>(a: seq<T>, b: seq<T>, c: seq<T>)
    ensures a + (b + c) == a + b + c
  {
  }

  lemma Middle<T>(whole: seq<T>, a: seq<T>, b: seq<T>, c: seq<T>)
    requires whole == a + b + c
    ensures whole[|a|..|a| + |b|] == b
  {
  }

  lemma Slices<T>(m: seq<T>, lo: nat, hi: nat, at: nat, n: nat)
    requires lo <= hi <= |m| && at + n <= hi - lo
    ensures m[lo..hi][at..at + n] == m[lo + at..lo + at + n]
  {
    var a, b := m[lo..hi][at..at + n], m[lo + at..lo + at + n];
    assert |a| == |b|;
    assert forall i :: 0 <= i < n ==> a[i] == b[i];
  }

  /** The middle one of three parts of a stretch of memory. */
  lemma Found<T>(m: seq<T>, lo: nat, hi: nat, a: seq<T>, b: seq<T>, c: seq<T>)
    requires lo <= hi <= |m| && m[lo..hi] == a + b + c
    ensures lo + |a| + |b| <= hi && m[lo + |a|..lo + |a| + |b|] == b
  {
    Middle(m[lo..hi], a, b, c);
    Slices(m, lo, hi, |a|, |b|);
  }

  lemma Around2<T>(ss: seq<T>, k: nat)
    requires k <= |ss|
    ensures ss == ss[..k] + ss[k..]
  {
  }

  lemma FrontAndBack<T>(m: seq<T>, lo: nat, hi: nat, a: seq<T>, b: seq<T>, c: seq<T>)
    requires lo <= hi <= |m| && m[lo..hi] == a + (b + c)
    ensures lo + |a| + |b| <= hi
    ensures m[lo..lo + |a|] == a && m[lo + |a| + |b|..hi] == c
  {
    var w := m[lo..hi];
    assert w[..|a|] == a && w[|a| + |b|..] == c;
    assert m[lo..lo + |a|] == w[..|a|];
    assert m[lo + |a| + |b|..hi] == w[|a| + |b|..];
  }

  /** Exchanging r elements at i in one of two lists, seen in the concatenation. */
  lemma ExchangeInFirst<T>(a: seq<T>, b: seq<T>, i: nat, r: nat, xs: seq<T>)
    requires i + r <= |a|
    ensures (a[..i] + xs + a[i + r..]) + b == (a + b)[..i] + xs + (a + b)[i + r..]
  {
    assert (a + b)[..i] == a[..i];
    assert (a + b)[i + r..] == a[i + r..] + b;
  }

  lemma ExchangeInSecond<T>(a: seq<T>, b: seq<T>, i: nat, r: nat, xs: seq<T>)
    requires i + r <= |b|
    ensures a + (b[..i] + xs + b[i + r..]) == (a + b)[..|a| + i] + xs + (a + b)[|a| + i + r..]
  {
    assert (a + b)[..|a| + i] == a + b[..i];
    assert (a + b)[|a| + i + r..] == b[i + r..];
  }

  // ---------- what an adjustment means ----------

  /** The first index of s in l, or |l|. */
  function FirstIndex(l: seq<Text>, s: Text): (i: nat)
    ensures i <= |l| && (i < |l| ==> l[i] == s) && forall j :: 0 <= j < i ==> l[j] != s
  {
    if l == [] || l[0] == s then 0 else 1 + FirstIndex(l[1..], s)
  }

  /** Adding (no old string), replacing or deleting the first match. */
  function Adjusted(l: seq<Text>, oldText: Option<Text>, newText: Option<Text>): seq<Text> {
    match oldText
    case None => if newText.Some? then l + [newText.value] else l
    case Some(o) =>
      var i := FirstIndex(l, o);
      if i == |l| then l
      else l[..i] + (if newText.Some? then [newText.value] else []) + l[i + 1..]
  }

  function Footprint(t: Option<Text>): nat { if t.Some? then |t.value| + 1 else 0 }

  /** Bytes by which an adjustment lengthens the buffer. */
  function Growth(oldText: Option<Text>, newText: Option<Text>): int {
    Footprint(newText) - Footprint(oldText)
  }

  /** Memory after bytes were stored from dst on. */
  ghost predicate Written(before: seq<Byte>, after: seq<Byte>, dst: nat, bytes: seq<Byte>) {
    && |before| == |after| && dst + |bytes| <= |after|
    && after[..dst] == before[..dst]
    && after[dst..dst + |bytes|] == bytes
    && after[dst + |bytes|..] == before[dst + |bytes|..]
  }

  /** Moving the tail and then storing the new bytes makes the splice. */
  lemma SplicedMemory(before: seq<Byte>, moved: seq<Byte>, after: seq<Byte>, p: nat, src: nat, sub: nat,
                      bytes: seq<Byte>, end: nat)
    requires p + sub <= end <= |before| && src == p - (|bytes| - sub) && src + (end - src) <= |before|
    requires Written(before, moved, p, before[src..end]) && Written(moved, after, p, bytes)
    ensures after[..p] == before[..p]
    ensures after[p..p + (end - src)] == bytes + before[p + sub..end]
    ensures after[p + (end - src)..] == before[p + (end - src)..]
  {
    var e := p + (end - src);
    assert moved[p + |bytes|..e] == moved[p..e][|bytes|..] == before[src..end][|bytes|..] == before[p + sub..end];
    assert after[p + |bytes|..e] == after[p + |bytes|..][..e - (p + |bytes|)] == moved[p + |bytes|..e];
    assert after[p..e] == after[p..p + |bytes|] + after[p + |bytes|..e];
    assert after[e..] == after[p + |bytes|..][e - (p + |bytes|)..] == moved[e..];
  }

  class Bootargs {
    // the header
    var sizeLo: Byte
    var sizeHi: Byte
    var argc: int
    var envc: int
    // memory, with the string buffer from index args on
    const mem: array<Byte>
    const args: nat
    // what it stores
    ghost var argv: seq<Text>
    ghost var env: seq<Text>
    ghost var tail: seq<Byte>

    function TotalLen(): nat
      reads `sizeLo, `sizeHi
    {
      sizeLo + sizeHi * 0x100
    }

    ghost function Strings(): seq<Text>
      reads `argv, `env
    {
      argv + env
    }

    /** The counts are right and the strings are stored. */
    ghost predicate Valid()
      reads this, mem
    {
      Stored() && argc == |argv| <= 127 && envc == |env| <= 127
    }

    ghost predicate Stored()
      reads `sizeLo, `sizeHi, `argv, `env, `tail, mem
    {
      StoredIn(TotalLen())
    }

    /** The strings and the tail fill a structure of this size. */
    ghost predicate StoredIn(total: nat)
      reads `argv, `env, `tail, mem
    {
      && HEADER <= args && HEADER <= total && args + total - HEADER <= mem.Length
      && mem[args..args + total - HEADER] == Pack(Strings()) + tail
      && (forall s :: s in Strings() ==> IsText(s))
    }

    // ---------- C library calls on this memory ----------

    method StrLen(p: nat, ghost s: Text)
      returns (n: nat)
      requires p + |s| < mem.Length && mem[p..p + |s| + 1] == s + [0] && IsText(s)
      ensures n == |s|
    {
      n := 0;
      while mem[p + n] != 0
        invariant n <= |s|
        decreases |s| - n
      {
        assert mem[p + n] == mem[p..p + |s| + 1][n] == (s + [0])[n];
        n := n + 1;
      }
      assert mem[p + n] == (s + [0])[n];
    }

    /** The string at p, for strcmp. */
    method ReadText(p: nat, ghost s: Text) returns (t: Text)
      requires p + |s| < mem.Length && mem[p..p + |s| + 1] == s + [0] && IsText(s)
      ensures t == s
    {
      var n := StrLen(p, s);
      t := mem[p..p + n];
      assert t == mem[p..p + n + 1][..n];
    }

    method Memmove(dst: nat, src: nat, n: nat)
      requires dst + n <= mem.Length && src + n <= mem.Length
      modifies mem
      ensures Written(old(mem[..]), mem[..], dst, old(mem[src..src + n]))
    {
      var copy := mem[src..src + n];
      forall i | 0 <= i < n {
        mem[dst + i] := copy[i];
      }
    }

    method Memcpy(dst: nat, bytes: seq<Byte>)
      requires dst + |bytes| <= mem.Length
      modifies mem
      ensures Written(old(mem[..]), mem[..], dst, bytes)
    {
      forall i | 0 <= i < |bytes| {
        mem[dst + i] := bytes[i];
      }
    }

    // ---------- the edit ----------

    /** Replaces sub bytes at p by bytes, moving what follows up to end. The move starts
        |bytes| - sub bytes before p, so that much memory must lie in front. */
    method Splice(p: nat, sub: nat, bytes: seq<Byte>, end: nat)
      requires p + sub <= end && |bytes| - sub <= p
      requires end <= mem.Length && end + |bytes| - sub <= mem.Length
      modifies mem
      ensures mem[..p] == old(mem[..p])
      ensures mem[p..end + |bytes| - sub] == bytes + old(mem[p + sub..end])
      ensures mem[end + |bytes| - sub..] == old(mem[end + |bytes| - sub..])
    {
      var src := p - (|bytes| - sub);
      ghost var before := mem[..];
      Memmove(p, src, end - src);
      ghost var moved := mem[..];
      Memcpy(p, bytes);
      SplicedMemory(before, moved, mem[..], p, src, sub, bytes, end);
    }

    /** The memory at the k-th string. */
    lemma StringAt(k: nat)
      requires Stored() && k <= |Strings()|
      ensures var p := args + |Pack(Strings()[..k])|;
              && p <= args + TotalLen() - HEADER
              && (k < |Strings()| ==>
                    && IsText(Strings()[k])
                    && p + |Strings()[k]| + 1 <= args + TotalLen() - HEADER
                    && mem[p..p + |Strings()[k]| + 1] == Strings()[k] + [0]
                    && |Pack(Strings()[..k + 1])| == |Pack(Strings()[..k])| + |Strings()[k]| + 1)
    {
      var ss := Strings();
      var end := args + TotalLen() - HEADER;
      if k < |ss| {
        PackAround(ss, k);
        PackNext(ss, k);
        assert ss[k] in ss;
        hide *;
        ghost var front, back := Pack(ss[..k]), Pack(ss[k + 1..]);
        Assoc(front + (ss[k] + [0]), back, tail);
        Found(mem[..], args, end, front, ss[k] + [0], back + tail);
        assert mem[..][args + |front|..args + |front| + |ss[k]| + 1] == mem[args + |front|..args + |front| + |ss[k]| + 1];
      } else {
        assert ss[..k] == ss;
      }
    }

    /** What lies around position k: the strings before, the one removed, the rest and the tail. */
    lemma SplitAt(k: nat, remove: bool)
      requires Stored() && k <= |Strings()| && (remove ==> k < |Strings()|)
      ensures var ss := Strings();
              var p := args + |Pack(ss[..k])|;
              var sub := if remove then |ss[k]| + 1 else 0;
              var end := args + TotalLen() - HEADER;
              && p + sub <= end
              && mem[args..p] == Pack(ss[..k])
              && mem[p + sub..end] == Pack(ss[if remove then k + 1 else k..]) + tail
    {
      hide *;
      Contents();
      var ss := Strings();
      var end := args + TotalLen() - HEADER;
      if remove {
        PackAround(ss, k);
        Assoc(Pack(ss[..k]) + (ss[k] + [0]), Pack(ss[k + 1..]), tail);
        Assoc(Pack(ss[..k]), ss[k] + [0], Pack(ss[k + 1..]) + tail);
        FrontAndBack(mem[..], args, end, Pack(ss[..k]), ss[k] + [0], Pack(ss[k + 1..]) + tail);
      } else {
        PackConcat(ss[..k], ss[k..]);
        Around2(ss, k);
        Assoc(Pack(ss[..k]), Pack(ss[k..]), tail);
        FrontAndBack(mem[..], args, end, Pack(ss[..k]), [], Pack(ss[k..]) + tail);
      }
    }

    lemma Contents()
      requires Stored()
      ensures Strings() == argv + env
      ensures HEADER <= args && HEADER <= TotalLen() && args + TotalLen() - HEADER <= mem.Length
      ensures mem[..][args..args + TotalLen() - HEADER] == Pack(Strings()) + tail
      ensures forall s :: s in Strings() ==> IsText(s)
    {
      assert mem[..][args..args + TotalLen() - HEADER] == mem[args..args + TotalLen() - HEADER];
    }

    /** Exchanges the string at p (or none) for the given bytes; the size keeps 16 bits of the total. */
    method Edit(p: nat, sub: nat, bytes: seq<Byte>, ghost k: nat, ghost remove: bool) returns (ghost total: nat)
      requires Stored() && k <= |Strings()| && (remove ==> k < |Strings()|)
      requires p == args + |Pack(Strings()[..k])| && sub == if remove then |Strings()[k]| + 1 else 0
      requires |bytes| - sub <= p
      requires args + TotalLen() - HEADER + |bytes| - sub <= mem.Length
      modifies `sizeLo, `sizeHi, mem
      ensures total == old(TotalLen()) + |bytes| - sub && TotalLen() == total % 0x1_0000
      ensures HEADER <= total && args + total - HEADER <= mem.Length
      ensures mem[args..args + total - HEADER] ==
                Pack(Strings()[..k]) + bytes + (Pack(Strings()[if remove then k + 1 else k..]) + tail)
      ensures mem[..args] == old(mem[..args])
    {
      hide *;
      SplitAt(k, remove);
      Contents();
      total := EditBytes(p, sub, bytes, Pack(Strings()[..k]), Pack(Strings()[if remove then k + 1 else k..]) + tail);
    }

    /** The same on the buffer as bytes, with front and back around the place of the edit. */
    method EditBytes(p: nat, sub: nat, bytes: seq<Byte>, ghost front: seq<Byte>, ghost back: seq<Byte>)
      returns (ghost total: nat)
      requires HEADER <= args && HEADER <= TotalLen() && |bytes| - sub <= p
      requires args <= p && p + sub <= args + TotalLen() - HEADER <= mem.Length
      requires args + TotalLen() - HEADER + |bytes| - sub <= mem.Length
      requires mem[args..p] == front && mem[p + sub..args + TotalLen() - HEADER] == back
      modifies `sizeLo, `sizeHi, mem
      ensures total == old(TotalLen()) + |bytes| - sub && TotalLen() == total % 0x1_0000
      ensures HEADER <= total && args + total - HEADER <= mem.Length
      ensures mem[args..args + total - HEADER] == front + bytes + back
      ensures mem[..args] == old(mem[..args])
    {
      var len, end := TotalLen(), args + TotalLen() - HEADER;
      assert HEADER == 8;
      hide *;
      var newEnd := SpliceBuffer(p, sub, bytes, end, front, back);
      SetTotalLen(len + |bytes| - sub);
      total := len + |bytes| - sub;
      assert newEnd == args + total - HEADER;
    }

    /** The splice, seen as an edit of the buffer's contents. */
    method SpliceBuffer(p: nat, sub: nat, bytes: seq<Byte>, end: nat, ghost front: seq<Byte>, ghost back: seq<Byte>)
      returns (newEnd: nat)
      requires args <= p && p + sub <= end <= mem.Length && |bytes| - sub <= p
      requires end + |bytes| - sub <= mem.Length
      requires mem[args..p] == front && mem[p + sub..end] == back
      modifies mem
      ensures newEnd == end + |bytes| - sub && args <= newEnd <= mem.Length
      ensures mem[args..newEnd] == front + bytes + back
      ensures mem[..args] == old(mem[..args])
    {
      newEnd := end + |bytes| - sub;
      ghost var m0 := mem[..];
      assert m0[args..p] == front && m0[p + sub..end] == back;
      Splice(p, sub, bytes, end);
      Rejoin(m0, mem[..], args, p, sub, bytes, end);
    }

    /** Each of the two size fields keeps a byte. */
    method SetTotalLen(total: nat)
      modifies `sizeLo, `sizeHi
      ensures TotalLen() == total % 0x1_0000
    {
      sizeLo, sizeHi := total % 0x100, total / 0x100 % 0x100;
      TwoBytes(total);
    }

    /** Finds the place of the edit: the first match of oldText among num strings from index start on,
        or the end of them. */
    method Search(oldText: Option<Text>, start: nat, num: nat, ghost list: seq<Text>)
      returns (found: bool, p: nat, subLen: nat, ghost k: nat)
      requires Stored() && start + num <= |Strings()| && list == Strings()[start..start + num]
      ensures k == start + (if oldText.None? then num else FirstIndex(list, oldText.value))
      ensures found <==> oldText.Some? && k < start + num
      ensures p == args + |Pack(Strings()[..k])|
      ensures subLen == if found then |Strings()[k]| + 1 else 0
    {
      hide *;
      Contents();
      p, k := Skip(start);
      var left: nat := num;
      while left != 0
        invariant left <= num && k == start + (num - left) && p == args + |Pack(Strings()[..k])|
        invariant oldText.Some? ==> forall j :: 0 <= j < num - left ==> list[j] != oldText.value
        decreases left
      {
        StringAt(k);
        var text := ReadText(p, Strings()[k]);
        if oldText.Some? && text == oldText.value {
          FirstIndexAt(list, oldText.value, k - start);
          return true, p, |text| + 1, k;
        }
        p, left, k := p + |text| + 1, left - 1, k + 1;
      }
      if oldText.Some? {
        FirstIndexAt(list, oldText.value, num);
      }
      return false, p, 0, k;
    }

    /** Past the first start strings. */
    method Skip(start: nat) returns (p: nat, ghost k: nat)
      requires Stored() && start <= |Strings()|
      ensures k == start && p == args + |Pack(Strings()[..k])|
    {
      p, k := args, 0;
      var left: nat := start;
      hide *;
      NothingPacked();
      while left != 0
        invariant k + left == start && p == args + |Pack(Strings()[..k])|
        decreases left
      {
        StringAt(k);
        var n := StrLen(p, Strings()[k]);
        p, left, k := p + n + 1, left - 1, k + 1;
      }
    }

    /** Memory for a string buffer that grows at the k-th string: the move starts as many bytes before
        that string as the buffer grows, and the end moves up by as many. */
    ghost predicate RoomAt(growth: int, k: nat)
      reads `sizeLo, `sizeHi, `argv, `env
    {
      && k <= |Strings()| && growth <= args + |Pack(Strings()[..k])|
      && args + TotalLen() - HEADER + growth <= mem.Length
    }

    /** The same at the place of an adjustment, if there is one to make. */
    ghost predicate Room(oldText: Option<Text>, newText: Option<Text>, inEnv: bool)
      reads `sizeLo, `sizeHi, `argv, `env
    {
      var start, list := if inEnv then |argv| else 0, if inEnv then env else argv;
      if oldText.None? then RoomAt(Growth(oldText, newText), start + |list|)
      else oldText.value in list ==> RoomAt(Growth(oldText, newText), start + FirstIndex(list, oldText.value))
    }

    lemma RoomHere(oldText: Option<Text>, newText: Option<Text>, inEnv: bool, k: nat)
      requires Room(oldText, newText, inEnv)
      requires var start, list := if inEnv then |argv| else 0, if inEnv then env else argv;
               && k == start + (if oldText.None? then |list| else FirstIndex(list, oldText.value))
               && (oldText.Some? ==> oldText.value in list)
      ensures RoomAt(Growth(oldText, newText), k)
    {
    }

    /** The common body of the two adjusters: inEnv selects the list. The strings are edited as they
        should be; the stored size, and with it the whole structure, is right if and only if the new
        size fits 16 bits. */
    method DoAdjust(oldText: Option<Text>, newText: Option<Text>, inEnv: bool) returns (found: bool)
      requires Valid() && (oldText.Some? || newText.Some?)
      requires oldText.None? ==> (if inEnv then envc else argc) < 127
      requires (newText.Some? ==> IsText(newText.value)) && Room(oldText, newText, inEnv)
      modifies this, mem
      ensures var total := old(TotalLen()) + if found then Growth(oldText, newText) else 0;
              && total >= 0 && StoredIn(total) && argc == |argv| <= 127 && envc == |env| <= 127
              && TotalLen() == total % 0x1_0000
              && (Valid() <==> total < 0x1_0000)
      ensures tail == old(tail)
      ensures argv == if inEnv then old(argv) else Adjusted(old(argv), oldText, newText)
      ensures env == if inEnv then Adjusted(old(env), oldText, newText) else old(env)
      ensures found <==> oldText.None? || oldText.value in (if inEnv then old(env) else old(argv))
      ensures mem[..args] == old(mem[..args])
    {
      hide *;
      ghost var list := if inEnv then env else argv;
      var matched, p, subLen, k := Locate(oldText, inEnv);
      if oldText.Some? && !matched {
        Unmatched(list, oldText.value, newText);
        SizeFits();
        return false;
      }
      RoomHere(oldText, newText, inEnv, k);
      Count(inEnv, if newText.None? then -1 else if oldText.None? then 1 else 0);
      ghost var total := ApplyEdit(oldText, newText, inEnv, p, subLen, k);
      AdjustedLength(list, oldText, newText);
      CountsMatch(total);
      return true;
    }

    /** The place of the edit in the selected list. */
    method Locate(oldText: Option<Text>, inEnv: bool) returns (matched: bool, p: nat, subLen: nat, ghost k: nat)
      requires Valid()
      ensures var start, list := if inEnv then |argv| else 0, if inEnv then env else argv;
              && k == start + (if oldText.None? then |list| else FirstIndex(list, oldText.value))
              && (matched <==> oldText.Some? && k < start + |list|)
              && (matched <==> oldText.Some? && oldText.value in list)
      ensures k <= |Strings()| && (matched ==> k < |Strings()|)
      ensures p == args + |Pack(Strings()[..k])|
      ensures subLen == if matched then |Strings()[k]| + 1 else 0
      ensures Stored() && argc == |argv| <= 127 && envc == |env| <= 127
    {
      hide *;
      Counted();
      Contents();
      ConcatSlices(argv, env);
      if inEnv {
        if oldText.Some? { FirstIndexIn(env, oldText.value); }
        matched, p, subLen, k := Search(oldText, argc, envc, env);
      } else {
        if oldText.Some? { FirstIndexIn(argv, oldText.value); }
        matched, p, subLen, k := Search(oldText, 0, argc, argv);
      }
    }

    lemma Counted()
      requires Valid()
      ensures Stored() && argc == |argv| <= 127 && envc == |env| <= 127
    {
    }

    /** The stored size is the size of what is stored. */
    lemma SizeIsContents()
      requires Valid()
      ensures TotalLen() == HEADER + |Pack(argv)| + |Pack(env)| + |tail|
      ensures HEADER <= args && args + TotalLen() - HEADER <= mem.Length
    {
      PackConcat(argv, env);
    }

    /** Two sizes for the same contents are one. */
    lemma CountsMatch(total: nat)
      requires StoredIn(total) && argc == |argv| <= 127 && envc == |env| <= 127
      requires TotalLen() == total % 0x1_0000
      ensures Valid() <==> total < 0x1_0000
    {
      if Valid() {
        assert |mem[args..args + TotalLen() - HEADER]| == |mem[args..args + total - HEADER]|;
      }
    }

    /** What is stored at all has a size that two bytes hold. */
    lemma SizeFits()
      requires Valid()
      ensures StoredIn(TotalLen()) && TotalLen() == TotalLen() % 0x1_0000
    {
    }

    method Count(inEnv: bool, change: int)
      modifies `argc, `envc
      ensures argc == old(argc) + if inEnv then 0 else change
      ensures envc == old(envc) + if inEnv then change else 0
    {
      if inEnv {
        envc := envc + change;
      } else {
        argc := argc + change;
      }
    }

    /** Carries out the adjustment at the place found. */
    method ApplyEdit(oldText: Option<Text>, newText: Option<Text>, inEnv: bool, p: nat, subLen: nat, ghost k: nat)
      returns (ghost total: nat)
      requires Stored() && (oldText.Some? || newText.Some?)
      requires (newText.Some? ==> IsText(newText.value)) && RoomAt(Growth(oldText, newText), k)
      requires var start, list := if inEnv then |argv| else 0, if inEnv then env else argv;
               && k == start + (if oldText.None? then |list| else FirstIndex(list, oldText.value))
               && (oldText.Some? ==> k < start + |list|)
      requires k <= |Strings()| && (oldText.Some? ==> k < |Strings()|)
      requires p == args + |Pack(Strings()[..k])|
      requires subLen == if oldText.Some? then |Strings()[k]| + 1 else 0
      modifies `sizeLo, `sizeHi, `argv, `env, mem
      ensures StoredIn(total) && total == old(TotalLen()) + Growth(oldText, newText)
      ensures TotalLen() == total % 0x1_0000
      ensures argv == if inEnv then old(argv) else Adjusted(old(argv), oldText, newText)
      ensures env == if inEnv then Adjusted(old(env), oldText, newText) else old(env)
      ensures mem[..args] == old(mem[..args])
    {
      hide *;
      ghost var ss := Strings();
      Contents();
      var bytes := if newText.Some? then newText.value + [0] else [];
      EditFits(oldText, newText, inEnv, k, |bytes|, subLen);
      total := Edit(p, subLen, bytes, k, oldText.Some?);
      Restring(inEnv, oldText, newText, k, ss, bytes, total);
    }

    /** The edit grows the buffer by the growth of the adjustment. */
    lemma EditFits(oldText: Option<Text>, newText: Option<Text>, inEnv: bool, k: nat, add: nat, sub: nat)
      requires Stored() && RoomAt(Growth(oldText, newText), k)
      requires var start, list := if inEnv then |argv| else 0, if inEnv then env else argv;
               && k == start + (if oldText.None? then |list| else FirstIndex(list, oldText.value))
               && (oldText.Some? ==> k < start + |list|)
      requires k <= |Strings()| && (oldText.Some? ==> k < |Strings()|)
      requires add == (if newText.Some? then |newText.value| + 1 else 0)
      requires sub == if oldText.Some? then |Strings()[k]| + 1 else 0
      ensures Growth(oldText, newText) == add - sub
      ensures add - sub <= args + |Pack(Strings()[..k])|
      ensures args + TotalLen() - HEADER + add - sub <= mem.Length
    {
      hide Pack, Stored, TotalLen, IsText, HEADER;
    }

    /** The ghost lists follow the edit. */
    ghost method Restring(inEnv: bool, oldText: Option<Text>, newText: Option<Text>, k: nat, ss: seq<Text>, bytes: seq<Byte>,
                          total: nat)
      requires oldText.Some? || newText.Some?
      requires ss == argv + env && (forall s :: s in ss ==> IsText(s))
      requires newText.Some? ==> IsText(newText.value)
      requires bytes == if newText.Some? then newText.value + [0] else []
      requires var start, list := if inEnv then |argv| else 0, if inEnv then env else argv;
               && k == start + (if oldText.None? then |list| else FirstIndex(list, oldText.value))
               && (oldText.Some? ==> k < start + |list|)
      requires HEADER <= args && HEADER <= total && args + total - HEADER <= mem.Length
      requires k <= |ss| && (oldText.Some? ==> k < |ss|)
      requires mem[args..args + total - HEADER] ==
                 Pack(ss[..k]) + bytes + (Pack(ss[if oldText.Some? then k + 1 else k..]) + tail)
      modifies `argv, `env
      ensures StoredIn(total)
      ensures argv == if inEnv then old(argv) else Adjusted(old(argv), oldText, newText)
      ensures env == if inEnv then Adjusted(old(env), oldText, newText) else old(env)
    {
      hide *;
      ListEffect(argv, env, inEnv, oldText, newText, k);
      PackAdding(newText);
      AdjustedTexts(argv, env, inEnv, oldText, newText, k);
      Assoc(Pack(ss[..k]) + bytes, Pack(ss[if oldText.Some? then k + 1 else k..]), tail);
      if inEnv {
        env := Adjusted(env, oldText, newText);
      } else {
        argv := Adjusted(argv, oldText, newText);
      }
      NowStored(total);
    }

    lemma NowStored(total: nat)
      requires HEADER <= args && HEADER <= total && args + total - HEADER <= mem.Length
      requires mem[args..args + total - HEADER] == Pack(argv + env) + tail
      requires forall s :: s in argv + env ==> IsText(s)
      ensures StoredIn(total)
    {
    }
  }

  lemma TwoBytes(total: nat)
    ensures total % 0x100 + total / 0x100 % 0x100 * 0x100 == total % 0x1_0000
  {
    var q := total / 0x100;
    assert total == (q / 0x100) * 0x1_0000 + (q % 0x100 * 0x100 + total % 0x100);
  }

  /** An adjustment by a proper text leaves only proper texts. */
  lemma AdjustedTexts(argv: seq<Text>, env: seq<Text>, inEnv: bool, oldText: Option<Text>, newText: Option<Text>,
                      k: nat)
    requires forall s :: s in argv + env ==> IsText(s)
    requires newText.Some? ==> IsText(newText.value)
    ensures var argv' := if inEnv then argv else Adjusted(argv, oldText, newText);
            var env' := if inEnv then Adjusted(env, oldText, newText) else env;
            forall s :: s in argv' + env' ==> IsText(s)
  {
    hide FirstIndex, IsText;
    var list := if inEnv then env else argv;
    forall s | s in Adjusted(list, oldText, newText) ensures IsText(s) {
      assert s in list || newText == Some(s);
      if s in list { assert s in argv + env; }
    }
    forall s | s in (if inEnv then argv else env) ensures IsText(s) {
      assert s in argv + env;
    }
  }

  lemma NothingPacked()
    ensures forall ss: seq<Text> :: Pack(ss[..0]) == []
  {
  }

  lemma PackAdding(newText: Option<Text>)
    ensures Pack(if newText.Some? then [newText.value] else []) == if newText.Some? then newText.value + [0] else []
  {
    if newText.Some? { PackOne(newText.value); }
  }

  lemma AdjustedLength(l: seq<Text>, oldText: Option<Text>, newText: Option<Text>)
    ensures |Adjusted(l, oldText, newText)| ==
              |l| + (if oldText.None? && newText.Some? then 1
                     else if oldText.Some? && newText.None? && oldText.value in l then -1 else 0)
  {
  }

  lemma {:induction false} EditedFirst(list: seq<Text>, other: seq<Text>,
                                       oldText: Option<Text>, newText: Option<Text>, i: nat, r: nat)
    requires (oldText.Some? || newText.Some?) && r == if oldText.Some? then 1 else 0
    requires i + r <= |list| && i == if oldText.None? then |list| else FirstIndex(list, oldText.value)
    ensures Adjusted(list, oldText, newText) + other ==
              (list + other)[..i] + (if newText.Some? then [newText.value] else []) + (list + other)[i + r..]
  {
    hide *;
    AdjustedAround(list, oldText, newText, i);
    ExchangeInFirst(list, other, i, r, if newText.Some? then [newText.value] else []);
  }

  lemma {:induction false} EditedSecond(other: seq<Text>, list: seq<Text>,
                                        oldText: Option<Text>, newText: Option<Text>, i: nat, r: nat)
    requires (oldText.Some? || newText.Some?) && r == if oldText.Some? then 1 else 0
    requires i + r <= |list| && i == if oldText.None? then |list| else FirstIndex(list, oldText.value)
    ensures other + Adjusted(list, oldText, newText) ==
              (other + list)[..|other| + i] + (if newText.Some? then [newText.value] else []) +
              (other + list)[|other| + i + r..]
  {
    hide *;
    AdjustedAround(list, oldText, newText, i);
    ExchangeInSecond(other, list, i, r, if newText.Some? then [newText.value] else []);
  }

  /** The edited list and its neighbour, joined, are the old ones with one exchange at position k. */
  lemma ListEdit(argv: seq<Text>, env: seq<Text>, inEnv: bool, oldText: Option<Text>, newText: Option<Text>, k: nat)
    requires oldText.Some? || newText.Some?
    requires var start, list := if inEnv then |argv| else 0, if inEnv then env else argv;
             && k == start + (if oldText.None? then |list| else FirstIndex(list, oldText.value))
             && (oldText.Some? ==> k < start + |list|)
    ensures var ss := argv + env;
            var adding := if newText.Some? then [newText.value] else [];
            var argv' := if inEnv then argv else Adjusted(argv, oldText, newText);
            var env' := if inEnv then Adjusted(env, oldText, newText) else env;
            && k <= |ss| && (oldText.Some? ==> k < |ss|)
            && argv' + env' == ss[..k] + adding + ss[if oldText.Some? then k + 1 else k..]
  {
    hide *;
    var r := if oldText.Some? then 1 else 0;
    if inEnv {
      EditedSecond(argv, env, oldText, newText, k - |argv|, r);
    } else {
      EditedFirst(argv, env, oldText, newText, k, r);
    }
  }

  /** The same, packed. */
  lemma ListEffect(argv: seq<Text>, env: seq<Text>, inEnv: bool, oldText: Option<Text>, newText: Option<Text>, k: nat)
    requires oldText.Some? || newText.Some?
    requires var start, list := if inEnv then |argv| else 0, if inEnv then env else argv;
             && k == start + (if oldText.None? then |list| else FirstIndex(list, oldText.value))
             && (oldText.Some? ==> k < start + |list|)
    ensures var ss := argv + env;
            var adding := if newText.Some? then [newText.value] else [];
            var argv' := if inEnv then argv else Adjusted(argv, oldText, newText);
            var env' := if inEnv then Adjusted(env, oldText, newText) else env;
            && k <= |ss| && (oldText.Some? ==> k < |ss|)
            && Pack(argv' + env') ==
                 Pack(ss[..k]) + Pack(adding) + Pack(ss[if oldText.Some? then k + 1 else k..])
            && argv' + env' == ss[..k] + adding + ss[if oldText.Some? then k + 1 else k..]
  {
    hide *;
    ListEdit(argv, env, inEnv, oldText, newText, k);
    var ss := argv + env;
    var adding := if newText.Some? then [newText.value] else [];
    var back := ss[if oldText.Some? then k + 1 else k..];
    PackConcat(ss[..k] + adding, back);
    PackConcat(ss[..k], adding);
  }

  lemma {:induction false} AdjustedAround(list: seq<Text>, oldText: Option<Text>, newText: Option<Text>, i: nat)
    requires oldText.Some? || newText.Some?
    requires i == if oldText.None? then |list| else FirstIndex(list, oldText.value)
    requires oldText.Some? ==> i < |list|
    ensures Adjusted(list, oldText, newText) ==
              list[..i] + (if newText.Some? then [newText.value] else []) + list[if oldText.Some? then i + 1 else i..]
  {
  }

  lemma ConcatSlices<T>(a: seq<T>, b: seq<T>)
    ensures (a + b)[0..|a|] == a && (a + b)[|a|..|a| + |b|] == b
  {
  }

  lemma Unmatched(l: seq<Text>, s: Text, newText: Option<Text>)
    requires s !in l
    ensures Adjusted(l, Some(s), newText) == l
  {
  }

  lemma {:induction false} FirstIndexIn(l: seq<Text>, s: Text)
    ensures FirstIndex(l, s) < |l| <==> s in l
  {
  }

  lemma {:induction false} FirstIndexAt(l: seq<Text>, s: Text, i: nat)
    requires i <= |l| && (i < |l| ==> l[i] == s)
    requires forall j :: 0 <= j < i ==> l[j] != s
    ensures FirstIndex(l, s) == i
  {
  }

  /** The buffer after a splice, seen from its first byte. */
  lemma Rejoin(before: seq<Byte>, after: seq<Byte>, first: nat, p: nat, sub: nat, bytes: seq<Byte>, end: nat)
    requires first <= p && p + sub <= end <= |before| == |after| && end + |bytes| - sub <= |after|
    requires after[..p] == before[..p]
    requires after[p..end + |bytes| - sub] == bytes + before[p + sub..end]
    ensures after[first..end + |bytes| - sub] == before[first..p] + bytes + before[p + sub..end]
    ensures after[..first] == before[..first]
  {
    var e := end + |bytes| - sub;
    assert after[first..e] == after[..p][first..] + after[p..e];
    assert after[..p][first..] == before[first..p];
    assert after[..first] == after[..p][..first];
  }
}
