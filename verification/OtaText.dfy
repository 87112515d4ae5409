/** Text handling shared by the OTA client: trimming, lines, decimal integers. */
module OtaText {
  import opened Common

  // ---------- trimming ----------

  predicate IsBlank(c: char) {
    c == ' ' || c == '\t' || c == '\r' || c == '\n'
  }

  function TrimStart(s: string): (r: string)
    ensures |r| <= |s| && r == s[|s| - |r|..]
    ensures r != "" ==> !IsBlank(r[0])
    ensures forall i :: 0 <= i < |s| - |r| ==> IsBlank(s[i])
  {
    if s != "" && IsBlank(s[0]) then TrimStart(s[1..]) else s
  }

  function TrimEnd(s: string): (r: string)
    ensures |r| <= |s| && r == s[..|r|]
    ensures r != "" ==> !IsBlank(r[|r| - 1])
    ensures forall i :: |r| <= i < |s| ==> IsBlank(s[i])
  {
    if s != "" && IsBlank(s[|s| - 1]) then TrimEnd(s[..|s| - 1]) else s
  }

  function Trimmed(s: string): (r: string)
    ensures IsTrimmed(r)
    ensures forall c :: c in r ==> c in s
  {
    TrimEnd(TrimStart(s))
  }

  predicate IsTrimmed(s: string) {
    s != "" ==> !IsBlank(s[0]) && !IsBlank(s[|s| - 1])
  }

  lemma {:induction false} TrimStartPadded(pre: string, s: string)
    requires forall c :: c in pre ==> IsBlank(c)
    requires s != "" ==> !IsBlank(s[0])
    ensures TrimStart(pre + s) == s
  {
    if pre == "" {
      assert pre + s == s;
    } else {
      assert (pre + s)[1..] == pre[1..] + s;
      TrimStartPadded(pre[1..], s);
    }
  }

  lemma {:induction false} TrimEndPadded(s: string, post: string)
    requires forall c :: c in post ==> IsBlank(c)
    requires s != "" ==> !IsBlank(s[|s| - 1])
    ensures TrimEnd(s + post) == s
  {
    if post == "" {
      assert s + post == s;
    } else {
      assert (s + post)[..|s + post| - 1] == s + post[..|post| - 1];
      TrimEndPadded(s, post[..|post| - 1]);
    }
  }

  /** Trimming removes exactly the blanks around a trimmed text. */
  lemma TrimmedPadded(pre: string, s: string, post: string)
    requires forall c :: c in pre || c in post ==> IsBlank(c)
    requires IsTrimmed(s)
    ensures Trimmed(pre + s + post) == s
  {
    if s == "" {
      assert pre + s + post == (pre + post) + "";
      TrimStartPadded(pre + post, "");
    } else {
      assert pre + s + post == pre + (s + post);
      TrimStartPadded(pre, s + post);
      TrimEndPadded(s, post);
    }
  }

  lemma TrimmedIdentity(s: string)
    requires IsTrimmed(s)
    ensures Trimmed(s) == s
  {
    TrimmedPadded("", s, "");
    assert "" + s + "" == s;
  }

  predicate AllBlank(s: string) { forall c :: c in s ==> IsBlank(c) }

  lemma StartTaken(s: string) returns (pre: string)
    ensures s == pre + TrimStart(s) && AllBlank(pre)
  {
    pre := s[..|s| - |TrimStart(s)|];
  }

  lemma EndTaken(s: string) returns (post: string)
    ensures s == TrimEnd(s) + post && AllBlank(post)
  {
    post := s[|TrimEnd(s)|..];
  }

  /** What trimming took off. */
  lemma TrimmedAround(s: string) returns (pre: string, post: string)
    ensures s == pre + Trimmed(s) + post && AllBlank(pre) && AllBlank(post)
  {
    hide TrimStart, TrimEnd, AllBlank;
    pre := StartTaken(s);
    post := EndTaken(TrimStart(s));
    var r := Trimmed(s);
    assert pre + (r + post) == pre + r + post;
  }

  // ---------- searching ----------

  /** std::string::find: the first index of c at or after from, or |s|. */
  function FindChar(s: string, c: char, from: nat): (r: nat)
    requires from <= |s|
    ensures from <= r <= |s|
    ensures r < |s| ==> s[r] == c
    ensures forall i :: from <= i < r ==> s[i] != c
    decreases |s| - from
  {
    if from == |s| || s[from] == c then from else FindChar(s, c, from + 1)
  }

  lemma {:induction false} FindCharAt(s: string, c: char, from: nat, at: nat)
    requires from <= at < |s| && s[at] == c
    requires forall i :: from <= i < at ==> s[i] != c
    ensures FindChar(s, c, from) == at
  {
  }

  // ---------- lines ----------

  /** The lines std::getline yields: a final line without newline counts. */
  function Lines(content: string): (ls: seq<string>)
    ensures forall l :: l in ls ==> '\n' !in l
    decreases |content|
  {
    if content == "" then []
    else
      var i := FindChar(content, '\n', 0);
      if i == |content| then [content]
      else [content[..i]] + Lines(content[i + 1..])
  }

  /** Every line followed by a newline, as the client writes its files. */
  function Render(ls: seq<string>): string {
    if ls == [] then "" else ls[0] + "\n" + Render(ls[1..])
  }

  lemma {:induction false} LinesCons(line: string, rest: string)
    requires '\n' !in line
    ensures Lines(line + "\n" + rest) == [line] + Lines(rest)
  {
    var s := line + "\n" + rest;
    FindCharAt(s, '\n', 0, |line|);
    assert s[..|line|] == line && s[|line| + 1..] == rest;
  }

  /** Reading back what was rendered gives the same lines. */
  lemma {:induction false} LinesOfRender(ls: seq<string>)
    requires forall l :: l in ls ==> '\n' !in l
    ensures Lines(Render(ls)) == ls
  {
    if ls != [] {
      LinesCons(ls[0], Render(ls[1..]));
      LinesOfRender(ls[1..]);
    }
  }

  // ---------- decimal integers ----------

  predicate IsDigit(c: char) { '0' <= c <= '9' }

  function DigitValue(c: char): (d: nat)
    requires IsDigit(c)
    ensures d < 10
  {
    (c - '0') as int
  }

  function DigitChar(d: nat): (c: char)
    requires d < 10
    ensures IsDigit(c) && DigitValue(c) == d
  {
    '0' + d as char
  }

  function ShowNat(n: nat): (s: string)
    ensures s != "" && forall c :: c in s ==> IsDigit(c)
  {
    if n < 10 then [DigitChar(n)] else ShowNat(n / 10) + [DigitChar(n % 10)]
  }

  /** operator<< on an integer. */
  function ShowInt(n: int): string {
    if n < 0 then "-" + ShowNat(-n) else ShowNat(n)
  }

  /** The value of a digit string, most significant first. */
  function DigitsValue(s: string): nat
    requires forall c :: c in s ==> IsDigit(c)
  {
    if s == "" then 0 else 10 * DigitsValue(s[..|s| - 1]) + DigitValue(s[|s| - 1])
  }

  /** The longest digit prefix. */
  function DigitPrefix(s: string): (r: string)
    ensures r <= s && forall c :: c in r ==> IsDigit(c)
    ensures |r| < |s| ==> !IsDigit(s[|r|])
  {
    if s != "" && IsDigit(s[0]) then [s[0]] + DigitPrefix(s[1..]) else ""
  }

  predicate IsSpace(c: char) {
    IsBlank(c) || c as int == 11 || c as int == 12
  }

  function SkipSpace(s: string): string {
    if s != "" && IsSpace(s[0]) then SkipSpace(s[1..]) else s
  }

  /** std::stoi / std::stoll: white space, a sign, digits, the rest ignored.
      None stands for the exceptions (no digits, or out of [lo, hi]). */
  function ParseInt(s: string, lo: int, hi: int): (r: Option<int>)
    ensures r.Some? ==> lo <= r.value <= hi
  {
    var t := SkipSpace(s);
    if t != "" && t[0] == '-' then ParseMagnitude(true, t[1..], lo, hi)
    else if t != "" && t[0] == '+' then ParseMagnitude(false, t[1..], lo, hi)
    else ParseMagnitude(false, t, lo, hi)
  }

  function Signed(negative: bool, m: int): int { if negative then -m else m }

  function ParseMagnitude(negative: bool, body: string, lo: int, hi: int): (r: Option<int>)
    ensures r.Some? ==> lo <= r.value <= hi
  {
    var digits := DigitPrefix(body);
    if digits == "" then None
    else
      var v := Signed(negative, DigitsValue(digits));
      if lo <= v <= hi then Some(v) else None
  }

  lemma {:induction false} ShowNatValue(n: nat)
    ensures DigitsValue(ShowNat(n)) == n
  {
    if n >= 10 {
      ShowNatValue(n / 10);
      var s := ShowNat(n);
      assert s[..|s| - 1] == ShowNat(n / 10);
    } else {
      assert ShowNat(n)[..0] == "";
    }
  }

  lemma {:induction false} DigitPrefixAll(s: string, rest: string)
    requires forall c :: c in s ==> IsDigit(c)
    requires rest != "" ==> !IsDigit(rest[0])
    ensures DigitPrefix(s + rest) == s
  {
    if s == "" {
      assert s + rest == rest;
    } else {
      assert (s + rest)[1..] == s[1..] + rest;
      DigitPrefixAll(s[1..], rest);
    }
  }

  lemma {:induction false} ParseMagnitudeOfShow(negative: bool, m: nat, rest: string, lo: int, hi: int)
    requires lo <= Signed(negative, m) <= hi
    requires rest != "" ==> !IsDigit(rest[0])
    ensures ParseMagnitude(negative, ShowNat(m) + rest, lo, hi) == Some(Signed(negative, m))
  {
    ShowNatValue(m);
    DigitPrefixAll(ShowNat(m), rest);
    hide ShowNat, DigitPrefix, DigitsValue;
  }

  /** Printing and parsing an integer are inverse, whatever follows it. */
  lemma ParseOfShow(n: int, rest: string, lo: int, hi: int)
    requires lo <= n <= hi
    requires rest != "" ==> !IsDigit(rest[0])
    ensures ParseInt(ShowInt(n) + rest, lo, hi) == Some(n)
  {
    hide ShowNat, ParseMagnitude;
    var m: nat := if n < 0 then -n else n;
    var body := ShowNat(m) + rest;
    ParseMagnitudeOfShow(n < 0, m, rest, lo, hi);
    var s := ShowInt(n) + rest;
    if n < 0 {
      assert s == ['-'] + body;
      assert s[1..] == body;
    } else {
      assert s == body && IsDigit(s[0]);
    }
    assert SkipSpace(s) == s;
  }

  /** n with that many zeros in front. */
  function Padded(zeros: nat, n: nat): (s: string)
    ensures s != "" && forall c :: c in s ==> IsDigit(c)
  {
    if zeros == 0 then ShowNat(n) else ['0'] + Padded(zeros - 1, n)
  }

  lemma {:induction false} LeadingZero(s: string)
    requires forall c :: c in s ==> IsDigit(c)
    ensures DigitsValue(['0'] + s) == DigitsValue(s)
  {
    var t := ['0'] + s;
    if s == "" {
      assert t[..0] == "" && DigitValue('0') == 0;
    } else {
      assert t[..|t| - 1] == ['0'] + s[..|s| - 1];
      LeadingZero(s[..|s| - 1]);
    }
  }

  lemma {:induction false} PaddedValue(zeros: nat, n: nat)
    ensures DigitsValue(Padded(zeros, n)) == n
  {
    if zeros == 0 {
      ShowNatValue(n);
    } else {
      PaddedValue(zeros - 1, n);
      LeadingZero(Padded(zeros - 1, n));
    }
  }

  lemma {:induction false} ParseOfDigits(digits: string, rest: string, lo: int, hi: int)
    requires digits != "" && (forall c :: c in digits ==> IsDigit(c)) && lo <= DigitsValue(digits) <= hi
    requires rest != "" ==> !IsDigit(rest[0])
    ensures ParseInt(digits + rest, lo, hi) == Some(DigitsValue(digits))
  {
    var s := digits + rest;
    assert s[0] == digits[0] && digits[0] in digits && IsDigit(s[0]);
    assert SkipSpace(s) == s;
    DigitPrefixAll(digits, rest);
    hide DigitPrefix, DigitsValue, SkipSpace;
  }

  /** Leading zeros do not count. */
  lemma {:induction false} ParseOfPadded(zeros: nat, n: nat, rest: string, lo: int, hi: int)
    requires lo <= n <= hi
    requires rest != "" ==> !IsDigit(rest[0])
    ensures ParseInt(Padded(zeros, n) + rest, lo, hi) == Some(n)
  {
    hide Padded, ParseInt, DigitsValue;
    PaddedValue(zeros, n);
    ParseOfDigits(Padded(zeros, n), rest, lo, hi);
  }
}
