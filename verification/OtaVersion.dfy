/** Version strings YYYY.WW.N (an old plain integer N reads as 0.0.N) and their order. */
module OtaVersion {
  import opened Common
  import opened OtaText

  datatype Version = Version(year: int, week: int, seqNo: int)

  const INT_MAX := 0x7fff_ffff
  const INT_MIN := -0x8000_0000

  function Stoi(s: string): Option<int> { ParseInt(s, INT_MIN, INT_MAX) }

  function ParseVersion(v: string): Option<Version> {
    var p1 := FindChar(v, '.', 0);
    if p1 < |v| then
      var p2 := FindChar(v, '.', p1 + 1);
      if p2 == |v| then None
      else
        match (Stoi(v[..p1]), Stoi(v[p1 + 1..p2]), Stoi(v[p2 + 1..]))
        case (Some(y), Some(w), Some(n)) => Some(Version(y, w, n))
        case _ => None
    else
      match Stoi(v)
      case Some(n) => Some(Version(0, 0, n))
      case None => None
  }

  predicate IsNewer(serverV: string, localV: string) {
    match (ParseVersion(serverV), ParseVersion(localV))
    case (Some(s), Some(l)) => IsLater(s, l)
    case _ => false
  }

  predicate IsLater(s: Version, l: Version) {
    if s.year != l.year then s.year > l.year
    else if s.week != l.week then s.week > l.week
    else s.seqNo > l.seqNo
  }

  /** "Newer" is a strict order on all strings, and on parsable strings any two
      are comparable unless they denote the same version. */
  lemma NewerIsStrictOrder(a: string, b: string, c: string)
    ensures !IsNewer(a, a)
    ensures IsNewer(a, b) && IsNewer(b, c) ==> IsNewer(a, c)
    ensures ParseVersion(a).Some? && ParseVersion(b).Some? ==>
              (!IsNewer(a, b) && !IsNewer(b, a) <==> ParseVersion(a) == ParseVersion(b))
    ensures IsNewer(a, b) ==> ParseVersion(a).Some? && ParseVersion(b).Some?
  {
    hide ParseVersion;
  }

  // ---------- the order, seen in the texts ----------

  /** A number as it is printed: a number of at least 0 may have zeros in front. */
  datatype Field = Field(zeros: nat, value: int)

  predicate InRange(f: Field) { INT_MIN <= f.value <= INT_MAX }

  function Print(f: Field): string {
    if f.value < 0 then ShowInt(f.value) else Padded(f.zeros, f.value)
  }

  function Dotted(y: Field, w: Field, n: Field): string {
    Print(y) + "." + Print(w) + "." + Print(n)
  }

  lemma PrintHasNoDot(f: Field)
    ensures '.' !in Print(f) && Print(f) != ""
  {
  }

  lemma StoiOfPrint(f: Field)
    requires InRange(f)
    ensures Stoi(Print(f)) == Some(f.value)
  {
    assert Print(f) + "" == Print(f);
    if f.value < 0 {
      ParseOfShow(f.value, "", INT_MIN, INT_MAX);
    } else {
      ParseOfPadded(f.zeros, f.value, "", INT_MIN, INT_MAX);
    }
    hide ShowInt, Padded, ParseInt;
  }

  /** A published name year.week.seq reads back as those three numbers, a plain N as 0.0.N. */
  lemma PublishedVersionParses(y: Field, w: Field, n: Field)
    requires InRange(y) && InRange(w) && InRange(n)
    ensures ParseVersion(Dotted(y, w, n)) == Some(Version(y.value, w.value, n.value))
    ensures ParseVersion(Print(n)) == Some(Version(0, 0, n.value))
  {
    StoiOfPrint(y);
    StoiOfPrint(w);
    StoiOfPrint(n);
    PrintHasNoDot(y);
    PrintHasNoDot(w);
    PrintHasNoDot(n);
    hide Stoi, Print;
    DottedParts(Print(y), Print(w), Print(n));
    hide FindChar;
  }

  /** Newer means later in the numbers printed: by year, in the same year by week, in the same week by
      sequence number; a plain number stands for year 0, week 0. */
  lemma NewerByNumbers(y: Field, w: Field, n: Field, y': Field, w': Field, n': Field)
    requires InRange(y) && InRange(w) && InRange(n) && InRange(y') && InRange(w') && InRange(n')
    ensures IsNewer(Dotted(y, w, n), Dotted(y', w', n')) <==>
            || y.value > y'.value
            || (y.value == y'.value && w.value > w'.value)
            || (y.value == y'.value && w.value == w'.value && n.value > n'.value)
    ensures IsNewer(Print(n), Print(n')) <==> n.value > n'.value
    ensures IsNewer(Dotted(y, w, n), Print(n')) <==>
            || y.value > 0 || (y.value == 0 && w.value > 0)
            || (y.value == 0 && w.value == 0 && n.value > n'.value)
    ensures IsNewer(Print(n), Dotted(y', w', n')) <==>
            || y'.value < 0 || (y'.value == 0 && w'.value < 0)
            || (y'.value == 0 && w'.value == 0 && n.value > n'.value)
  {
    PublishedVersionParses(y, w, n);
    PublishedVersionParses(y', w', n');
    hide ParseVersion, Dotted, Print;
  }

  /** A text with one dot, or one that does not start like a number, is no version. */
  lemma MalformedVersion(a: string, b: string)
    requires '.' !in a && '.' !in b
    ensures ParseVersion(a + "." + b) == None
    ensures (a == "" || (!IsSpace(a[0]) && !IsDigit(a[0]) && a[0] != '-' && a[0] != '+')) ==> ParseVersion(a) == None
  {
    var v := a + "." + b;
    FindCharAt(v, '.', 0, |a|);
    assert FindChar(v, '.', |a| + 1) == |v|;
    assert FindChar(a, '.', 0) == |a|;
    hide FindChar;
  }

  lemma DottedParts(a: string, b: string, c: string)
    requires '.' !in a && '.' !in b
    ensures var v := a + "." + b + "." + c;
            var p1 := FindChar(v, '.', 0);
            p1 == |a| && v[..p1] == a &&
            var p2 := FindChar(v, '.', p1 + 1);
            p2 == |a| + 1 + |b| && v[p1 + 1..p2] == b && v[p2 + 1..] == c
  {
    var v := a + "." + b + "." + c;
    FindCharAt(v, '.', 0, |a|);
    FindCharAt(v, '.', |a| + 1, |a| + 1 + |b|);
  }
}
