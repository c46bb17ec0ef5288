/** Versions as numbers: up to four dot-separated components are parsed as 16-bit integers and packed into
    one 64-bit integer that is compared instead of the string. */
module Versions {
  import opened Options

  // ---------------------------------------------------------------- components

  predicate IsDigit(c: char) {
    '0' <= c <= '9'
  }

  predicate IsDigits(s: string) {
    forall i :: 0 <= i < |s| ==> IsDigit(s[i])
  }

  function DigitsValue(s: string): nat
    requires IsDigits(s)
  {
    if s == "" then 0 else 10 * DigitsValue(s[..|s| - 1]) + (s[|s| - 1] as int - '0' as int)
  }

  predicate IsInt16(n: int) {
    -0x8000 <= n < 0x8000
  }

  /** Base ten, an optional sign, at least one digit, and the range of a 16-bit integer. */
  function ParseInt16(s: string): Option<int> {
    var signed := s != "" && (s[0] == '-' || s[0] == '+');
    var body := if signed then s[1..] else s;
    if body == "" || !IsDigits(body) then None
    else
      var n: int := if signed && s[0] == '-' then -(DigitsValue(body) as int) else DigitsValue(body);
      if IsInt16(n) then Some(n) else None
  }

  /** A text of digits, perhaps with a sign in front, that stands for `n`. */
  ghost predicate Denotes(s: string, d: string, n: int) {
    && d != "" && IsDigits(d)
    && (((s == d || s == "+" + d) && n == DigitsValue(d)) || (s == "-" + d && n == -(DigitsValue(d) as int)))
  }

  /** What parses: digits with at most one sign in front of them, in the range of a 16-bit integer. Everything else
      is an error. */
  lemma ParseExact(s: string, n: int)
    ensures ParseInt16(s) == Some(n) <==> IsInt16(n) && exists d :: Denotes(s, d, n)
  {
    if ParseInt16(s) == Some(n) {
      var signed := s[0] == '-' || s[0] == '+';
      var d := if signed then s[1..] else s;
      assert s == (if signed then [s[0]] else "") + d;
      assert Denotes(s, d, n);
    }
    if IsInt16(n) && exists d :: Denotes(s, d, n) {
      var d :| Denotes(s, d, n);
      assert IsDigit(d[0]);
      if s != d {
        assert s[1..] == d;
      }
    }
  }

  /** Zeros in front do not count. */
  lemma {:induction false} ZeroInFront(d: string)
    requires IsDigits(d)
    ensures IsDigits("0" + d) && DigitsValue("0" + d) == DigitsValue(d)
  {
    if d != "" {
      ZeroInFront(d[..|d| - 1]);
      assert ("0" + d)[..|d|] == "0" + d[..|d| - 1];
    } else {
      assert "0"[..0] == "" && "0" + d == "0";
    }
  }

  /** The position of the next dot at or behind `idx`, or the length. */
  function DotFrom(s: string, idx: nat): (f: nat)
    requires idx <= |s|
    ensures idx <= f <= |s|
    decreases |s| - idx
  {
    if idx == |s| || s[idx] == '.' then idx else DotFrom(s, idx + 1)
  }

  /** The first `n` parts between dots from `idx` on; what is behind them is not looked at. */
  function Parts(s: string, idx: nat, n: nat): (r: seq<string>)
    ensures |r| <= n
    decreases n
  {
    if n == 0 || idx >= |s| then [] else [s[idx..DotFrom(s, idx)]] + Parts(s, DotFrom(s, idx) + 1, n - 1)
  }

  predicate AreNumbers(parse: string -> Option<int>, parts: seq<string>) {
    forall i :: 0 <= i < |parts| ==> parse(parts[i]).Some?
  }

  function Numbers(parse: string -> Option<int>, parts: seq<string>): (r: seq<int>)
    requires AreNumbers(parse, parts)
    ensures |r| == |parts| && forall i :: 0 <= i < |r| ==> r[i] == parse(parts[i]).value
  {
    seq(|parts|, i requires 0 <= i < |parts| => parse(parts[i]).value)
  }

  // ---------------------------------------------------------------- packing

  datatype Machine = Little | Big

  function Unsigned(n: int): nat
    requires IsInt16(n)
  {
    if n < 0 then n + 0x1_0000 else n
  }

  function ToInt64(u: nat): int {
    if u < 0x8000_0000_0000_0000 then u else u - 0x1_0000_0000_0000_0000
  }

  /** The 64-bit integer in a word of four half words, by the byte order of the machine. */
  function ReadWord(m: Machine, h: seq<int>): int
    requires |h| == 4 && forall i :: 0 <= i < 4 ==> IsInt16(h[i])
  {
    if m.Little?
    then ToInt64(Unsigned(h[0]) + 0x1_0000 * Unsigned(h[1]) + 0x1_0000_0000 * Unsigned(h[2]) +
                 0x1_0000_0000_0000 * Unsigned(h[3]))
    else ToInt64(0x1_0000_0000_0000 * Unsigned(h[0]) + 0x1_0000_0000 * Unsigned(h[1]) + 0x1_0000 * Unsigned(h[2]) +
                 Unsigned(h[3]))
  }

  /** The byte at the lowest address of the integer 1. */
  function FirstByteOfOne(m: Machine): int {
    if m.Little? then 1 else 0
  }

  /** The repository's own test: it answers for the opposite byte order. */
  predicate IsLittleEndian(m: Machine) {
    FirstByteOfOne(m) == 0
  }

  predicate IsBigEndian(m: Machine) {
    !IsLittleEndian(m)
  }

  predicate AreInt16(bs: seq<int>) {
    forall i :: 0 <= i < |bs| ==> IsInt16(bs[i])
  }

  /** The half words read as one unsigned number, most significant first. */
  function Digits16(bs: seq<int>): nat
    requires AreInt16(bs)
  {
    if bs == [] then 0 else 0x1_0000 * Digits16(bs[..|bs| - 1]) + Unsigned(bs[|bs| - 1])
  }

  /** The last component is the least significant one, whichever machine runs this. */
  method Int16ToInt64(m: Machine, bs: seq<int>) returns (r: int)
    requires AreInt16(bs)
    ensures r == if 1 <= |bs| <= 4 then ToInt64(Digits16(bs)) else 0
  {
    var l := |bs|;
    if l > 4 || l == 0 {
      return 0;
    }
    var pi := [0, 0, 0, 0];
    if IsBigEndian(m) {
      for i := 0 to l
        invariant |pi| == 4 && forall j :: 0 <= j < 4 ==> pi[j] == if j < i then bs[l - j - 1] else 0
      {
        pi := pi[i := bs[l - i - 1]];
      }
    } else {
      for i := 0 to l
        invariant |pi| == 4 && forall j :: 0 <= j < 4 ==> pi[j] == if 3 - j < i then bs[l - 4 + j] else 0
      {
        pi := pi[3 - i := bs[l - i - 1]];
      }
    }
    r := ReadWord(m, pi);
    UnfoldDigits(bs);
  }

  lemma {:induction false} UnfoldDigits(bs: seq<int>)
    requires AreInt16(bs) && 1 <= |bs| <= 4
    ensures Digits16(bs) ==
      Unsigned(bs[|bs| - 1]) +
      (if |bs| > 1 then 0x1_0000 * Unsigned(bs[|bs| - 2]) else 0) +
      (if |bs| > 2 then 0x1_0000_0000 * Unsigned(bs[|bs| - 3]) else 0) +
      (if |bs| > 3 then 0x1_0000_0000_0000 * Unsigned(bs[|bs| - 4]) else 0)
  {
    var n := |bs|;
    assert Digits16(bs) == 0x1_0000 * Digits16(bs[..n - 1]) + Unsigned(bs[n - 1]);
    if n > 1 {
      assert bs[..n - 1][..n - 2] == bs[..n - 2];
      assert Digits16(bs[..n - 1]) == 0x1_0000 * Digits16(bs[..n - 2]) + Unsigned(bs[n - 2]);
    }
    if n > 2 {
      assert bs[..n - 2][..n - 3] == bs[..n - 3];
      assert Digits16(bs[..n - 2]) == 0x1_0000 * Digits16(bs[..n - 3]) + Unsigned(bs[n - 3]);
    }
    if n > 3 {
      assert bs[..n - 3][..n - 4] == bs[..n - 4];
      assert Digits16(bs[..n - 3]) == 0x1_0000 * Digits16(bs[..n - 4]) + Unsigned(bs[n - 4]);
    }
  }

  // ---------------------------------------------------------------- the number of a version

  /** Missing components count as zero. */
  function Padded(cs: seq<int>, n: nat): (r: seq<int>)
    requires |cs| <= n
    ensures |r| == n && forall i :: 0 <= i < n ==> r[i] == if i < |cs| then cs[i] else 0
  {
    cs + seq(n - |cs|, _ => 0)
  }

  /** The components of a version, or none when one of the parts does not parse. */
  function Components(parse: string -> Option<int>, s: string, n: nat): Option<seq<int>> {
    var parts := Parts(s, 0, n);
    if AreNumbers(parse, parts) then Some(Padded(Numbers(parse, parts), n)) else None
  }

  function VersionNumber(s: string): Option<int> {
    match Components(ParseInt16, s, 4)
    case None => None
    case Some(cs) => Some(ToInt64(Digits16(cs)))
  }

  method VersionToInt64(m: Machine, version: string) returns (r: Option<int>)
    ensures r == VersionNumber(version)
  {
    var verBytes := ParseVersion(ParseInt16, version, 4);
    if verBytes.None? {
      return None;
    }
    var n := Int16ToInt64(m, verBytes.value);
    return Some(n);
  }

  lemma MoveOne<T>(done: seq<T>, x: T, left: seq<T>)
    ensures done + ([x] + left) == (done + [x]) + left
  {
  }

  /** The loop that fills the component array; `parse` is the parser of one part. */
  method ParseVersion(parse: string -> Option<int>, version: string, n: nat) returns (r: Option<seq<int>>)
    ensures r == Components(parse, version, n)
  {
    var verBytes := new int[n](_ => 0);
    var idx, i := 0, 0;
    ghost var parts := Parts(version, 0, n);
    ghost var done: seq<string> := [];
    while i < n && idx < |version|
      invariant 0 <= i <= n && 0 <= idx && |done| == i
      invariant parts == done + Parts(version, idx, n - i)
      invariant forall j :: 0 <= j < i ==> parse(done[j]) == Some(verBytes[j])
      invariant forall j :: i <= j < n ==> verBytes[j] == 0
      decreases n - i
    {
      var f := DotFrom(version, idx);
      var part := version[idx..f];
      MoveOne(done, part, Parts(version, f + 1, n - i - 1));
      var integer := parse(part);
      if integer.None? {
        assert parts[i] == part;
        return None;
      }
      done := done + [part];
      verBytes[i] := integer.value;
      idx := f + 1;
      i := i + 1;
    }
    assert parts == done;
    assert verBytes[..] == Padded(Numbers(parse, parts), n);
    return Some(verBytes[..]);
  }

  /** What the number is worth: the first component keeps its sign, the others count modulo 2^16. */
  lemma {:induction false} NumberIsWorth(b: seq<int>)
    requires |b| == 4 && AreInt16(b)
    ensures ToInt64(Digits16(b)) ==
      0x1_0000_0000_0000 * b[0] + 0x1_0000_0000 * Unsigned(b[1]) + 0x1_0000 * Unsigned(b[2]) + Unsigned(b[3])
  {
    UnfoldDigits(b);
  }

  /** Lexicographic order from position `i` on. */
  predicate LexLess(a: seq<int>, b: seq<int>, i: nat)
    requires |a| == |b| && i <= |a|
    decreases |a| - i
  {
    i < |a| && (a[i] < b[i] || (a[i] == b[i] && LexLess(a, b, i + 1)))
  }

  /** How components are compared in effect. */
  function Compared(b: seq<int>): seq<int>
    requires |b| == 4 && AreInt16(b)
  {
    [b[0], Unsigned(b[1]), Unsigned(b[2]), Unsigned(b[3])]
  }

  /** On all 16-bit components, comparing numbers is comparing components in order, the first signed and the
      others unsigned; different components give different numbers. */
  lemma {:induction false} NumberOrder(a: seq<int>, b: seq<int>)
    requires |a| == 4 && |b| == 4 && AreInt16(a) && AreInt16(b)
    ensures ToInt64(Digits16(a)) < ToInt64(Digits16(b)) <==> LexLess(Compared(a), Compared(b), 0)
    ensures ToInt64(Digits16(a)) == ToInt64(Digits16(b)) <==> a == b
  {
    NumberIsWorth(a);
    NumberIsWorth(b);
    var x, y := Compared(a), Compared(b);
    LexLessFour(x, y);
    WorthOrder(x, y);
    assert x == y ==> a == b by {
      if x == y {
        assert forall i :: 0 <= i < 4 ==> x[i] == y[i];
        assert forall i :: 0 <= i < 4 ==> a[i] == b[i];
      }
    }
  }

  lemma {:induction false} LexLessFour(x: seq<int>, y: seq<int>)
    requires |x| == 4 && |y| == 4
    ensures LexLess(x, y, 0) <==>
      x[0] < y[0] || (x[0] == y[0] && (x[1] < y[1] || (x[1] == y[1] && (x[2] < y[2] || (x[2] == y[2] && x[3] < y[3])))))
  {
    assert LexLess(x, y, 3) <==> x[3] < y[3];
    assert LexLess(x, y, 2) <==> x[2] < y[2] || (x[2] == y[2] && x[3] < y[3]);
    assert LexLess(x, y, 1) <==> x[1] < y[1] || (x[1] == y[1] && LexLess(x, y, 2));
  }

  function Worth(x: seq<int>): int
    requires |x| == 4
  {
    0x1_0000_0000_0000 * x[0] + 0x1_0000_0000 * x[1] + 0x1_0000 * x[2] + x[3]
  }

  lemma WorthOrder(x: seq<int>, y: seq<int>)
    requires |x| == 4 && |y| == 4 && forall i :: 1 <= i < 4 ==> 0 <= x[i] < 0x1_0000 && 0 <= y[i] < 0x1_0000
    ensures Worth(x) < Worth(y) <==>
      x[0] < y[0] || (x[0] == y[0] && (x[1] < y[1] || (x[1] == y[1] && (x[2] < y[2] || (x[2] == y[2] && x[3] < y[3])))))
    ensures Worth(x) == Worth(y) <==> x == y
  {
    assert x == y <==> x[0] == y[0] && x[1] == y[1] && x[2] == y[2] && x[3] == y[3];
  }

  // ---------------------------------------------------------------- version strings

  /** Decimal notation without leading zeros. */
  function Decimal(n: nat): string {
    if n < 10 then [('0' as int + n) as char] else Decimal(n / 10) + [('0' as int + n % 10) as char]
  }

  lemma {:induction false} DecimalParses(n: nat)
    ensures IsDigits(Decimal(n)) && DigitsValue(Decimal(n)) == n && |Decimal(n)| > 0 && '.' !in Decimal(n)
  {
    if n >= 10 {
      DecimalParses(n / 10);
      var d := Decimal(n);
      assert d[..|d| - 1] == Decimal(n / 10);
    }
  }

  function Decimals(ns: seq<nat>): (r: seq<string>)
    ensures |r| == |ns| && forall i :: 0 <= i < |ns| ==> r[i] == Decimal(ns[i])
  {
    seq(|ns|, i requires 0 <= i < |ns| => Decimal(ns[i]))
  }

  function Dotted(ts: seq<string>): string
    requires |ts| > 0
  {
    if |ts| == 1 then ts[0] else ts[0] + "." + Dotted(ts[1..])
  }

  /** A version written with its numbers separated by dots. */
  function Write(ns: seq<nat>): string
    requires |ns| > 0
  {
    Dotted(Decimals(ns))
  }

  lemma {:induction false} DotFromUnique(s: string, idx: nat, k: nat)
    requires idx <= k <= |s| && (forall i :: idx <= i < k ==> s[i] != '.') && (k < |s| ==> s[k] == '.')
    ensures DotFrom(s, idx) == k
    decreases k - idx
  {
    if idx < k {
      DotFromUnique(s, idx + 1, k);
    }
  }

  lemma {:induction false} NextPart(before: string, d: string, after: string, n: nat)
    requires '.' !in d && d + after != "" && (after != "" ==> after[0] == '.') && n > 0
    ensures var s, k := before + d + after, |before| + |d|;
      Parts(s, |before|, n) == [d] + Parts(s, k + 1, n - 1)
  {
    var s, k := before + d + after, |before| + |d|;
    assert |d + after| > 0;
    assert s[|before|..k] == d;
    assert forall i :: |before| <= i < k ==> s[i] == d[i - |before|];
    DotFromUnique(s, |before|, k);
  }

  lemma Regroup<T>(a: seq<T>, b: seq<T>, c: seq<T>, d: seq<T>)
    ensures a + (b + c + d) == a + b + (c + d)
    ensures a + (b + c + d) == (a + b + c) + d
  {
  }

  lemma {:induction false} LastPart(before: string, d: string, n: nat)
    requires '.' !in d && d != "" && n > 0
    ensures Parts(before + d, |before|, n) == [d]
  {
    NextPart(before, d, "", n);
    assert before + d + "" == before + d;
  }

  /** Texts without dots, the last of them not empty. */
  predicate Undotted(ts: seq<string>) {
    && (forall i :: 0 <= i < |ts| ==> '.' !in ts[i])
    && (ts != [] ==> ts[|ts| - 1] != "")
  }

  /** At most the first `n` of a list. */
  function FirstOf<T>(ts: seq<T>, n: nat): seq<T> {
    if |ts| <= n then ts else ts[..n]
  }

  lemma FirstOfFront<T>(t: T, rest: seq<T>, n: nat)
    requires n > 0
    ensures FirstOf([t] + rest, n) == [t] + FirstOf(rest, n - 1)
  {
  }

  /** The parts of a dotted text are the first texts it was written from, empty ones included. */
  lemma {:induction false} DottedParts(before: string, ts: seq<string>, n: nat)
    requires 0 < |ts| && Undotted(ts)
    ensures Parts(before + Dotted(ts), |before|, n) == FirstOf(ts, n)
    decreases n
  {
    if n == 0 {
      assert ts[..0] == [];
    } else if |ts| == 1 {
      LastPart(before, ts[0], n);
      assert ts == [ts[0]];
    } else {
      var d, rest := ts[0], Dotted(ts[1..]);
      FrontPart(before, d, rest, n);
      UndottedTail(ts);
      DottedParts(before + d + ".", ts[1..], n - 1);
      FirstOfFront(d, ts[1..], n);
      assert ts == [d] + ts[1..];
    }
  }

  lemma FrontPart(before: string, d: string, rest: string, n: nat)
    requires '.' !in d && n > 0
    ensures Parts(before + (d + "." + rest), |before|, n) == [d] + Parts(before + d + "." + rest, |before + d + "."|, n - 1)
  {
    Regroup(before, d, ".", rest);
    NextPart(before, d, "." + rest, n);
  }

  lemma UndottedTail(ts: seq<string>)
    requires |ts| > 1 && Undotted(ts)
    ensures Undotted(ts[1..]) && '.' !in ts[0]
  {
  }

  lemma {:induction false} MissingComponents(parse: string -> Option<int>, ts: seq<string>, n: nat)
    requires 0 < |ts| && Undotted(ts)
    ensures Components(parse, Dotted(ts), n).None? <==> exists i :: 0 <= i < |ts| && i < n && parse(ts[i]).None?
  {
    DottedParts("", ts, n);
    assert "" + Dotted(ts) == Dotted(ts);
    var parts := Parts(Dotted(ts), 0, n);
    assert |parts| == (if |ts| <= n then |ts| else n) && forall i :: 0 <= i < |parts| ==> parts[i] == ts[i];
  }

  /** A version is an error exactly when one of the first four texts it was written from is not a number. */
  lemma {:induction false} ErrorExact(ts: seq<string>)
    requires 0 < |ts| && Undotted(ts)
    ensures VersionNumber(Dotted(ts)).None? <==> exists i :: 0 <= i < |ts| && i < 4 && ParseInt16(ts[i]).None?
  {
    MissingComponents(ParseInt16, ts, 4);
  }

  lemma {:induction false} DecimalIsNumber(n: nat)
    requires n < 0x8000
    ensures ParseInt16(Decimal(n)) == Some(n)
  {
    DecimalParses(n);
    assert IsDigit(Decimal(n)[0]);
  }

  lemma {:induction false} DottedComponents(parse: string -> Option<int>, ts: seq<string>, ns: seq<int>, n: nat)
    requires 0 < |ts| <= n && Undotted(ts) && |ns| == |ts|
    requires forall i :: 0 <= i < |ts| ==> parse(ts[i]) == Some(ns[i])
    ensures Components(parse, Dotted(ts), n) == Some(Padded(ns, n))
  {
    DottedParts("", ts, n);
    assert "" + Dotted(ts) == Dotted(ts);
    assert Numbers(parse, ts) == ns;
  }

  lemma {:induction false} WrittenComponents(a: seq<nat>, n: nat)
    requires 1 <= |a| <= n && forall i :: 0 <= i < |a| ==> a[i] < 0x8000
    ensures Components(ParseInt16, Write(a), n) == Some(Padded(a, n))
  {
    var ts := Decimals(a);
    forall i | 0 <= i < |ts| ensures ts[i] != "" && '.' !in ts[i] && ParseInt16(ts[i]) == Some(a[i]) {
      DecimalParses(a[i]);
      DecimalIsNumber(a[i]);
    }
    DottedComponents(ParseInt16, ts, a, n);
  }

  lemma {:induction false} SmallComponents(b: seq<int>)
    requires |b| == 4 && forall i :: 0 <= i < 4 ==> 0 <= b[i] < 0x8000
    ensures ToInt64(Digits16(b)) >= 0 && Compared(b) == b
  {
    NumberIsWorth(b);
  }

  /** Versions of one to four numbers in 0..32767 are ordered by their numbers as by their zero-padded
      components, equal only when these are, and never negative. */
  lemma {:induction false} VersionOrder(a: seq<nat>, b: seq<nat>)
    requires 1 <= |a| <= 4 && 1 <= |b| <= 4
    requires (forall i :: 0 <= i < |a| ==> a[i] < 0x8000) && (forall i :: 0 <= i < |b| ==> b[i] < 0x8000)
    ensures var x, y := VersionNumber(Write(a)), VersionNumber(Write(b));
      && x.Some? && y.Some? && x.value >= 0
      && (x.value < y.value <==> LexLess(Padded(a, 4), Padded(b, 4), 0))
      && (x.value == y.value <==> Padded(a, 4) == Padded(b, 4))
  {
    WrittenComponents(a, 4);
    WrittenComponents(b, 4);
    SmallComponents(Padded(a, 4));
    SmallComponents(Padded(b, 4));
    NumberOrder(Padded(a, 4), Padded(b, 4));
  }

  /** The number versions are sorted by; what cannot be parsed counts as the version 0 does. */
  function NumberOrZero(s: string): int {
    match VersionNumber(s) case Some(n) => n case None => 0
  }

  lemma {:induction false} UnparsedCountsAsZero(s: string)
    requires VersionNumber(s).None?
    ensures NumberOrZero(s) == NumberOrZero(Write([0]))
  {
    WrittenComponents([0], 4);
    NumberIsWorth(Padded([0], 4));
  }
}
