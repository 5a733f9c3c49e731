/** String operations the firmware takes from Python's `str`: `in`,
    `startswith`, `strip()`, `lower()`, `split` and `int(...)`.
    MicroPython's `str` methods only know ASCII whitespace and ASCII case,
    and the model does the same. */
module Text {
  import opened Wrappers

  /** The characters MicroPython's `str.strip()` removes: space, \t, \n, \v, \f, \r. */
  predicate IsSpace(c: char) {
    c == ' ' || c == '\t' || c == '\n' || c == 11 as char || c == 12 as char || c == '\r'
  }

  predicate NoSpaceAtEnds(s: string) {
    s == [] || (!IsSpace(s[0]) && !IsSpace(s[|s| - 1]))
  }

  predicate AllSpace(s: string) {
    forall i :: 0 <= i < |s| ==> IsSpace(s[i])
  }

  /** The end of the run of whitespace that starts at `i`. */
  function SpaceRunEnd(s: string, i: nat): (k: nat)
    requires i <= |s|
    ensures i <= k <= |s|
    ensures forall j :: i <= j < k ==> IsSpace(s[j])
    ensures k < |s| ==> !IsSpace(s[k])
    decreases |s| - i
  {
    if i < |s| && IsSpace(s[i]) then SpaceRunEnd(s, i + 1) else i
  }

  /** The start of the run of whitespace that ends at `e`. */
  function SpaceRunStart(s: string, e: nat): (k: nat)
    requires e <= |s|
    ensures k <= e
    ensures forall j :: k <= j < e ==> IsSpace(s[j])
    ensures k > 0 ==> !IsSpace(s[k - 1])
    decreases e
  {
    if e > 0 && IsSpace(s[e - 1]) then SpaceRunStart(s, e - 1) else e
  }

  /** `s.lstrip()`: drops the leading run of whitespace and nothing else. */
  function StripLeft(s: string): string {
    s[SpaceRunEnd(s, 0)..]
  }

  /** `s.rstrip()`: drops the trailing run of whitespace and nothing else. */
  function StripRight(s: string): string {
    s[..SpaceRunStart(s, |s|)]
  }

  /** `s.strip()`. */
  function Strip(s: string): (r: string)
    ensures NoSpaceAtEnds(r)
    ensures |r| <= |s|
  {
    var l := StripLeft(s);
    var r := StripRight(l);
    assert r != [] ==> r[0] == s[SpaceRunEnd(s, 0)] && r[|r| - 1] == l[|r| - 1];
    r
  }

  /** A run of whitespace is determined by where it stops. */
  lemma SpaceRunEndIs(s: string, i: nat, k: nat)
    requires i <= k <= |s|
    requires forall j :: i <= j < k ==> IsSpace(s[j])
    requires k < |s| ==> !IsSpace(s[k])
    ensures SpaceRunEnd(s, i) == k
  {
  }

  lemma SpaceRunStartIs(s: string, e: nat, k: nat)
    requires k <= e <= |s|
    requires forall j :: k <= j < e ==> IsSpace(s[j])
    requires k > 0 ==> !IsSpace(s[k - 1])
    ensures SpaceRunStart(s, e) == k
  {
  }

  /** Stripping a string padded with whitespace on both sides gives back the
      string, as long as the string itself neither starts nor ends with
      whitespace. */
  lemma StripPadded(pre: string, s: string, post: string)
    requires AllSpace(pre) && AllSpace(post) && NoSpaceAtEnds(s)
    ensures Strip(pre + s + post) == s
  {
    var x := pre + s + post;
    if s == [] {
      SpaceRunEndIs(x, 0, |x|);
      assert StripLeft(x) == [];
    } else {
      SpaceRunEndIs(x, 0, |pre|);
      var l := StripLeft(x);
      assert l == s + post;
      SpaceRunStartIs(l, |l|, |s|);
      assert StripRight(l) == s;
    }
  }

  /** Text without whitespace at its ends is left alone by `strip()`. */
  lemma StripClean(s: string)
    requires NoSpaceAtEnds(s)
    ensures Strip(s) == s
  {
    StripPadded("", s, "");
    assert "" + s + "" == s;
  }

  function LowerChar(c: char): char {
    if 'A' <= c <= 'Z' then (c as int + 32) as char else c
  }

  /** `s.lower()` over ASCII. */
  function Lower(s: string): (r: string)
    ensures |r| == |s|
    ensures forall i :: 0 <= i < |s| ==> r[i] == LowerChar(s[i])
  {
    seq(|s|, i requires 0 <= i < |s| => LowerChar(s[i]))
  }

  /** Text without capitals is its own lower case. */
  lemma LowerKeepsLower(s: string)
    requires forall i :: 0 <= i < |s| ==> !('A' <= s[i] <= 'Z')
    ensures Lower(s) == s
  {
    assert forall i :: 0 <= i < |s| ==> Lower(s)[i] == s[i];
  }

  predicate IsPrefix(p: string, s: string) {
    |p| <= |s| && s[..|p|] == p
  }

  /** Python's `t in s` for strings: `t` occurs in `s` as a contiguous piece. */
  predicate Contains(s: string, t: string) {
    exists i :: 0 <= i <= |s| - |t| && OccursAt(s, t, i)
  }

  predicate OccursAt(s: string, t: string, i: int) {
    0 <= i && i + |t| <= |s| && s[i..i + |t|] == t
  }

  lemma PrefixIsContained(s: string, t: string)
    requires IsPrefix(t, s)
    ensures Contains(s, t)
  {
    assert OccursAt(s, t, 0);
  }

  /** `t in sfx` implies `t in pre + sfx`. */
  lemma ContainedInSuffix(pre: string, sfx: string, t: string)
    requires Contains(sfx, t)
    ensures Contains(pre + sfx, t)
  {
    var i :| 0 <= i <= |sfx| - |t| && OccursAt(sfx, t, i);
    assert (pre + sfx)[|pre| + i..|pre| + i + |t|] == t;
    assert OccursAt(pre + sfx, t, |pre| + i);
  }

  /** When `t` occurs in `s`, so does every prefix of `t`. */
  lemma ContainsPrefixOf(s: string, t: string, p: string)
    requires Contains(s, t) && IsPrefix(p, t)
    ensures Contains(s, p)
  {
    var i :| 0 <= i <= |s| - |t| && OccursAt(s, t, i);
    assert s[i..i + |p|] == t[..|p|];
    assert OccursAt(s, p, i);
  }

  /** The first position at or after `i` holding `c`. */
  function IndexFrom(s: string, c: char, i: nat): (r: Option<nat>)
    requires i <= |s|
    ensures r.None? ==> forall j :: i <= j < |s| ==> s[j] != c
    ensures r.Some? ==> i <= r.value < |s| && s[r.value] == c && forall j :: i <= j < r.value ==> s[j] != c
    decreases |s| - i
  {
    if i == |s| then None
    else if s[i] == c then Some(i)
    else IndexFrom(s, c, i + 1)
  }

  /** The first position at or after `i` holding `c` is determined by the
      characters before it. */
  lemma IndexFromIs(s: string, c: char, i: nat, k: nat)
    requires i <= k < |s| && s[k] == c
    requires forall j :: i <= j < k ==> s[j] != c
    ensures IndexFrom(s, c, i) == Some(k)
    decreases k - i
  {
    if i < k {
      IndexFromIs(s, c, i + 1, k);
    }
  }

  /** `s.find(c)`, as an option. */
  function IndexOf(s: string, c: char): (r: Option<nat>)
    ensures r.None? <==> c !in s
    ensures r.Some? ==> r.value < |s| && s[r.value] == c && c !in s[..r.value]
  {
    var r := IndexFrom(s, c, 0);
    assert r.Some? ==> forall j :: 0 <= j < r.value ==> s[..r.value][j] != c;
    r
  }


  // ---------------------------------------------------------------------
  // Decimal integers, as `int(text)` reads them and as they are written.

  predicate IsDigit(c: char) { '0' <= c <= '9' }

  predicate AllDigits(s: string) { forall i :: 0 <= i < |s| ==> IsDigit(s[i]) }

  function DigitValue(c: char): nat
    requires IsDigit(c)
  {
    c as int - '0' as int
  }

  function DigitChar(d: nat): (c: char)
    requires d < 10
    ensures IsDigit(c) && DigitValue(c) == d
  {
    ('0' as int + d) as char
  }

  /** The value of a string of decimal digits, most significant first. */
  function DigitsValue(s: string): nat
    requires AllDigits(s)
  {
    if s == [] then 0 else DigitsValue(s[..|s| - 1]) * 10 + DigitValue(s[|s| - 1])
  }

  /** The shortest decimal representation of `n`. */
  function Decimal(n: nat): (r: string)
    ensures r != [] && AllDigits(r)
  {
    if n < 10 then [DigitChar(n)] else Decimal(n / 10) + [DigitChar(n % 10)]
  }

  /** `int(s)` on an already stripped string: an optional sign followed by
      one or more decimal digits, anything else a `ValueError` (`None`). */
  function ParseInt(s: string): Option<int> {
    if |s| > 0 && (s[0] == '+' || s[0] == '-') then
      var d := s[1..];
      if d != [] && AllDigits(d) then
        var v: int := DigitsValue(d);
        Some(if s[0] == '-' then -v else v)
      else None
    else if s != [] && AllDigits(s) then Some(DigitsValue(s))
    else None
  }

  function Pow10(k: nat): (r: nat)
    ensures r >= 1
  {
    if k == 0 then 1 else 10 * Pow10(k - 1)
  }

  /** The digits of `a` then those of `b`: `a` shifted left by `|b|` places. */
  lemma {:induction false} DigitsValueConcat(a: string, b: string)
    requires AllDigits(a) && AllDigits(b)
    ensures AllDigits(a + b)
    ensures DigitsValue(a + b) == DigitsValue(a) * Pow10(|b|) + DigitsValue(b)
    decreases |b|
  {
    AllDigitsConcat(a, b);
    if b == [] {
      assert a + b == a;
    } else {
      var c := b[..|b| - 1];
      var d := DigitValue(b[|b| - 1]);
      LastDigitOfConcat(a, b);
      DigitsValueConcat(a, c);
      ShiftStep(DigitsValue(a), Pow10(|c|), DigitsValue(c), d);
    }
  }

  lemma AllDigitsConcat(a: string, b: string)
    requires AllDigits(a) && AllDigits(b)
    ensures AllDigits(a + b)
  {
    assert forall i :: |a| <= i < |a + b| ==> (a + b)[i] == b[i - |a|];
  }

  /** Dropping the last digit of `a + b`, for a non-empty `b`. */
  lemma LastDigitOfConcat(a: string, b: string)
    requires AllDigits(a) && AllDigits(b) && b != []
    ensures AllDigits(a + b[..|b| - 1])
    ensures DigitsValue(a + b) == DigitsValue(a + b[..|b| - 1]) * 10 + DigitValue(b[|b| - 1])
  {
    AllDigitsConcat(a, b);
    AllDigitsConcat(a, b[..|b| - 1]);
    assert (a + b)[..|a + b| - 1] == a + b[..|b| - 1];
  }

  lemma ShiftStep(x: int, p: int, y: int, d: int)
    ensures (x * p + y) * 10 + d == x * (10 * p) + (y * 10 + d)
  {
  }

  /** `s * n`: `n` copies of `s`, one after another. */
  function Repeat(s: string, n: nat): (r: string)
    ensures AllDigits(s) ==> AllDigits(r)
    ensures n >= 1 ==> |r| >= |s|
  {
    if n == 0 then [] else
      var r := Repeat(s, n - 1) + s;
      assert AllDigits(s) ==> forall i :: |r| - |s| <= i < |r| ==> r[i] == s[i - (|r| - |s|)];
      r
  }

  /** Copies of a string of zeros read as 0. */
  lemma {:induction false} RepeatZero(s: string, n: nat)
    requires AllDigits(s) && DigitsValue(s) == 0
    ensures DigitsValue(Repeat(s, n)) == 0
  {
    if n > 0 {
      RepeatZero(s, n - 1);
      DigitsValueConcat(Repeat(s, n - 1), s);
    }
  }

  /** `n` copies of a string of non-zero value read as at least `10^(n-1)`. */
  lemma {:induction false} RepeatGrows(s: string, n: nat)
    requires AllDigits(s) && DigitsValue(s) > 0 && n >= 1
    ensures DigitsValue(Repeat(s, n)) >= Pow10(n - 1)
  {
    DigitsValueConcat(Repeat(s, n - 1), s);
    if n > 1 {
      RepeatGrows(s, n - 1);
      PowGrows(|s|);
      ScaleGrows(DigitsValue(Repeat(s, n - 1)), Pow10(|s|), Pow10(n - 2));
    } else {
      assert Repeat(s, 0) == [];
    }
  }

  lemma ScaleGrows(x: int, p: int, q: int)
    requires x >= q >= 0 && p >= 10
    ensures x * p >= 10 * q
  {
  }

  lemma PowGrows(k: nat)
    requires k >= 1
    ensures Pow10(k) >= 10
  {
    if k > 1 {
      PowGrows(k - 1);
    }
  }

  lemma {:induction false} DecimalValue(n: nat)
    ensures DigitsValue(Decimal(n)) == n
  {
    if n >= 10 {
      var r := Decimal(n);
      assert r[..|r| - 1] == Decimal(n / 10);
      DecimalValue(n / 10);
    }
  }

  /** `int(str(n))` gives `n` back. */
  lemma ParseDecimal(n: nat)
    ensures ParseInt(Decimal(n)) == Some(n)
  {
    DecimalValue(n);
  }

  // ---------------------------------------------------------------------
  // `s.split("\r\n")`

  predicate CrlfAt(s: string, i: int) {
    0 <= i && i + 1 < |s| && s[i] == '\r' && s[i + 1] == '\n'
  }

  /** The index of the first "\r\n" in `s`. */
  function FindCrlf(s: string): (r: Option<nat>)
    ensures r.Some? ==> CrlfAt(s, r.value) && forall j :: 0 <= j < r.value ==> !CrlfAt(s, j)
    ensures r.None? ==> forall j :: 0 <= j < |s| ==> !CrlfAt(s, j)
  {
    if |s| < 2 then None
    else if s[0] == '\r' && s[1] == '\n' then Some(0)
    else match FindCrlf(s[1..])
      case None =>
        assert forall j :: 1 <= j < |s| ==> (CrlfAt(s, j) <==> CrlfAt(s[1..], j - 1));
        None
      case Some(k) =>
        assert forall j :: 1 <= j < k + 1 ==> (CrlfAt(s, j) <==> CrlfAt(s[1..], j - 1));
        Some(k + 1)
  }

  /** Python's `s.split("\r\n")`: the pieces between occurrences of "\r\n". */
  function SplitCrlf(s: string): (r: seq<string>)
    ensures |r| >= 1
    decreases |s|
  {
    match FindCrlf(s)
    case None => [s]
    case Some(i) => [s[..i]] + SplitCrlf(s[i + 2..])
  }

  /** `"\r\n".join(lines)` */
  function JoinCrlf(lines: seq<string>): string
    requires |lines| >= 1
  {
    if |lines| == 1 then lines[0] else lines[0] + "\r\n" + JoinCrlf(lines[1..])
  }

  /** Splitting at "\r\n" loses nothing: joining the pieces gives the text
      back. */
  lemma {:induction false} SplitJoin(s: string)
    ensures JoinCrlf(SplitCrlf(s)) == s
    decreases |s|
  {
    match FindCrlf(s)
    case None =>
    case Some(i) =>
      var rest := s[i + 2..];
      SplitJoin(rest);
      JoinCons(s[..i], SplitCrlf(rest));
      CrlfSplitsAt(s, i);
  }

  lemma JoinCons(x: string, rest: seq<string>)
    requires |rest| >= 1
    ensures JoinCrlf([x] + rest) == x + "\r\n" + JoinCrlf(rest)
  {
    assert ([x] + rest)[1..] == rest;
  }

  lemma CrlfSplitsAt(s: string, i: nat)
    requires CrlfAt(s, i)
    ensures s == s[..i] + "\r\n" + s[i + 2..]
  {
  }

  /** No piece of a split holds "\r\n". */
  lemma {:induction false} SplitPiecesHaveNoCrlf(s: string)
    ensures forall k, j :: 0 <= k < |SplitCrlf(s)| ==> !CrlfAt(SplitCrlf(s)[k], j)
    decreases |s|
  {
    match FindCrlf(s)
    case None =>
    case Some(i) =>
      var rest := s[i + 2..];
      SplitPiecesHaveNoCrlf(rest);
      var r := SplitCrlf(s);
      assert r == [s[..i]] + SplitCrlf(rest);
      FirstPieceHasNoCrlf(s, i);
      forall k, j | 0 <= k < |r| ensures !CrlfAt(r[k], j) {
        if k > 0 { assert r[k] == SplitCrlf(rest)[k - 1]; }
      }
  }

  /** The text before the first "\r\n" holds none. */
  lemma FirstPieceHasNoCrlf(s: string, i: nat)
    requires FindCrlf(s) == Some(i)
    ensures forall j :: !CrlfAt(s[..i], j)
  {
    forall j | CrlfAt(s[..i], j) ensures false {
      assert CrlfAt(s, j);
    }
  }

  /** The first "\r\n" of `a + "\r\n" + b` is the one after `a` when `a`
      holds none. */
  lemma FindCrlfAfter(a: string, b: string)
    requires forall j :: 0 <= j < |a| ==> !CrlfAt(a, j)
    ensures FindCrlf(a + "\r\n" + b) == Some(|a|)
  {
    var s := a + "\r\n" + b;
    assert CrlfAt(s, |a|);
    forall j | 0 <= j < |a| ensures !CrlfAt(s, j) {
      if j + 1 < |a| { assert CrlfAt(s, j) ==> CrlfAt(a, j); }
    }
  }

  /** The other half of the round trip: lines that hold no "\r\n" are
      recovered by splitting their join. */
  lemma {:induction false} JoinSplit(lines: seq<string>)
    requires |lines| >= 1
    requires forall k, j :: 0 <= k < |lines| ==> !CrlfAt(lines[k], j)
    ensures SplitCrlf(JoinCrlf(lines)) == lines
    decreases |lines|
  {
    if |lines| == 1 {
      assert FindCrlf(lines[0]).None?;
    } else {
      var rest := JoinCrlf(lines[1..]);
      assert forall j :: 0 <= j < |lines[0]| ==> !CrlfAt(lines[0], j);
      FindCrlfAfter(lines[0], rest);
      var s := lines[0] + "\r\n" + rest;
      assert s[..|lines[0]|] == lines[0];
      assert s[|lines[0]| + 2..] == rest;
      JoinSplit(lines[1..]);
      assert lines == [lines[0]] + lines[1..];
    }
  }
}
