/** The parts of Go's `strings`, `bytes` and `fmt` packages that the scan
    stages rely on, restated over Dafny sequences. Strings are sequences of
    Unicode scalar values; on valid UTF-8 Go's byte-wise comparisons and
    substring tests agree with the code-point-wise ones used here. */
module Text {

  /** Number of occurrences of `c` in `s`. */
  function Count<T(==)>(s: seq<T>, c: T): (n: nat)
    ensures n <= |s|
  {
    if s == [] then 0 else (if s[0] == c then 1 else 0) + Count(s[1..], c)
  }

  /** `c` occurs in `s` exactly when it is counted. */
  lemma {:induction false} CountZero<T>(s: seq<T>, c: T)
    ensures Count(s, c) == 0 <==> c !in s
  {
    if s != [] {
      CountZero(s[1..], c);
      assert s == [s[0]] + s[1..];
    }
  }

  // ---------------------------------------------------------------------------
  // strings.Split / strings.Join / strings.ReplaceAll

  /** `strings.Split(s, string(sep))`: the pieces between separators; the
      empty string gives one empty piece. */
  function Split(s: string, sep: char): (fields: seq<string>)
    ensures |fields| == Count(s, sep) + 1
  {
    if s == [] then [[]]
    else
      var rest := Split(s[1..], sep);
      if s[0] == sep then [[]] + rest
      else [[s[0]] + rest[0]] + rest[1..]
  }

  /** `strings.Join(parts, sep)`. */
  function Join(parts: seq<string>, sep: string): string
  {
    if parts == [] then []
    else if |parts| == 1 then parts[0]
    else parts[0] + sep + Join(parts[1..], sep)
  }

  /** A character found in no piece and not in the separator is not in the join. */
  lemma {:induction false} JoinAvoids(parts: seq<string>, sep: string, c: char)
    requires c !in sep
    requires forall i :: 0 <= i < |parts| ==> c !in parts[i]
    ensures c !in Join(parts, sep)
  {
    if |parts| > 1 {
      forall i | 0 <= i < |parts[1..]| ensures c !in parts[1..][i] {
        assert parts[1..][i] == parts[i + 1];
      }
      JoinAvoids(parts[1..], sep, c);
    }
  }

  /** Every `c` in `s` replaced by `with`. */
  function Replace(s: string, c: char, with: string): string
  {
    if s == [] then [] else (if s[0] == c then with else [s[0]]) + Replace(s[1..], c, with)
  }

  /** Joining the pieces of a split with `sep` is the same as replacing each
      separator by `sep`. */
  lemma {:induction false} JoinSplit(s: string, c: char, sep: string)
    ensures Join(Split(s, c), sep) == Replace(s, c, sep)
  {
    if s != [] {
      JoinSplit(s[1..], c, sep);
      var rest := Split(s[1..], c);
      if s[0] == c {
        JoinEmptyHead(rest, sep);
      } else {
        JoinHead(s[0], rest, sep);
      }
    }
  }

  /** An empty first part contributes only its separator. */
  lemma JoinEmptyHead(parts: seq<string>, sep: string)
    requires parts != []
    ensures Join([[]] + parts, sep) == sep + Join(parts, sep)
  {
    assert ([[]] + parts)[1..] == parts;
  }

  /** A character put in front of the first part comes first in the join. */
  lemma JoinHead(x: char, parts: seq<string>, sep: string)
    requires parts != []
    ensures Join([[x] + parts[0]] + parts[1..], sep) == [x] + Join(parts, sep)
  {
    var q := [[x] + parts[0]] + parts[1..];
    assert q[1..] == parts[1..];
  }

  /** Replacing a character by itself changes nothing. */
  lemma {:induction false} ReplaceBySelf(s: string, c: char)
    ensures Replace(s, c, [c]) == s
  {
    if s != [] {
      ReplaceBySelf(s[1..], c);
      assert s == [s[0]] + s[1..];
    }
  }

  /** Splitting on `c` and joining with `c` gives back the line: no field
      content is lost by the split. */
  lemma SplitJoinRoundTrip(s: string, c: char)
    ensures Join(Split(s, c), [c]) == s
  {
    JoinSplit(s, c, [c]);
    ReplaceBySelf(s, c);
  }

  /** Text free of the separator sticks to the first field of what follows. */
  lemma {:induction false} SplitAppend(p: string, t: string, c: char)
    requires c !in p
    ensures Split(p + t, c) == [p + Split(t, c)[0]] + Split(t, c)[1..]
  {
    var st := Split(t, c);
    assert |st| >= 1;
    if p == [] {
      assert p + t == t;
      assert p + st[0] == st[0];
      assert st == [st[0]] + st[1..];
    } else {
      var q := p[1..];
      var x := p[0];
      assert p == [x] + q;
      assert c !in q;
      SplitAppend(q, t, c);
      var r := Split(q + t, c);
      assert p + t == [x] + (q + t);
      SplitCons(x, q + t, c);
      assert Split(p + t, c) == [[x] + r[0]] + r[1..];
      assert r[0] == q + st[0];
      AppendAssoc([x], q, st[0]);
      assert r[1..] == st[1..];
      assert [[x] + r[0]] + r[1..] == [p + st[0]] + st[1..];
    }
  }

  lemma SplitCons(x: char, s: string, c: char)
    requires x != c
    ensures Split([x] + s, c) == [[x] + Split(s, c)[0]] + Split(s, c)[1..]
  {
    assert ([x] + s)[0] == x;
    assert ([x] + s)[1..] == s;
  }

  lemma SplitAtSeparator(s: string, c: char)
    ensures Split([c] + s, c) == [[]] + Split(s, c)
  {
    assert ([c] + s)[0] == c;
    assert ([c] + s)[1..] == s;
  }

  /** Splitting fields joined by a separator that none of them contains gives
      the fields back. */
  lemma {:induction false} SplitOfJoin(parts: seq<string>, c: char)
    requires parts != []
    requires forall i :: 0 <= i < |parts| ==> c !in parts[i]
    ensures Split(Join(parts, [c]), c) == parts
  {
    if |parts| == 1 {
      SplitAppend(parts[0], [], c);
      assert parts[0] + [] == parts[0];
    } else {
      SplitOfJoin(parts[1..], c);
      var t := Join(parts[1..], [c]);
      var u := [c] + t;
      assert Join(parts, [c]) == parts[0] + u;
      SplitAppend(parts[0], u, c);
      SplitAtSeparator(t, c);
      var su := Split(u, c);
      assert su[0] == [] && su[1..] == parts[1..];
      assert parts[0] + su[0] == parts[0];
      assert parts == [parts[0]] + parts[1..];
    }
  }

  /** `strings.ReplaceAll(s, string(c), "")`: every `c` removed. */
  function RemoveAll(s: string, c: char): (r: string)
    ensures c !in r
    ensures |r| == |s| - Count(s, c)
    ensures forall x :: x != c ==> multiset(r)[x] == multiset(s)[x]
  {
    if s == [] then []
    else
      var rest := RemoveAll(s[1..], c);
      assert s == [s[0]] + s[1..];
      if s[0] == c then rest else [s[0]] + rest
  }

  /** Removing `c` is replacing it by nothing: the other characters stay in
      their order. */
  lemma {:induction false} RemoveAllIsReplace(s: string, c: char)
    ensures RemoveAll(s, c) == Replace(s, c, [])
  {
    if s != [] {
      RemoveAllIsReplace(s[1..], c);
      assert [] + Replace(s[1..], c, []) == Replace(s[1..], c, []);
    }
  }

  /** Removal works piece by piece: what is left of a concatenation is what is
      left of each part, in order. */
  lemma {:induction false} RemoveAllAppend(a: string, b: string, c: char)
    ensures RemoveAll(a + b, c) == RemoveAll(a, c) + RemoveAll(b, c)
  {
    if a == [] {
      assert a + b == b;
    } else {
      assert (a + b)[0] == a[0];
      assert (a + b)[1..] == a[1..] + b;
      RemoveAllAppend(a[1..], b, c);
      AppendAssoc([a[0]], RemoveAll(a[1..], c), RemoveAll(b, c));
    }
  }

  /** Removing a character that does not occur changes nothing. */
  lemma {:induction false} RemoveNothing(s: string, c: char)
    requires c !in s
    ensures RemoveAll(s, c) == s
  {
    if s != [] {
      RemoveNothing(s[1..], c);
    }
  }

  // ---------------------------------------------------------------------------
  // strings.Trim with a one-character cutset

  function TrimLeft(s: string, c: char): string
  {
    if s != [] && s[0] == c then TrimLeft(s[1..], c) else s
  }

  function TrimRight(s: string, c: char): string
  {
    if s != [] && s[|s| - 1] == c then TrimRight(s[..|s| - 1], c) else s
  }

  /** `strings.Trim(s, string(c))`: every leading and every trailing `c` removed. */
  function Trim(s: string, c: char): string
  {
    TrimRight(TrimLeft(s, c), c)
  }

  /** Text that neither starts nor ends with `c` is left as it is. */
  lemma TrimNothing(s: string, c: char)
    requires c !in s
    ensures Trim(s, c) == s
  {
  }

  /** Every character of `s` from `lo` up to `hi` is `c`. */
  predicate RunOf(s: string, lo: int, hi: int, c: char)
    requires 0 <= lo && hi <= |s|
  {
    forall k :: lo <= k < hi ==> s[k] == c
  }

  /** TrimLeft drops a run of leading `c` and stops at the first other character. */
  lemma TrimLeftShape(s: string, c: char)
    ensures exists i :: 0 <= i <= |s| && TrimLeft(s, c) == s[i..] && RunOf(s, 0, i, c)
    ensures TrimLeft(s, c) == [] || TrimLeft(s, c)[0] != c
  {
    var i := TrimLeftCut(s, c);
    TrimLeftStops(s, c);
  }

  /** TrimRight drops a run of trailing `c` and stops at the last other character. */
  lemma TrimRightShape(s: string, c: char)
    ensures exists j :: 0 <= j <= |s| && TrimRight(s, c) == s[..j] && RunOf(s, j, |s|, c)
    ensures TrimRight(s, c) == [] || TrimRight(s, c)[|TrimRight(s, c)| - 1] != c
  {
    var j := TrimRightCut(s, c);
    TrimRightStops(s, c);
  }

  /** Where TrimLeft cuts `s`: everything before the cut is `c`. */
  lemma {:induction false} TrimLeftCut(s: string, c: char) returns (i: nat)
    ensures i <= |s| && TrimLeft(s, c) == s[i..] && RunOf(s, 0, i, c)
  {
    if s != [] && s[0] == c {
      var k := TrimLeftCut(s[1..], c);
      i := k + 1;
      assert s[1..][k..] == s[i..];
      forall m | 0 <= m < i ensures s[m] == c {
        if m > 0 {
          assert s[m] == s[1..][m - 1];
        }
      }
    } else {
      i := 0;
    }
  }

  /** Where TrimRight cuts `s`: everything after the cut is `c`. */
  lemma {:induction false} TrimRightCut(s: string, c: char) returns (j: nat)
    ensures j <= |s| && TrimRight(s, c) == s[..j] && RunOf(s, j, |s|, c)
  {
    if s != [] && s[|s| - 1] == c {
      var p := s[..|s| - 1];
      j := TrimRightCut(p, c);
      assert p[..j] == s[..j];
      forall m | j <= m < |s| ensures s[m] == c {
        if m < |p| {
          assert s[m] == p[m];
        }
      }
    } else {
      j := |s|;
    }
  }

  /** What TrimLeft keeps does not start with `c`. */
  lemma {:induction false} TrimLeftStops(s: string, c: char)
    ensures TrimLeft(s, c) == [] || TrimLeft(s, c)[0] != c
  {
    if s != [] && s[0] == c {
      TrimLeftStops(s[1..], c);
    }
  }

  /** What TrimRight keeps does not end with `c`. */
  lemma {:induction false} TrimRightStops(s: string, c: char)
    ensures TrimRight(s, c) == [] || TrimRight(s, c)[|TrimRight(s, c)| - 1] != c
  {
    if s != [] && s[|s| - 1] == c {
      TrimRightStops(s[..|s| - 1], c);
    }
  }

  /** Trim keeps one contiguous slice of `s`: everything before it and after it
      is `c`, and the slice neither starts nor ends with `c`. */
  lemma TrimShape(s: string, c: char)
    ensures exists i, j :: 0 <= i <= j <= |s| && Trim(s, c) == s[i..j] && RunOf(s, 0, i, c) && RunOf(s, j, |s|, c)
    ensures Trim(s, c) == [] || (Trim(s, c)[0] != c && Trim(s, c)[|Trim(s, c)| - 1] != c)
  {
    TrimEnds(s, c);
    var i := TrimLeftCut(s, c);
    var j := TrimRightCut(s[i..], c);
    SuffixRun(s, i, j, c);
    assert s[i..][..j] == s[i..i + j];
  }

  /** What Trim keeps neither starts nor ends with `c`. */
  lemma TrimEnds(s: string, c: char)
    ensures Trim(s, c) == [] || (Trim(s, c)[0] != c && Trim(s, c)[|Trim(s, c)| - 1] != c)
  {
    TrimLeftStops(s, c);
    var t := TrimLeft(s, c);
    var j := TrimRightCut(t, c);
    TrimRightStops(t, c);
    if j > 0 {
      assert TrimRight(t, c)[0] == t[0];
    }
  }

  /** A run of `c` at the end of a suffix is a run at the end of the whole. */
  lemma SuffixRun(s: string, i: nat, j: nat, c: char)
    requires i <= |s| && j <= |s| - i
    requires RunOf(s[i..], j, |s| - i, c)
    ensures RunOf(s, i + j, |s|, c)
  {
    forall k | i + j <= k < |s| ensures s[k] == c {
      assert s[k] == s[i..][k - i];
    }
  }

  // ---------------------------------------------------------------------------
  // strings.Contains / bytes.Contains

  /** `strings.Contains(s, pat)` and `bytes.Contains(s, pat)`: `pat` occurs
      contiguously in `s`. */
  predicate Contains<T(==)>(s: seq<T>, pat: seq<T>)
    decreases |s|
  {
    |pat| <= |s| && (s[..|pat|] == pat || (s != [] && Contains(s[1..], pat)))
  }

  /** `pat` sits in `s` starting at offset `i`. */
  predicate OccursAt<T(==)>(s: seq<T>, pat: seq<T>, i: int)
  {
    0 <= i && i + |pat| <= |s| && s[i..i + |pat|] == pat
  }

  /** Contains holds exactly when `pat` sits at some offset of `s`. */
  lemma {:induction false} ContainsAt<T>(s: seq<T>, pat: seq<T>)
    ensures Contains(s, pat) <==> exists i :: OccursAt(s, pat, i)
  {
    if |pat| <= |s| {
      if s[..|pat|] == pat {
        assert OccursAt(s, pat, 0);
      } else {
        ContainsAt(s[1..], pat);
        if Contains(s[1..], pat) {
          var i :| OccursAt(s[1..], pat, i);
          SliceOfTail(s, i + 1, |pat|);
          assert OccursAt(s, pat, i + 1);
        } else {
          forall i | 1 <= i <= |s| - |pat| ensures OccursAt(s, pat, i) == OccursAt(s[1..], pat, i - 1) {
            SliceOfTail(s, i, |pat|);
          }
        }
      }
    }
  }

  /** A slice of the tail is the slice of the whole one place further on. */
  lemma SliceOfTail<T>(s: seq<T>, i: int, len: nat)
    requires 1 <= i && i + len <= |s|
    ensures s[1..][i - 1..i - 1 + len] == s[i..i + len]
  {
  }

  /** Looking for a one-character string is looking for that character. */
  lemma ContainsChar(s: string, c: char)
    ensures Contains(s, [c]) <==> c in s
  {
    ContainsAt(s, [c]);
    if c in s {
      var i :| 0 <= i < |s| && s[i] == c;
      assert s[i..i + 1] == [c];
      assert OccursAt(s, [c], i);
    }
    if Contains(s, [c]) {
      var i :| OccursAt(s, [c], i);
      assert s[i] == s[i..i + 1][0];
    }
  }

  // ---------------------------------------------------------------------------
  // Go's `<` on strings

  /** Go's `a < b` on strings: lexicographic, a proper prefix comes first. */
  predicate StrLess(a: string, b: string)
  {
    if a == [] then b != []
    else if b == [] then false
    else if a[0] != b[0] then a[0] < b[0]
    else StrLess(a[1..], b[1..])
  }

  lemma {:induction false} StrLessIrreflexive(a: string)
    ensures !StrLess(a, a)
  {
    if a != [] { StrLessIrreflexive(a[1..]); }
  }

  lemma {:induction false} StrLessTransitive(a: string, b: string, c: string)
    requires StrLess(a, b) && StrLess(b, c)
    ensures StrLess(a, c)
  {
    if a != [] && b != [] && c != [] && a[0] == b[0] && b[0] == c[0] {
      StrLessTransitive(a[1..], b[1..], c[1..]);
    }
  }

  /** Any two strings are equal or ordered one way round. */
  lemma {:induction false} StrLessTotal(a: string, b: string)
    ensures a == b || StrLess(a, b) || StrLess(b, a)
  {
    if a != [] && b != [] && a[0] == b[0] {
      StrLessTotal(a[1..], b[1..]);
      if a[1..] == b[1..] {
        assert a == [a[0]] + a[1..] && b == [b[0]] + b[1..];
      }
    }
  }

  lemma StrLessAsymmetric(a: string, b: string)
    ensures !(StrLess(a, b) && StrLess(b, a))
  {
    if StrLess(a, b) && StrLess(b, a) {
      StrLessTransitive(a, b, a);
      StrLessIrreflexive(a);
    }
  }

  // ---------------------------------------------------------------------------
  // fmt's %X and %x on an integer

  function HexDigit(d: nat, upper: bool): (c: char)
    requires d < 16
  {
    if d < 10 then ('0' as int + d) as char
    else if upper then ('A' as int + d - 10) as char
    else ('a' as int + d - 10) as char
  }

  /** Value of a hexadecimal digit of either case (-1 for any other character). */
  function DigitValue(c: char): (v: int)
    ensures -1 <= v < 16
  {
    if '0' <= c <= '9' then c as int - '0' as int
    else if 'A' <= c <= 'F' then c as int - 'A' as int + 10
    else if 'a' <= c <= 'f' then c as int - 'a' as int + 10
    else -1
  }

  predicate IsHexDigit(c: char, upper: bool)
  {
    '0' <= c <= '9' || (if upper then 'A' <= c <= 'F' else 'a' <= c <= 'f')
  }

  /** `fmt.Sprintf("%X", n)` (upper) or `fmt.Sprintf("%x", n)`: base 16, no padding. */
  function Hex(n: nat, upper: bool): (s: string)
    ensures |s| >= 1
    ensures forall i :: 0 <= i < |s| ==> IsHexDigit(s[i], upper)
    ensures |s| == 1 || s[0] != '0'
  {
    if n < 16 then [HexDigit(n, upper)]
    else
      var p := Hex(n / 16, upper);
      p + [HexDigit(n % 16, upper)]
  }

  /** Reads a string of hexadecimal digits back as a number. */
  function ParseHex(s: string): int
  {
    if s == [] then 0 else 16 * ParseHex(s[..|s| - 1]) + DigitValue(s[|s| - 1])
  }

  /** Reading a formatted code back gives the number it was formatted from. */
  lemma {:induction false} HexRoundTrip(n: nat, upper: bool)
    ensures ParseHex(Hex(n, upper)) == n
  {
    if n >= 16 {
      HexRoundTrip(n / 16, upper);
      var s := Hex(n, upper);
      assert s[..|s| - 1] == Hex(n / 16, upper);
    }
  }

  /** Different numbers never share a code. */
  lemma HexInjective(m: nat, n: nat, upper: bool)
    ensures Hex(m, upper) == Hex(n, upper) <==> m == n
  {
    HexRoundTrip(m, upper);
    HexRoundTrip(n, upper);
  }

  /** Lower-casing a hexadecimal digit. */
  function LowerHexChar(c: char): char
  {
    if 'A' <= c <= 'F' then (c as int - 'A' as int + 'a' as int) as char else c
  }

  function LowerHexString(s: string): (r: string)
    ensures |r| == |s|
  {
    if s == [] then [] else LowerHexString(s[..|s| - 1]) + [LowerHexChar(s[|s| - 1])]
  }

  /** `%x` is `%X` with the letters lower-cased. */
  lemma {:induction false} HexLowerOfUpper(n: nat)
    ensures Hex(n, false) == LowerHexString(Hex(n, true))
  {
    if n < 16 {
      HexDigitLower(n);
    } else {
      var s := Hex(n, true);
      var p := Hex(n / 16, true);
      assert s == p + [HexDigit(n % 16, true)];
      assert s[..|s| - 1] == p;
      HexLowerOfUpper(n / 16);
      HexDigitLower(n % 16);
    }
  }

  /** A lower-case digit is its upper-case digit lower-cased. */
  lemma HexDigitLower(d: nat)
    requires d < 16
    ensures HexDigit(d, false) == LowerHexChar(HexDigit(d, true))
  {
  }

  // ---------------------------------------------------------------------------
  // fmt.Sprintf with one string argument

  /** What formatting has produced so far, and whether the argument was consumed. */
  datatype Formatted = Formatted(out: string, argUsed: bool)

  /** Go's formatting loop over `f` with the single string argument `arg`
      (`used` tells whether a verb already consumed it): `%%` prints `%`, `%s`
      and `%v` print the argument, any other verb letter prints
      `%!c(string=arg)`, a verb with no argument left prints `%!c(MISSING)`,
      and a trailing lone `%` prints `%!(NOVERB)`. */
  function FormatArg(f: string, arg: string, used: bool): (r: Formatted)
    ensures used ==> r.argUsed
    decreases |f|
  {
    if f == [] then Formatted([], used)
    else if f[0] != '%' then
      var r := FormatArg(f[1..], arg, used);
      Formatted([f[0]] + r.out, r.argUsed)
    else if |f| == 1 then Formatted("%!(NOVERB)", used)
    else if f[1] == '%' then
      var r := FormatArg(f[2..], arg, used);
      Formatted("%" + r.out, r.argUsed)
    else if used then
      var r := FormatArg(f[2..], arg, used);
      Formatted("%!" + [f[1]] + "(MISSING)" + r.out, r.argUsed)
    else if f[1] == 's' || f[1] == 'v' then
      var r := FormatArg(f[2..], arg, true);
      Formatted(arg + r.out, true)
    else
      var r := FormatArg(f[2..], arg, true);
      Formatted("%!" + [f[1]] + "(string=" + arg + ")" + r.out, true)
  }

  /** `fmt.Sprintf(format, arg)`: an argument no verb consumed is reported
      after the output as `%!(EXTRA string=arg)`. */
  function Sprintf1(format: string, arg: string): string
  {
    var r := FormatArg(format, arg, false);
    if r.argUsed then r.out else r.out + "%!(EXTRA string=" + arg + ")"
  }

  /** A format whose only verbs are `%%` escapes and exactly one `%s`
      (`placed` tells whether the `%s` has already been seen). */
  predicate OneStringVerb(f: string, placed: bool)
    decreases |f|
  {
    if f == [] then placed
    else if f[0] != '%' then OneStringVerb(f[1..], placed)
    else |f| >= 2 && ((f[1] == '%' && OneStringVerb(f[2..], placed))
                      || (f[1] == 's' && !placed && OneStringVerb(f[2..], true)))
  }

  /** Formatting a template with one `%s` consumes the argument, prints it,
      and passes trailing literal text (no `%`) through unchanged. */
  lemma {:induction false} FormatOneStringVerb(f: string, tail: string, arg: string, placed: bool)
    requires OneStringVerb(f, placed)
    requires '%' !in tail
    ensures FormatArg(f + tail, arg, placed) == Formatted(FormatArg(f, arg, placed).out + tail, true)
    ensures !placed ==> Contains(FormatArg(f, arg, placed).out, arg)
  {
    if f == [] {
      assert f + tail == tail;
      LiteralFormat(tail, arg, placed);
    } else if f[0] != '%' {
      FormatOneStringVerb(f[1..], tail, arg, placed);
      FormatLiteral(f, tail, arg, placed);
    } else if f[1] == '%' && OneStringVerb(f[2..], placed) {
      FormatOneStringVerb(f[2..], tail, arg, placed);
      FormatEscape(f, tail, arg, placed);
    } else {
      FormatOneStringVerb(f[2..], tail, arg, true);
      FormatVerb(f, tail, arg);
    }
  }

  /** A literal character in front keeps what holds for the rest. */
  lemma FormatLiteral(f: string, tail: string, arg: string, placed: bool)
    requires f != [] && f[0] != '%'
    requires FormatArg(f[1..] + tail, arg, placed) == Formatted(FormatArg(f[1..], arg, placed).out + tail, true)
    requires !placed ==> Contains(FormatArg(f[1..], arg, placed).out, arg)
    ensures FormatArg(f + tail, arg, placed) == Formatted(FormatArg(f, arg, placed).out + tail, true)
    ensures !placed ==> Contains(FormatArg(f, arg, placed).out, arg)
  {
    assert (f + tail)[0] == f[0];
    assert (f + tail)[1..] == f[1..] + tail;
    var o := FormatArg(f[1..], arg, placed).out;
    AppendAssoc([f[0]], o, tail);
    if !placed {
      ContainsCons([f[0]], o, arg);
    }
  }

  /** A `%%` escape in front keeps what holds for the rest. */
  lemma FormatEscape(f: string, tail: string, arg: string, placed: bool)
    requires |f| >= 2 && f[0] == '%' && f[1] == '%'
    requires FormatArg(f[2..] + tail, arg, placed) == Formatted(FormatArg(f[2..], arg, placed).out + tail, true)
    requires !placed ==> Contains(FormatArg(f[2..], arg, placed).out, arg)
    ensures FormatArg(f + tail, arg, placed) == Formatted(FormatArg(f, arg, placed).out + tail, true)
    ensures !placed ==> Contains(FormatArg(f, arg, placed).out, arg)
  {
    assert (f + tail)[0] == '%' && (f + tail)[1] == '%';
    assert (f + tail)[2..] == f[2..] + tail;
    var o := FormatArg(f[2..], arg, placed).out;
    AppendAssoc("%", o, tail);
    if !placed {
      ContainsCons("%", o, arg);
    }
  }

  /** The `%s` verb prints the argument in front of the rest. */
  lemma FormatVerb(f: string, tail: string, arg: string)
    requires |f| >= 2 && f[0] == '%' && f[1] == 's'
    requires FormatArg(f[2..] + tail, arg, true) == Formatted(FormatArg(f[2..], arg, true).out + tail, true)
    ensures FormatArg(f + tail, arg, false) == Formatted(FormatArg(f, arg, false).out + tail, true)
    ensures Contains(FormatArg(f, arg, false).out, arg)
  {
    var g := f + tail;
    assert g[0] == '%' && g[1] == 's' && g[2..] == f[2..] + tail;
    VerbStep(g, arg);
    VerbStep(f, arg);
    var o := FormatArg(f[2..], arg, true).out;
    AppendAssoc(arg, o, tail);
    ContainsPrefix(arg, o);
  }

  /** One unfolding of the formatting loop at a `%s` with the argument unused. */
  lemma VerbStep(f: string, arg: string)
    requires |f| >= 2 && f[0] == '%' && f[1] == 's'
    ensures FormatArg(f, arg, false) == Formatted(arg + FormatArg(f[2..], arg, true).out, true)
  {
  }

  /** Concatenation regrouped. */
  lemma AppendAssoc<T>(a: seq<T>, b: seq<T>, c: seq<T>)
    ensures a + (b + c) == (a + b) + c
  {
  }

  /** Five pieces concatenated, regrouped around the middle one. */
  lemma Regroup<T>(a: seq<T>, b: seq<T>, m: seq<T>, d: seq<T>, e: seq<T>)
    ensures a + (b + m + d) + e == (a + b) + m + (d + e)
    ensures (a + b) + m + (d + e) == a + b + m + d + e
  {
  }

  /** A sequence contains its own prefix. */
  lemma ContainsPrefix<T>(p: seq<T>, s: seq<T>)
    ensures Contains(p + s, p)
  {
    assert (p + s)[..|p|] == p;
  }

  /** Text without `%` is copied through and leaves the argument as it was. */
  lemma {:induction false} LiteralFormat(t: string, arg: string, used: bool)
    requires '%' !in t
    ensures FormatArg(t, arg, used) == Formatted(t, used)
  {
    if t != [] {
      LiteralFormat(t[1..], arg, used);
      assert t == [t[0]] + t[1..];
    }
  }

  /** Literal text in front of a format is copied through unchanged. */
  lemma {:induction false} LiteralPrefix(pre: string, rest: string, arg: string, used: bool)
    requires '%' !in pre
    ensures FormatArg(pre + rest, arg, used)
         == Formatted(pre + FormatArg(rest, arg, used).out, FormatArg(rest, arg, used).argUsed)
  {
    if pre == [] {
      assert pre + rest == rest;
    } else {
      LiteralPrefix(pre[1..], rest, arg, used);
      assert (pre + rest)[0] == pre[0];
      assert (pre + rest)[1..] == pre[1..] + rest;
      AppendAssoc([pre[0]], pre[1..], FormatArg(rest, arg, used).out);
      assert [pre[0]] + pre[1..] == pre;
    }
  }

  /** Literal text in front of a format does not change whether it has one `%s`. */
  lemma {:induction false} OneStringVerbLiteralPrefix(pre: string, rest: string, placed: bool)
    requires '%' !in pre
    ensures OneStringVerb(pre + rest, placed) == OneStringVerb(rest, placed)
  {
    if pre == [] {
      assert pre + rest == rest;
    } else {
      OneStringVerbLiteralPrefix(pre[1..], rest, placed);
      assert (pre + rest)[0] == pre[0];
      assert (pre + rest)[1..] == pre[1..] + rest;
    }
  }

  /** A template `pre%spost` with no other `%` is a one-`%s` format, and
      formatting it puts the argument exactly where the `%s` was. */
  lemma FormatTemplate(pre: string, post: string, arg: string)
    requires '%' !in pre && '%' !in post
    ensures OneStringVerb(pre + "%s" + post, false)
    ensures FormatArg(pre + "%s" + post, arg, false) == Formatted(pre + arg + post, true)
  {
    var verb := "%s" + post;
    assert pre + "%s" + post == pre + verb;
    assert verb[0] == '%' && verb[1] == 's' && verb[2..] == post;
    LiteralPrefix(pre, verb, arg, false);
    VerbStep(verb, arg);
    LiteralFormat(post, arg, true);
    OneStringVerbLiteralPrefix(pre, verb, false);
    OneStringVerbLiteralPrefix(post, [], true);
    assert post + [] == post;
    AppendAssoc(pre, arg, post);
  }

  /** A `%%` escape in front of literal text prints one `%`. */
  lemma EscapeFormat(t: string, arg: string, used: bool)
    requires '%' !in t
    ensures FormatArg("%%" + t, arg, used) == Formatted("%" + t, used)
  {
    var g := "%%" + t;
    assert g[0] == '%' && g[1] == '%' && g[2..] == t;
    LiteralFormat(t, arg, used);
  }

  /** An occurrence survives putting text behind. */
  lemma ContainsAppend<T>(s: seq<T>, t: seq<T>, pat: seq<T>)
    requires Contains(s, pat)
    ensures Contains(s + t, pat)
  {
    ContainsAt(s, pat);
    var i :| OccursAt(s, pat, i);
    assert (s + t)[i..i + |pat|] == s[i..i + |pat|];
    assert OccursAt(s + t, pat, i);
    ContainsAt(s + t, pat);
  }

  /** An occurrence survives putting text in front. */
  lemma ContainsCons<T>(p: seq<T>, s: seq<T>, pat: seq<T>)
    requires Contains(s, pat)
    ensures Contains(p + s, pat)
  {
    ContainsAt(s, pat);
    var i :| OccursAt(s, pat, i);
    assert (p + s)[|p| + i..|p| + i + |pat|] == s[i..i + |pat|];
    assert OccursAt(p + s, pat, |p| + i);
    ContainsAt(p + s, pat);
  }
}
