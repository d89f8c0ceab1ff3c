/** String helpers with the semantics of the Rust standard library calls the source makes. */
module Text {
  import opened Wrappers

  predicate IsDigit(c: char) {
    '0' <= c <= '9'
  }

  predicate AllDigits(s: string) {
    forall k :: 0 <= k < |s| ==> IsDigit(s[k])
  }

  /** The decimal value of a string of ASCII digits. */
  function DecimalValue(s: string): (v: nat)
    requires AllDigits(s)
  {
    if |s| == 0 then 0 else DecimalValue(s[..|s| - 1]) * 10 + (s[|s| - 1] as int - '0' as int)
  }

  function DigitValue(c: char): int {
    c as int - '0' as int
  }

  /** Two and four digits read as the positional sum of their digits. */
  lemma DecimalDigits(s: string)
    requires AllDigits(s) && (|s| == 2 || |s| == 4)
    ensures |s| == 2 ==> DecimalValue(s) == 10 * DigitValue(s[0]) + DigitValue(s[1])
    ensures |s| == 4 ==> DecimalValue(s) == 1000 * DigitValue(s[0]) + 100 * DigitValue(s[1])
                                           + 10 * DigitValue(s[2]) + DigitValue(s[3])
  {
    assert DecimalValue(s[..1]) == DigitValue(s[0]) by {
      assert s[..1][..0] == [];
    }
    assert s[..2][..1] == s[..1];
    if |s| == 4 {
      assert s[..3][..2] == s[..2];
      assert s[..4] == s;
    }
  }

  /** Reading a concatenation: the left part is shifted by the width of the right part. */
  lemma {:induction false} DecimalConcat(a: string, b: string)
    requires AllDigits(a) && AllDigits(b)
    ensures AllDigits(a + b)
    ensures DecimalValue(a + b) == DecimalValue(a) * Pow10(|b|) + DecimalValue(b)
    decreases |b|
  {
    if |b| > 0 {
      var b' := b[..|b| - 1];
      var d := DigitValue(b[|b| - 1]);
      assert (a + b)[..|a + b| - 1] == a + b';
      assert (a + b)[|a + b| - 1] == b[|b| - 1];
      DecimalConcat(a, b');
      assert DecimalValue(a + b) == DecimalValue(a + b') * 10 + d;
      assert DecimalValue(b) == DecimalValue(b') * 10 + d;
      ShiftDigit(DecimalValue(a), Pow10(|b'|), DecimalValue(b'), d);
    } else {
      assert a + b == a;
    }
  }

  /** Appending a digit to the right part shifts the left part one place further. */
  lemma ShiftDigit(x: int, p: int, y: int, d: int)
    ensures (x * p + y) * 10 + d == x * (10 * p) + (y * 10 + d)
  {
  }

  lemma {:induction false} DecimalValueBound(s: string)
    requires AllDigits(s)
    ensures DecimalValue(s) < Pow10(|s|)
  {
    if |s| > 0 {
      DecimalValueBound(s[..|s| - 1]);
    }
  }

  function Pow10(n: nat): (p: nat)
    ensures p >= 1
  {
    if n == 0 then 1 else 10 * Pow10(n - 1)
  }

  lemma {:induction false} Pow10Monotone(m: nat, n: nat)
    requires m <= n
    ensures Pow10(m) <= Pow10(n)
    decreases n
  {
    if m < n {
      Pow10Monotone(m, n - 1);
    }
  }

  /** `to_ascii_lowercase`: only 'A'..'Z' change. */
  function AsciiLower(s: string): (r: string)
    ensures |r| == |s|
    ensures forall k :: 0 <= k < |s| ==>
      r[k] == (if 'A' <= s[k] <= 'Z' then (s[k] as int + 32) as char else s[k])
  {
    if |s| == 0 then []
    else
      var c := s[0];
      [if 'A' <= c <= 'Z' then (c as int + 32) as char else c] + AsciiLower(s[1..])
  }

  /** Lower-casing twice changes nothing more. */
  lemma AsciiLowerIdempotent(s: string)
    ensures AsciiLower(AsciiLower(s)) == AsciiLower(s)
  {
    var l := AsciiLower(s);
    assert forall k :: 0 <= k < |l| ==> AsciiLower(l)[k] == l[k];
  }

  predicate EndsWith(s: string, suffix: string) {
    |suffix| <= |s| && s[|s| - |suffix|..] == suffix
  }

  function Repeat(p: string, n: nat): string {
    if n == 0 then [] else p + Repeat(p, n - 1)
  }

  /** `trim_end_matches(p)`: removes every trailing copy of the non-empty pattern p. */
  function TrimEndMatches(s: string, p: string): (r: string)
    requires |p| > 0
    ensures !EndsWith(r, p)
    ensures exists n: nat {:trigger Repeat(p, n)} :: s == r + Repeat(p, n)
    decreases |s|
  {
    if EndsWith(s, p) then
      var r := TrimEndMatches(s[..|s| - |p|], p);
      ghost var n: nat :| s[..|s| - |p|] == r + Repeat(p, n);
      assert s == r + Repeat(p, n + 1) by {
        assert s == s[..|s| - |p|] + p;
        RepeatSnoc(p, n);
      }
      r
    else
      assert s == s + Repeat(p, 0);
      s
  }

  lemma {:induction false} RepeatSnoc(p: string, n: nat)
    ensures Repeat(p, n) + p == Repeat(p, n + 1)
  {
    if n > 0 {
      RepeatSnoc(p, n - 1);
    }
  }

  /** Rust's `char::is_whitespace`: the Unicode White_Space property. */
  predicate IsWhitespace(c: char) {
    ('\U{0009}' <= c <= '\U{000D}') || c == '\U{0020}' || c == '\U{0085}' || c == '\U{00A0}'
    || c == '\U{1680}' || ('\U{2000}' <= c <= '\U{200A}') || c == '\U{2028}' || c == '\U{2029}'
    || c == '\U{202F}' || c == '\U{205F}' || c == '\U{3000}'
  }

  function TrimStart(s: string): (r: string)
    ensures |r| <= |s| && r == s[|s| - |r|..]
    ensures |r| > 0 ==> !IsWhitespace(r[0])
    ensures forall k :: 0 <= k < |s| - |r| ==> IsWhitespace(s[k])
  {
    if |s| > 0 && IsWhitespace(s[0]) then
      var r := TrimStart(s[1..]);
      assert s[1..][|s| - 1 - |r|..] == s[|s| - |r|..];
      assert forall k :: 1 <= k < |s| - |r| ==> s[k] == s[1..][k - 1];
      r
    else s
  }

  function TrimEnd(s: string): (r: string)
    ensures |r| <= |s| && r == s[..|r|]
    ensures |r| > 0 ==> !IsWhitespace(r[|r| - 1])
    ensures forall k :: |r| <= k < |s| ==> IsWhitespace(s[k])
  {
    if |s| > 0 && IsWhitespace(s[|s| - 1]) then TrimEnd(s[..|s| - 1]) else s
  }

  /** Trailing copies of the pattern make no difference to what trimming leaves. */
  lemma {:induction false} TrimEndMatchesCopies(s: string, p: string, n: nat)
    requires |p| > 0
    ensures TrimEndMatches(s + Repeat(p, n), p) == TrimEndMatches(s, p)
  {
    if n > 0 {
      var t := s + Repeat(p, n - 1);
      RepeatSnoc(p, n - 1);
      assert s + Repeat(p, n) == t + p;
      assert EndsWith(t + p, p);
      assert (t + p)[..|t + p| - |p|] == t;
      TrimEndMatchesCopies(s, p, n - 1);
    } else {
      assert s + Repeat(p, 0) == s;
    }
  }

  /** `str::trim`: strips leading and trailing whitespace. */
  function Trim(s: string): (r: string) {
    TrimEnd(TrimStart(s))
  }

  /** A string with no whitespace at either end is left as it is. */
  lemma TrimUntouched(s: string)
    requires |s| > 0 ==> !IsWhitespace(s[0]) && !IsWhitespace(s[|s| - 1])
    ensures Trim(s) == s
  {
    var t := TrimStart(s);
    if |s| > 0 {
      assert |s| - |t| == 0;
    }
  }

  /** Index of the last occurrence of c in s. */
  function LastIndexOf(s: string, c: char): (r: Option<nat>)
    ensures r.None? <==> c !in s
    ensures r.Some? ==> r.value < |s| && s[r.value] == c && c !in s[r.value + 1..]
  {
    if |s| == 0 then None
    else if s[|s| - 1] == c then Some(|s| - 1)
    else
      var r := LastIndexOf(s[..|s| - 1], c);
      assert s == s[..|s| - 1] + [s[|s| - 1]];
      r
  }

  lemma LastIndexOfAt(s: string, c: char, i: nat)
    requires i < |s| && s[i] == c && c !in s[i + 1..]
    ensures LastIndexOf(s, c) == Some(i)
  {
  }

  /** `str::rsplit_once(c)`: the text before and after the last c. */
  function RsplitOnce(s: string, c: char): (r: Option<(string, string)>)
    ensures r.None? <==> c !in s
    ensures r.Some? ==> s == r.value.0 + [c] + r.value.1 && c !in r.value.1
  {
    match LastIndexOf(s, c)
    case None => None
    case Some(i) =>
      assert s == s[..i] + [c] + s[i + 1..];
      Some((s[..i], s[i + 1..]))
  }
}

/** File-name decomposition as done by Rust's `Path::file_stem` and `Path::extension`. */
module Paths {
  import opened Wrappers
  import opened Text

  /**
   * A path, seen through the only parts the model reads: an opaque directory
   * part and the final component, absent for paths such as `/` or `a/..`.
   */
  datatype MediaPath = MediaPath(dir: string, fileName: Option<string>)

  /** Rust's `split_file_at_dot`, as (stem, extension). */
  function SplitAtDot(name: string): (r: (string, Option<string>))
    ensures r.1.None? ==> r.0 == name
    ensures r.1.Some? ==> name == r.0 + "." + r.1.value && |r.0| > 0 && '.' !in r.1.value
  {
    if name == ".." then (name, None)
    else
      match RsplitOnce(name, '.')
      case None => (name, None)
      case Some((before, after)) => if before == "" then (name, None) else (before, Some(after))
  }

  /** A name with a non-empty stem and a dot-free extension splits back into them. */
  lemma SplitAtDotOf(stem: string, ext: string)
    requires |stem| > 0 && '.' !in ext && stem + "." + ext != ".."
    ensures SplitAtDot(stem + "." + ext) == (stem, Some(ext))
  {
    var name := stem + "." + ext;
    assert name[|stem| + 1..] == ext;
    LastIndexOfAt(name, '.', |stem|);
    assert name[..|stem|] == stem;
  }

  function FileStem(p: MediaPath): Option<string> {
    match p.fileName
    case None => None
    case Some(n) => Some(SplitAtDot(n).0)
  }

  function Extension(p: MediaPath): Option<string> {
    match p.fileName
    case None => None
    case Some(n) => SplitAtDot(n).1
  }

  /** Stem and extension put back together give the file name. */
  lemma StemAndExtension(p: MediaPath)
    ensures p.fileName.None? <==> FileStem(p).None?
    ensures Extension(p).Some? ==> p.fileName == Some(FileStem(p).value + "." + Extension(p).value)
    ensures p.fileName.Some? && Extension(p).None? ==> FileStem(p) == p.fileName
  {
  }
}

/** Leftmost-first search, the shape of every regex `find` and field scan the source does, and its mirror image. */
module Search {
  import opened Wrappers

  /** The least k in [i, n) with ok(k), if any. */
  function Leftmost(n: nat, ok: nat -> bool, i: nat): (r: Option<nat>)
    requires i <= n
    ensures r.Some? ==> i <= r.value < n && ok(r.value)
    ensures r.Some? ==> forall k :: i <= k < r.value ==> !ok(k)
    ensures r.None? ==> forall k :: i <= k < n ==> !ok(k)
    decreases n - i
  {
    if i == n then None
    else if ok(i) then Some(i)
    else Leftmost(n, ok, i + 1)
  }

  /** The greatest k in [i, n) with ok(k), if any. */
  function Rightmost(n: nat, ok: nat -> bool, i: nat): (r: Option<nat>)
    requires i <= n
    ensures r.Some? ==> i <= r.value < n && ok(r.value)
    ensures r.Some? ==> forall k :: r.value < k < n ==> !ok(k)
    ensures r.None? ==> forall k :: i <= k < n ==> !ok(k)
    decreases n - i
  {
    if i == n then None
    else if ok(n - 1) then Some(n - 1)
    else Rightmost(n - 1, ok, i)
  }

  /** A passing position with no passing position before it is the one found. */
  lemma LeftmostIs(n: nat, ok: nat -> bool, i: nat, k: nat)
    requires i <= k < n && ok(k)
    requires forall j :: i <= j < k ==> !ok(j)
    ensures Leftmost(n, ok, i) == Some(k)
  {
  }
}
