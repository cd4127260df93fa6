// JavaScript string primitives used by the parser: character classes,
// trim, split, join, character replacement and decimal digits.

module Wrappers {
  datatype Option<+T> = None | Some(value: T)
}

module JsString {

  /** The placeholder marker; the parser assumes its input never holds it. */
  const NUL: char := '\0'

  predicate IsDigit(c: char) { '0' <= c <= '9' }

  /** A non-empty run of decimal digits. */
  predicate IsDigits(s: string) {
    |s| > 0 && forall k | 0 <= k < |s| :: IsDigit(s[k])
  }

  /** Line terminators: what `.` in a JavaScript regular expression does not match. */
  predicate IsLineTerminator(c: char) {
    c == '\n' || c == '\r' || c == '\U{2028}' || c == '\U{2029}'
  }

  /** The characters `String.prototype.trim` removes: white space and line terminators. */
  predicate IsWhitespace(c: char) {
    || c == '\t' || c == '\n' || c == '\U{000B}' || c == '\U{000C}' || c == '\r' || c == ' '
    || c == '\U{00A0}' || c == '\U{1680}' || ('\U{2000}' <= c <= '\U{200A}')
    || c == '\U{2028}' || c == '\U{2029}' || c == '\U{202F}' || c == '\U{205F}'
    || c == '\U{3000}' || c == '\U{FEFF}'
  }

  // ---------------------------------------------------------------- trim

  /** End of the run of white space of `s` that starts at `i`. */
  function SkipSpace(s: string, i: nat): (j: nat)
    requires i <= |s|
    ensures i <= j <= |s|
    ensures j < |s| ==> !IsWhitespace(s[j])
    decreases |s| - i
  {
    if i < |s| && IsWhitespace(s[i]) then SkipSpace(s, i + 1) else i
  }

  /** Start of the run of white space of `s` that ends at `j`, not going below `lo`. */
  function SkipSpaceBack(s: string, lo: nat, j: nat): (i: nat)
    requires lo <= j <= |s|
    ensures lo <= i <= j
    ensures i > lo ==> !IsWhitespace(s[i - 1])
    decreases j
  {
    if j > lo && IsWhitespace(s[j - 1]) then SkipSpaceBack(s, lo, j - 1) else j
  }

  lemma {:induction false} SkipSpaceAll(s: string, i: nat)
    requires i <= |s|
    ensures forall k | i <= k < SkipSpace(s, i) :: IsWhitespace(s[k])
    decreases |s| - i
  {
    if i < |s| && IsWhitespace(s[i]) { SkipSpaceAll(s, i + 1); }
  }

  lemma {:induction false} SkipSpaceBackAll(s: string, lo: nat, j: nat)
    requires lo <= j <= |s|
    ensures forall k | SkipSpaceBack(s, lo, j) <= k < j :: IsWhitespace(s[k])
    decreases j
  {
    if j > lo && IsWhitespace(s[j - 1]) { SkipSpaceBackAll(s, lo, j - 1); }
  }

  /** `String.prototype.trim`: white space removed from both ends. */
  function Trim(s: string): (r: string)
    ensures |r| <= |s|
    ensures r == [] || Trimmed(r)
  {
    var i := SkipSpace(s, 0);
    s[i..SkipSpaceBack(s, i, |s|)]
  }

  /** A non-empty text with no white space at either end: what trim leaves when it leaves anything. */
  predicate Trimmed(p: string) {
    p != [] && !IsWhitespace(p[0]) && !IsWhitespace(p[|p| - 1])
  }

  /** The trimmed text is the infix `s[i..j]`, with only white space before `i` and from `j` on. */
  lemma TrimSpan(s: string) returns (i: nat, j: nat)
    ensures i <= j <= |s| && Trim(s) == s[i..j]
    ensures forall k | 0 <= k < i :: IsWhitespace(s[k])
    ensures forall k | j <= k < |s| :: IsWhitespace(s[k])
  {
    i := SkipSpace(s, 0);
    j := SkipSpaceBack(s, i, |s|);
    SkipSpaceAll(s, 0);
    SkipSpaceBackAll(s, i, |s|);
  }

  /** Trimming adds no character. */
  lemma TrimFree(s: string, c: char)
    requires c !in s
    ensures c !in Trim(s)
  {
    var i, j := TrimSpan(s);
    assert forall k | i <= k < j :: s[i..j][k - i] == s[k];
  }

  /** A text with no white space at its ends is its own trim. */
  lemma TrimNoop(s: string)
    requires s == [] || Trimmed(s)
    ensures Trim(s) == s
  {
    if s != [] {
      assert SkipSpace(s, 0) == 0;
      assert SkipSpaceBack(s, 0, |s|) == |s|;
    }
  }

  lemma TrimIdempotent(s: string)
    ensures Trim(Trim(s)) == Trim(s)
  {
    TrimNoop(Trim(s));
  }

  // ---------------------------------------------------------------- split and join

  /** `s.split(sep)` for a one-character separator: the pieces between separators, always at least one. */
  function Split(s: string, sep: char): (parts: seq<string>)
    ensures |parts| >= 1
    ensures forall k | 0 <= k < |parts| :: sep !in parts[k]
  {
    if s == [] then [[]]
    else
      var rest := Split(s[1..], sep);
      if s[0] == sep then [[]] + rest
      else [[s[0]] + rest[0]] + rest[1..]
  }

  /** Splitting at one separator splits each side on its own. */
  lemma {:induction false} SplitConcat(a: string, b: string, sep: char)
    ensures Split(a + [sep] + b, sep) == Split(a, sep) + Split(b, sep)
  {
    var s := a + [sep] + b;
    if a == [] {
      assert s == [sep] + b;
      assert s[1..] == b;
    } else {
      var t := a[1..] + [sep] + b;
      assert s[1..] == t;
      assert s[0] == a[0];
      SplitConcat(a[1..], b, sep);
      var x, y := Split(a[1..], sep), Split(b, sep);
      if a[0] == sep {
        ConsAssoc([], x, y);
      } else {
        assert (x + y)[0] == x[0];
        assert (x + y)[1..] == x[1..] + y;
        ConsAssoc([a[0]] + x[0], x[1..], y);
      }
    }
  }

  lemma ConsAssoc(h: string, x: seq<string>, y: seq<string>)
    ensures [h] + (x + y) == ([h] + x) + y
  {
  }

  /** `parts.join(sep)`. */
  function Join(parts: seq<string>, sep: char): string {
    if |parts| == 0 then []
    else if |parts| == 1 then parts[0]
    else parts[0] + [sep] + Join(parts[1..], sep)
  }

  /** Joining the pieces of a split gives the text back. */
  lemma {:induction false} JoinSplit(s: string, sep: char)
    ensures Join(Split(s, sep), sep) == s
  {
    if s != [] {
      JoinSplit(s[1..], sep);
      var rest := Split(s[1..], sep);
      if s[0] != sep {
        if |rest| == 1 {
          assert Split(s, sep) == [[s[0]] + rest[0]];
        } else {
          assert Split(s, sep)[1..] == rest[1..];
        }
      }
    }
  }

  /** Splitting a join of separator-free pieces gives the pieces back. */
  lemma {:induction false} SplitJoin(parts: seq<string>, sep: char)
    requires |parts| >= 1
    requires forall k | 0 <= k < |parts| :: sep !in parts[k]
    ensures Split(Join(parts, sep), sep) == parts
  {
    if |parts| == 1 {
      SplitFree(parts[0], sep);
    } else {
      SplitJoin(parts[1..], sep);
      SplitPrefix(parts[0], Join(parts[1..], sep), sep);
      assert parts == [parts[0]] + parts[1..];
    }
  }

  lemma {:induction false} SplitFree(s: string, sep: char)
    requires sep !in s
    ensures Split(s, sep) == [s]
  {
    if s != [] {
      SplitFree(s[1..], sep);
      assert [s[0]] + s[1..] == s;
    }
  }

  lemma {:induction false} SplitPrefix(a: string, b: string, sep: char)
    requires sep !in a
    ensures Split(a + [sep] + b, sep) == [a] + Split(b, sep)
  {
    if a == [] {
      assert [sep] + b == a + [sep] + b;
      assert ([sep] + b)[1..] == b;
    } else {
      SplitPrefix(a[1..], b, sep);
      assert (a + [sep] + b)[1..] == a[1..] + [sep] + b;
      assert [a[0]] + a[1..] == a;
    }
  }

  /** Index of the first occurrence of `c` in `s`, or `|s|`. */
  function IndexOf(s: string, c: char): (i: nat)
    ensures i <= |s| && c !in s[..i]
    ensures i < |s| <==> c in s
    ensures i < |s| ==> s[i] == c
  {
    if s == [] then 0
    else if s[0] == c then 0
    else
      assert s[..1 + IndexOf(s[1..], c)] == [s[0]] + s[1..][..IndexOf(s[1..], c)];
      1 + IndexOf(s[1..], c)
  }

  /** The first piece of a split is the text before the first separator, and the
      join of the remaining pieces is everything after it: later separators are kept. */
  lemma {:induction false} SplitAtFirst(s: string, sep: char)
    requires sep in s
    ensures Split(s, sep)[0] == s[..IndexOf(s, sep)]
    ensures Join(Split(s, sep)[1..], sep) == s[IndexOf(s, sep) + 1..]
  {
    var i := IndexOf(s, sep);
    assert s == s[..i] + [sep] + s[i + 1..];
    SplitPrefix(s[..i], s[i + 1..], sep);
    JoinSplit(s[i + 1..], sep);
  }

  // ---------------------------------------------------------------- map and filter

  /** `parts.map(p => p.trim()).filter(p => p)`. */
  function TrimmedNonEmpty(parts: seq<string>): (r: seq<string>)
    ensures |r| <= |parts|
    ensures forall k | 0 <= k < |r| :: Trimmed(r[k])
  {
    if parts == [] then []
    else
      var t := Trim(parts[0]);
      var rest := TrimmedNonEmpty(parts[1..]);
      if t == [] then rest
      else
        assert forall k | 1 <= k < |rest| + 1 :: ([t] + rest)[k] == rest[k - 1];
        [t] + rest
  }

  /** Trimming and dropping acts on each piece on its own. */
  lemma {:induction false} TrimmedNonEmptyConcat(x: seq<string>, y: seq<string>)
    ensures TrimmedNonEmpty(x + y) == TrimmedNonEmpty(x) + TrimmedNonEmpty(y)
  {
    if x == [] {
      assert x + y == y;
    } else {
      var xy := x + y;
      assert xy[0] == x[0];
      assert xy[1..] == x[1..] + y;
      TrimmedNonEmptyConcat(x[1..], y);
      var t := Trim(x[0]);
      if t != [] {
        ConsAssoc(t, TrimmedNonEmpty(x[1..]), TrimmedNonEmpty(y));
      }
    }
  }

  /** Trimming and dropping pieces adds no character: one absent from every piece stays absent. */
  lemma {:induction false} TrimmedNonEmptyFree(parts: seq<string>, c: char)
    requires forall k | 0 <= k < |parts| :: c !in parts[k]
    ensures forall k | 0 <= k < |TrimmedNonEmpty(parts)| :: c !in TrimmedNonEmpty(parts)[k]
  {
    if parts != [] {
      TrimmedNonEmptyFree(parts[1..], c);
      var i, j := TrimSpan(parts[0]);
      assert forall k | i <= k < j :: parts[0][i..j][k - i] == parts[0][k];
    }
  }

  /** Pieces that are already trimmed and non-empty pass through unchanged. */
  lemma {:induction false} TrimmedNonEmptyNoop(parts: seq<string>)
    requires forall k | 0 <= k < |parts| :: Trimmed(parts[k])
    ensures TrimmedNonEmpty(parts) == parts
  {
    if parts != [] {
      TrimNoop(parts[0]);
      TrimmedNonEmptyNoop(parts[1..]);
      assert [parts[0]] + parts[1..] == parts;
    }
  }

  /** `s.replace(/x/g, y)` for single characters. */
  function ReplaceChar(s: string, x: char, y: char): (r: string)
    ensures |r| == |s|
    ensures forall k | 0 <= k < |s| :: r[k] == (if s[k] == x then y else s[k])
  {
    if s == [] then [] else [if s[0] == x then y else s[0]] + ReplaceChar(s[1..], x, y)
  }

  lemma ReplaceCharTakeDrop(s: string, n: nat, x: char, y: char)
    requires n <= |s|
    ensures ReplaceChar(s, x, y)[..n] == ReplaceChar(s[..n], x, y)
    ensures ReplaceChar(s, x, y)[n..] == ReplaceChar(s[n..], x, y)
  {
  }

  lemma ReplaceCharConcat(a: string, b: string, x: char, y: char)
    ensures ReplaceChar(a + b, x, y) == ReplaceChar(a, x, y) + ReplaceChar(b, x, y)
  {
  }

  // ---------------------------------------------------------------- decimal digits

  function DigitValue(c: char): nat requires IsDigit(c) { (c as int - '0' as int) as nat }

  function DigitChar(d: nat): (c: char)
    requires d < 10
    ensures IsDigit(c) && DigitValue(c) == d
  {
    ('0' as int + d) as char
  }

  /** The number a run of decimal digits denotes (leading zeros allowed). */
  function DigitsValue(s: string): nat
    requires forall k | 0 <= k < |s| :: IsDigit(s[k])
  {
    if s == [] then 0 else DigitsValue(s[..|s| - 1]) * 10 + DigitValue(s[|s| - 1])
  }

  /** `String(n)` for a natural number: its shortest decimal numeral. */
  function NatToDigits(n: nat): (s: string)
    ensures IsDigits(s)
    ensures DigitsValue(s) == n
  {
    if n < 10 then [DigitChar(n)]
    else
      var s := NatToDigits(n / 10) + [DigitChar(n % 10)];
      assert s[..|s| - 1] == NatToDigits(n / 10);
      s
  }

  /** Length of the run of digits of `s` that starts at `i`. */
  function DigitRun(s: string, i: nat): (j: nat)
    requires i <= |s|
    ensures i <= j <= |s|
    decreases |s| - i
  {
    if i < |s| && IsDigit(s[i]) then DigitRun(s, i + 1) else i
  }

  lemma {:induction false} DigitRunDigits(s: string, i: nat)
    requires i <= |s|
    ensures forall k | i <= k < DigitRun(s, i) :: IsDigit(s[k])
    ensures DigitRun(s, i) < |s| ==> !IsDigit(s[DigitRun(s, i)])
    decreases |s| - i
  {
    if i < |s| && IsDigit(s[i]) { DigitRunDigits(s, i + 1); }
  }

  /** A digit run that ends inside `s` ends at the same place in any text that agrees with `s` up to its end. */
  lemma {:induction false} DigitRunAgree(s: string, t: string, i: nat)
    requires i <= |s| && DigitRun(s, i) < |s|
    requires |t| > DigitRun(s, i) && t[..DigitRun(s, i) + 1] == s[..DigitRun(s, i) + 1]
    ensures DigitRun(t, i) == DigitRun(s, i)
    decreases |s| - i
  {
    var j := DigitRun(s, i);
    assert t[i] == s[i] by { assert t[..j + 1][i] == s[..j + 1][i]; }
    if i < j {
      DigitRunAgree(s, t, i + 1);
    }
  }

  // ---------------------------------------------------------------- sequence facts
  // Stated apart so that the equalities are proved in a small context.

  lemma HeadConcat(a: string, b: string)
    requires a != []
    ensures a == [a[0]] + a[1..] && a + b == [a[0]] + (a[1..] + b)
  {
  }

  lemma DropConcat(a: string, b: string, n: nat)
    requires n <= |a|
    ensures (a + b)[n..] == a[n..] + b
  {
  }

  lemma Assoc(x: string, y: string, z: string)
    ensures x + (y + z) == (x + y) + z
  {
  }

  lemma TakeConcat(a: string, b: string, n: nat)
    requires n <= |a|
    ensures (a + b)[..n] == a[..n]
  {
  }

  lemma Slices(s: string, i: nat, j: nat)
    requires i <= j <= |s|
    ensures s[i..][..j - i] == s[i..j] && s[i..][j - i..] == s[j..] && s[..i] + s[i..j] == s[..j]
  {
  }

  lemma EmptyConcat(a: string, b: string)
    requires a == []
    ensures a + b == b
  {
  }

  /** Texts that agree on their first `n` characters agree on every slice within them. */
  lemma AgreeSlice(s: string, t: string, n: nat, i: nat, j: nat)
    requires n <= |s| && n <= |t| && s[..n] == t[..n] && i <= j <= n
    ensures s[i..j] == t[i..j]
    ensures forall k | 0 <= k < n :: s[k] == t[k]
  {
    assert forall k | 0 <= k < n :: s[k] == s[..n][k] && t[k] == t[..n][k];
    assert s[i..j] == s[..n][i..j] && t[i..j] == t[..n][i..j];
  }

  lemma SliceEnds(s: string)
    ensures s[..0] == [] && s[0..] == s && s[..|s|] == s && s[|s|..] == []
  {
  }

  lemma Around(s: string, i: nat)
    requires 0 < i <= |s|
    ensures s[i - 1..] == [s[i - 1]] + s[i..] && s[..i] == s[..i - 1] + [s[i - 1]]
  {
  }

  lemma TakeDrop(a: string, n: nat)
    requires n <= |a|
    ensures a == a[..n] + a[n..]
  {
  }

  function Count(s: string, c: char): nat {
    if s == [] then 0 else (if s[0] == c then 1 else 0) + Count(s[1..], c)
  }

  lemma {:induction false} CountZero(s: string, c: char)
    ensures Count(s, c) == 0 <==> c !in s
  {
    if s != [] {
      CountZero(s[1..], c);
      assert s == [s[0]] + s[1..];
    }
  }

  /** Counting in a text that starts with the one-character `h`. */
  lemma CountHead(h: string, t: string, c: char)
    requires |h| == 1
    ensures Count(h + t, c) == (if h[0] == c then 1 else 0) + Count(t, c)
  {
    assert (h + t)[1..] == t;
  }

  lemma CountConcat(a: string, b: string, c: char)
    ensures Count(a + b, c) == Count(a, c) + Count(b, c)
  {
    if a != [] {
      assert (a + b)[1..] == a[1..] + b;
      assert (a + b)[0] == a[0];
      CountConcat(a[1..], b, c);
    } else {
      assert a + b == b;
    }
  }
}
