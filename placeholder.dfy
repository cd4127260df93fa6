// The placeholder table of parseCSS (src/index.ts:96-105): the marker format
// NUL tag index NUL, the texts built from literal characters and whole
// placeholders, `popCode` (one level of substitution, the regular expression
// /\0.?\d+\0/ written out) and a recursive-descent resolver that serves as
// the reference for `popCodeRecursive`.

module Placeholder {
  import opened Wrappers
  import opened JsString

  /** The characters a placeholder is made of. */
  predicate IsTokenChar(c: char) { c == NUL || c == 'b' || c == 'c' || IsDigit(c) }

  function Max(a: nat, b: nat): nat { if a < b then b else a }

  /** The tag `pushCode` gives a span: `b` for a brace block, `c` for a comment, none for a string. */
  function TagFor(text: string): string {
    if |text| > 0 && text[0] == '{' then "b" else if |text| > 0 && text[0] == '/' then "c" else ""
  }

  predicate IsTag(tag: string) { tag == "" || tag == "b" || tag == "c" }

  /** The placeholder `pushCode` returns for table index `n`. */
  function Token(tag: string, n: nat): string { [NUL] + tag + NatToDigits(n) + [NUL] }

  // ---------------------------------------------------------------- reading a placeholder

  function TagEnd(s: string): nat requires |s| >= 1 {
    if |s| >= 2 && (s[1] == 'b' || s[1] == 'c') then 2 else 1
  }

  /** Length of the placeholder at the head of `s`, 0 when `s` does not start with one. */
  function TokenLen(s: string): (n: nat)
    ensures n == 0 || 3 <= n <= |s|
    ensures n > 0 ==> s[0] == NUL && s[n - 1] == NUL
  {
    if |s| >= 3 && s[0] == NUL then
      var j := DigitRun(s, TagEnd(s));
      if TagEnd(s) < j < |s| && s[j] == NUL then j + 1 else 0
    else 0
  }

  /** The table index the placeholder at the head of `s` names. */
  function TokenIndex(s: string): nat
    requires TokenLen(s) > 0
  {
    DigitRunDigits(s, TagEnd(s));
    var d := s[TagEnd(s)..TokenLen(s) - 1];
    assert forall k | 0 <= k < |d| :: d[k] == s[TagEnd(s) + k];
    DigitsValue(d)
  }

  /** The placeholder at the head of `s` carries tag `t`. */
  predicate HeadTagged(s: string, t: char) { TokenLen(s) > 0 && s[1] == t }

  lemma TokenChars(s: string)
    requires TokenLen(s) > 0
    ensures forall k | 0 <= k < TokenLen(s) :: IsTokenChar(s[k])
  {
    DigitRunDigits(s, TagEnd(s));
  }

  /** A placeholder is read the same way in any text that agrees with `s` on it. */
  lemma TokenAgree(s: string, t: string)
    requires TokenLen(s) > 0 && |t| >= TokenLen(s) && t[..TokenLen(s)] == s[..TokenLen(s)]
    ensures TokenLen(t) == TokenLen(s) && TokenIndex(t) == TokenIndex(s) && t[1] == s[1]
  {
    var L := TokenLen(s);
    AgreeSlice(s, t, L, TagEnd(s), L - 1);
    assert TagEnd(t) == TagEnd(s);
    DigitRunAgree(s, t, TagEnd(s));
  }

  /** A placeholder is read the same way whatever follows it. */
  lemma TokenPrefix(a: string, b: string)
    requires TokenLen(a) > 0
    ensures TokenLen(a + b) == TokenLen(a) && TokenIndex(a + b) == TokenIndex(a) && (a + b)[1] == a[1]
  {
    TakeConcat(a, b, TokenLen(a));
    TokenAgree(a, a + b);
  }

  /** `pushCode`'s placeholder reads back as one placeholder naming its index, whatever follows it. */
  lemma TokenRead(tag: string, n: nat, rest: string)
    requires IsTag(tag)
    ensures var s := Token(tag, n) + rest;
      && TokenLen(s) == |Token(tag, n)| && TokenIndex(s) == n
      && (tag != "" ==> s[1] == tag[0]) && (tag == "" ==> IsDigit(s[1]))
  {
    var s := Token(tag, n) + rest;
    var d := NatToDigits(n);
    var t := |tag| + 1;
    assert s[t..t + |d|] == d;
    assert s[t + |d|] == NUL;
    assert TagEnd(s) == t;
    assert forall k | t <= k < t + |d| :: IsDigit(s[k]) by {
      forall k | t <= k < t + |d| ensures IsDigit(s[k]) { assert s[k] == d[k - t]; }
    }
    DigitRunFrom(s, t, t + |d|);
  }

  lemma {:induction false} DigitRunFrom(s: string, i: nat, j: nat)
    requires i <= j < |s| && !IsDigit(s[j])
    requires forall k | i <= k < j :: IsDigit(s[k])
    ensures DigitRun(s, i) == j
    decreases j - i
  {
    if i < j { DigitRunFrom(s, i + 1, j); }
  }

  // ---------------------------------------------------------------- well-formed texts

  /** Every NUL of `s` opens a whole placeholder: `s` is literal characters and placeholders. */
  predicate WellFormed(s: string)
    decreases |s|
  {
    if s == [] then true
    else if s[0] == NUL then TokenLen(s) > 0 && WellFormed(s[TokenLen(s)..])
    else WellFormed(s[1..])
  }

  /** One more than the largest index a placeholder of `s` names; 0 when there is none. */
  function MaxTok(s: string): nat
    decreases |s|
  {
    if s == [] then 0
    else if TokenLen(s) > 0 then Max(TokenIndex(s) + 1, MaxTok(s[TokenLen(s)..]))
    else MaxTok(s[1..])
  }

  /** A well-formed text whose placeholders all name indices below `bound`. */
  predicate Below(s: string, bound: nat) { WellFormed(s) && MaxTok(s) <= bound }

  /** A bound on the indices named can always be raised. */
  lemma MonoBelow(s: string, b: nat, c: nat)
    requires Below(s, b) && b <= c
    ensures Below(s, c)
  {
  }

  lemma LiteralHead(c: char, s: string)
    requires c != NUL
    ensures WellFormed([c] + s) == WellFormed(s)
    ensures MaxTok([c] + s) == MaxTok(s)
  {
    assert ([c] + s)[1..] == s;
  }

  /** Texts without NUL are well-formed and name no index. */
  lemma {:induction false} NulFree(s: string)
    requires NUL !in s
    ensures WellFormed(s) && MaxTok(s) == 0
  {
    if s != [] {
      NulFree(s[1..]);
      LiteralHead(s[0], s[1..]);
      assert [s[0]] + s[1..] == s;
    }
  }

  /** A well-formed text without placeholders holds no NUL. */
  lemma {:induction false} NoTokens(s: string)
    requires WellFormed(s) && MaxTok(s) == 0
    ensures NUL !in s
  {
    if s != [] {
      NoTokens(s[1..]);
      assert s == [s[0]] + s[1..];
    }
  }

  /** A well-formed text holding a `\0` names some table index. */
  lemma NulNamesIndex(s: string)
    requires WellFormed(s) && NUL in s
    ensures MaxTok(s) > 0
  {
    if MaxTok(s) == 0 { NoTokens(s); }
  }

  lemma {:induction false} TokenText(tag: string, n: nat)
    requires IsTag(tag)
    ensures WellFormed(Token(tag, n)) && MaxTok(Token(tag, n)) == n + 1
  {
    TokenRead(tag, n, []);
    var t := Token(tag, n);
    assert t + [] == t;
    assert t[|t|..] == [];
  }

  /** One step of WellFormed and MaxTok at a placeholder. */
  lemma TokenHead(s: string)
    requires TokenLen(s) > 0
    ensures WellFormed(s) == WellFormed(s[TokenLen(s)..])
    ensures MaxTok(s) == Max(TokenIndex(s) + 1, MaxTok(s[TokenLen(s)..]))
  {
  }

  /** Concatenating well-formed texts keeps them well-formed. */
  lemma {:induction false} Concat(a: string, b: string)
    requires WellFormed(a) && WellFormed(b)
    ensures WellFormed(a + b) && MaxTok(a + b) == Max(MaxTok(a), MaxTok(b))
    decreases |a|
  {
    if a == [] {
      EmptyConcat(a, b);
    } else if a[0] != NUL {
      ConcatLiteral(a, b);
    } else {
      ConcatToken(a, b);
    }
  }

  lemma {:induction false} ConcatLiteral(a: string, b: string)
    requires WellFormed(a) && WellFormed(b) && a != [] && a[0] != NUL
    ensures WellFormed(a + b) && MaxTok(a + b) == Max(MaxTok(a), MaxTok(b))
    decreases |a|, 0
  {
    LiteralHead(a[0], a[1..]);
    HeadConcat(a, b);
    Concat(a[1..], b);
    LiteralHead(a[0], a[1..] + b);
  }

  lemma {:induction false} ConcatToken(a: string, b: string)
    requires WellFormed(a) && WellFormed(b) && a != [] && a[0] == NUL
    ensures WellFormed(a + b) && MaxTok(a + b) == Max(MaxTok(a), MaxTok(b))
    decreases |a|, 0
  {
    var L := TokenLen(a);
    TokenHead(a);
    TokenPrefix(a, b);
    TokenHead(a + b);
    DropConcat(a, b, L);
    Concat(a[L..], b);
  }

  /** Position `i` of `s` does not fall inside a placeholder. */
  predicate IsBoundary(s: string, i: nat) {
    i == 0 || i >= |s| || !IsTokenChar(s[i]) || !IsTokenChar(s[i - 1])
  }

  /** A well-formed text cut where a non-placeholder character starts gives well-formed halves. */
  lemma {:induction false} CutBefore(s: string, i: nat)
    requires WellFormed(s) && i < |s| && !IsTokenChar(s[i])
    ensures WellFormed(s[..i]) && WellFormed(s[i..])
    decreases |s|, 1
  {
    if i == 0 {
      assert s[0..] == s;
    } else if s[0] != NUL {
      CutBeforeLiteral(s, i);
    } else {
      CutBeforeToken(s, i);
    }
  }

  lemma {:induction false} CutBeforeLiteral(s: string, i: nat)
    requires WellFormed(s) && 0 < i < |s| && !IsTokenChar(s[i]) && s[0] != NUL
    ensures WellFormed(s[..i]) && WellFormed(s[i..])
    decreases |s|, 0
  {
    CutBefore(s[1..], i - 1);
    assert s[1..][..i - 1] == s[1..i] && s[1..][i - 1..] == s[i..];
    LiteralHead(s[0], s[1..i]);
    assert [s[0]] + s[1..i] == s[..i];
  }

  lemma {:induction false} CutBeforeToken(s: string, i: nat)
    requires WellFormed(s) && 0 < i < |s| && !IsTokenChar(s[i]) && s[0] == NUL
    ensures WellFormed(s[..i]) && WellFormed(s[i..])
    decreases |s|, 0
  {
    var L := TokenLen(s);
    TokenChars(s);
    assert i >= L;
    TokenHead(s);
    TokenWhole(s);
    if i > L {
      CutBefore(s[L..], i - L);
      Slices(s, L, i);
      Concat(s[..L], s[L..i]);
    }
  }

  /** The placeholder at the head of `s`, taken alone, is a well-formed text naming its index. */
  lemma TokenWhole(s: string)
    requires TokenLen(s) > 0
    ensures WellFormed(s[..TokenLen(s)]) && MaxTok(s[..TokenLen(s)]) == TokenIndex(s) + 1
  {
    var L := TokenLen(s);
    var head := s[..L];
    TokenAgree(s, head);
    TokenHead(head);
    assert head[L..] == [];
  }

  /** Cutting a well-formed text at a boundary gives well-formed halves. */
  lemma {:induction false} Cut(s: string, i: nat)
    requires WellFormed(s) && i <= |s| && IsBoundary(s, i)
    ensures WellFormed(s[..i]) && WellFormed(s[i..])
    ensures MaxTok(s) == Max(MaxTok(s[..i]), MaxTok(s[i..]))
  {
    SliceEnds(s);
    if 0 < i < |s| {
      if !IsTokenChar(s[i]) {
        CutBefore(s, i);
      } else {
        CutAfter(s, i);
      }
    }
    Concat(s[..i], s[i..]);
    TakeDrop(s, i);
  }

  lemma CutAfter(s: string, i: nat)
    requires WellFormed(s) && 0 < i < |s| && !IsTokenChar(s[i - 1])
    ensures WellFormed(s[..i]) && WellFormed(s[i..])
  {
    CutBefore(s, i - 1);
    Around(s, i);
    LiteralHead(s[i - 1], s[i..]);
    NulFree([s[i - 1]]);
    Concat(s[..i - 1], [s[i - 1]]);
  }

  /** An infix between two boundaries of a well-formed text is well-formed. */
  lemma Infix(s: string, i: nat, j: nat)
    requires WellFormed(s) && i <= j <= |s| && IsBoundary(s, i) && IsBoundary(s, j)
    ensures WellFormed(s[i..j]) && MaxTok(s[i..j]) <= MaxTok(s)
  {
    Cut(s, j);
    assert s[..j][i..] == s[i..j];
    if i < j {
      assert IsBoundary(s[..j], i);
    }
    Cut(s[..j], i);
  }

  /** Trimming white space keeps a text well-formed. */
  lemma TrimText(s: string)
    requires WellFormed(s)
    ensures WellFormed(Trim(s)) && MaxTok(Trim(s)) <= MaxTok(s)
  {
    var i, j := TrimSpan(s);
    assert IsBoundary(s, i) by { if 0 < i { assert IsWhitespace(s[i - 1]); } }
    assert IsBoundary(s, j) by { if j < |s| { assert IsWhitespace(s[j]); } }
    Infix(s, i, j);
  }

  /** Replacing one non-placeholder character by another keeps a text well-formed. */
  lemma {:induction false} ReplaceText(s: string, x: char, y: char)
    requires WellFormed(s) && !IsTokenChar(x) && !IsTokenChar(y)
    ensures WellFormed(ReplaceChar(s, x, y)) && MaxTok(ReplaceChar(s, x, y)) == MaxTok(s)
    decreases |s|, 1
  {
    if s == [] {
    } else if s[0] != NUL {
      ReplaceTextLiteral(s, x, y);
    } else {
      ReplaceTextToken(s, x, y);
    }
  }

  lemma {:induction false} ReplaceTextLiteral(s: string, x: char, y: char)
    requires WellFormed(s) && !IsTokenChar(x) && !IsTokenChar(y) && s != [] && s[0] != NUL
    ensures WellFormed(ReplaceChar(s, x, y)) && MaxTok(ReplaceChar(s, x, y)) == MaxTok(s)
    decreases |s|, 0
  {
    var r := ReplaceChar(s, x, y);
    ReplaceText(s[1..], x, y);
    assert r == [r[0]] + ReplaceChar(s[1..], x, y);
    LiteralHead(r[0], ReplaceChar(s[1..], x, y));
    LiteralHead(s[0], s[1..]);
    assert s == [s[0]] + s[1..];
  }

  lemma {:induction false} ReplaceTextToken(s: string, x: char, y: char)
    requires WellFormed(s) && !IsTokenChar(x) && !IsTokenChar(y) && s != [] && s[0] == NUL
    ensures WellFormed(ReplaceChar(s, x, y)) && MaxTok(ReplaceChar(s, x, y)) == MaxTok(s)
    decreases |s|, 0
  {
    var L := TokenLen(s);
    var r := ReplaceChar(s, x, y);
    TokenHead(s);
    ReplaceText(s[L..], x, y);
    ReplaceCharTakeDrop(s, L, x, y);
    TokenFree(s, x, y);
    TokenAgree(s, r);
    TokenHead(r);
  }

  lemma TokenFree(s: string, x: char, y: char)
    requires TokenLen(s) > 0 && !IsTokenChar(x)
    ensures ReplaceChar(s[..TokenLen(s)], x, y) == s[..TokenLen(s)]
  {
    TokenChars(s);
    ReplaceFree(s[..TokenLen(s)], x, y);
  }

  lemma ReplaceFree(s: string, x: char, y: char)
    requires forall k | 0 <= k < |s| :: s[k] != x
    ensures ReplaceChar(s, x, y) == s
  {
  }

  /** Every piece in `parts` is well-formed and names only indices below `bound`. */
  predicate AllBelow(parts: seq<string>, bound: nat) {
    forall k | 0 <= k < |parts| :: Below(parts[k], bound)
  }

  /** Splitting a well-formed text at a non-placeholder character gives well-formed pieces. */
  lemma {:induction false} SplitText(s: string, sep: char, bound: nat)
    requires Below(s, bound) && !IsTokenChar(sep)
    ensures AllBelow(Split(s, sep), bound)
    decreases |s|
  {
    if sep in s {
      var i := IndexOf(s, sep);
      assert s == s[..i] + [sep] + s[i + 1..];
      SplitPrefix(s[..i], s[i + 1..], sep);
      Cut(s, i);
      assert s[i..] == [sep] + s[i + 1..];
      LiteralHead(sep, s[i + 1..]);
      SplitText(s[i + 1..], sep, bound);
    } else {
      SplitFree(s, sep);
    }
  }

  lemma {:induction false} JoinText(parts: seq<string>, sep: char, bound: nat)
    requires AllBelow(parts, bound) && !IsTokenChar(sep)
    ensures Below(Join(parts, sep), bound)
  {
    if |parts| > 1 {
      JoinText(parts[1..], sep, bound);
      NulFree([sep]);
      Concat(parts[0], [sep]);
      Concat(parts[0] + [sep], Join(parts[1..], sep));
    }
  }

  lemma {:induction false} TrimPieces(parts: seq<string>, bound: nat)
    requires AllBelow(parts, bound)
    ensures AllBelow(TrimmedNonEmpty(parts), bound)
  {
    if parts != [] {
      TrimText(parts[0]);
      TrimPieces(parts[1..], bound);
    }
  }

  lemma AllBelowPrefix(parts: seq<string>, k: nat, bound: nat)
    requires AllBelow(parts, bound) && k <= |parts|
    ensures AllBelow(parts[..k], bound) && (k < |parts| ==> AllBelow([parts[k]], bound))
  {
    assert forall j | 0 <= j < k :: parts[..k][j] == parts[j];
  }

  // ---------------------------------------------------------------- the table

  /** What every table entry satisfies: at least two characters, opening and closing with
      characters that are not part of a placeholder, and naming only earlier entries. */
  predicate ValidEntry(e: string, i: nat) {
    |e| >= 2 && !IsTokenChar(e[0]) && !IsTokenChar(e[|e| - 1]) && Below(e, i)
  }

  predicate ValidTable(code: seq<string>) {
    forall i | 0 <= i < |code| :: ValidEntry(code[i], i)
  }

  lemma ValidTablePrefix(code: seq<string>, n: nat)
    requires ValidTable(code) && n <= |code|
    ensures ValidTable(code[..n])
  {
    assert forall i | 0 <= i < n :: code[..n][i] == code[i];
  }

  /** `code[k]` in JavaScript: an entry, or `undefined` (which `replace` turns into text). */
  function Entry(code: seq<string>, k: Option<nat>): string {
    if k.Some? && k.value < |code| then code[k.value] else "undefined"
  }

  /** Unary plus on what popCode's pattern captures (one optional character, then digits),
      kept to the cases that can name a table index. */
  function NumericIndex(v: string): Option<nat>
    requires IsDigits(v) || (|v| >= 2 && IsDigits(v[1..]))
  {
    if IsDigits(v) then Some(DigitsValue(v))
    else if IsWhitespace(v[0]) || v[0] == '+' then Some(DigitsValue(v[1..]))
    else if (v[0] == '-' || v[0] == '.') && DigitsValue(v[1..]) == 0 then Some(0)
    else None
  }

  /** Length of the match of /\0.?\d+\0/ at the head of `s`, 0 if there is none; `.?` first
      tries to take one character, then none. */
  function PopMatchLen(s: string): (n: nat)
    ensures n == 0 || 3 <= n <= |s|
  {
    if |s| >= 3 && s[0] == NUL then
      var j1 := DigitRun(s, 2);
      if !IsLineTerminator(s[1]) && 2 < j1 < |s| && s[j1] == NUL then j1 + 1
      else
        var j0 := DigitRun(s, 1);
        if 1 < j0 < |s| && s[j0] == NUL then j0 + 1 else 0
    else 0
  }

  /** popCode's replacer on the text between the two NULs of a match. */
  function Substitute(code: seq<string>, v: string): string
    requires IsDigits(v) || (|v| >= 2 && IsDigits(v[1..]))
  {
    if v[0] == 'b' || v[0] == 'c' then Entry(code, NumericIndex(v[1..])) else Entry(code, NumericIndex(v))
  }

  lemma PopMatchShape(s: string)
    requires PopMatchLen(s) > 0
    ensures var v := s[1..PopMatchLen(s) - 1]; IsDigits(v) || (|v| >= 2 && IsDigits(v[1..]))
  {
    var n := PopMatchLen(s);
    var v := s[1..n - 1];
    DigitRunDigits(s, 1);
    DigitRunDigits(s, 2);
    assert forall k | 0 <= k < |v| :: v[k] == s[k + 1];
    if n - 1 == DigitRun(s, 2) && 2 < DigitRun(s, 2) {
      assert forall k | 0 <= k < |v| - 1 :: v[1..][k] == s[k + 2];
    }
  }

  /** `popCode`: every match of /\0.?\d+\0/, left to right, replaced by the entry it names. */
  function PopCode(code: seq<string>, s: string): string
    decreases |s|
  {
    if s == [] then []
    else
      var n := PopMatchLen(s);
      if n > 0 then
        PopMatchShape(s);
        Substitute(code, s[1..n - 1]) + PopCode(code, s[n..])
      else [s[0]] + PopCode(code, s[1..])
  }

  /** At a whole placeholder, popCode's pattern matches exactly that placeholder. */
  lemma PopMatchAtToken(code: seq<string>, s: string)
    requires TokenLen(s) > 0
    ensures PopMatchLen(s) == TokenLen(s)
    ensures PopCode(code, s) == Entry(code, Some(TokenIndex(s))) + PopCode(code, s[TokenLen(s)..])
  {
    var L := TokenLen(s);
    var v := s[1..L - 1];
    DigitRunDigits(s, TagEnd(s));
    assert forall k | 0 <= k < |v| :: v[k] == s[k + 1];
    if TagEnd(s) == 2 {
      assert DigitRun(s, 2) == L - 1;
      assert v[1..] == s[2..L - 1];
      assert !IsDigits(v);
      assert Substitute(code, v) == Entry(code, Some(TokenIndex(s)));
    } else {
      assert IsDigit(s[1]);
      assert DigitRun(s, 1) == DigitRun(s, 2);
      assert IsDigits(v);
      assert Substitute(code, v) == Entry(code, Some(TokenIndex(s)));
    }
  }

  lemma PopCodeLiteral(code: seq<string>, c: char, s: string)
    requires c != NUL
    ensures PopCode(code, [c] + s) == [c] + PopCode(code, s)
  {
    assert ([c] + s)[1..] == s;
  }

  /** popCode works piece by piece on a well-formed prefix. */
  lemma {:induction false} PopCodeConcat(code: seq<string>, a: string, b: string)
    requires WellFormed(a)
    ensures PopCode(code, a + b) == PopCode(code, a) + PopCode(code, b)
    decreases |a|, 1
  {
    if a == [] {
      EmptyConcat(a, b);
    } else if a[0] != NUL {
      HeadConcat(a, b);
      PopCodeConcatLiteral(code, a[0], a[1..], b);
    } else {
      PopCodeConcatToken(code, a, b);
    }
  }

  lemma {:induction false} PopCodeConcatLiteral(code: seq<string>, c: char, t: string, b: string)
    requires WellFormed(t) && c != NUL
    ensures PopCode(code, [c] + (t + b)) == PopCode(code, [c] + t) + PopCode(code, b)
    decreases |t| + 1, 0
  {
    PopCodeConcat(code, t, b);
    PopCodeLiteral(code, c, t + b);
    PopCodeLiteral(code, c, t);
    Assoc([c], PopCode(code, t), PopCode(code, b));
  }

  lemma {:induction false} PopCodeConcatToken(code: seq<string>, a: string, b: string)
    requires WellFormed(a) && a != [] && a[0] == NUL
    ensures PopCode(code, a + b) == PopCode(code, a) + PopCode(code, b)
    decreases |a|, 0
  {
    var L := TokenLen(a);
    TokenHead(a);
    TokenPrefix(a, b);
    PopMatchAtToken(code, a);
    PopMatchAtToken(code, a + b);
    DropConcat(a, b, L);
    PopCodeConcat(code, a[L..], b);
    Assoc(Entry(code, Some(TokenIndex(a))), PopCode(code, a[L..]), PopCode(code, b));
  }

  lemma {:induction false} PopCodeNulFree(code: seq<string>, s: string)
    requires NUL !in s
    ensures PopCode(code, s) == s
  {
    if s != [] {
      PopCodeNulFree(code, s[1..]);
      PopCodeLiteral(code, s[0], s[1..]);
      assert [s[0]] + s[1..] == s;
    }
  }

  /** popCode leaves a placeholder-free prefix as it is. */
  lemma PopCodePrefix(code: seq<string>, s: string, i: nat)
    requires i <= |s| && NUL !in s[..i]
    ensures PopCode(code, s) == s[..i] + PopCode(code, s[i..])
  {
    NulFree(s[..i]);
    PopCodeConcat(code, s[..i], s[i..]);
    PopCodeNulFree(code, s[..i]);
    assert s[..i] + s[i..] == s;
  }

  // ---------------------------------------------------------------- deep resolution

  /** Every placeholder replaced, recursively, by the fully resolved text of its entry. */
  function ResolveDeep(code: seq<string>, s: string): (r: string)
    requires ValidTable(code) && Below(s, |code|)
    ensures NUL !in r
    decreases MaxTok(s), |s|
  {
    if s == [] then []
    else if s[0] == NUL then
      var n := TokenIndex(s);
      assert ValidEntry(code[n], n);
      ResolveDeep(code, code[n]) + ResolveDeep(code, s[TokenLen(s)..])
    else [s[0]] + ResolveDeep(code, s[1..])
  }

  lemma ResolveLiteral(code: seq<string>, c: char, s: string)
    requires ValidTable(code) && Below(s, |code|) && c != NUL
    ensures Below([c] + s, |code|) && ResolveDeep(code, [c] + s) == [c] + ResolveDeep(code, s)
  {
    LiteralHead(c, s);
    assert ([c] + s)[1..] == s;
  }

  lemma {:induction false} ResolveNulFree(code: seq<string>, s: string)
    requires ValidTable(code) && NUL !in s
    ensures Below(s, |code|) && ResolveDeep(code, s) == s
  {
    NulFree(s);
    if s != [] {
      ResolveNulFree(code, s[1..]);
      ResolveLiteral(code, s[0], s[1..]);
      assert [s[0]] + s[1..] == s;
    }
  }

  lemma {:induction false} ResolveConcat(code: seq<string>, a: string, b: string)
    requires ValidTable(code) && Below(a, |code|) && Below(b, |code|)
    ensures Below(a + b, |code|)
    ensures ResolveDeep(code, a + b) == ResolveDeep(code, a) + ResolveDeep(code, b)
    decreases |a|, 1
  {
    if a == [] {
      EmptyConcat(a, b);
    } else if a[0] != NUL {
      ResolveConcatLiteral(code, a, b);
    } else {
      ResolveConcatToken(code, a, b);
    }
  }

  lemma {:induction false} ResolveConcatLiteral(code: seq<string>, a: string, b: string)
    requires ValidTable(code) && Below(a, |code|) && Below(b, |code|) && a != [] && a[0] != NUL
    ensures Below(a + b, |code|)
    ensures ResolveDeep(code, a + b) == ResolveDeep(code, a) + ResolveDeep(code, b)
    decreases |a|, 0
  {
    LiteralHead(a[0], a[1..]);
    HeadConcat(a, b);
    ResolveConcat(code, a[1..], b);
    ResolveLiteral(code, a[0], a[1..] + b);
    ResolveLiteral(code, a[0], a[1..]);
    Assoc([a[0]], ResolveDeep(code, a[1..]), ResolveDeep(code, b));
  }

  lemma {:induction false} ResolveConcatToken(code: seq<string>, a: string, b: string)
    requires ValidTable(code) && Below(a, |code|) && Below(b, |code|) && a != [] && a[0] == NUL
    ensures Below(a + b, |code|)
    ensures ResolveDeep(code, a + b) == ResolveDeep(code, a) + ResolveDeep(code, b)
    decreases |a|, 0
  {
    var L := TokenLen(a);
    TokenHead(a);
    TokenPrefix(a, b);
    TokenHead(a + b);
    Concat(a, b);
    DropConcat(a, b, L);
    ResolveConcat(code, a[L..], b);
    Assoc(ResolveDeep(code, code[TokenIndex(a)]), ResolveDeep(code, a[L..]), ResolveDeep(code, b));
  }

  /** Resolving does not depend on entries added after the ones a text names. */
  lemma {:induction false} ResolveExtend(code: seq<string>, more: seq<string>, s: string)
    requires ValidTable(code + more) && Below(s, |code|)
    ensures ValidTable(code)
    ensures ResolveDeep(code + more, s) == ResolveDeep(code, s)
    decreases MaxTok(s), |s|
  {
    ValidTablePrefix(code + more, |code|);
    assert (code + more)[..|code|] == code;
    if s == [] {
    } else if s[0] == NUL {
      var n := TokenIndex(s);
      assert (code + more)[n] == code[n];
      assert ValidEntry(code[n], n);
      ResolveExtend(code, more, code[n]);
      ResolveExtend(code, more, s[TokenLen(s)..]);
    } else {
      ResolveExtend(code, more, s[1..]);
    }
  }

  /** One popCode step keeps the resolved meaning, keeps the text well-formed and lowers
      the largest index named. */
  lemma {:induction false} PopCodeStep(code: seq<string>, s: string)
    requires ValidTable(code) && Below(s, |code|)
    ensures Below(PopCode(code, s), |code|)
    ensures MaxTok(s) == 0 ==> PopCode(code, s) == s
    ensures MaxTok(s) > 0 ==> MaxTok(PopCode(code, s)) < MaxTok(s)
    ensures ResolveDeep(code, PopCode(code, s)) == ResolveDeep(code, s)
    decreases |s|, 1
  {
    if s == [] {
    } else if s[0] != NUL {
      PopCodeStepLiteral(code, s);
    } else {
      PopCodeStepToken(code, s);
    }
  }

  lemma {:induction false} PopCodeStepLiteral(code: seq<string>, s: string)
    requires ValidTable(code) && Below(s, |code|) && s != [] && s[0] != NUL
    ensures Below(PopCode(code, s), |code|)
    ensures MaxTok(s) == 0 ==> PopCode(code, s) == s
    ensures MaxTok(s) > 0 ==> MaxTok(PopCode(code, s)) < MaxTok(s)
    ensures ResolveDeep(code, PopCode(code, s)) == ResolveDeep(code, s)
    decreases |s|, 0
  {
    LiteralHead(s[0], s[1..]);
    assert [s[0]] + s[1..] == s;
    PopCodeStep(code, s[1..]);
    PopCodeLiteral(code, s[0], s[1..]);
    ResolveLiteral(code, s[0], PopCode(code, s[1..]));
    ResolveLiteral(code, s[0], s[1..]);
  }

  lemma {:induction false} PopCodeStepToken(code: seq<string>, s: string)
    requires ValidTable(code) && Below(s, |code|) && s != [] && s[0] == NUL
    ensures Below(PopCode(code, s), |code|)
    ensures MaxTok(s) > 0 && MaxTok(PopCode(code, s)) < MaxTok(s)
    ensures ResolveDeep(code, PopCode(code, s)) == ResolveDeep(code, s)
    decreases |s|, 0
  {
    var L := TokenLen(s);
    var n := TokenIndex(s);
    TokenHead(s);
    PopMatchAtToken(code, s);
    assert ValidEntry(code[n], n);
    PopCodeStep(code, s[L..]);
    ResolveConcat(code, code[n], PopCode(code, s[L..]));
    Concat(code[n], PopCode(code, s[L..]));
  }

  /** popCode turns a placeholder made by `pushCode` into the entry it names, whatever follows it. */
  lemma PopCodeToken(code: seq<string>, tag: string, n: nat, rest: string)
    requires IsTag(tag)
    ensures PopCode(code, Token(tag, n) + rest) == Entry(code, Some(n)) + PopCode(code, rest)
  {
    var t := Token(tag, n);
    TokenRead(tag, n, rest);
    PopMatchAtToken(code, t + rest);
    DropConcat(t, rest, |t|);
    SliceEnds(t);
  }

  /** The placeholder `pushCode` returns for index `n` pops back to entry `n`. */
  lemma PushPopRoundTrip(code: seq<string>, text: string)
    ensures PopCode(code + [text], Token(TagFor(text), |code|)) == text
  {
    var t := Token(TagFor(text), |code|);
    PopCodeToken(code + [text], TagFor(text), |code|, []);
    assert t + [] == t;
    assert PopCode(code + [text], []) == [];
  }

  // ---------------------------------------------------------------- growing the table

  /** Entries that may follow `base` earlier ones in a valid table. */
  predicate ValidFrom(more: seq<string>, base: nat)
    decreases |more|
  {
    more == [] || (ValidEntry(more[0], base) && ValidFrom(more[1..], base + 1))
  }

  lemma ValidFromCons(m: string, more: seq<string>, base: nat)
    requires ValidEntry(m, base) && ValidFrom(more, base + 1)
    ensures ValidFrom([m] + more, base)
  {
    assert ([m] + more)[1..] == more;
  }

  lemma {:induction false} ValidFromAppend(a: seq<string>, b: seq<string>, base: nat)
    requires ValidFrom(a, base) && ValidFrom(b, base + |a|)
    ensures ValidFrom(a + b, base)
    decreases |a|
  {
    if a == [] {
      assert a + b == b;
    } else {
      ValidFromAppend(a[1..], b, base + 1);
      assert (a + b)[1..] == a[1..] + b;
    }
  }

  /** A valid table extended by entries that are valid after it stays valid. */
  lemma {:induction false} ValidTableAppend(code: seq<string>, more: seq<string>)
    requires ValidTable(code) && ValidFrom(more, |code|)
    ensures ValidTable(code + more)
    decreases |more|
  {
    if more != [] {
      ValidTableAppend(code + [more[0]], more[1..]);
      assert code + [more[0]] + more[1..] == code + more;
    }
  }
}
