// Two scans of parseCSS (src/index.ts:28 and src/index.ts:125) as the source writes them: the
// regular expressions /\0c\d+\0/ and /([\s\S]*?)\0b(\d+)\0/ are tried at every position, so
// the NUL that closes one placeholder can open a match that runs into the next one. Each
// scan comes with an input on which it goes wrong; the rest of the model uses the
// placeholder-aligned scans of module Scans instead.

module Findings {
  import opened Wrappers
  import opened JsString
  import opened Placeholder
  import opened Scans

  /** Length of a match of /\0<t>\d+\0/ at the head of `s`, 0 when there is none. */
  function TaggedLen(s: string, t: char): (n: nat)
    ensures n == 0 || 4 <= n <= |s|
    ensures n > 0 ==> s[0] == NUL && s[1] == t && s[n - 1] == NUL
  {
    if |s| >= 4 && s[0] == NUL && s[1] == t then
      var j := DigitRun(s, 2);
      if 2 < j < |s| && s[j] == NUL then j + 1 else 0
    else 0
  }

  /** The number the digits of that match spell. */
  function TaggedIndex(s: string, t: char): nat
    requires TaggedLen(s, t) > 0
  {
    DigitRunDigits(s, 2);
    var d := s[2..TaggedLen(s, t) - 1];
    assert forall k | 0 <= k < |d| :: d[k] == s[2 + k];
    DigitsValue(d)
  }

  // ---------------------------------------------------------------- the comment scan as written

  /** `text.replace(regexComments, '')` as written: every match, wherever it starts, removed. */
  function RawStripComments(s: string): string
    decreases |s|
  {
    if s == [] then []
    else if TaggedLen(s, 'c') > 0 then RawStripComments(s[TaggedLen(s, 'c')..])
    else [s[0]] + RawStripComments(s[1..])
  }

  /** One turn of popCodeRecursive's loop: `text.indexOf('\0', from)`, and when it finds a NUL,
      popCode applied to the text and the search resumed from that NUL. */
  function RecursiveStep(code: seq<string>, text: string, from: nat): Option<(string, nat)> {
    var f := if from <= |text| then from else |text|;
    if NUL in text[f..] then Some((PopCode(code, text), f + IndexOf(text[f..], NUL))) else None
  }

  /** The body `b:\00\0c5\0c1\0` is what `a{b:"x"c5/*y*/}` leaves in the table for its block:
      the string is placeholder 0 and the comment placeholder 1. The scan as written removes
      `\0c5\0`, the closing NUL of the string's placeholder with the literal `c5`, and leaves
      the value `\00c1\0`, on which popCode finds nothing to replace: the loop of
      popCodeRecursive comes back to the same text and the same index every turn. */
  lemma CommentDesync(code: seq<string>)
    ensures var body := "b:" + Token("", 0) + "c5" + Token("c", 1);
      var v := [NUL, '0', 'c', '1', NUL];
      RawStripComments(body) == "b:" + v
      && RecursiveStep(code, v, 0) == Some((v, 0))
  {
    var v := [NUL, '0', 'c', '1', NUL];
    var body := "b:" + Token("", 0) + "c5" + Token("c", 1);
    BodyText(body);
    RawLiterals("b:", [NUL, '0', NUL, 'c', '5', NUL, 'c', '1', NUL]);
    RawFromString();
    PopCodeNothing(code, v);
    assert v[0..] == v;
  }

  lemma BodyText(body: string)
    requires body == "b:" + Token("", 0) + "c5" + Token("c", 1)
    ensures body == "b:" + [NUL, '0', NUL, 'c', '5', NUL, 'c', '1', NUL]
  {
    assert NatToDigits(0) == "0";
    assert NatToDigits(1) == "1";
  }

  /** Text without NUL is copied by the scan as written. */
  lemma {:induction false} RawLiterals(a: string, b: string)
    requires NUL !in a
    ensures RawStripComments(a + b) == a + RawStripComments(b)
    decreases |a|
  {
    if a != [] {
      assert (a + b)[1..] == a[1..] + b;
      RawLiterals(a[1..], b);
    } else {
      assert a + b == b;
    }
  }

  // One lemma per suffix of `\00\0c5\0c1\0`, from the end.

  lemma RawLast()
    ensures RawStripComments(['c', '1', NUL]) == ['c', '1', NUL]
  {
    assert ['c', '1', NUL] == "c1" + [NUL];
    RawLiterals("c1", [NUL]);
    assert [NUL][1..] == [];
  }

  lemma RawAtComment()
    ensures RawStripComments([NUL, 'c', '5', NUL, 'c', '1', NUL]) == ['c', '1', NUL]
  {
    var s := [NUL, 'c', '5', NUL, 'c', '1', NUL];
    assert DigitRun(s, 3) == 3;
    assert DigitRun(s, 2) == 3;
    assert TaggedLen(s, 'c') == 4;
    assert s[4..] == ['c', '1', NUL];
    RawLast();
  }

  lemma RawFromString()
    ensures RawStripComments([NUL, '0', NUL, 'c', '5', NUL, 'c', '1', NUL]) == [NUL, '0', 'c', '1', NUL]
  {
    var s := [NUL, '0', NUL, 'c', '5', NUL, 'c', '1', NUL];
    assert TaggedLen(s, 'c') == 0;
    assert s[1..] == "0" + [NUL, 'c', '5', NUL, 'c', '1', NUL];
    RawLiterals("0", [NUL, 'c', '5', NUL, 'c', '1', NUL]);
    RawAtComment();
  }

  /** popCode leaves `\00c1\0` as it is: no NUL of it opens a match of /\0.?\d+\0/. */
  lemma PopCodeNothing(code: seq<string>, v: string)
    requires v == [NUL, '0', 'c', '1', NUL]
    ensures PopCode(code, v) == v
  {
    assert DigitRun(v, 2) == 2 && DigitRun(v, 1) == 2;
    assert PopMatchLen(v) == 0;
    var w := v[1..];
    assert w == ['0', 'c', '1', NUL];
    assert PopCode(code, [NUL]) == [NUL];
    assert w[3..] == [NUL];
    assert PopCode(code, w[1..]) == w[1..] by {
      assert w[1..][1..] == w[2..];
      assert w[2..][1..] == w[3..];
    }
    assert PopCode(code, w) == w;
  }

  /** With the stripping aligned on placeholders, the same body keeps the string's placeholder
      and the literal `c5`, and only the comment placeholder goes. */
  lemma CommentAligned()
    ensures var body := "b:" + Token("", 0) + "c5" + Token("c", 1);
      StripComments(body) == "b:" + Token("", 0) + "c5"
  {
    StripAround("b:", 0, "c5", 1);
  }

  /** A string placeholder between two literals, then a comment placeholder: only the last goes. */
  lemma StripAround(a: string, n: nat, x: string, m: nat)
    requires NUL !in a && NUL !in x
    ensures StripComments(a + Token("", n) + x + Token("c", m)) == a + Token("", n) + x
  {
    var t0, t1 := Token("", n), Token("c", m);
    var b1 := x + t1;
    var s1 := t0 + b1;
    Assoc3(a, t0, x, t1);
    StripLiterals(a, s1);
    StripKeeps(n, b1);
    StripLiterals(x, t1);
    StripDrops(m);
    Assoc2(a, t0, x);
  }

  lemma Assoc3(a: string, b: string, c: string, d: string)
    ensures a + b + c + d == a + (b + (c + d))
  {
  }

  lemma Assoc2(a: string, b: string, c: string)
    ensures a + (b + (c + [])) == a + b + c
  {
    assert c + [] == c;
  }

  /** Text without NUL is copied by the aligned strip. */
  lemma {:induction false} StripLiterals(a: string, b: string)
    requires NUL !in a
    ensures StripComments(a + b) == a + StripComments(b)
    decreases |a|
  {
    if a != [] {
      assert (a + b)[1..] == a[1..] + b;
      assert TokenLen(a + b) == 0;
      StripLiterals(a[1..], b);
    } else {
      assert a + b == b;
    }
  }

  /** A string placeholder at the head stays. */
  lemma StripKeeps(n: nat, b: string)
    ensures StripComments(Token("", n) + b) == Token("", n) + StripComments(b)
  {
    var t := Token("", n);
    TokenRead("", n, b);
    assert (t + b)[..|t|] == t && (t + b)[|t|..] == b;
  }

  /** A comment placeholder alone goes. */
  lemma StripDrops(m: nat)
    ensures StripComments(Token("c", m)) == []
  {
    var t := Token("c", m);
    TokenRead("c", m, []);
    assert t + [] == t;
    assert t[|t|..] == [];
  }

  // ---------------------------------------------------------------- the block walk as written

  /** Length of a match of /\0b\d+\0/i at the head of `s`: with the `i` flag the tag letter
      matches in either case. */
  function BlockTagLen(s: string): (n: nat)
    ensures n == 0 || 4 <= n <= |s|
    ensures n > 0 <==> TaggedLen(s, 'b') > 0 || TaggedLen(s, 'B') > 0
  {
    if TaggedLen(s, 'b') > 0 then TaggedLen(s, 'b') else TaggedLen(s, 'B')
  }

  /** The number the digits of that match spell. */
  function BlockTagIndex(s: string): nat
    requires BlockTagLen(s) > 0
  {
    if TaggedLen(s, 'b') > 0 then TaggedIndex(s, 'b') else TaggedIndex(s, 'B')
  }

  /** The matches of /([\s\S]*?)\0b(\d+)\0/gi as written: header and index, a match starting
      at any NUL, `h` the header text read so far. */
  function RawBlocks(s: string, h: string): seq<BlockMatch>
    decreases |s|
  {
    if s == [] then []
    else if BlockTagLen(s) > 0 then
      [BlockMatch(h, BlockTagIndex(s))] + RawBlocks(s[BlockTagLen(s)..], [])
    else RawBlocks(s[1..], h + [s[0]])
  }

  /** `'a'b9'c'{}` becomes `\00\0b9\01\0\0b2\0` over a table of three entries (the two strings
      and the empty block). The walk as written reads `\0b9\0` out of the closing NUL of the
      first string's placeholder, the literal `b9` and the opening NUL of the second, and the
      callback asks for table entry 9, which does not exist. */
  lemma BlockDesync()
    ensures var s := Token("", 0) + "b9" + Token("", 1) + Token("b", 2);
      var ms := RawBlocks(s, []);
      |ms| >= 1 && ms[0] == BlockMatch([NUL, '0'], 9) && ms[0].id >= 3
  {
    var s := Token("", 0) + "b9" + Token("", 1) + Token("b", 2);
    WalkText(s);
    WalkFirst();
  }

  lemma WalkText(s: string)
    requires s == Token("", 0) + "b9" + Token("", 1) + Token("b", 2)
    ensures s == [NUL, '0', NUL, 'b', '9', NUL, '1', NUL, NUL, 'b', '2', NUL]
  {
    assert NatToDigits(0) == "0";
    assert NatToDigits(1) == "1";
    assert NatToDigits(2) == "2";
  }

  lemma WalkFirst()
    ensures var ms := RawBlocks([NUL, '0', NUL, 'b', '9', NUL, '1', NUL, NUL, 'b', '2', NUL], []);
      |ms| >= 1 && ms[0] == BlockMatch([NUL, '0'], 9)
  {
    var s := [NUL, '0', NUL, 'b', '9', NUL, '1', NUL, NUL, 'b', '2', NUL];
    assert TaggedLen(s, 'b') == 0 && TaggedLen(s, 'B') == 0;
    var s1 := s[1..];
    assert s1 == ['0', NUL, 'b', '9', NUL, '1', NUL, NUL, 'b', '2', NUL];
    assert TaggedLen(s1, 'b') == 0 && TaggedLen(s1, 'B') == 0;
    var t := s1[1..];
    assert t == [NUL, 'b', '9', NUL, '1', NUL, NUL, 'b', '2', NUL];
    WalkAtNine(t, [NUL, '0']);
    assert [] + [s[0]] == [NUL];
    assert [NUL] + [s1[0]] == [NUL, '0'];
  }

  lemma WalkAtNine(t: string, h: string)
    requires t == [NUL, 'b', '9', NUL, '1', NUL, NUL, 'b', '2', NUL]
    ensures var ms := RawBlocks(t, h); |ms| >= 1 && ms[0] == BlockMatch(h, 9)
  {
    assert DigitRun(t, 3) == 3;
    assert DigitRun(t, 2) == 3;
    assert TaggedLen(t, 'b') == 4;
    NineAt(t);
  }

  lemma NineAt(t: string)
    requires t == [NUL, 'b', '9', NUL, '1', NUL, NUL, 'b', '2', NUL] && TaggedLen(t, 'b') == 4
    ensures TaggedIndex(t, 'b') == 9
  {
    assert t[2..3] == ['9'];
    assert ['9'][..0] == [];
    assert DigitsValue(['9']) == DigitsValue([]) * 10 + DigitValue('9');
  }

  /** With the walk aligned on placeholders, the same text is one match: the header is the two
      string placeholders around `b9`, and the index is the block's. */
  lemma BlockAligned()
    ensures var h := Token("", 0) + "b9" + Token("", 1);
      Blocks(h + Token("b", 2), []) == [BlockMatch(h, 2)]
  {
    var h := Token("", 0) + "b9" + Token("", 1);
    HeaderShape(0, "b9", 1);
    BlocksFirst(h, 2, []);
    assert h + Token("b", 2) + [] == h + Token("b", 2);
  }

  /** Two string placeholders around a literal: well-formed, and no block placeholder. */
  lemma HeaderShape(a: nat, x: string, b: nat)
    requires NUL !in x
    ensures var h := Token("", a) + x + Token("", b); WellFormed(h) && CountTag(h, 'b') == 0
  {
    var t0, t1 := Token("", a), Token("", b);
    TokenText("", a);
    TokenText("", b);
    TokenCount(a);
    TokenCount(b);
    NulFree(x);
    CountTagFree(x, 'b');
    Concat(t0, x);
    CountTagConcat(t0, x, 'b');
    Concat(t0 + x, t1);
    CountTagConcat(t0 + x, t1, 'b');
  }

  /** A string placeholder is not a block placeholder. */
  lemma TokenCount(n: nat)
    ensures CountTag(Token("", n), 'b') == 0
  {
    var t := Token("", n);
    TokenRead("", n, []);
    assert t + [] == t;
    CountTagToken(t, 'b');
    assert t[..TokenLen(t)] == t;
  }
}
