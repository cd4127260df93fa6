// The scans parseCode runs over a segment whose strings, comments and blocks are placeholders
// (src/index.ts:122-137): the walk over "header text, then a block placeholder", the first
// comment placeholder of a header, the removal of comment placeholders, and the at-keyword
// scan that gives a node its type. The three placeholder scans step over a text placeholder by
// placeholder, so a NUL that closes one placeholder is never read as opening another.

module Scans {
  import opened Wrappers
  import opened JsString
  import opened Placeholder

  // ---------------------------------------------------------------- counting placeholders by tag

  /** The number of placeholders tagged `t` met walking `s` placeholder by placeholder. */
  function CountTag(s: string, t: char): nat
    decreases |s|
  {
    if s == [] then 0
    else if TokenLen(s) > 0 then (if s[1] == t then 1 else 0) + CountTag(s[TokenLen(s)..], t)
    else CountTag(s[1..], t)
  }

  /** Counting is additive over a well-formed prefix. */
  lemma {:induction false} CountTagConcat(a: string, b: string, t: char)
    requires WellFormed(a)
    ensures CountTag(a + b, t) == CountTag(a, t) + CountTag(b, t)
    decreases |a|
  {
    if a == [] {
      EmptyConcat(a, b);
    } else if a[0] != NUL {
      HeadConcat(a, b);
      CountTagConcat(a[1..], b, t);
      assert (a + b)[1..] == a[1..] + b;
    } else {
      var L := TokenLen(a);
      TokenPrefix(a, b);
      DropConcat(a, b, L);
      CountTagConcat(a[L..], b, t);
    }
  }

  /** A literal character or a placeholder not tagged `t` counts nothing. */
  lemma CountTagLiteral(c: char, t: char)
    requires c != NUL
    ensures CountTag([c], t) == 0
  {
    assert [c][1..] == [];
  }

  lemma CountTagToken(s: string, t: char)
    requires TokenLen(s) > 0
    ensures CountTag(s[..TokenLen(s)], t) == (if s[1] == t then 1 else 0)
  {
    var L := TokenLen(s);
    TokenAgree(s, s[..L]);
    SliceEnds(s[..L]);
  }

  // ---------------------------------------------------------------- comment placeholders

  /** `s.replace(regexComments, '')`: every comment placeholder removed. */
  function StripComments(s: string): string
    decreases |s|
  {
    if s == [] then []
    else if TokenLen(s) > 0 then
      (if s[1] == 'c' then [] else s[..TokenLen(s)]) + StripComments(s[TokenLen(s)..])
    else [s[0]] + StripComments(s[1..])
  }

  /** Removing comments keeps the text well-formed and names no new table index. */
  lemma {:induction false} StripCommentsBelow(s: string, bound: nat)
    requires Below(s, bound)
    ensures Below(StripComments(s), bound)
    decreases |s|
  {
    if s != [] {
      if TokenLen(s) > 0 {
        var L := TokenLen(s);
        TokenHead(s);
        TokenWhole(s);
        StripCommentsBelow(s[L..], bound);
        if s[1] == 'c' {
          EmptyConcat([], StripComments(s[L..]));
        } else {
          Concat(s[..L], StripComments(s[L..]));
        }
      } else {
        LiteralHead(s[0], s[1..]);
        HeadConcat(s, []);
        StripCommentsBelow(s[1..], bound);
        LiteralHead(s[0], StripComments(s[1..]));
      }
    }
  }

  /** Removing comments removes every comment placeholder and keeps every other placeholder. */
  lemma {:induction false} StripCommentsCount(s: string, t: char)
    requires WellFormed(s)
    ensures CountTag(StripComments(s), t) == if t == 'c' then 0 else CountTag(s, t)
    decreases |s|
  {
    if s != [] {
      StripCommentsBelow(s, MaxTok(s));
      if TokenLen(s) > 0 {
        var L := TokenLen(s);
        TokenHead(s);
        TokenWhole(s);
        StripCommentsCount(s[L..], t);
        if s[1] == 'c' {
          EmptyConcat([], StripComments(s[L..]));
        } else {
          CountTagConcat(s[..L], StripComments(s[L..]), t);
          CountTagToken(s, t);
        }
      } else {
        LiteralHead(s[0], s[1..]);
        HeadConcat(s, []);
        StripCommentsCount(s[1..], t);
        CountTagConcat([s[0]], StripComments(s[1..]), t);
        CountTagLiteral(s[0], t);
      }
    }
  }

  /** A well-formed text without comment placeholders is left as it is. */
  lemma {:induction false} StripCommentsNone(s: string)
    requires WellFormed(s) && CountTag(s, 'c') == 0
    ensures StripComments(s) == s
    decreases |s|
  {
    if s != [] {
      if TokenLen(s) > 0 {
        var L := TokenLen(s);
        StripCommentsNone(s[L..]);
        TakeDrop(s, L);
      } else {
        StripCommentsNone(s[1..]);
        HeadConcat(s, []);
      }
    }
  }

  /** Removing comments twice removes nothing more. */
  lemma StripCommentsIdempotent(s: string)
    requires WellFormed(s)
    ensures StripComments(StripComments(s)) == StripComments(s)
  {
    StripCommentsBelow(s, MaxTok(s));
    StripCommentsCount(s, 'c');
    StripCommentsNone(StripComments(s));
  }

  /** `regexComments.exec(s)`: the first comment placeholder, if there is one. */
  function FirstComment(s: string): Option<string>
    decreases |s|
  {
    if s == [] then None
    else if TokenLen(s) > 0 then
      if s[1] == 'c' then Some(s[..TokenLen(s)]) else FirstComment(s[TokenLen(s)..])
    else FirstComment(s[1..])
  }

  /** There is a first comment exactly when the text holds a comment placeholder. */
  lemma {:induction false} FirstCommentExists(s: string)
    ensures FirstComment(s).Some? <==> CountTag(s, 'c') > 0
    decreases |s|
  {
    if s != [] {
      if TokenLen(s) > 0 {
        FirstCommentExists(s[TokenLen(s)..]);
      } else {
        FirstCommentExists(s[1..]);
      }
    }
  }

  /** The first comment is one whole comment placeholder of the text, naming an index the
      text names. */
  lemma {:induction false} FirstCommentToken(s: string, bound: nat)
    requires Below(s, bound) && FirstComment(s).Some?
    ensures var t := FirstComment(s).value;
      |t| >= 3 && TokenLen(t) == |t| && t[1] == 'c' && Below(t, bound)
    decreases |s|
  {
    if TokenLen(s) > 0 {
      var L := TokenLen(s);
      TokenHead(s);
      TokenWhole(s);
      if s[1] == 'c' {
        TokenAgree(s, s[..L]);
      } else {
        FirstCommentToken(s[L..], bound);
      }
    } else {
      FirstCommentToken(s[1..], bound);
    }
  }

  // ---------------------------------------------------------------- header text, then a block

  /** One match of the block walk: the header text and the index its block placeholder names. */
  datatype BlockMatch = BlockMatch(header: string, id: nat)

  /** The matches of `/([\s\S]*?)\0b(\d+)\0/gi`, left to right, with `h` the header text read
      so far; text after the last block placeholder belongs to no match. The `i` flag would also
      let `\0B` open a match, but no placeholder has an upper-case tag. */
  function Blocks(s: string, h: string): seq<BlockMatch>
    decreases |s|
  {
    if s == [] then []
    else if TokenLen(s) > 0 && s[1] == 'b' then
      [BlockMatch(h, TokenIndex(s))] + Blocks(s[TokenLen(s)..], [])
    else if TokenLen(s) > 0 then Blocks(s[TokenLen(s)..], h + s[..TokenLen(s)])
    else Blocks(s[1..], h + [s[0]])
  }

  /** One match per block placeholder. */
  lemma {:induction false} BlocksCount(s: string, h: string)
    ensures |Blocks(s, h)| == CountTag(s, 'b')
    decreases |s|
  {
    if s != [] {
      if TokenLen(s) > 0 && s[1] == 'b' {
        BlocksCount(s[TokenLen(s)..], []);
      } else if TokenLen(s) > 0 {
        BlocksCount(s[TokenLen(s)..], h + s[..TokenLen(s)]);
      } else {
        BlocksCount(s[1..], h + [s[0]]);
      }
    }
  }

  /** Text with no block placeholder joins the header: the lazy group runs over it. */
  lemma {:induction false} BlocksSkip(x: string, y: string, h: string)
    requires WellFormed(x) && CountTag(x, 'b') == 0
    ensures Blocks(x + y, h) == Blocks(y, h + x)
    decreases |x|
  {
    if x == [] {
      EmptyConcat(x, y);
      assert h + x == h;
    } else if x[0] != NUL {
      HeadConcat(x, y);
      assert (x + y)[1..] == x[1..] + y;
      BlocksSkip(x[1..], y, h + [x[0]]);
      assert h + [x[0]] + x[1..] == h + x;
    } else {
      var L := TokenLen(x);
      TokenPrefix(x, y);
      DropConcat(x, y, L);
      TakeConcat(x, y, L);
      BlocksSkip(x[L..], y, h + x[..L]);
      assert h + x[..L] + x[L..] == h + x by { TakeDrop(x, L); }
    }
  }

  /** The first match is the text up to the first block placeholder, and the walk goes on
      right after that placeholder. */
  lemma BlocksFirst(h: string, n: nat, rest: string)
    requires WellFormed(h) && CountTag(h, 'b') == 0
    ensures Blocks(h + Token("b", n) + rest, []) == [BlockMatch(h, n)] + Blocks(rest, [])
  {
    var t := Token("b", n);
    assert h + t + rest == h + (t + rest);
    BlocksSkip(h, t + rest, []);
    assert [] + h == h;
    BlocksAtToken(h, n, rest);
  }

  /** A block placeholder ends the match under way. */
  lemma BlocksAtToken(h: string, n: nat, rest: string)
    ensures Blocks(Token("b", n) + rest, h) == [BlockMatch(h, n)] + Blocks(rest, [])
  {
    var t := Token("b", n);
    var s := t + rest;
    TokenRead("b", n, rest);
    assert s[TokenLen(s)..] == rest by {
      DropConcat(t, rest, |t|);
      SliceEnds(t);
    }
  }

  /** Headers and indices of the matches of a well-formed text. */
  predicate BlocksBelow(bs: seq<BlockMatch>, bound: nat) {
    forall k | 0 <= k < |bs| :: bs[k].id < bound && Below(bs[k].header, bound) && CountTag(bs[k].header, 'b') == 0
  }

  /** Every match of a well-formed text names an index the text names, and its header is a
      well-formed text holding no block placeholder. */
  lemma {:induction false} BlocksIn(s: string, h: string, bound: nat)
    requires Below(s, bound) && Below(h, bound) && CountTag(h, 'b') == 0
    ensures BlocksBelow(Blocks(s, h), bound)
    decreases |s|
  {
    if s != [] {
      if TokenLen(s) > 0 {
        var L := TokenLen(s);
        TokenHead(s);
        TokenWhole(s);
        if s[1] == 'b' {
          BlocksIn(s[L..], [], bound);
          BlocksCons(BlockMatch(h, TokenIndex(s)), Blocks(s[L..], []), bound);
        } else {
          Concat(h, s[..L]);
          CountTagConcat(h, s[..L], 'b');
          CountTagToken(s, 'b');
          BlocksIn(s[L..], h + s[..L], bound);
        }
      } else {
        HeadConcat(s, []);
        LiteralHead(s[0], s[1..]);
        LiteralHead(s[0], []);
        Concat(h, [s[0]]);
        CountTagConcat(h, [s[0]], 'b');
        CountTagLiteral(s[0], 'b');
        BlocksIn(s[1..], h + [s[0]], bound);
      }
    }
  }

  lemma BlocksCons(b: BlockMatch, bs: seq<BlockMatch>, bound: nat)
    requires b.id < bound && Below(b.header, bound) && CountTag(b.header, 'b') == 0
    requires BlocksBelow(bs, bound)
    ensures BlocksBelow([b] + bs, bound)
  {
    assert forall k | 1 <= k < |bs| + 1 :: ([b] + bs)[k] == bs[k - 1];
  }

  /** The comment kept is the first one: with no comment placeholder before it, a comment
      placeholder is what `regexComments.exec` returns, whatever follows. */
  lemma FirstCommentIsFirst(a: string, n: nat, b: string)
    requires WellFormed(a) && CountTag(a, 'c') == 0
    ensures FirstComment(a + Token("c", n) + b) == Some(Token("c", n))
  {
    TokenRead("c", n, b);
    assert (Token("c", n) + b)[..|Token("c", n)|] == Token("c", n);
    FirstCommentAfter(a, Token("c", n) + b);
    assert a + Token("c", n) + b == a + (Token("c", n) + b);
  }

  /** With no comment placeholder in the well-formed `a`, the search passes over all of it. */
  lemma {:induction false} FirstCommentAfter(a: string, r: string)
    requires WellFormed(a) && CountTag(a, 'c') == 0
    ensures FirstComment(a + r) == FirstComment(r)
    decreases |a|
  {
    if a == [] {
      assert a + r == r;
    } else if a[0] != NUL {
      assert (a + r)[0] == a[0] && (a + r)[1..] == a[1..] + r;
      FirstCommentAfter(a[1..], r);
    } else {
      var L := TokenLen(a);
      TokenPrefix(a, r);
      assert (a + r)[L..] == a[L..] + r;
      FirstCommentSkip(a + r);
      FirstCommentAfter(a[L..], r);
    }
  }

  /** A placeholder other than a comment's is passed over. */
  lemma FirstCommentSkip(s: string)
    requires TokenLen(s) > 0 && s[1] != 'c'
    ensures FirstComment(s) == FirstComment(s[TokenLen(s)..])
  {
  }

  // ---------------------------------------------------------------- the at-keyword

  predicate IsIdentStart(c: char) { 'a' <= c <= 'z' || c == '_' || c == '-' }

  predicate IsIdentChar(c: char) { IsIdentStart(c) || IsDigit(c) }

  /** Where the greedy `[a-z\d_\-]*` from `j` stops. */
  function IdentEnd(s: string, j: nat): (e: nat)
    requires j <= |s|
    ensures j <= e <= |s| && (e < |s| ==> !IsIdentChar(s[e]))
    ensures forall k | j <= k < e :: IsIdentChar(s[k])
    decreases |s| - j
  {
    if j < |s| && IsIdentChar(s[j]) then IdentEnd(s, j + 1) else j
  }

  /** An at-keyword match starts at `i`. */
  predicate KeywordAt(s: string, i: nat) {
    i + 1 < |s| && s[i] == '@' && IsIdentStart(s[i + 1])
  }

  /** The name of the at-keyword starting at `i`. */
  function KeywordName(s: string, i: nat): string
    requires KeywordAt(s, i)
  {
    s[i + 1..IdentEnd(s, i + 2)]
  }

  /** The captures of `/@([a-z_\-][a-z\d_\-]*)/g` from index `i` on, left to right. */
  function Keywords(s: string, i: nat): seq<string>
    requires i <= |s|
    decreases |s| - i
  {
    if i == |s| then []
    else if KeywordAt(s, i) then [KeywordName(s, i)] + Keywords(s, IdentEnd(s, i + 2))
    else Keywords(s, i + 1)
  }

  /** `node.type` after the scan: the last capture, absent when there is none. */
  function LastKeyword(s: string): Option<string> {
    var ks := Keywords(s, 0);
    if ks == [] then None else Some(ks[|ks| - 1])
  }

  /** What `node.type` holds after a scan that starts from `prev` and meets the names `ks`. */
  function LastOf(prev: Option<string>, ks: seq<string>): Option<string> {
    if ks == [] then prev else Some(ks[|ks| - 1])
  }

  /** The scan finds nothing exactly when no at-keyword starts in the text. */
  lemma {:induction false} KeywordsNone(s: string, i: nat)
    requires i <= |s|
    ensures Keywords(s, i) == [] <==> forall j | i <= j < |s| :: !KeywordAt(s, j)
    decreases |s| - i
  {
    if i < |s| && !KeywordAt(s, i) {
      KeywordsNone(s, i + 1);
    }
  }

  /** The last capture is the name of the last at-keyword in the text: the scan does not skip
      one, since a name holds no `@`. */
  lemma {:induction false} KeywordsLast(s: string, i: nat, p: nat)
    requires p <= i && KeywordAt(s, i)
    requires forall j | i < j < |s| :: !KeywordAt(s, j)
    ensures var ks := Keywords(s, p); ks != [] && ks[|ks| - 1] == KeywordName(s, i)
    decreases |s| - p
  {
    if KeywordAt(s, p) {
      var e := IdentEnd(s, p + 2);
      if p == i {
        KeywordsNone(s, e);
      } else {
        assert !IsIdentChar(s[i]);
        KeywordsLast(s, i, e);
      }
    } else {
      KeywordsLast(s, i, p + 1);
    }
  }

  /** The type of a selector: absent exactly when it has no at-keyword, and otherwise the name
      of its last one, a non-empty lower-case identifier. */
  lemma LastKeywordSpec(s: string)
    ensures LastKeyword(s).None? <==> forall j | 0 <= j < |s| :: !KeywordAt(s, j)
    ensures forall i | 0 <= i < |s| && KeywordAt(s, i) && (forall j | i < j < |s| :: !KeywordAt(s, j)) ::
      LastKeyword(s) == Some(KeywordName(s, i))
  {
    KeywordsNone(s, 0);
    forall i | 0 <= i < |s| && KeywordAt(s, i) && (forall j | i < j < |s| :: !KeywordAt(s, j))
      ensures LastKeyword(s) == Some(KeywordName(s, i))
    {
      KeywordsLast(s, i, 0);
    }
  }

  /** A keyword name is a non-empty identifier starting with a letter, `_` or `-`. */
  lemma KeywordNameShape(s: string, i: nat)
    requires KeywordAt(s, i)
    ensures var k := KeywordName(s, i);
      k != [] && IsIdentStart(k[0]) && forall j | 0 <= j < |k| :: IsIdentChar(k[j])
  {
  }
  /** What `[a-z_\-][a-z\d_\-]*` matches. */
  predicate IsName(k: string) {
    k != [] && IsIdentStart(k[0]) && forall j | 0 <= j < |k| :: IsIdentChar(k[j])
  }

  lemma {:induction false} KeywordsNames(s: string, i: nat)
    requires i <= |s|
    ensures forall k | 0 <= k < |Keywords(s, i)| :: IsName(Keywords(s, i)[k])
    decreases |s| - i
  {
    if i < |s| {
      if KeywordAt(s, i) {
        var e := IdentEnd(s, i + 2);
        KeywordsNames(s, e);
        KeywordNameShape(s, i);
        var ks := Keywords(s, e);
        assert forall k | 1 <= k < |ks| + 1 :: ([KeywordName(s, i)] + ks)[k] == ks[k - 1];
      } else {
        KeywordsNames(s, i + 1);
      }
    }
  }

  /** The type found is always a name of that form. */
  lemma LastKeywordName(s: string)
    ensures LastKeyword(s).Some? ==> IsName(LastKeyword(s).value)
  {
    KeywordsNames(s, 0);
  }

  // ---------------------------------------------------------------- trimming around placeholders

  lemma {:induction false} CountTagFree(s: string, t: char)
    requires NUL !in s
    ensures CountTag(s, t) == 0
    decreases |s|
  {
    if s != [] {
      assert TokenLen(s) == 0;
      CountTagFree(s[1..], t);
    }
  }

  lemma SpaceNoTag(s: string, t: char)
    requires forall k | 0 <= k < |s| :: IsWhitespace(s[k])
    ensures WellFormed(s) && CountTag(s, t) == 0
  {
    assert NUL !in s by {
      forall k | 0 <= k < |s| ensures s[k] != NUL { assert IsWhitespace(s[k]); }
    }
    NulFree(s);
    CountTagFree(s, t);
  }

  /** Trimming a well-formed text drops white space only, never a placeholder. */
  lemma TrimCountTag(s: string, t: char)
    requires WellFormed(s)
    ensures WellFormed(Trim(s)) && CountTag(Trim(s), t) == CountTag(s, t)
  {
    var i, j := TrimSpan(s);
    TrimText(s);
    SpaceAround(s, i, j, t);
  }

  lemma SpaceAround(s: string, i: nat, j: nat, t: char)
    requires i <= j <= |s| && WellFormed(s[i..j])
    requires forall k | 0 <= k < i :: IsWhitespace(s[k])
    requires forall k | j <= k < |s| :: IsWhitespace(s[k])
    ensures CountTag(s[i..j], t) == CountTag(s, t)
  {
    SpacePiece(s, 0, i, t);
    SpacePiece(s, j, |s|, t);
    var a, m, b := s[0..i], s[i..j], s[j..|s|];
    CountTagConcat(m, b, t);
    CountTagConcat(a, m + b, t);
    ThreeParts(s, i, j);
  }

  lemma ThreeParts(s: string, i: nat, j: nat)
    requires i <= j <= |s|
    ensures s == s[0..i] + (s[i..j] + s[j..|s|])
  {
    assert s[i..j] + s[j..|s|] == s[i..];
    assert s[0..i] + s[i..] == s;
  }

  /** A run of white space is well formed and holds no placeholder. */
  lemma SpacePiece(s: string, lo: nat, hi: nat, t: char)
    requires lo <= hi <= |s| && forall k | lo <= k < hi :: IsWhitespace(s[k])
    ensures WellFormed(s[lo..hi]) && CountTag(s[lo..hi], t) == 0
  {
    var p := s[lo..hi];
    assert forall k | 0 <= k < |p| :: p[k] == s[lo + k];
    SpaceNoTag(p, t);
  }

}
