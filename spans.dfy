// The spans parseCSS hides behind placeholders (src/index.ts:26-27, 107-114):
// quoted strings and comments in one left-to-right pass, then brace blocks free
// of braces and quotes, innermost first. Each regular expression is written out
// as a scanner with the matching order of the JavaScript engine, and
// `s.replace(pattern, pushCode)` is `Extract`, which returns the new text
// together with the spans appended to the table.

module Spans {
  import opened Wrappers
  import opened JsString
  import opened Placeholder

  // ---------------------------------------------------------------- line endings

  /** `s.replace(/\r\n/g, '\n')`. */
  function CrlfToLf(s: string): (r: string)
    ensures |r| <= |s|
    decreases |s|
  {
    if |s| >= 2 && s[0] == '\r' && s[1] == '\n' then ['\n'] + CrlfToLf(s[2..])
    else if s == [] then []
    else [s[0]] + CrlfToLf(s[1..])
  }

  /** Line-ending normalisation keeps every character other than a carriage return as often as it occurs. */
  lemma {:induction false} CrlfToLfCount(s: string, c: char)
    requires c != '\r'
    ensures Count(CrlfToLf(s), c) == Count(s, c)
    decreases |s|
  {
    if |s| >= 2 && s[0] == '\r' && s[1] == '\n' {
      CrlfToLfCount(s[2..], c);
      CountTwo(s);
      CountHead(['\n'], CrlfToLf(s[2..]), c);
    } else if s != [] {
      CrlfToLfCount(s[1..], c);
      CountHead([s[0]], CrlfToLf(s[1..]), c);
      HeadConcat(s, []);
    }
  }

  /** In particular it introduces no NUL. */
  lemma CrlfToLfNul(s: string)
    requires NUL !in s
    ensures NUL !in CrlfToLf(s)
  {
    CountZero(s, NUL);
    CrlfToLfCount(s, NUL);
    CountZero(CrlfToLf(s), NUL);
  }

  /** The two pieces the replacement works on: a CRLF pair becomes one line feed, and any
      single character stays as it is. */
  lemma CrlfToLfUnits(c: char)
    ensures CrlfToLf("\r\n") == "\n" && CrlfToLf([c]) == [c]
  {
    assert "\r\n"[2..] == [] && [c][1..] == [];
  }

  /** The replacement works piece by piece: cutting `s` anywhere but inside a CRLF pair, the
      two halves are normalised on their own. Together with CrlfToLfUnits this pins CrlfToLf
      down on every string. */
  lemma {:induction false} CrlfToLfConcat(a: string, b: string)
    requires a == [] || b == [] || a[|a| - 1] != '\r' || b[0] != '\n'
    ensures CrlfToLf(a + b) == CrlfToLf(a) + CrlfToLf(b)
    decreases |a|
  {
    if a == [] {
      assert a + b == b;
    } else if |a| >= 2 && a[0] == '\r' && a[1] == '\n' {
      var ab := a + b;
      assert ab[0] == '\r' && ab[1] == '\n' && ab[2..] == a[2..] + b;
      CrlfToLfConcat(a[2..], b);
      Assoc(['\n'], CrlfToLf(a[2..]), CrlfToLf(b));
    } else if |a| == 1 && a[0] == '\r' && b != [] && b[0] == '\n' {
      assert false;
    } else {
      var ab := a + b;
      assert ab[0] == a[0] && ab[1..] == a[1..] + b;
      assert !(|ab| >= 2 && ab[0] == '\r' && ab[1] == '\n') by {
        if |a| >= 2 { assert ab[1] == a[1]; } else if b != [] { assert ab[1] == b[0]; }
      }
      CrlfToLfKeep(ab);
      CrlfToLfKeep(a);
      CrlfToLfConcat(a[1..], b);
      Assoc([a[0]], CrlfToLf(a[1..]), CrlfToLf(b));
    }
  }

  lemma CrlfToLfKeep(s: string)
    requires s != [] && !(|s| >= 2 && s[0] == '\r' && s[1] == '\n')
    ensures CrlfToLf(s) == [s[0]] + CrlfToLf(s[1..])
  {
  }

  lemma CountTwo(s: string)
    requires |s| >= 2 && s[0] == '\r' && s[1] == '\n'
    ensures forall c | c != '\r' :: Count(s, c) == (if c == '\n' then 1 else 0) + Count(s[2..], c)
  {
    assert s[1..][1..] == s[2..];
  }

  // ---------------------------------------------------------------- strings and comments

  /** Where `(?:\\[\s\S]|[^q])*q` matched from `j` ends, if it matches: the greedy star first
      tries an escape pair, then any other character than the quote, and only then stops at
      the closing quote, backtracking when a choice leads nowhere. */
  function QuotedEnd(s: string, j: nat, q: char): (e: Option<nat>)
    requires j <= |s|
    ensures e.Some? ==> j < e.value <= |s| && s[e.value - 1] == q
    decreases |s| - j
  {
    if j >= |s| then None
    else
      var escaped := if s[j] == '\\' && j + 1 < |s| then QuotedEnd(s, j + 2, q) else None;
      if escaped.Some? then escaped
      else
        var plain := if s[j] != q then QuotedEnd(s, j + 1, q) else None;
        if plain.Some? then plain
        else if s[j] == q then Some(j + 1)
        else None
  }

  /** A quote that is not preceded by a backslash closes the string there. */
  lemma {:induction false} QuotedEndAtQuote(s: string, j: nat, q: char)
    requires j < |s| && s[j] == q && q != '\\'
    ensures QuotedEnd(s, j, q) == Some(j + 1)
  {
  }

  /** Where the lazy comment body stops: the first star-slash pair at or after `j`. */
  function CommentClose(s: string, j: nat): (k: Option<nat>)
    requires j <= |s|
    ensures k.Some? ==> j <= k.value && k.value + 2 <= |s| && s[k.value] == '*' && s[k.value + 1] == '/'
    decreases |s| - j
  {
    if j + 2 > |s| then None
    else if s[j] == '*' && s[j + 1] == '/' then Some(j)
    else CommentClose(s, j + 1)
  }

  /** The lazy body stops at the first star-slash pair: none starts between `j` and the one it finds. */
  lemma {:induction false} CommentCloseFirst(s: string, j: nat)
    requires j <= |s|
    ensures var k := CommentClose(s, j);
      forall i | j <= i && i + 1 < |s| && (k.Some? ==> i < k.value) :: !(s[i] == '*' && s[i + 1] == '/')
    decreases |s| - j
  {
    if j + 2 <= |s| && !(s[j] == '*' && s[j + 1] == '/') {
      CommentCloseFirst(s, j + 1);
    }
  }

  /** Length of the match of regexStringsAddComments at the head of `s`, 0 when there is none. */
  function SpanLen(s: string): (n: nat)
    ensures n == 0 || (2 <= n <= |s| && (s[0] == '"' || s[0] == '\'' || s[0] == '/'))
    ensures n > 0 && s[0] != '/' ==> s[n - 1] == s[0]
    ensures n > 0 && s[0] == '/' ==> 4 <= n && s[1] == '*' && s[n - 2] == '*' && s[n - 1] == '/'
  {
    if s == [] then 0
    else if s[0] == '"' || s[0] == '\'' then
      var e := QuotedEnd(s, 1, s[0]);
      if e.Some? then e.value else 0
    else if |s| >= 2 && s[0] == '/' && s[1] == '*' then
      var k := CommentClose(s, 2);
      if k.Some? then k.value + 2 else 0
    else 0
  }

  // ---------------------------------------------------------------- brace blocks

  predicate IsBlockStop(c: char) { c == '{' || c == '}' || c == '"' || c == '\'' }

  /** The first index at or after `j` holding a brace or a quote, or `|s|`. */
  function BlockStop(s: string, j: nat): (k: nat)
    requires j <= |s|
    ensures j <= k <= |s|
    ensures k < |s| ==> IsBlockStop(s[k])
    decreases |s| - j
  {
    if j < |s| && !IsBlockStop(s[j]) then BlockStop(s, j + 1) else j
  }

  lemma {:induction false} BlockStopFree(s: string, j: nat)
    requires j <= |s|
    ensures forall k | j <= k < BlockStop(s, j) :: !IsBlockStop(s[k])
    decreases |s| - j
  {
    if j < |s| && !IsBlockStop(s[j]) { BlockStopFree(s, j + 1); }
  }

  lemma {:induction false} BlockStopAt(s: string, j: nat, k: nat)
    requires j <= k <= |s| && (k < |s| ==> IsBlockStop(s[k]))
    requires forall i | j <= i < k :: !IsBlockStop(s[i])
    ensures BlockStop(s, j) == k
    decreases k - j
  {
    if j < k { BlockStopAt(s, j + 1, k); }
  }

  /** Length of the match of regexCodeBlock, /{[^{}"']*}/, at the head of `s`, 0 when there is none. */
  function BlockLen(s: string): (n: nat)
    ensures n == 0 || (2 <= n <= |s| && s[0] == '{' && s[n - 1] == '}')
  {
    if s != [] && s[0] == '{' then
      var k := BlockStop(s, 1);
      if k < |s| && s[k] == '}' then k + 1 else 0
    else 0
  }

  /** A block match holds no brace or quote between its own two braces. */
  lemma BlockLenInner(s: string)
    requires BlockLen(s) > 0
    ensures forall k | 0 < k < BlockLen(s) - 1 :: !IsBlockStop(s[k])
  {
    BlockStopFree(s, 1);
  }

  /** Conversely, `{`, then characters other than braces and quotes, then `}` is a block match. */
  lemma BlockLenComplete(s: string, n: nat)
    requires 2 <= n <= |s| && s[0] == '{' && s[n - 1] == '}'
    requires forall k | 0 < k < n - 1 :: !IsBlockStop(s[k])
    ensures BlockLen(s) == n
  {
    BlockStopAt(s, 1, n - 1);
  }

  // ---------------------------------------------------------------- replace with pushCode

  datatype Pattern = StringsAndComments | CodeBlock

  /** Length of the pattern's match at the head of `s`, 0 when there is none. */
  function MatchLen(p: Pattern, s: string): (n: nat)
    ensures n == 0 || (2 <= n <= |s| && !IsTokenChar(s[0]) && !IsTokenChar(s[n - 1]))
  {
    match p
    case StringsAndComments => SpanLen(s)
    case CodeBlock => BlockLen(s)
  }

  /** `s.replace(pattern, pushCode)` with the table at length `base`: the text with each match,
      left to right, replaced by its placeholder, and the matches in the order they were pushed. */
  function Extract(p: Pattern, s: string, base: nat): (r: (string, seq<string>))
    decreases |s|
  {
    if s == [] then ([], [])
    else
      var n := MatchLen(p, s);
      if n > 0 then
        var rest := Extract(p, s[n..], base + 1);
        (Token(TagFor(s[..n]), base) + rest.0, [s[..n]] + rest.1)
      else
        var rest := Extract(p, s[1..], base);
        ([s[0]] + rest.0, rest.1)
  }

  /** The replacement of a match: its placeholder, then the replacement of what follows. */
  lemma ExtractMatchStep(p: Pattern, s: string, base: nat)
    requires s != [] && MatchLen(p, s) > 0
    ensures var n := MatchLen(p, s); var rest := Extract(p, s[n..], base + 1);
      Extract(p, s, base) == (Token(TagFor(s[..n]), base) + rest.0, [s[..n]] + rest.1)
  {
  }

  /** Where nothing matches, the replacement copies one character. */
  lemma ExtractLiteralStep(p: Pattern, s: string, base: nat)
    requires s != [] && MatchLen(p, s) == 0
    ensures var rest := Extract(p, s[1..], base); Extract(p, s, base) == ([s[0]] + rest.0, rest.1)
  {
  }

  /** A text without NUL is restored exactly by one popCode over the table the replacement filled. */
  lemma {:induction false} ExtractRoundTrip(p: Pattern, code: seq<string>, s: string)
    requires NUL !in s
    ensures var r := Extract(p, s, |code|); PopCode(code + r.1, r.0) == s
    decreases |s|
  {
    if s != [] {
      var n := MatchLen(p, s);
      if n > 0 {
        ExtractRoundTripMatch(p, code, s);
      } else {
        var rest := Extract(p, s[1..], |code|);
        ExtractRoundTrip(p, code, s[1..]);
        PopCodeLiteral(code + rest.1, s[0], rest.0);
        HeadConcat(s, []);
      }
    }
  }

  lemma {:induction false} ExtractRoundTripMatch(p: Pattern, code: seq<string>, s: string)
    requires NUL !in s && s != [] && MatchLen(p, s) > 0
    ensures var r := Extract(p, s, |code|); PopCode(code + r.1, r.0) == s
    decreases |s|, 0
  {
    var n := MatchLen(p, s);
    var m := s[..n];
    var c1 := code + [m];
    var rest := Extract(p, s[n..], |c1|);
    ExtractMatchStep(p, s, |code|);
    NulFreeDrop(s, n);
    ExtractRoundTrip(p, c1, s[n..]);
    PopCodeMatch(code, m, TagFor(m), rest.0, rest.1, s[n..]);
    TakeDrop(s, n);
  }

  /** One match step of the round trip: the placeholder at index `|code|` restores `m`. */
  lemma PopCodeMatch(code: seq<string>, m: string, tag: string, o: string, t: seq<string>, tail: string)
    requires IsTag(tag)
    requires PopCode(code + [m] + t, o) == tail
    ensures PopCode(code + ([m] + t), Token(tag, |code|) + o) == m + tail
  {
    var big := code + [m] + t;
    TableAssoc(code, m, t);
    PopCodeToken(big, tag, |code|, o);
    assert Entry(big, Some(|code|)) == m;
  }

  lemma NulFreeDrop(s: string, n: nat)
    requires NUL !in s && n <= |s|
    ensures NUL !in s[n..]
  {
    assert forall k | 0 <= k < |s[n..]| :: s[n..][k] == s[n + k];
  }

  lemma TableAssoc(code: seq<string>, m: string, more: seq<string>)
    ensures code + ([m] + more) == (code + [m]) + more
    ensures (code + [m] + more)[|code|] == m
  {
  }

  lemma TableJoin(code: seq<string>, a: seq<string>, b: seq<string>)
    ensures code + (a + b) == (code + a) + b
  {
  }

  // ---------------------------------------------------------------- what the replacement leaves in the table

  /** What the replacement leaves: a well-formed text naming only table indices, and new
      entries that keep the table valid. */
  predicate Extracted(base: nat, out: string, added: seq<string>) {
    Below(out, base + |added|) && ValidFrom(added, base)
  }

  lemma {:induction false} ExtractValid(p: Pattern, s: string, base: nat)
    requires Below(s, base)
    ensures var r := Extract(p, s, base); Extracted(base, r.0, r.1)
    decreases |s|
  {
    if s != [] {
      var n := MatchLen(p, s);
      if n > 0 {
        ExtractValidMatch(p, s, base);
      } else if s[0] != NUL {
        ExtractValidLiteral(p, s, base);
      } else {
        ExtractValidToken(p, s, base);
      }
    }
  }

  lemma {:induction false} ExtractValidMatch(p: Pattern, s: string, base: nat)
    requires Below(s, base) && s != [] && MatchLen(p, s) > 0
    ensures var r := Extract(p, s, base); Extracted(base, r.0, r.1)
    decreases |s|, 0
  {
    var n := MatchLen(p, s);
    var m := s[..n];
    MatchEntry(p, s, base);
    ExtractValid(p, s[n..], base + 1);
    var rest := Extract(p, s[n..], base + 1);
    TokenText(TagFor(m), base);
    Concat(Token(TagFor(m), base), rest.0);
    ValidFromCons(m, rest.1, base);
  }

  /** A match in a text naming indices below `base` may be stored at index `base`. */
  lemma MatchEntry(p: Pattern, s: string, base: nat)
    requires Below(s, base) && MatchLen(p, s) > 0
    ensures ValidEntry(s[..MatchLen(p, s)], base) && Below(s[MatchLen(p, s)..], base + 1)
  {
    var n := MatchLen(p, s);
    assert IsBoundary(s, n);
    Cut(s, n);
  }

  lemma {:induction false} ExtractValidLiteral(p: Pattern, s: string, base: nat)
    requires Below(s, base) && s != [] && MatchLen(p, s) == 0 && s[0] != NUL
    ensures var r := Extract(p, s, base); Extracted(base, r.0, r.1)
    decreases |s|, 0
  {
    LiteralHead(s[0], s[1..]);
    HeadConcat(s, []);
    ExtractValid(p, s[1..], base);
    var rest := Extract(p, s[1..], base);
    LiteralHead(s[0], rest.0);
  }

  lemma {:induction false} ExtractValidToken(p: Pattern, s: string, base: nat)
    requires Below(s, base) && s != [] && MatchLen(p, s) == 0 && s[0] == NUL
    ensures var r := Extract(p, s, base); Extracted(base, r.0, r.1)
    decreases |s|, 0
  {
    var L := TokenLen(s);
    TokenChars(s);
    ExtractOverToken(p, s, base);
    TokenHead(s);
    TokenWhole(s);
    ExtractValid(p, s[L..], base);
    var rest := Extract(p, s[L..], base);
    MonoBelow(s[..L], base, base + |rest.1|);
    Concat(s[..L], rest.0);
  }

  /** No match starts inside a placeholder, so the replacement copies it unchanged. */
  lemma ExtractOverToken(p: Pattern, s: string, base: nat)
    requires TokenLen(s) > 0
    ensures var L := TokenLen(s); var rest := Extract(p, s[L..], base);
      Extract(p, s, base) == (s[..L] + rest.0, rest.1)
  {
    var L := TokenLen(s);
    TokenChars(s);
    ExtractCopies(p, s, base, L);
  }

  /** Extract copies a prefix at none of whose positions the pattern matches. */
  lemma {:induction false} ExtractCopies(p: Pattern, s: string, base: nat, k: nat)
    requires k <= |s|
    requires forall j | 0 <= j < k :: IsTokenChar(s[j])
    ensures var rest := Extract(p, s[k..], base); Extract(p, s, base) == (s[..k] + rest.0, rest.1)
    decreases k
  {
    if k == 0 {
      SliceEnds(s);
      EmptyConcat(s[..0], Extract(p, s, base).0);
    } else {
      assert MatchLen(p, s) == 0;
      ExtractLiteralStep(p, s, base);
      ExtractCopies(p, s[1..], base, k - 1);
      Slices(s, 1, k);
      assert s[1..][k - 1..] == s[k..];
      assert [s[0]] + s[1..][..k - 1] == s[..k];
      Assoc([s[0]], s[1..k], Extract(p, s[k..], base).0);
    }
  }

  // ---------------------------------------------------------------- meaning kept by a replacement

  /** Replacing matches by placeholders keeps what the text resolves to, over any valid table
      that the text's placeholders fit. */
  lemma {:induction false} ExtractResolve(p: Pattern, code: seq<string>, s: string)
    requires ValidTable(code) && Below(s, |code|)
    ensures var r := Extract(p, s, |code|);
      ValidTable(code + r.1) && Below(r.0, |code + r.1|)
      && ResolveDeep(code + r.1, r.0) == ResolveDeep(code, s)
    decreases |s|
  {
    var r := Extract(p, s, |code|);
    ExtractValid(p, s, |code|);
    ValidTableAppend(code, r.1);
    if s != [] {
      var n := MatchLen(p, s);
      if n > 0 {
        ExtractResolveMatch(p, code, s);
      } else if s[0] != NUL {
        ExtractResolveLiteral(p, code, s);
      } else {
        ExtractResolveToken(p, code, s);
      }
    }
  }

  lemma {:induction false} ExtractResolveMatch(p: Pattern, code: seq<string>, s: string)
    requires ValidTable(code) && Below(s, |code|) && s != [] && MatchLen(p, s) > 0
    requires var r := Extract(p, s, |code|); ValidTable(code + r.1) && Below(r.0, |code + r.1|)
    ensures var r := Extract(p, s, |code|); ResolveDeep(code + r.1, r.0) == ResolveDeep(code, s)
    decreases |s|, 0
  {
    var n := MatchLen(p, s);
    var m := s[..n];
    var c1 := code + [m];
    var rest := Extract(p, s[n..], |c1|);
    ExtractMatchStep(p, s, |code|);
    MatchEntry(p, s, |code|);
    ResolveSplit(code, s, n);
    ValidTableAppend(code, [m]);
    MonoBelow(s[n..], |code|, |c1|);
    ExtractResolve(p, c1, s[n..]);
    TableAssoc(code, m, rest.1);
    ResolveMatchStep(code, m, TagFor(m), rest.0, rest.1);
    ResolveExtend(code, [m], s[n..]);
  }

  /** One match step: over the table `code + [m] + t`, the placeholder of `m` and then `o`
      resolve to `m` and then what `o` resolves to. */
  lemma ResolveMatchStep(code: seq<string>, m: string, tag: string, o: string, t: seq<string>)
    requires IsTag(tag) && ValidTable(code) && ValidEntry(m, |code|)
    requires ValidTable(code + [m] + t) && Below(o, |code + [m] + t|) && Below(m, |code|)
    ensures Below(Token(tag, |code|) + o, |code + [m] + t|)
    ensures ResolveDeep(code + [m] + t, Token(tag, |code|) + o)
      == ResolveDeep(code, m) + ResolveDeep(code + [m] + t, o)
  {
    ResolveMatchToken(code, m, tag, t);
    ResolveConcat(code + [m] + t, Token(tag, |code|), o);
  }

  /** The placeholder of `m`, stored at index `|code|`, resolves to what `m` resolves to. */
  lemma ResolveMatchToken(code: seq<string>, m: string, tag: string, t: seq<string>)
    requires IsTag(tag) && ValidTable(code) && ValidTable(code + [m] + t) && Below(m, |code|)
    ensures Below(Token(tag, |code|), |code + [m] + t|)
    ensures ResolveDeep(code + [m] + t, Token(tag, |code|)) == ResolveDeep(code, m)
  {
    ResolveTokenAt(code + [m] + t, tag, |code|);
    assert (code + [m] + t)[|code|] == m;
    assert code + [m] + t == code + ([m] + t);
    ResolveExtend(code, [m] + t, m);
  }

  /** The placeholder for entry `n` resolves to what entry `n` resolves to. */
  lemma ResolveTokenAt(code: seq<string>, tag: string, n: nat)
    requires IsTag(tag) && ValidTable(code) && n < |code|
    ensures Below(Token(tag, n), |code|)
    ensures ResolveDeep(code, Token(tag, n)) == ResolveDeep(code, code[n])
  {
    TokenText(tag, n);
    TokenRead(tag, n, []);
    SliceEnds(Token(tag, n));
    ResolveToken(code, Token(tag, n));
  }

  /** A lone placeholder resolves to what its entry resolves to. */
  lemma ResolveToken(code: seq<string>, tok: string)
    requires ValidTable(code) && Below(tok, |code|) && TokenLen(tok) > 0 && TokenLen(tok) == |tok|
    ensures TokenIndex(tok) < |code|
    ensures ResolveDeep(code, tok) == ResolveDeep(code, code[TokenIndex(tok)])
  {
    TokenHead(tok);
    SliceEnds(tok);
    assert ResolveDeep(code, tok[TokenLen(tok)..]) == [];
  }

  /** Resolving a text cut at a match boundary resolves each side. */
  lemma ResolveSplit(code: seq<string>, s: string, n: nat)
    requires ValidTable(code) && Below(s, |code|) && n <= |s| && IsBoundary(s, n)
    ensures Below(s[..n], |code|) && Below(s[n..], |code|)
    ensures ResolveDeep(code, s) == ResolveDeep(code, s[..n]) + ResolveDeep(code, s[n..])
  {
    Cut(s, n);
    ResolveConcat(code, s[..n], s[n..]);
    TakeDrop(s, n);
  }

  lemma {:induction false} ExtractResolveLiteral(p: Pattern, code: seq<string>, s: string)
    requires ValidTable(code) && Below(s, |code|) && s != [] && MatchLen(p, s) == 0 && s[0] != NUL
    requires var r := Extract(p, s, |code|); ValidTable(code + r.1) && Below(r.0, |code + r.1|)
    ensures var r := Extract(p, s, |code|); ResolveDeep(code + r.1, r.0) == ResolveDeep(code, s)
    decreases |s|, 0
  {
    var rest := Extract(p, s[1..], |code|);
    ExtractLiteralStep(p, s, |code|);
    LiteralHead(s[0], s[1..]);
    HeadConcat(s, []);
    ExtractResolve(p, code, s[1..]);
    ResolveLiteral(code + rest.1, s[0], rest.0);
    ResolveLiteral(code, s[0], s[1..]);
  }

  lemma {:induction false} ExtractResolveToken(p: Pattern, code: seq<string>, s: string)
    requires ValidTable(code) && Below(s, |code|) && s != [] && MatchLen(p, s) == 0 && s[0] == NUL
    requires var r := Extract(p, s, |code|); ValidTable(code + r.1) && Below(r.0, |code + r.1|)
    ensures var r := Extract(p, s, |code|); ResolveDeep(code + r.1, r.0) == ResolveDeep(code, s)
    decreases |s|, 0
  {
    var L := TokenLen(s);
    var rest := Extract(p, s[L..], |code|);
    ExtractOverToken(p, s, |code|);
    TokenHead(s);
    TokenWhole(s);
    ResolveConcat(code, s[..L], s[L..]);
    TakeDrop(s, L);
    ExtractResolve(p, code, s[L..]);
    ResolvePrefix(code, rest.1, s[..L], rest.0);
  }

  /** Over a grown table, a text the old table covers resolves as before, ahead of anything else. */
  lemma ResolvePrefix(code: seq<string>, more: seq<string>, a: string, o: string)
    requires ValidTable(code + more) && Below(a, |code|) && Below(o, |code + more|)
    ensures ValidTable(code) && Below(a + o, |code + more|)
    ensures ResolveDeep(code + more, a + o) == ResolveDeep(code, a) + ResolveDeep(code + more, o)
  {
    ResolveExtend(code, more, a);
    MonoBelow(a, |code|, |code + more|);
    ResolveConcat(code + more, a, o);
  }

  // ---------------------------------------------------------------- brace-block collapse

  /** `s.search(regexCodeBlock) >= 0`: a block match starts somewhere in `s`. */
  predicate HasBlock(s: string)
    decreases |s|
  {
    s != [] && (BlockLen(s) > 0 || HasBlock(s[1..]))
  }

  /** The search succeeds exactly when a block match starts at some index. */
  lemma {:induction false} HasBlockAt(s: string)
    ensures HasBlock(s) <==> exists i | 0 <= i < |s| :: BlockLen(s[i..]) > 0
  {
    if s != [] {
      HasBlockAt(s[1..]);
      assert s[0..] == s;
      if BlockLen(s) == 0 {
        assert forall i | 0 < i < |s| :: s[1..][i - 1..] == s[i..];
        if exists i | 0 <= i < |s| :: BlockLen(s[i..]) > 0 {
          var i :| 0 <= i < |s| && BlockLen(s[i..]) > 0;
          assert s[1..][i - 1..] == s[i..];
        }
        if HasBlock(s[1..]) {
          var i :| 0 <= i < |s[1..]| && BlockLen(s[1..][i..]) > 0;
          assert s[1..][i..] == s[i + 1..];
        }
      }
    }
  }

  /** A block match holds exactly one opening brace. */
  lemma CountBlock(s: string)
    requires BlockLen(s) > 0
    ensures Count(s[..BlockLen(s)], '{') == 1
  {
    var n := BlockLen(s);
    BlockLenInner(s);
    var t := s[..n];
    assert forall k | 0 <= k < |t[1..]| :: t[1..][k] == s[k + 1];
    CountZero(t[1..], '{');
    CountHead([t[0]], t[1..], '{');
    HeadConcat(t, []);
  }

  /** A placeholder holds no brace. */
  lemma TokenNoBrace(tag: string, n: nat)
    requires IsTag(tag)
    ensures Count(Token(tag, n), '{') == 0
  {
    var d := NatToDigits(n);
    assert forall k | 0 <= k < |d| :: IsDigit(d[k]);
    CountZero(Token(tag, n), '{');
  }

  /** Each block the replacement stores takes one opening brace out of the text. */
  lemma {:induction false} ExtractBraces(s: string, base: nat)
    ensures var r := Extract(CodeBlock, s, base); Count(r.0, '{') + |r.1| == Count(s, '{')
    decreases |s|
  {
    if s != [] {
      var n := MatchLen(CodeBlock, s);
      if n > 0 {
        var rest := Extract(CodeBlock, s[n..], base + 1);
        ExtractMatchStep(CodeBlock, s, base);
        ExtractBraces(s[n..], base + 1);
        TokenNoBrace(TagFor(s[..n]), base);
        CountConcat(Token(TagFor(s[..n]), base), rest.0, '{');
        CountBlock(s);
        CountConcat(s[..n], s[n..], '{');
        TakeDrop(s, n);
      } else {
        var rest := Extract(CodeBlock, s[1..], base);
        ExtractLiteralStep(CodeBlock, s, base);
        ExtractBraces(s[1..], base);
        CountHead([s[0]], rest.0, '{');
        CountHead([s[0]], s[1..], '{');
        HeadConcat(s, []);
      }
    }
  }

  /** When the search succeeds, the replacement stores at least one block. */
  lemma {:induction false} HasBlockExtract(s: string, base: nat)
    requires HasBlock(s)
    ensures |Extract(CodeBlock, s, base).1| > 0
    decreases |s|
  {
    if BlockLen(s) > 0 {
      ExtractMatchStep(CodeBlock, s, base);
    } else {
      ExtractLiteralStep(CodeBlock, s, base);
      HasBlockExtract(s[1..], base);
    }
  }

  /** The collapse loop with the table at length `base`: replace every block match until the
      search fails. Each round stores a block and takes its brace out of the text, so it ends,
      and it ends with no block match left. */
  function Collapse(s: string, base: nat): (r: (string, seq<string>))
    ensures !HasBlock(r.0)
    decreases Count(s, '{')
  {
    if !HasBlock(s) then (s, [])
    else
      var e := Extract(CodeBlock, s, base);
      ExtractBraces(s, base);
      HasBlockExtract(s, base);
      var rest := Collapse(e.0, base + |e.1|);
      (rest.0, e.1 + rest.1)
  }

  /** One round of the collapse: the brace count drops, and the rest is the collapse of the
      replaced text with the table grown by the blocks just stored. */
  lemma CollapseStep(s: string, base: nat)
    requires HasBlock(s)
    ensures var e := Extract(CodeBlock, s, base); var rest := Collapse(e.0, base + |e.1|);
      Count(e.0, '{') < Count(s, '{') && Collapse(s, base) == (rest.0, e.1 + rest.1)
  {
    ExtractBraces(s, base);
    HasBlockExtract(s, base);
  }

  lemma CollapseStepAt(code: seq<string>, s: string)
    requires HasBlock(s)
    ensures var e := Extract(CodeBlock, s, |code|); var rest := Collapse(e.0, |code + e.1|);
      Count(e.0, '{') < Count(s, '{') && Collapse(s, |code|) == (rest.0, e.1 + rest.1)
  {
    var e := Extract(CodeBlock, s, |code|);
    CollapseStep(s, |code|);
    assert |code + e.1| == |code| + |e.1|;
  }

  /** Collapsing keeps the table valid and the text well-formed, and keeps what the text
      resolves to. */
  lemma {:induction false} CollapseResolve(code: seq<string>, s: string)
    requires ValidTable(code) && Below(s, |code|)
    ensures var r := Collapse(s, |code|);
      ValidTable(code + r.1) && Below(r.0, |code + r.1|)
      && ResolveDeep(code + r.1, r.0) == ResolveDeep(code, s)
    decreases Count(s, '{'), 1
  {
    if HasBlock(s) {
      CollapseResolveRound(code, s);
    } else {
      assert code + [] == code;
    }
  }

  lemma {:induction false} CollapseResolveRound(code: seq<string>, s: string)
    requires ValidTable(code) && Below(s, |code|) && HasBlock(s)
    ensures var r := Collapse(s, |code|);
      ValidTable(code + r.1) && Below(r.0, |code + r.1|)
      && ResolveDeep(code + r.1, r.0) == ResolveDeep(code, s)
    decreases Count(s, '{'), 0
  {
    var e := Extract(CodeBlock, s, |code|);
    var c1 := code + e.1;
    CollapseStepAt(code, s);
    ExtractResolve(CodeBlock, code, s);
    var rest := Collapse(e.0, |c1|);
    CollapseResolve(c1, e.0);
    ResolveJoin(code, e.1, e.0, rest.1, rest.0, s);
  }

  /** Two rounds of hiding, each keeping what the text resolves to, keep it together. */
  lemma ResolveJoin(code: seq<string>, m1: seq<string>, t1: string, m2: seq<string>, t2: string, s: string)
    requires ValidTable(code) && Below(s, |code|)
    requires ValidTable(code + m1) && Below(t1, |code + m1|) && ResolveDeep(code + m1, t1) == ResolveDeep(code, s)
    requires ValidTable(code + m1 + m2) && Below(t2, |code + m1 + m2|)
    requires ResolveDeep(code + m1 + m2, t2) == ResolveDeep(code + m1, t1)
    ensures ValidTable(code + (m1 + m2)) && Below(t2, |code + (m1 + m2)|)
    ensures ResolveDeep(code + (m1 + m2), t2) == ResolveDeep(code, s)
  {
    assert code + (m1 + m2) == code + m1 + m2;
  }

  // ---------------------------------------------------------------- line normalisation

  /** `.split('\n').map(trim).filter(nonempty).join('\n')`. */
  function NormalizeLines(s: string): string {
    Join(TrimmedNonEmpty(Split(s, '\n')), '\n')
  }

  /** The lines of the normalised text are the trimmed non-blank lines of the input, in order. */
  lemma NormalizeLinesSplit(s: string)
    requires NormalizeLines(s) != []
    ensures Split(NormalizeLines(s), '\n') == TrimmedNonEmpty(Split(s, '\n'))
  {
    var lines := TrimmedNonEmpty(Split(s, '\n'));
    TrimmedNonEmptyFree(Split(s, '\n'), '\n');
    SplitJoin(lines, '\n');
  }

  /** Every line of the normalised text is trimmed and not blank. */
  lemma NormalizeLinesTrimmed(s: string)
    requires NormalizeLines(s) != []
    ensures forall k | 0 <= k < |Split(NormalizeLines(s), '\n')| :: Trimmed(Split(NormalizeLines(s), '\n')[k])
  {
    NormalizeLinesSplit(s);
  }

  /** Normalising twice changes nothing more. */
  lemma NormalizeLinesIdempotent(s: string)
    ensures NormalizeLines(NormalizeLines(s)) == NormalizeLines(s)
  {
    var t := NormalizeLines(s);
    if t == [] {
      assert Split(t, '\n') == [[]];
      assert TrimmedNonEmpty([[]]) == [];
    } else {
      NormalizeLinesSplit(s);
      TrimmedNonEmptyNoop(Split(t, '\n'));
      JoinSplit(t, '\n');
    }
  }

  /** Normalising keeps placeholders whole and names no new table index. */
  lemma NormalizeLinesBelow(s: string, bound: nat)
    requires Below(s, bound)
    ensures Below(NormalizeLines(s), bound)
  {
    SplitText(s, '\n', bound);
    TrimPieces(Split(s, '\n'), bound);
    JoinText(TrimmedNonEmpty(Split(s, '\n')), '\n', bound);
  }
}
