// parseCSS as the program runs it (src/index.ts:38-60, 83-88, 95-147): one placeholder table
// that pushCode appends to, the loops of popCodeRecursive, parseRules, parseNode and the block
// walk, and the collapse loop. Each method is proved to compute what the functions of the
// other modules define.

module CssParser {
  import opened Wrappers
  import opened JsString
  import opened Placeholder
  import opened Spans
  import opened AtRules
  import opened Scans
  import opened Rules
  import opened Tree

  /** The state the closures of parseCSS share: the array `code`. */
  class Parser {
    var code: seq<string>

    /** Every entry opens and closes outside a placeholder and names only older entries. */
    predicate Valid()
      reads this
    {
      ValidTable(code)
    }

    constructor ()
      ensures code == []
    {
      code := [];
    }

    /** pushCode: store the text and return the placeholder naming it, tagged by its first
        character; popCode turns the placeholder back into the text. */
    method PushCode(text: string) returns (tok: string)
      modifies this
      ensures code == old(code) + [text]
      ensures tok == Token(TagFor(text), |old(code)|)
      ensures PopCode(code, tok) == text
      ensures old(Valid()) && ValidEntry(text, |old(code)|) ==> Valid()
    {
      tok := Token(TagFor(text), |code|);
      PushPopRoundTrip(code, text);
      if Valid() && ValidEntry(text, |code|) {
        ValidTableAppend(code, [text]);
      }
      code := code + [text];
    }

    /** popCodeRecursive: apply popCode while the text still holds a `\0`, the search for it
        resuming where the last one was found. */
    method PopCodeRecursive(text: string) returns (r: string)
      requires Valid() && Below(text, |code|)
      ensures r == ResolveDeep(code, text)
      ensures NUL !in r
    {
      var t := text;
      var index := 0;
      while true
        invariant Below(t, |code|) && index <= |t| && NUL !in t[..index]
        invariant ResolveDeep(code, t) == ResolveDeep(code, text)
        decreases MaxTok(t)
      {
        var j := IndexOf(t[index..], NUL);
        if index + j == |t| {
          break;
        }
        assert t[index..][j] == NUL;
        assert t[..index + j] == t[..index] + t[index..][..j];
        index := index + j;
        NulNamesIndex(t);
        PopCodeStep(code, t);
        PopCodePrefix(code, t, index);
        t := PopCode(code, t);
      }
      assert t == t[..index] + t[index..];
      ResolveNulFree(code, t);
      r := t;
    }

    /** `s.replace(pattern, pushCode)`: each match, left to right, stored and replaced by its
        placeholder. */
    method ReplaceSpans(p: Pattern, s: string) returns (r: string)
      modifies this
      ensures r == Extract(p, s, |old(code)|).0
      ensures code == old(code) + Extract(p, s, |old(code)|).1
      ensures old(Valid()) && Below(s, |old(code)|) ==>
        Valid() && Below(r, |code|) && ResolveDeep(code, r) == ResolveDeep(old(code), s)
    {
      ghost var c0 := code;
      ghost var all := Extract(p, s, |c0|);
      var t := s;
      r := [];
      assert r + all.0 == all.0 && c0 + all.1 == c0 + all.1;
      while t != []
        invariant ReplaceInv(p, t, r, code, c0, all)
        decreases |t|
      {
        var n := MatchLen(p, t);
        if n > 0 {
          ReplaceMatch(p, t, r, code, c0, all);
          var tok := PushCode(t[..n]);
          r := r + tok;
          t := t[n..];
        } else {
          ReplaceLiteral(p, t, r, code, c0, all);
          r := r + [t[0]];
          t := t[1..];
        }
      }
      assert r + [] == r && code + [] == code;
      if ValidTable(c0) && Below(s, |c0|) {
        ExtractResolve(p, c0, s);
      }
    }

    /** The collapse loop: replace brace blocks while the search still finds one. */
    method CollapseBlocks(s: string) returns (r: string)
      modifies this
      ensures r == Collapse(s, |old(code)|).0
      ensures code == old(code) + Collapse(s, |old(code)|).1
      ensures !HasBlock(r)
      ensures old(Valid()) && Below(s, |old(code)|) ==>
        Valid() && Below(r, |code|) && ResolveDeep(code, r) == ResolveDeep(old(code), s)
    {
      ghost var c0 := code;
      ghost var all := Collapse(s, |c0|);
      r := s;
      assert c0 + all.1 == c0 + all.1;
      while HasBlock(r)
        invariant CollapseInv(r, code, c0, all)
        decreases Count(r, '{')
      {
        CollapseRound(r, code, c0, all);
        r := ReplaceSpans(CodeBlock, r);
      }
      assert code + [] == code;
      if ValidTable(c0) && Below(s, |c0|) {
        CollapseResolve(c0, s);
      }
    }

    /** parseRules with popCodeRecursive as `replace`: one pass per non-empty segment. */
    method ParseRules(t: string) returns (result: seq<Rule>)
      requires Valid() && Below(t, |code|)
      ensures result == Rules.ParseRules(code, t)
    {
      var rules := Segments(t);
      SegmentsBelow(t, |code|);
      result := [];
      for i := 0 to |rules|
        invariant result == RulesOf(code, rules[..i])
      {
        RulesOfSnoc(code, rules, i);
        var line := rules[i];
        if ':' in line {
          var key := Trim(Split(line, ':')[0]);
          ValueTextBelow(line, |code|);
          var v := PopCodeRecursive(ValueText(line));
          var value := Trim(v);
          if key != [] && value != [] {
            result := result + [Rule(key, value, false)];
          }
        } else {
          var v := PopCodeRecursive(line);
          result := result + [Rule([], v, true)];
        }
      }
      assert rules[..|rules|] == rules;
    }

    /** parseNode: push a node for every directive match with its text through popCode, and
        return the segment with the matches removed. */
    method ParseNode(name: string, kw: string, s: string, nodes: seq<Node>) returns (out: seq<Node>, rest: string)
      ensures out == nodes + DirectiveNodes(code, name, Directives(s, kw).0)
      ensures rest == Directives(s, kw).1
    {
      var matches := Directives(s, kw).0;
      out := nodes;
      assert matches[0..] == matches;
      for k := 0 to |matches|
        invariant out + DirectiveNodes(code, name, matches[k..]) == nodes + DirectiveNodes(code, name, matches)
      {
        var node := Node("@" + name, Some(name), None, Styles(PopCode(code, matches[k])));
        DirectiveNodesFrom(code, name, matches, k);
        StepJoin(out, [node], DirectiveNodes(code, name, matches[k + 1..]), DirectiveNodes(code, name, matches[k..]),
          nodes + DirectiveNodes(code, name, matches));
        out := out + [node];
      }
      assert DirectiveNodes(code, name, matches[|matches|..]) == [];
      rest := Directives(s, kw).1;
    }

    /** parseCode: the `@charset` nodes, the `@import` nodes, then one node per block match. */
    method ParseCode(s: string) returns (result: seq<Node>)
      requires Valid() && Below(s, |code|)
      ensures result == Tree.ParseCode(code, s)
      decreases MaxTok(s), 2
    {
      ParseCodeParts(code, s);
      var rest, rest2;
      result, rest := ParseNode("charset", "charset", s, []);
      result, rest2 := ParseNode("imports", "import", rest, result);
      var nodes := ParseBlocks(Blocks(rest2, []), MaxTok(s));
      result := result + nodes;
      assert [] + DirectiveNodes(code, "charset", Directives(s, "charset").0) == DirectiveNodes(code, "charset", Directives(s, "charset").0);
    }

    /** The block walk of parseCode: one node per match, in order. */
    method ParseBlocks(blocks: seq<BlockMatch>, bound: nat) returns (result: seq<Node>)
      requires Valid() && bound <= |code| && BlocksBelow(blocks, bound)
      ensures result == BlockNodes(code, blocks, bound)
      decreases bound, 1
    {
      result := [];
      assert blocks[0..] == blocks;
      for k := 0 to |blocks|
        invariant k <= |blocks| && BlocksBelow(blocks[k..], bound)
        invariant result + BlockNodes(code, blocks[k..], bound) == BlockNodes(code, blocks, bound)
      {
        BlockNodesFrom(code, blocks, k, bound);
        var node := BlockNode(blocks[k], bound);
        StepJoin(result, [node], BlockNodes(code, blocks[k + 1..], bound), BlockNodes(code, blocks[k..], bound), BlockNodes(code, blocks, bound));
        result := result + [node];
      }
      assert BlockNodes(code, blocks[|blocks|..], bound) == [];
    }

    /** The callback of the block walk: selector, comment, type, then children or rules. */
    method BlockNode(b: BlockMatch, bound: nat) returns (node: Node)
      requires Valid() && b.id < bound <= |code| && Below(b.header, bound)
      ensures node == Tree.BlockNode(code, b, bound)
      decreases bound, 0
    {
      MonoBelow(b.header, bound, |code|);
      var first := FirstComment(b.header);
      var selector := Trim(StripComments(b.header));
      var comments: Option<string> := None;
      if first.Some? {
        FirstCommentToken(b.header, |code|);
        var c := PopCodeRecursive(first.value);
        comments := Some(c);
      }
      var kind := ScanType(selector);
      var body := BlockBody(code, b.id);
      MonoBelow(body, b.id, |code|);
      if IsContainer(kind) {
        var children := ParseCode(body);
        node := Node(selector, kind, comments, Nested(children));
      } else {
        var rules := ParseRules(body);
        node := Node(selector, kind, comments, Declarations(rules));
      }
    }
  }

  // ---------------------------------------------------------------- loop invariants

  /** With `t` still to scan: `r` is the text replaced so far, and `code` holds exactly the
      spans stored so far, of the whole replacement `all`. */
  ghost predicate ReplaceInv(p: Pattern, t: string, r: string, code: seq<string>, c0: seq<string>, all: (string, seq<string>)) {
    var rest := Extract(p, t, |code|);
    r + rest.0 == all.0 && code + rest.1 == c0 + all.1
  }

  /** One match at the head of `t`: its placeholder goes to the text, the span to the table. */
  lemma ReplaceMatch(p: Pattern, t: string, r: string, code: seq<string>, c0: seq<string>, all: (string, seq<string>))
    requires ReplaceInv(p, t, r, code, c0, all) && t != [] && MatchLen(p, t) > 0
    ensures var n := MatchLen(p, t); var m := t[..n];
      ReplaceInv(p, t[n..], r + Token(TagFor(m), |code|), code + [m], c0, all)
  {
    var n := MatchLen(p, t);
    var m := t[..n];
    ExtractMatchStep(p, t, |code|);
    var rest := Extract(p, t[n..], |code| + 1);
    var tok := Token(TagFor(m), |code|);
    var whole := Extract(p, t, |code|);
    assert |code + [m]| == |code| + 1;
    StepJoin(r, tok, rest.0, whole.0, all.0);
    StepJoin(code, [m], rest.1, whole.1, c0 + all.1);
  }

  /** Moving one piece from what is left to what is done keeps the whole. */
  lemma StepJoin<T>(done: seq<T>, piece: seq<T>, rest: seq<T>, left: seq<T>, whole: seq<T>)
    requires done + left == whole && left == piece + rest
    ensures (done + piece) + rest == whole
  {
  }

  /** No match at the head of `t`: the character is copied. */
  lemma ReplaceLiteral(p: Pattern, t: string, r: string, code: seq<string>, c0: seq<string>, all: (string, seq<string>))
    requires ReplaceInv(p, t, r, code, c0, all) && t != [] && MatchLen(p, t) == 0
    ensures ReplaceInv(p, t[1..], r + [t[0]], code, c0, all)
  {
    ExtractLiteralStep(p, t, |code|);
    var rest := Extract(p, t[1..], |code|);
    StepJoin(r, [t[0]], rest.0, Extract(p, t, |code|).0, all.0);
  }

  /** `r` is the text after some rounds, and `code` holds the blocks stored so far, of the
      whole collapse `all`. */
  ghost predicate CollapseInv(r: string, code: seq<string>, c0: seq<string>, all: (string, seq<string>)) {
    var rest := Collapse(r, |code|);
    rest.0 == all.0 && code + rest.1 == c0 + all.1
  }

  /** One round of the loop: the brace count drops, and what is left to do is the collapse of
      the replaced text. */
  lemma CollapseRound(r: string, code: seq<string>, c0: seq<string>, all: (string, seq<string>))
    requires CollapseInv(r, code, c0, all) && HasBlock(r)
    ensures var e := Extract(CodeBlock, r, |code|);
      Count(e.0, '{') < Count(r, '{') && CollapseInv(e.0, code + e.1, c0, all)
  {
    var e := Extract(CodeBlock, r, |code|);
    CollapseStepAt(code, r);
    var rest := Collapse(e.0, |code + e.1|);
    assert Collapse(r, |code|) == (rest.0, e.1 + rest.1);
    assert rest.0 == all.0;
    assert code + (e.1 + rest.1) == c0 + all.1;
    TableJoin(code, e.1, rest.1);
  }

  /** The type scan: `regexEach` tries the at-keyword pattern at each index from the end of the
      last match on, and every match overwrites `node.type`, so the last one stays. */
  method ScanType(selector: string) returns (kind: Option<string>)
    ensures kind == LastKeyword(selector)
  {
    kind := None;
    var i := 0;
    while i < |selector|
      invariant i <= |selector|
      invariant LastOf(kind, Keywords(selector, i)) == LastKeyword(selector)
      decreases |selector| - i
    {
      if KeywordAt(selector, i) {
        kind := Some(KeywordName(selector, i));
        i := IdentEnd(selector, i + 2);
      } else {
        i := i + 1;
      }
    }
  }

  /** parseCSS: normalise line endings, hide strings and comments, normalise lines, hide
      blocks, then parse the result as one segment. */
  method ParseCSS(source: string) returns (nodes: seq<Node>)
    requires NUL !in source
    ensures nodes == Tree.ParseCSS(source)
  {
    var parser := new Parser();
    var s0 := CrlfToLf(source);
    CrlfToLfNul(source);
    NulFree(s0);
    ghost var e := Extract(StringsAndComments, s0, 0);
    ExtractValid(StringsAndComments, s0, 0);
    var s1 := parser.ReplaceSpans(StringsAndComments, s0);
    assert [] + e.1 == e.1;
    ValidTableAppend([], e.1);
    var s2 := NormalizeLines(s1);
    NormalizeLinesBelow(s1, |e.1|);
    CollapseResolve(e.1, s2);
    var s3 := parser.CollapseBlocks(s2);
    nodes := parser.ParseCode(s3);
  }
}
