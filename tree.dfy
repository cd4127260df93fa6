// parseCode and parseNode (src/index.ts:83-88, 116-145) as functions on the finished
// placeholder table, and the preparation of the text parseCSS hands to parseCode
// (src/index.ts:107-114). A segment gives first its `@charset` nodes, then its `@import`
// nodes, then one node per brace-block placeholder; the body of a block whose type is a
// container at-rule is parsed again as a segment, any other body becomes rules.

module Tree {
  import opened Wrappers
  import opened JsString
  import opened Placeholder
  import opened Spans
  import opened AtRules
  import opened Scans
  import opened Rules

  /** CSS.Object: `None` stands for an absent field and `kind` is the field called `type`.
      Of `styles`, `rules` and `children` every node parseCode creates has exactly one, so the
      three are one field here. */
  datatype Node = Node(selector: string, kind: Option<string>, comments: Option<string>, content: Content)

  datatype Content =
    | Styles(styles: string)
    | Declarations(rules: seq<Rule>)
    | Nested(children: seq<Node>)

  /** The at-rules whose bodies hold nested rule sets rather than declarations. */
  const Containers: seq<string> := ["media", "supports", "keyframes", "page"]

  /** `node.type && [...].indexOf(node.type) >= 0`. */
  predicate IsContainer(kind: Option<string>) {
    kind.Some? && kind.value in Containers
  }

  // ---------------------------------------------------------------- parseNode

  /** The node parseNode pushes for one directive; `styles` goes through popCode, one level. */
  function DirectiveNode(code: seq<string>, name: string, m: string): Node {
    Node("@" + name, Some(name), None, Styles(PopCode(code, m)))
  }

  function DirectiveNodes(code: seq<string>, name: string, ms: seq<string>): (r: seq<Node>)
    ensures |r| == |ms|
  {
    if ms == [] then [] else [DirectiveNode(code, name, ms[0])] + DirectiveNodes(code, name, ms[1..])
  }

  /** The nodes of the matches from `k` on: the node of match `k`, then the rest. */
  lemma DirectiveNodesFrom(code: seq<string>, name: string, ms: seq<string>, k: nat)
    requires k < |ms|
    ensures DirectiveNodes(code, name, ms[k..]) == [DirectiveNode(code, name, ms[k])] + DirectiveNodes(code, name, ms[k + 1..])
  {
    var t := ms[k..];
    assert t[0] == ms[k] && t[1..] == ms[k + 1..];
  }

  lemma {:induction false} DirectiveNodesAppend(code: seq<string>, name: string, a: seq<string>, b: seq<string>)
    ensures DirectiveNodes(code, name, a + b) == DirectiveNodes(code, name, a) + DirectiveNodes(code, name, b)
  {
    if a != [] {
      assert (a + b)[1..] == a[1..] + b;
      DirectiveNodesAppend(code, name, a[1..], b);
    } else {
      assert a + b == b;
    }
  }

  // ---------------------------------------------------------------- parseCode

  /** `code[+blockId].slice(1, -1).replace(regexComments, '')`: the block's text without its
      braces and comments. It names only entries older than the block itself. */
  function BlockBody(code: seq<string>, id: nat): (r: string)
    requires ValidTable(code) && id < |code|
    ensures Below(r, id)
  {
    var e := code[id];
    Infix(e, 1, |e| - 1);
    StripCommentsBelow(e[1..|e| - 1], id);
    StripComments(e[1..|e| - 1])
  }

  /** The nodes of one segment, in the order parseCode pushes them. */
  function ParseCode(code: seq<string>, s: string): seq<Node>
    requires ValidTable(code) && Below(s, |code|)
    decreases MaxTok(s), 2, 0
  {
    var c := Directives(s, "charset");
    DirectivesBelow(s, "charset", MaxTok(s));
    var i := Directives(c.1, "import");
    DirectivesBelow(c.1, "import", MaxTok(s));
    BlocksIn(i.1, [], MaxTok(s));
    DirectiveNodes(code, "charset", c.0) + DirectiveNodes(code, "imports", i.0)
      + BlockNodes(code, Blocks(i.1, []), MaxTok(s))
  }

  /** The three parts of parseCode, with what each part needs of its input. */
  lemma ParseCodeParts(code: seq<string>, s: string)
    requires ValidTable(code) && Below(s, |code|)
    ensures var c := Directives(s, "charset"); var i := Directives(c.1, "import");
      MaxTok(s) <= |code| && BlocksBelow(Blocks(i.1, []), MaxTok(s)) &&
      ParseCode(code, s) == DirectiveNodes(code, "charset", c.0) + DirectiveNodes(code, "imports", i.0)
        + BlockNodes(code, Blocks(i.1, []), MaxTok(s))
  {
    var c := Directives(s, "charset");
    DirectivesBelow(s, "charset", MaxTok(s));
    DirectivesBelow(c.1, "import", MaxTok(s));
    BlocksIn(Directives(c.1, "import").1, [], MaxTok(s));
  }

  function BlockNodes(code: seq<string>, bs: seq<BlockMatch>, bound: nat): (r: seq<Node>)
    requires ValidTable(code) && bound <= |code| && BlocksBelow(bs, bound)
    ensures |r| == |bs|
    decreases bound, 1, |bs|
  {
    if bs == [] then []
    else
      assert BlocksBelow(bs[1..], bound) by {
        assert forall k | 0 <= k < |bs[1..]| :: bs[1..][k] == bs[k + 1];
      }
      [BlockNode(code, bs[0], bound)] + BlockNodes(code, bs[1..], bound)
  }

  lemma BlocksBelowSlice(bs: seq<BlockMatch>, i: nat, j: nat, bound: nat)
    requires BlocksBelow(bs, bound) && i <= j <= |bs|
    ensures BlocksBelow(bs[i..j], bound)
  {
    assert forall k | 0 <= k < j - i :: bs[i..j][k] == bs[i + k];
  }

  /** The nodes of the matches from `k` on: the node of match `k`, then the rest. */
  lemma BlockNodesFrom(code: seq<string>, bs: seq<BlockMatch>, k: nat, bound: nat)
    requires ValidTable(code) && bound <= |code| && BlocksBelow(bs, bound) && k < |bs|
    ensures BlocksBelow(bs[k..], bound) && BlocksBelow(bs[k + 1..], bound)
    ensures bs[k].id < bound && Below(bs[k].header, bound)
    ensures BlockNodes(code, bs[k..], bound) == [BlockNode(code, bs[k], bound)] + BlockNodes(code, bs[k + 1..], bound)
  {
    BlocksBelowSlice(bs, k, |bs|, bound);
    BlocksBelowSlice(bs, k + 1, |bs|, bound);
    assert bs[k..|bs|] == bs[k..] && bs[k + 1..|bs|] == bs[k + 1..];
    var t := bs[k..];
    assert t[0] == bs[k] && t[1..] == bs[k + 1..];
  }



  /** The callback of the block walk for one match. */
  function BlockNode(code: seq<string>, b: BlockMatch, bound: nat): Node
    requires ValidTable(code) && b.id < bound <= |code| && Below(b.header, bound)
    decreases bound, 0, 0
  {
    MonoBelow(b.header, bound, |code|);
    var selector := Trim(StripComments(b.header));
    var first := FirstComment(b.header);
    var comments := if first.Some? then FirstCommentToken(b.header, |code|); Some(ResolveDeep(code, first.value)) else None;
    var kind := LastKeyword(selector);
    var body := BlockBody(code, b.id);
    MonoBelow(body, b.id, |code|);
    if IsContainer(kind) then Node(selector, kind, comments, Nested(ParseCode(code, body)))
    else Node(selector, kind, comments, Declarations(ParseRules(code, body)))
  }

  // ---------------------------------------------------------------- parseCSS

  /** The table and the text parseCode starts from: line endings normalised, strings and
      comments hidden, lines trimmed and blank ones dropped, then brace blocks hidden until
      none is left. */
  function Prepare(source: string): (r: (seq<string>, string))
    requires NUL !in source
    ensures ValidTable(r.0) && Below(r.1, |r.0|) && !HasBlock(r.1)
  {
    var s := CrlfToLf(source);
    CrlfToLfNul(source);
    NulFree(s);
    var e := Extract(StringsAndComments, s, 0);
    ExtractValid(StringsAndComments, s, 0);
    ValidTableAppend([], e.1);
    assert [] + e.1 == e.1;
    var t := NormalizeLines(e.0);
    NormalizeLinesBelow(e.0, |e.1|);
    var c := Collapse(t, |e.1|);
    CollapseResolve(e.1, t);
    (e.1 + c.1, c.0)
  }

  /** parseCSS: the nodes of the prepared text. */
  function ParseCSS(source: string): seq<Node>
    requires NUL !in source
  {
    var p := Prepare(source);
    ParseCode(p.0, p.1)
  }
  // ---------------------------------------------------------------- what the nodes look like

  /** A node parseNode pushes: selector `@` and its type, the directive in `styles`, nothing else. */
  predicate DirectiveShaped(n: Node) {
    n.kind.Some? && n.selector == "@" + n.kind.value && n.comments.None? && n.content.Styles?
  }

  /** A node the block walk pushes: a trimmed selector free of comment placeholders, whose
      type is the last at-keyword in it; a resolved comment if any; and `children` for a
      container type, shaped `rules` for any other. */
  predicate BlockShaped(n: Node) {
    (n.selector == [] || Trimmed(n.selector)) && CountTag(n.selector, 'c') == 0
    && n.kind == LastKeyword(n.selector)
    && (n.comments.Some? ==> NUL !in n.comments.value)
    && !n.content.Styles? && (n.content.Nested? <==> IsContainer(n.kind))
    && (n.content.Declarations? ==> forall k | 0 <= k < |n.content.rules| :: WellShaped(n.content.rules[k]))
  }

  /** Every node of a tree has one of the two shapes. */
  predicate Shaped(n: Node)
    decreases n
  {
    (DirectiveShaped(n) || BlockShaped(n))
    && (n.content.Nested? ==> forall k | 0 <= k < |n.content.children| :: Shaped(n.content.children[k]))
  }

  predicate AllShaped(ns: seq<Node>) {
    forall k | 0 <= k < |ns| :: Shaped(ns[k])
  }

  lemma AllShapedAppend(a: seq<Node>, b: seq<Node>)
    requires AllShaped(a) && AllShaped(b)
    ensures AllShaped(a + b)
  {
    assert forall k | |a| <= k < |a + b| :: (a + b)[k] == b[k - |a|];
  }

  /** The directive nodes, in the order of the directives, one per directive. */
  lemma {:induction false} DirectiveNodesShape(code: seq<string>, name: string, ms: seq<string>)
    ensures var r := DirectiveNodes(code, name, ms);
      AllShaped(r) && DirectiveRun(r, 0, code, name, ms)
  {
    if ms != [] {
      DirectiveNodesShape(code, name, ms[1..]);
      var rest := DirectiveNodes(code, name, ms[1..]);
      assert forall k | 1 <= k < |rest| + 1 :: ([DirectiveNode(code, name, ms[0])] + rest)[k] == rest[k - 1];
      assert forall k | 1 <= k < |ms| :: ms[1..][k - 1] == ms[k];
      assert DirectiveShaped(DirectiveNode(code, name, ms[0]));
    }
  }

  /** The selector, type, comment and contents of the node for one block. */
  lemma {:induction false} BlockNodeShape(code: seq<string>, b: BlockMatch, bound: nat)
    requires ValidTable(code) && b.id < bound <= |code| && Below(b.header, bound)
    ensures var n := BlockNode(code, b, bound);
      BlockShaped(n) && Shaped(n)
      && (n.comments.Some? <==> CountTag(b.header, 'c') > 0)
      && (FirstComment(b.header).Some? ==> Below(FirstComment(b.header).value, |code|))
      && n.comments == (if FirstComment(b.header).Some? then Some(ResolveDeep(code, FirstComment(b.header).value)) else None)
      && CountTag(n.selector, 'b') == CountTag(b.header, 'b')
    decreases bound, 0, 0
  {
    var n := BlockNode(code, b, bound);
    MonoBelow(b.header, bound, |code|);
    if FirstComment(b.header).Some? {
      FirstCommentToken(b.header, |code|);
    }
    var stripped := StripComments(b.header);
    StripCommentsBelow(b.header, bound);
    StripCommentsCount(b.header, 'c');
    StripCommentsCount(b.header, 'b');
    TrimCountTag(stripped, 'c');
    TrimCountTag(stripped, 'b');
    FirstCommentExists(b.header);
    var body := BlockBody(code, b.id);
    MonoBelow(body, b.id, |code|);
    if IsContainer(n.kind) {
      ParseCodeShaped(code, body);
    } else {
      ParseRulesShape(code, body);
    }
  }

  /** Every node parseCode returns, at any depth, has one of the two shapes. */
  lemma {:induction false} ParseCodeShaped(code: seq<string>, s: string)
    requires ValidTable(code) && Below(s, |code|)
    ensures AllShaped(ParseCode(code, s))
    decreases MaxTok(s), 2, 0
  {
    var c := Directives(s, "charset");
    DirectivesBelow(s, "charset", MaxTok(s));
    var i := Directives(c.1, "import");
    DirectivesBelow(c.1, "import", MaxTok(s));
    BlocksIn(i.1, [], MaxTok(s));
    DirectiveNodesShape(code, "charset", c.0);
    DirectiveNodesShape(code, "imports", i.0);
    BlockNodesShaped(code, Blocks(i.1, []), MaxTok(s));
    AllShapedAppend(DirectiveNodes(code, "charset", c.0), DirectiveNodes(code, "imports", i.0));
    AllShapedAppend(DirectiveNodes(code, "charset", c.0) + DirectiveNodes(code, "imports", i.0),
      BlockNodes(code, Blocks(i.1, []), MaxTok(s)));
  }

  lemma {:induction false} BlockNodesShaped(code: seq<string>, bs: seq<BlockMatch>, bound: nat)
    requires ValidTable(code) && bound <= |code| && BlocksBelow(bs, bound)
    ensures AllShaped(BlockNodes(code, bs, bound)) && AllBlockShaped(BlockNodes(code, bs, bound))
    decreases bound, 1, |bs|
  {
    if bs != [] {
      assert BlocksBelow(bs[1..], bound) by {
        assert forall k | 0 <= k < |bs[1..]| :: bs[1..][k] == bs[k + 1];
      }
      BlockNodeShape(code, bs[0], bound);
      BlockNodesShaped(code, bs[1..], bound);
      ShapedCons(BlockNode(code, bs[0], bound), BlockNodes(code, bs[1..], bound));
    }
  }

  predicate AllBlockShaped(ns: seq<Node>) {
    forall k | 0 <= k < |ns| :: BlockShaped(ns[k])
  }

  lemma ShapedCons(h: Node, rest: seq<Node>)
    requires Shaped(h) && BlockShaped(h) && AllShaped(rest) && AllBlockShaped(rest)
    ensures AllShaped([h] + rest) && AllBlockShaped([h] + rest)
  {
    assert forall k | 1 <= k < |rest| + 1 :: ([h] + rest)[k] == rest[k - 1];
  }
  /** parseCode's result in order: one node per `@charset` directive, then one per `@import`
      directive, then one per block placeholder left in the segment; the directive nodes
      carry their directive with one level of placeholders expanded. */
  lemma ParseCodeOrder(code: seq<string>, s: string)
    requires ValidTable(code) && Below(s, |code|)
    ensures var c := Directives(s, "charset"); var i := Directives(c.1, "import");
      var r := ParseCode(code, s);
      AllDirectives(c.0, "charset") && AllDirectives(i.0, "import")
      && |r| == |c.0| + |i.0| + CountTag(i.1, 'b')
      && DirectiveRun(r, 0, code, "charset", c.0) && DirectiveRun(r, |c.0|, code, "imports", i.0)
      && BlockRun(r, |c.0| + |i.0|)
  {
    var c := Directives(s, "charset");
    DirectivesBelow(s, "charset", MaxTok(s));
    var i := Directives(c.1, "import");
    DirectivesBelow(c.1, "import", MaxTok(s));
    BlocksIn(i.1, [], MaxTok(s));
    DirectivesWhole(s, "charset");
    DirectivesWhole(c.1, "import");
    BlocksCount(i.1, []);
    DirectiveNodesShape(code, "charset", c.0);
    DirectiveNodesShape(code, "imports", i.0);
    BlockNodesShaped(code, Blocks(i.1, []), MaxTok(s));
    RunsJoin(DirectiveNodes(code, "charset", c.0), DirectiveNodes(code, "imports", i.0),
      BlockNodes(code, Blocks(i.1, []), MaxTok(s)), code, c.0, i.0);
  }

  /** From `off` on, the nodes of the directives `ms`, in order. */
  predicate DirectiveRun(r: seq<Node>, off: nat, code: seq<string>, name: string, ms: seq<string>) {
    off + |ms| <= |r|
    && forall k | off <= k < off + |ms| :: r[k].kind == Some(name) && r[k].content == Styles(PopCode(code, ms[k - off]))
  }

  /** From `off` on, block nodes only. */
  predicate BlockRun(r: seq<Node>, off: nat) {
    forall k | off <= k < |r| :: BlockShaped(r[k])
  }

  lemma RunsJoin(x: seq<Node>, y: seq<Node>, z: seq<Node>, code: seq<string>, cs: seq<string>, ims: seq<string>)
    requires |x| == |cs| && DirectiveRun(x, 0, code, "charset", cs)
    requires |y| == |ims| && DirectiveRun(y, 0, code, "imports", ims)
    requires AllBlockShaped(z)
    ensures DirectiveRun(x + y + z, 0, code, "charset", cs)
    ensures DirectiveRun(x + y + z, |x|, code, "imports", ims)
    ensures BlockRun(x + y + z, |x| + |y|)
  {
    var r := x + y + z;
    assert forall k | 0 <= k < |x| :: r[k] == x[k];
    assert forall k | |x| <= k < |x| + |y| :: r[k] == y[k - |x|];
    assert forall k | |x| + |y| <= k < |r| :: r[k] == z[k - |x| - |y|];
  }

  // ---------------------------------------------------------------- parseCSS

  /** Hiding loses no text: the table and the text parseCode starts from resolve to the
      normalised text, whose placeholders in turn resolve to the source with `\r\n` turned
      into `\n`. */
  lemma PrepareResolves(source: string)
    requires NUL !in source
    ensures var s := CrlfToLf(source); var e := Extract(StringsAndComments, s, 0);
      ValidTable(e.1) && Below(e.0, |e.1|) && ResolveDeep(e.1, e.0) == s
      && Below(NormalizeLines(e.0), |e.1|)
      && var p := Prepare(source);
      ResolveDeep(p.0, p.1) == ResolveDeep(e.1, NormalizeLines(e.0))
  {
    var s := CrlfToLf(source);
    CrlfToLfNul(source);
    NulFree(s);
    var e := Extract(StringsAndComments, s, 0);
    ExtractResolve(StringsAndComments, [], s);
    assert [] + e.1 == e.1;
    ResolveNulFree([], s);
    NormalizeLinesBelow(e.0, |e.1|);
    CollapseResolve(e.1, NormalizeLines(e.0));
  }

  /** Every node of parseCSS's result, at any depth, has one of the two shapes. */
  lemma ParseCSSShaped(source: string)
    requires NUL !in source
    ensures AllShaped(ParseCSS(source))
  {
    var p := Prepare(source);
    ParseCodeShaped(p.0, p.1);
  }
}
