// parseRules (src/index.ts:38-60): the body of a rule set becomes its declarations. The body
// is split at every `;`, each piece trimmed and the empty ones dropped; a piece with a colon
// is cut at its first colon into a key and a value, and a piece without one is kept whole as
// a defective rule. `replace` is popCodeRecursive, so values come back with every
// placeholder resolved.

module Rules {
  import opened Wrappers
  import opened JsString
  import opened Placeholder

  /** A declaration; `defective` false stands for the field being absent. */
  datatype Rule = Rule(key: string, value: string, defective: bool)

  /** `in_rules.split(';').map(rule => rule.trim()).filter(rule => rule)`. */
  function Segments(t: string): seq<string> {
    TrimmedNonEmpty(Split(t, ';'))
  }

  /** The segments of a body are well-formed texts naming what the body names, and none holds a `;`. */
  lemma SegmentsBelow(t: string, bound: nat)
    requires Below(t, bound)
    ensures AllBelow(Segments(t), bound)
    ensures forall k | 0 <= k < |Segments(t)| :: ';' !in Segments(t)[k]
  {
    SplitText(t, ';', bound);
    TrimPieces(Split(t, ';'), bound);
    TrimmedNonEmptyFree(Split(t, ';'), ';');
  }

  /** The text after the first colon, `data.slice(1).join(':')`, with `\n` turned into spaces. */
  function ValueText(line: string): string {
    ReplaceChar(Join(Split(line, ':')[1..], ':'), '\n', ' ')
  }

  lemma ValueTextBelow(line: string, bound: nat)
    requires Below(line, bound) && ':' in line
    ensures Below(ValueText(line), bound)
    ensures ValueText(line) == ReplaceChar(line[IndexOf(line, ':') + 1..], '\n', ' ')
  {
    var i := IndexOf(line, ':');
    SplitAtFirst(line, ':');
    AfterColonBelow(line, bound);
    ReplaceText(line[i + 1..], '\n', ' ');
  }

  lemma AfterColonBelow(line: string, bound: nat)
    requires Below(line, bound) && ':' in line
    ensures Below(line[IndexOf(line, ':') + 1..], bound)
  {
    var i := IndexOf(line, ':');
    assert IsBoundary(line, i + 1);
    Cut(line, i + 1);
  }

  /** One pass of the loop body: the rule a segment contributes, if any. */
  function Declaration(code: seq<string>, line: string): Option<Rule>
    requires ValidTable(code) && Below(line, |code|)
  {
    if ':' in line then
      var key := Trim(Split(line, ':')[0]);
      ValueTextBelow(line, |code|);
      var value := Trim(ResolveDeep(code, ValueText(line)));
      if key != [] && value != [] then Some(Rule(key, value, false)) else None
    else Some(Rule([], ResolveDeep(code, line), true))
  }

  /** The rules of a list of segments, in order. */
  function RulesOf(code: seq<string>, segs: seq<string>): seq<Rule>
    requires ValidTable(code) && AllBelow(segs, |code|)
  {
    if segs == [] then []
    else
      var d := Declaration(code, segs[0]);
      (if d.Some? then [d.value] else []) + RulesOf(code, segs[1..])
  }

  /** parseRules with popCodeRecursive as `replace`. */
  function ParseRules(code: seq<string>, t: string): seq<Rule>
    requires ValidTable(code) && Below(t, |code|)
  {
    SegmentsBelow(t, |code|);
    RulesOf(code, Segments(t))
  }

  // ---------------------------------------------------------------- one segment

  /** A segment with a colon is cut at its first colon only: the key is the trimmed text before
      it, the value the trimmed resolution of everything after it, later colons included, with
      line feeds turned into spaces; the rule is kept only when both are non-empty. */
  lemma DeclarationFirstColon(code: seq<string>, line: string)
    requires ValidTable(code) && Below(line, |code|) && ':' in line
    ensures var i := IndexOf(line, ':');
      Below(ReplaceChar(line[i + 1..], '\n', ' '), |code|)
      && var key := Trim(line[..i]);
      var value := Trim(ResolveDeep(code, ReplaceChar(line[i + 1..], '\n', ' ')));
      Declaration(code, line) == if key != [] && value != [] then Some(Rule(key, value, false)) else None
  {
    SplitAtFirst(line, ':');
    ValueTextBelow(line, |code|);
  }

  /** What a kept rule looks like: a defective rule exactly for a segment with no colon, with an
      empty key; any other rule with a trimmed key holding no colon and a trimmed value; and
      every value fully resolved. */
  lemma DeclarationShape(code: seq<string>, line: string)
    requires ValidTable(code) && Below(line, |code|)
    ensures Declaration(code, line).None? ==> ':' in line
    ensures Declaration(code, line).Some? ==>
      var r := Declaration(code, line).value;
      (r.defective <==> ':' !in line) && WellShaped(r)
  {
    if ':' in line {
      var i := IndexOf(line, ':');
      DeclarationFirstColon(code, line);
      var key := Trim(line[..i]);
      var v := ResolveDeep(code, ReplaceChar(line[i + 1..], '\n', ' '));
      TrimFree(line[..i], ':');
      TrimFree(v, NUL);
    }
  }

  /** A non-empty segment without a colon always gives a defective rule holding all of it,
      resolved. */
  lemma DeclarationDefective(code: seq<string>, line: string)
    requires ValidTable(code) && Below(line, |code|) && ':' !in line
    ensures Declaration(code, line) == Some(Rule([], ResolveDeep(code, line), true))
    ensures NUL in line ==> Declaration(code, line).value.value != line
  {
    if NUL in line {
      assert NUL !in ResolveDeep(code, line);
    }
  }

  /** A declaration whose value is one quoted string comes back with the string verbatim: the
      `;`, `:`, braces or comment openers inside it never reached the segment. */
  lemma QuotedValueVerbatim(code: seq<string>, key: string, n: nat)
    requires ValidTable(code) && n < |code| && Trimmed(key) && ':' !in key && NUL !in key
    requires NUL !in code[n] && Trimmed(code[n])
    ensures Below(key + ":" + Token("", n), |code|)
    ensures Declaration(code, key + ":" + Token("", n)) == Some(Rule(key, code[n], false))
  {
    var tok := Token("", n);
    var line := key + ":" + tok;
    ColonLine(key, tok, |code|, n);
    DeclarationFirstColon(code, line);
    TokenNoLineFeed(n);
    ResolveCode(code, tok, n);
    TrimNoop(key);
    TrimNoop(code[n]);
  }

  /** A placeholder holds no line feed. */
  lemma TokenNoLineFeed(n: nat)
    ensures ReplaceChar(Token("", n), '\n', ' ') == Token("", n)
  {
    var tok := Token("", n);
    TokenRead("", n, []);
    assert tok + [] == tok;
    assert tok[..TokenLen(tok)] == tok;
    TokenFree(tok, '\n', ' ');
  }

  /** `key:` followed by a placeholder: the first colon is the one after the key. */
  lemma ColonLine(key: string, tok: string, bound: nat, n: nat)
    requires ':' !in key && NUL !in key && tok == Token("", n) && n < bound
    ensures var line := key + ":" + tok;
      Below(line, bound) && ':' in line && IndexOf(line, ':') == |key|
      && line[..|key|] == key && line[|key| + 1..] == tok
  {
    var line := key + ":" + tok;
    TokenText("", n);
    NulFree(key + ":");
    Concat(key + ":", tok);
    assert line[|key|] == ':';
    assert line[..|key|] == key;
    IndexOfAt(line, ':', |key|);
    assert line[|key| + 1..] == tok;
  }

  lemma IndexOfAt(s: string, c: char, i: nat)
    requires i < |s| && s[i] == c && c !in s[..i]
    ensures IndexOf(s, c) == i
  {
    var j := IndexOf(s, c);
    assert forall k | 0 <= k < j :: s[..j][k] == s[k];
    assert forall k | 0 <= k < i :: s[..i][k] == s[k];
  }

  /** A lone placeholder naming a literal entry resolves to that entry. */
  lemma ResolveCode(code: seq<string>, tok: string, n: nat)
    requires ValidTable(code) && n < |code| && NUL !in code[n]
    requires tok == Token("", n) && Below(tok, |code|)
    ensures ResolveDeep(code, tok) == code[n]
  {
    TokenRead("", n, []);
    SliceEnds(tok);
    assert tok + [] == tok;
    ResolveNulFree(code, code[n]);
    assert ResolveDeep(code, tok[TokenLen(tok)..]) == [];
  }

  // ---------------------------------------------------------------- the whole body

  /** The result is in segment order with at most one rule per segment: the rules of two
      bodies joined by `;` are the rules of the first, then those of the second. */
  lemma ParseRulesSplit(code: seq<string>, a: string, b: string)
    requires ValidTable(code) && Below(a, |code|) && Below(b, |code|)
    ensures Below(a + ";" + b, |code|)
    ensures ParseRules(code, a + ";" + b) == ParseRules(code, a) + ParseRules(code, b)
  {
    NulFree(";");
    Concat(a, ";");
    Concat(a + ";", b);
    SplitConcat(a, b, ';');
    TrimmedNonEmptyConcat(Split(a, ';'), Split(b, ';'));
    SegmentsBelow(a, |code|);
    SegmentsBelow(b, |code|);
    RulesOfConcat(code, Segments(a), Segments(b));
  }

  /** The rules of two runs of segments are the rules of each, in order. */
  lemma {:induction false} RulesOfConcat(code: seq<string>, x: seq<string>, y: seq<string>)
    requires ValidTable(code) && AllBelow(x, |code|) && AllBelow(y, |code|)
    ensures AllBelow(x + y, |code|)
    ensures RulesOf(code, x + y) == RulesOf(code, x) + RulesOf(code, y)
  {
    assert forall k | 0 <= k < |x + y| :: (x + y)[k] == if k < |x| then x[k] else y[k - |x|];
    if x != [] {
      var xy := x + y;
      assert xy[0] == x[0];
      assert xy[1..] == x[1..] + y;
      RulesOfConcat(code, x[1..], y);
      var d := Declaration(code, x[0]);
      var h := if d.Some? then [d.value] else [];
      assert h + (RulesOf(code, x[1..]) + RulesOf(code, y)) == (h + RulesOf(code, x[1..])) + RulesOf(code, y);
    } else {
      assert x + y == y;
    }
  }

  /** One more segment adds its declaration, if it has one, at the end. */
  lemma RulesOfSnoc(code: seq<string>, segs: seq<string>, i: nat)
    requires ValidTable(code) && AllBelow(segs, |code|) && i < |segs|
    ensures AllBelow(segs[..i], |code|) && AllBelow(segs[..i + 1], |code|) && Below(segs[i], |code|)
    ensures var d := Declaration(code, segs[i]);
      RulesOf(code, segs[..i + 1]) == RulesOf(code, segs[..i]) + (if d.Some? then [d.value] else [])
  {
    AllBelowPrefix(segs, i, |code|);
    AllBelowPrefix(segs, i + 1, |code|);
    assert segs[..i + 1] == segs[..i] + [segs[i]];
    RulesOfConcat(code, segs[..i], [segs[i]]);
    assert [segs[i]][1..] == [];
  }

  /** At most one rule per segment. */
  lemma {:induction false} RulesOfLength(code: seq<string>, segs: seq<string>)
    requires ValidTable(code) && AllBelow(segs, |code|)
    ensures |RulesOf(code, segs)| <= |segs|
  {
    if segs != [] { RulesOfLength(code, segs[1..]); }
  }

  /** The shape every rule has: a defective rule has an empty key; any other has a trimmed key
      holding no colon and a trimmed value; no value holds a placeholder. */
  predicate WellShaped(r: Rule) {
    NUL !in r.value
    && (r.defective ==> r.key == [])
    && (!r.defective ==> Trimmed(r.key) && Trimmed(r.value) && ':' !in r.key)
  }

  /** Every rule of a body has that shape. */
  lemma {:induction false} RulesOfShape(code: seq<string>, segs: seq<string>)
    requires ValidTable(code) && AllBelow(segs, |code|)
    ensures forall k | 0 <= k < |RulesOf(code, segs)| :: WellShaped(RulesOf(code, segs)[k])
  {
    if segs != [] {
      RulesOfShape(code, segs[1..]);
      DeclarationShape(code, segs[0]);
      var d := Declaration(code, segs[0]);
      var rest := RulesOf(code, segs[1..]);
      var h := if d.Some? then [d.value] else [];
      assert RulesOf(code, segs) == h + rest;
      AllShapedConcat(h, rest);
    }
  }

  lemma AllShapedConcat(h: seq<Rule>, rest: seq<Rule>)
    requires forall k | 0 <= k < |h| :: WellShaped(h[k])
    requires forall k | 0 <= k < |rest| :: WellShaped(rest[k])
    ensures forall k | 0 <= k < |h + rest| :: WellShaped((h + rest)[k])
  {
    assert forall k | |h| <= k < |h + rest| :: (h + rest)[k] == rest[k - |h|];
  }

  /** The rules parseRules returns all have that shape. */
  lemma ParseRulesShape(code: seq<string>, t: string)
    requires ValidTable(code) && Below(t, |code|)
    ensures |ParseRules(code, t)| <= |Segments(t)|
    ensures forall k | 0 <= k < |ParseRules(code, t)| :: WellShaped(ParseRules(code, t)[k])
  {
    SegmentsBelow(t, |code|);
    RulesOfShape(code, Segments(t));
    RulesOfLength(code, Segments(t));
  }
}
