// The `@charset …;` and `@import …;` directives parseCode takes out of a segment before it
// looks for blocks (src/index.ts:29-30, 83-88, 119-120). The pattern is `@`, the keyword with
// its letters in either case, one space, then as few characters as possible up to the first
// `;`, none of them a line terminator.

module AtRules {
  import opened Wrappers
  import opened JsString
  import opened Placeholder

  /** Case-insensitive comparison of one character with a keyword letter: without the `u` flag
      a character matches an ASCII letter only in its two ASCII cases. */
  predicate SameLetter(c: char, k: char) {
    c == k || ('a' <= k <= 'z' && c as int == k as int - 32)
  }

  /** The keywords searched for are lower-case ASCII words. */
  predicate IsKeyword(kw: string) {
    forall k | 0 <= k < |kw| :: 'a' <= kw[k] <= 'z'
  }

  /** `s` starts with `@`, the keyword and a space. */
  predicate DirectiveHead(s: string, kw: string) {
    |s| >= |kw| + 2 && s[0] == '@' && s[|kw| + 1] == ' '
    && forall k | 0 <= k < |kw| :: SameLetter(s[k + 1], kw[k])
  }

  /** Where the lazy `.*?;` from `j` stops: the first `;`, unless a line terminator comes first. */
  function SemicolonAt(s: string, j: nat): (k: Option<nat>)
    requires j <= |s|
    ensures k.Some? ==> j <= k.value < |s| && s[k.value] == ';'
    decreases |s| - j
  {
    if j == |s| then None
    else if s[j] == ';' then Some(j)
    else if IsLineTerminator(s[j]) then None
    else SemicolonAt(s, j + 1)
  }

  /** Nothing before the semicolon found is a semicolon or a line terminator. */
  lemma {:induction false} SemicolonAtFirst(s: string, j: nat)
    requires j <= |s| && SemicolonAt(s, j).Some?
    ensures forall i | j <= i < SemicolonAt(s, j).value :: s[i] != ';' && !IsLineTerminator(s[i])
    decreases |s| - j
  {
    if s[j] != ';' { SemicolonAtFirst(s, j + 1); }
  }

  /** Length of the directive match at the head of `s`, 0 when there is none. */
  function DirectiveLen(s: string, kw: string): (n: nat)
    ensures n == 0 || (|kw| + 3 <= n <= |s| && DirectiveHead(s, kw) && s[n - 1] == ';')
  {
    if DirectiveHead(s, kw) then
      var k := SemicolonAt(s, |kw| + 2);
      if k.Some? then k.value + 1 else 0
    else 0
  }

  /** A directive match holds exactly one `;`, its last character, and no line terminator. */
  lemma DirectiveInner(s: string, kw: string)
    requires DirectiveLen(s, kw) > 0
    ensures var n := DirectiveLen(s, kw);
      forall i | |kw| + 2 <= i < n - 1 :: s[i] != ';' && !IsLineTerminator(s[i])
  {
    SemicolonAtFirst(s, |kw| + 2);
  }

  /** The exec loop and the replace by '' together: the directives in source order and the
      segment with all of them removed. */
  function Directives(s: string, kw: string): (r: (seq<string>, string))
    decreases |s|
  {
    if s == [] then ([], [])
    else
      var n := DirectiveLen(s, kw);
      if n > 0 then
        var rest := Directives(s[n..], kw);
        ([s[..n]] + rest.0, rest.1)
      else
        var rest := Directives(s[1..], kw);
        (rest.0, [s[0]] + rest.1)
  }

  /** Every match is a whole directive: `@`, the keyword, a space, and text up to a `;`. */
  lemma {:induction false} DirectivesWhole(s: string, kw: string)
    ensures AllDirectives(Directives(s, kw).0, kw)
    decreases |s|
  {
    if s != [] {
      var n := DirectiveLen(s, kw);
      if n > 0 {
        DirectivesWhole(s[n..], kw);
        DirectiveTake(s, kw);
        AllDirectivesCons(s[..n], Directives(s[n..], kw).0, kw);
      } else {
        DirectivesWhole(s[1..], kw);
      }
    }
  }

  /** The length of the match the pattern finds at each index of `s`, 0 where there is none. */
  function MatchLens(s: string, kw: string): (L: seq<nat>)
    ensures |L| == |s| && forall i | 0 <= i < |s| :: L[i] == DirectiveLen(s[i..], kw)
  {
    seq(|s|, i requires 0 <= i < |s| => DirectiveLen(s[i..], kw))
  }

  /** The indices where a global regex's `exec` loop finds its matches, given the match length
      `L[i]` at each index: from `lastIndex` `p`, the first index with a match, after which
      `lastIndex` moves to the end of that match. */
  function ScanFrom(L: seq<nat>, p: nat): seq<nat>
    decreases if p <= |L| then |L| - p else 0
  {
    if p >= |L| then []
    else if L[p] > 0 then [p] + ScanFrom(L, p + L[p])
    else ScanFrom(L, p + 1)
  }

  /** The matches found lie at or after `p`, each with a match there, each starting after the
      end of the one before. */
  lemma {:induction false} ScanOrdered(L: seq<nat>, p: nat)
    ensures var st := ScanFrom(L, p);
      (forall k | 0 <= k < |st| :: p <= st[k] < |L| && L[st[k]] > 0)
      && forall k | 0 < k < |st| :: st[k - 1] + L[st[k - 1]] <= st[k]
    decreases if p <= |L| then |L| - p else 0
  {
    if p < |L| {
      var q := if L[p] > 0 then p + L[p] else p + 1;
      ScanOrdered(L, q);
      if L[p] > 0 {
        assert forall k | 0 < k < |ScanFrom(L, p)| :: ScanFrom(L, p)[k] == ScanFrom(L, q)[k - 1];
      }
    }
  }

  /** No match is missed: every index from `p` on where the pattern matches starts one of the
      matches found or lies inside one. The match is the `k`-th. */
  lemma {:induction false} ScanComplete(L: seq<nat>, p: nat, i: nat) returns (k: nat)
    requires p <= i < |L| && L[i] > 0
    ensures var st := ScanFrom(L, p); k < |st| && st[k] <= i < st[k] + L[st[k]]
    decreases |L| - p
  {
    if L[p] > 0 && i < p + L[p] {
      k := 0;
    } else {
      var q := if L[p] > 0 then p + L[p] else p + 1;
      var k' := ScanComplete(L, q, i);
      k := if L[p] > 0 then k' + 1 else k';
    }
  }

  /** The text matched at each index of `st`. */
  function MatchTexts(s: string, kw: string, st: seq<nat>): (ms: seq<string>)
    ensures |ms| == |st|
  {
    if st == [] then []
    else
      var e := st[0];
      (if e <= |s| then [s[e..][..DirectiveLen(s[e..], kw)]] else [[]]) + MatchTexts(s, kw, st[1..])
  }

  lemma {:induction false} MatchTextsAt(s: string, kw: string, st: seq<nat>, k: nat)
    requires k < |st| && st[k] <= |s|
    ensures MatchTexts(s, kw, st)[k] == s[st[k]..][..DirectiveLen(s[st[k]..], kw)]
    decreases k
  {
    if k > 0 {
      MatchTextsAt(s, kw, st[1..], k - 1);
    }
  }

  /** Taking the matches out one by one from index `p` finds exactly the matches the exec loop
      finds from `lastIndex` `p`. */
  lemma DirectivesScan(s: string, kw: string, p: nat)
    requires p <= |s|
    ensures Directives(s[p..], kw).0 == MatchTexts(s, kw, ScanFrom(MatchLens(s, kw), p))
  {
    DirectivesScanWith(s, kw, MatchLens(s, kw), p);
  }

  /** DirectivesScan over any `L` that gives the match length at each index. */
  lemma {:induction false} DirectivesScanWith(s: string, kw: string, L: seq<nat>, p: nat)
    requires p <= |s| && |L| == |s| && forall i | 0 <= i < |s| :: L[i] == DirectiveLen(s[i..], kw)
    ensures Directives(s[p..], kw).0 == MatchTexts(s, kw, ScanFrom(L, p))
    decreases |s| - p
  {
    if p < |s| {
      if L[p] > 0 {
        DirectivesScanWith(s, kw, L, p + L[p]);
        TakeStep(s, kw, L, p);
      } else {
        DirectivesScanWith(s, kw, L, p + 1);
        SkipStep(s, kw, L, p);
      }
    } else {
      assert s[p..] == [];
    }
  }

  /** One step of DirectivesScanWith where the pattern matches at `p`. */
  lemma TakeStep(s: string, kw: string, L: seq<nat>, p: nat)
    requires p < |s| == |L| && L[p] == DirectiveLen(s[p..], kw) > 0
    requires Directives(s[p + L[p]..], kw).0 == MatchTexts(s, kw, ScanFrom(L, p + L[p]))
    ensures Directives(s[p..], kw).0 == MatchTexts(s, kw, ScanFrom(L, p))
  {
    DirectivesTake(s[p..], kw);
    assert s[p..][L[p]..] == s[p + L[p]..];
    ScanTake(L, p);
    MatchTextsCons(s, kw, p, ScanFrom(L, p + L[p]));
  }

  /** One step of DirectivesScanWith where the pattern does not match at `p`. */
  lemma SkipStep(s: string, kw: string, L: seq<nat>, p: nat)
    requires p < |s| == |L| && L[p] == DirectiveLen(s[p..], kw) == 0
    requires Directives(s[p + 1..], kw).0 == MatchTexts(s, kw, ScanFrom(L, p + 1))
    ensures Directives(s[p..], kw).0 == MatchTexts(s, kw, ScanFrom(L, p))
  {
    DirectivesSkip(s[p..], kw);
    assert s[p..][1..] == s[p + 1..];
    ScanSkip(L, p);
  }

  lemma DirectivesTake(t: string, kw: string)
    requires DirectiveLen(t, kw) > 0
    ensures Directives(t, kw).0 == [t[..DirectiveLen(t, kw)]] + Directives(t[DirectiveLen(t, kw)..], kw).0
  {
  }

  lemma DirectivesSkip(t: string, kw: string)
    requires t != [] && DirectiveLen(t, kw) == 0
    ensures Directives(t, kw).0 == Directives(t[1..], kw).0
  {
  }

  lemma ScanTake(L: seq<nat>, p: nat)
    requires p < |L| && L[p] > 0
    ensures ScanFrom(L, p) == [p] + ScanFrom(L, p + L[p])
  {
  }

  lemma ScanSkip(L: seq<nat>, p: nat)
    requires p < |L| && L[p] == 0
    ensures ScanFrom(L, p) == ScanFrom(L, p + 1)
  {
  }

  lemma MatchTextsCons(s: string, kw: string, p: nat, st: seq<nat>)
    requires p <= |s|
    ensures MatchTexts(s, kw, [p] + st) == [s[p..][..DirectiveLen(s[p..], kw)]] + MatchTexts(s, kw, st)
  {
    assert ([p] + st)[0] == p && ([p] + st)[1..] == st;
  }

  /** Each match is the text at the index the exec loop finds it, as long as the pattern
      matches there. */
  lemma DirectivesAt(s: string, kw: string, k: nat)
    requires k < |Directives(s, kw).0|
    ensures var st := ScanFrom(MatchLens(s, kw), 0); var m := Directives(s, kw).0[k];
      k < |st| && st[k] < |s| && DirectiveLen(s[st[k]..], kw) == |m| > 0
      && st[k] + |m| <= |s| && m == s[st[k]..st[k] + |m|]
  {
    DirectivesScan(s, kw, 0);
    assert s[0..] == s;
    ScanOrdered(MatchLens(s, kw), 0);
    MatchTextsAt(s, kw, ScanFrom(MatchLens(s, kw), 0), k);
    TextAt(s, kw, ScanFrom(MatchLens(s, kw), 0)[k], MatchLens(s, kw)[ScanFrom(MatchLens(s, kw), 0)[k]]);
  }

  /** The text the pattern matches at index `e`, where it matches `n` characters. */
  lemma TextAt(s: string, kw: string, e: nat, n: nat)
    requires e < |s| && n == DirectiveLen(s[e..], kw)
    ensures e + n <= |s| && s[e..][..n] == s[e..e + n]
  {
  }

  /** No directive is missed: wherever the pattern matches in `s`, that index starts one of the
      matches or lies inside one. The match is the `k`-th. */
  lemma DirectivesComplete(s: string, kw: string, i: nat) returns (k: nat)
    requires i < |s| && DirectiveLen(s[i..], kw) > 0
    ensures var st := ScanFrom(MatchLens(s, kw), 0); var ms := Directives(s, kw).0;
      k < |ms| && k < |st| && st[k] <= i < st[k] + |ms[k]|
  {
    k := ScanComplete(MatchLens(s, kw), 0, i);
    DirectivesScan(s, kw, 0);
    assert s[0..] == s;
    DirectivesAt(s, kw, k);
  }

  predicate AllDirectives(ms: seq<string>, kw: string) {
    forall k | 0 <= k < |ms| :: DirectiveLen(ms[k], kw) == |ms[k]| && IsDirective(ms[k], kw)
  }

  lemma AllDirectivesCons(m: string, ms: seq<string>, kw: string)
    requires DirectiveLen(m, kw) == |m| && IsDirective(m, kw) && AllDirectives(ms, kw)
    ensures AllDirectives([m] + ms, kw)
  {
    assert forall k | 1 <= k < |ms| + 1 :: ([m] + ms)[k] == ms[k - 1];
  }

  /** What a matched directive looks like: the head, then one `;` at the end and no line
      terminator on the way. */
  predicate IsDirective(m: string, kw: string) {
    DirectiveHead(m, kw) && m[|m| - 1] == ';'
    && forall i | |kw| + 2 <= i < |m| - 1 :: m[i] != ';' && !IsLineTerminator(m[i])
  }

  lemma DirectiveTake(s: string, kw: string)
    requires DirectiveLen(s, kw) > 0
    ensures var n := DirectiveLen(s, kw); DirectiveLen(s[..n], kw) == n && IsDirective(s[..n], kw)
  {
    var n := DirectiveLen(s, kw);
    var m := s[..n];
    DirectiveInner(s, kw);
    assert forall i | 0 <= i < n :: m[i] == s[i];
    assert DirectiveHead(m, kw);
    SemicolonAtTo(m, |kw| + 2, n - 1);
  }

  lemma {:induction false} SemicolonAtTo(s: string, j: nat, k: nat)
    requires j <= k < |s| && s[k] == ';'
    requires forall i | j <= i < k :: s[i] != ';' && !IsLineTerminator(s[i])
    ensures SemicolonAt(s, j) == Some(k)
    decreases k - j
  {
    if j < k { SemicolonAtTo(s, j + 1, k); }
  }

  /** Number of occurrences of `c` over all pieces. */
  function CountAll(ms: seq<string>, c: char): nat {
    if ms == [] then 0 else Count(ms[0], c) + CountAll(ms[1..], c)
  }

  /** The pieces are taken out of the segment and nothing else: every character of the segment
      is either in a match or in the rest. */
  lemma {:induction false} DirectivesPartition(s: string, kw: string, c: char)
    ensures var r := Directives(s, kw); CountAll(r.0, c) + Count(r.1, c) == Count(s, c)
    decreases |s|
  {
    if s != [] {
      var n := DirectiveLen(s, kw);
      if n > 0 {
        var rest := Directives(s[n..], kw);
        DirectivesPartition(s[n..], kw, c);
        assert ([s[..n]] + rest.0)[1..] == rest.0;
        CountConcat(s[..n], s[n..], c);
        TakeDrop(s, n);
      } else {
        var rest := Directives(s[1..], kw);
        DirectivesPartition(s[1..], kw, c);
        CountHead([s[0]], rest.1, c);
        CountHead([s[0]], s[1..], c);
        HeadConcat(s, []);
      }
    }
  }

  /** Each directive removed takes exactly one `;` with it. */
  lemma DirectivesSemicolons(s: string, kw: string)
    requires IsKeyword(kw)
    ensures var r := Directives(s, kw); Count(r.1, ';') + |r.0| == Count(s, ';')
  {
    DirectivesWhole(s, kw);
    DirectivesPartition(s, kw, ';');
    CountAllOne(Directives(s, kw).0, kw);
  }

  lemma {:induction false} CountAllOne(ms: seq<string>, kw: string)
    requires IsKeyword(kw) && AllDirectives(ms, kw)
    ensures CountAll(ms, ';') == |ms|
  {
    if ms != [] {
      CountAllOne(ms[1..], kw);
      DirectiveSemicolon(ms[0], kw);
    }
  }

  lemma DirectiveSemicolon(m: string, kw: string)
    requires IsKeyword(kw) && IsDirective(m, kw)
    ensures Count(m, ';') == 1
  {
    var a := m[..|m| - 1];
    assert forall i | 0 <= i < |a| :: a[i] == m[i];
    assert forall i | 0 <= i < |kw| + 2 :: a[i] != ';' by {
      forall i | 0 <= i < |kw| + 2 ensures a[i] != ';' {
        if 1 <= i <= |kw| { assert SameLetter(m[i], kw[i - 1]); }
      }
    }
    CountZero(a, ';');
    CountConcat(a, [m[|m| - 1]], ';');
    assert a + [m[|m| - 1]] == m;
  }

  /** Taking the directives out keeps placeholders whole and names no new table index. */
  lemma {:induction false} DirectivesBelow(s: string, kw: string, bound: nat)
    requires Below(s, bound)
    ensures Below(Directives(s, kw).1, bound)
    decreases |s|
  {
    if s != [] {
      var n := DirectiveLen(s, kw);
      if n > 0 {
        assert IsBoundary(s, n);
        Cut(s, n);
        DirectivesBelow(s[n..], kw, bound);
      } else if s[0] != NUL {
        LiteralHead(s[0], s[1..]);
        HeadConcat(s, []);
        DirectivesBelow(s[1..], kw, bound);
        LiteralHead(s[0], Directives(s[1..], kw).1);
      } else {
        DirectivesBelowToken(s, kw, bound);
      }
    }
  }

  lemma {:induction false} DirectivesBelowToken(s: string, kw: string, bound: nat)
    requires Below(s, bound) && s != [] && s[0] == NUL
    ensures Below(Directives(s, kw).1, bound)
    decreases |s|, 0
  {
    var L := TokenLen(s);
    TokenChars(s);
    DirectivesCopies(s, kw, L);
    TokenHead(s);
    TokenWhole(s);
    DirectivesBelow(s[L..], kw, bound);
    Concat(s[..L], Directives(s[L..], kw).1);
  }

  /** No directive starts at a placeholder character, so those are copied to the rest. */
  lemma {:induction false} DirectivesCopies(s: string, kw: string, k: nat)
    requires k <= |s|
    requires forall j | 0 <= j < k :: IsTokenChar(s[j])
    ensures var rest := Directives(s[k..], kw);
      Directives(s, kw) == (rest.0, s[..k] + rest.1)
    decreases k
  {
    if k == 0 {
      SliceEnds(s);
      EmptyConcat(s[..0], Directives(s, kw).1);
    } else {
      assert DirectiveLen(s, kw) == 0;
      DirectivesCopies(s[1..], kw, k - 1);
      Slices(s, 1, k);
      assert s[1..][k - 1..] == s[k..];
      assert [s[0]] + s[1..][..k - 1] == s[..k];
      Assoc([s[0]], s[1..k], Directives(s[k..], kw).1);
    }
  }
}
