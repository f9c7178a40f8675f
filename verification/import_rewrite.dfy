/**
  The text rewrite of scripts/fix_imports.py: two `re.sub` calls with the fixed
  patterns `from\s+(digitalkin)\.` and `import\s+(digitalkin)\.`, applied in that
  order, that retarget imports of the `digitalkin` package to
  `digitalkin_proto.digitalkin`.

  Both patterns have the shape `keyword\s+anchor`. `ReSub` is `re.sub` for a
  pattern of that shape: it scans left to right; at each position it tries to
  match (`MatchLen`); on a match it emits the replacement and resumes after the
  match, otherwise it copies one character. No such pattern matches the empty
  string, so every step advances.
 */
module ImportRewrite {
  import opened Wrappers

  /** Python's `\s` on `str` patterns: the characters for which `str.isspace()` holds. */
  predicate IsSpace(c: char)
  {
    var n := c as int;
    (0x09 <= n <= 0x0D) || (0x1C <= n <= 0x20) || n == 0x85 || n == 0xA0 || n == 0x1680
    || (0x2000 <= n <= 0x200A) || n == 0x2028 || n == 0x2029 || n == 0x202F || n == 0x205F
    || n == 0x3000
  }

  predicate AllSpace(s: string)
  {
    forall i :: 0 <= i < |s| ==> IsSpace(s[i])
  }

  /** The pattern `keyword\s+anchor`: the keyword, one or more whitespace characters, the anchor. */
  datatype Pattern = Pattern(keyword: string, anchor: string)

  /**
    What the general facts below need of a pattern: a keyword of at least two
    characters, and an anchor that starts with a non-blank, so that the greedy
    `\s+` never has to give characters back.
   */
  predicate WellFormed(p: Pattern)
  {
    |p.keyword| >= 2 && p.anchor != [] && !IsSpace(p.anchor[0])
  }

  /** `m` is a string of the pattern's language. */
  predicate InPattern(p: Pattern, m: string)
  {
    && |p.keyword| + 1 + |p.anchor| <= |m|
    && m[..|p.keyword|] == p.keyword
    && AllSpace(m[|p.keyword|..|m| - |p.anchor|])
    && m[|m| - |p.anchor|..] == p.anchor
  }

  /** The substring of `s` from `i` to `j` is a match of `p`. */
  predicate PatternAt(p: Pattern, s: string, i: nat, j: nat)
    requires i <= j <= |s|
  {
    InPattern(p, s[i..j])
  }

  /** `re.search` finds nothing: no substring of `s` is in the pattern's language. */
  predicate NoMatch(p: Pattern, s: string)
  {
    forall i: nat, j: nat :: i <= j <= |s| ==> !PatternAt(p, s, i, j)
  }

  /** The greedy `\s+`: the length of the longest run of whitespace at the start of `s`. */
  function SpaceRun(s: string): (n: nat)
    ensures n <= |s|
    ensures forall i :: 0 <= i < n ==> IsSpace(s[i])
    ensures n < |s| ==> !IsSpace(s[n])
  {
    if s != [] && IsSpace(s[0]) then 1 + SpaceRun(s[1..]) else 0
  }

  /**
    The regular-expression engine for `keyword\s+anchor`, one character at a
    time. Each phase takes the input left and the number `n` of characters
    consumed so far, and yields the length of the whole match or None.

    The anchor phase: `i` characters of the anchor are matched.
   */
  function AnchorRun(p: Pattern, s: string, i: nat, n: nat): (r: Option<nat>)
    ensures r.Some? ==> n <= r.value <= n + |s|
    decreases |s|
  {
    if i >= |p.anchor| then Some(n)
    else if s != [] && s[0] == p.anchor[i] then AnchorRun(p, s[1..], i + 1, n + 1)
    else None
  }

  /**
    The blank phase: the greedy `\s+`, which never gives characters back (what
    `\s+` does when the anchor starts with a non-blank); `seen` once a blank
    was consumed.
   */
  function BlankRun(p: Pattern, s: string, seen: bool, n: nat): (r: Option<nat>)
    ensures r.Some? ==> n <= r.value <= n + |s|
    ensures r.Some? && !seen ==> n < r.value
    decreases |s|
  {
    if s != [] && IsSpace(s[0]) then BlankRun(p, s[1..], true, n + 1)
    else if seen then AnchorRun(p, s, 0, n)
    else None
  }

  /** The keyword phase: `i` characters of the keyword are matched. */
  function KeywordRun(p: Pattern, s: string, i: nat, n: nat): (r: Option<nat>)
    ensures r.Some? ==> n < r.value <= n + |s|
    decreases |s|
  {
    if i >= |p.keyword| then BlankRun(p, s, false, n)
    else if s != [] && s[0] == p.keyword[i] then KeywordRun(p, s[1..], i + 1, n + 1)
    else None
  }

  /** The match attempt of `p` at the start of `s` (`re.match`): the length of the matched prefix, or None. */
  function MatchLen(p: Pattern, s: string): (r: Option<nat>)
    ensures r.Some? ==> 1 <= r.value <= |s|
  {
    KeywordRun(p, s, 0, 0)
  }

  /** The match attempt of `p` at position `i` of `s` fails. */
  predicate MissAt(p: Pattern, s: string, i: nat)
    requires i <= |s|
  {
    MatchLen(p, s[i..]).None?
  }

  /** How far one step of the scan advances: past the match, or by one character. */
  function Advance(p: Pattern, s: string): (n: nat)
    requires s != []
    ensures 1 <= n <= |s|
  {
    match MatchLen(p, s)
    case Some(n) => n
    case None => 1
  }

  /** What one step of the scan emits: the replacement for a match, or the character it passes. */
  function Emit(p: Pattern, repl: string, s: string): string
    requires s != []
  {
    if MatchLen(p, s).Some? then repl else [s[0]]
  }

  /** `re.sub(p, repl, s)` for a pattern of the shape above and a replacement without group references. */
  function ReSub(p: Pattern, repl: string, s: string): string
    decreases |s|
  {
    if s == [] then [] else Emit(p, repl, s) + ReSub(p, repl, s[Advance(p, s)..])
  }

  // ---------------------------------------------------------------------------
  // The two rules of the script.

  datatype Rule = From | Import

  function Keyword(k: Rule): string
  {
    match k
    case From => "from"
    case Import => "import"
  }

  /** `(digitalkin)\.`: the module name and the escaped dot. */
  const MODULE_ANCHOR: string := "digitalkin."

  /** `from\s+(digitalkin)\.` and `import\s+(digitalkin)\.` */
  function Pat(k: Rule): Pattern
  {
    Pattern(Keyword(k), MODULE_ANCHOR)
  }

  /** What follows the keyword in both replacements. */
  const REPLACEMENT_TAIL: string := " digitalkin_proto.digitalkin."

  /** `from digitalkin_proto.\1.` and `import digitalkin_proto.\1.`, with `\1` = `digitalkin`. */
  function Replacement(k: Rule): string
  {
    Keyword(k) + REPLACEMENT_TAIL
  }

  /** The two replacements written out. */
  lemma {:induction false} FromReplacementText()
    ensures Replacement(From) == "from digitalkin_proto.digitalkin."
  {
  }

  lemma {:induction false} ImportReplacementText()
    ensures Replacement(Import) == "import digitalkin_proto.digitalkin."
  {
  }

  /** One `re.sub` call of the script. */
  function Sub(k: Rule, s: string): string
  {
    ReSub(Pat(k), Replacement(k), s)
  }

  /** The whole rewrite: the `from` rule, then the `import` rule. */
  function Rewrite(s: string): string
  {
    Sub(Import, Sub(From, s))
  }

  // ---------------------------------------------------------------------------
  // The match attempt is exactly the regular expression's match at a position.

  lemma {:induction false} SpaceRunExact(s: string, w: nat)
    requires w < |s| && !IsSpace(s[w])
    requires forall i :: 0 <= i < w ==> IsSpace(s[i])
    ensures SpaceRun(s) == w
  {
    if w > 0 {
      SpaceRunExact(s[1..], w - 1);
    }
  }

  // Sequence facts, kept apart so that the proofs about the scan need no
  // reasoning about sequence equality of their own.

  /** `s` starts with `lit`. */
  predicate StartsWith(s: string, lit: string)
  {
    |lit| <= |s| && s[..|lit|] == lit
  }

  lemma {:induction false} StartsWithCons(s: string, lit: string)
    requires lit != []
    ensures StartsWith(s, lit) <==> s != [] && s[0] == lit[0] && StartsWith(s[1..], lit[1..])
  {
    if s != [] && |lit| <= |s| {
      assert s[..|lit|] == [s[0]] + s[1..][..|lit| - 1];
      assert lit == [lit[0]] + lit[1..];
    }
  }

  lemma {:induction false} DropCons(t: string, i: nat)
    requires i < |t|
    ensures t[i..] != [] && t[i..][0] == t[i] && t[i..][1..] == t[i + 1..]
  {
  }

  lemma {:induction false} DropDrop(s: string, a: nat, b: nat)
    requires a + b <= |s|
    ensures s[a..][b..] == s[a + b..]
  {
  }

  lemma {:induction false} DropZero(s: string)
    ensures s[0..] == s
  {
  }

  lemma {:induction false} StartsWithEmpty(s: string, lit: string)
    requires lit == []
    ensures StartsWith(s, lit)
  {
  }

  /** The anchor phase checks that the rest of the anchor follows. */
  lemma {:induction false} RunAnchor(p: Pattern, s: string, i: nat, n: nat)
    requires i <= |p.anchor|
    ensures AnchorRun(p, s, i, n) == if StartsWith(s, p.anchor[i..]) then Some(n + |p.anchor| - i) else None
    decreases |p.anchor| - i
  {
    if i < |p.anchor| {
      DropCons(p.anchor, i);
      StartsWithCons(s, p.anchor[i..]);
      if s != [] && s[0] == p.anchor[i] {
        RunAnchor(p, s[1..], i + 1, n + 1);
      }
    } else {
      StartsWithEmpty(s, p.anchor[i..]);
    }
  }

  /** The blank phase consumes the whole run of blanks and needs at least one. */
  lemma {:induction false} RunBlanks(p: Pattern, s: string, seen: bool, n: nat)
    ensures BlankRun(p, s, seen, n) ==
              if seen || SpaceRun(s) >= 1 then AnchorRun(p, s[SpaceRun(s)..], 0, n + SpaceRun(s)) else None
    decreases |s|
  {
    if s != [] && IsSpace(s[0]) {
      RunBlanks(p, s[1..], true, n + 1);
      DropDrop(s, 1, SpaceRun(s[1..]));
    } else {
      DropZero(s);
    }
  }

  /** The keyword phase checks that the rest of the keyword follows. */
  lemma {:induction false} RunKeyword(p: Pattern, s: string, i: nat, n: nat)
    requires i <= |p.keyword|
    ensures KeywordRun(p, s, i, n) ==
              if StartsWith(s, p.keyword[i..])
              then BlankRun(p, s[|p.keyword| - i..], false, n + |p.keyword| - i)
              else None
    decreases |p.keyword| - i
  {
    if i < |p.keyword| {
      DropCons(p.keyword, i);
      StartsWithCons(s, p.keyword[i..]);
      if s != [] && s[0] == p.keyword[i] {
        RunKeyword(p, s[1..], i + 1, n + 1);
        if |p.keyword| - i <= |s| {
          DropDrop(s, 1, |p.keyword| - (i + 1));
        }
      }
    } else {
      StartsWithEmpty(s, p.keyword[i..]);
      DropZero(s);
    }
  }

  /**
    The match attempt in closed form: the keyword, then the greedy run of
    blanks, which must not be empty, then the anchor.
   */
  function MatchSpec(p: Pattern, s: string): Option<nat>
  {
    if StartsWith(s, p.keyword) then AfterKeyword(p, s, |p.keyword|) else None
  }

  /** The closed form of the blanks and the anchor that follow position `k`. */
  function AfterKeyword(p: Pattern, s: string, k: nat): Option<nat>
    requires k <= |s|
  {
    var w := SpaceRun(s[k..]);
    if 1 <= w && StartsWith(s[k + w..], p.anchor) then Some(k + w + |p.anchor|) else None
  }

  /** After the keyword, the blanks and the anchor. */
  lemma {:induction false} RunAfterKeyword(p: Pattern, s: string, k: nat)
    requires k <= |s|
    ensures BlankRun(p, s[k..], false, k) == AfterKeyword(p, s, k)
  {
    var t := s[k..];
    var w := SpaceRun(t);
    RunBlanks(p, t, false, k);
    if 1 <= w {
      DropDrop(s, k, w);
      DropZero(p.anchor);
      RunAnchor(p, s[k + w..], 0, k + w);
    }
  }

  /** The match attempt starts with the whole keyword. */
  lemma {:induction false} MatchLenKeyword(p: Pattern, s: string)
    ensures MatchLen(p, s) ==
              if StartsWith(s, p.keyword) then BlankRun(p, s[|p.keyword|..], false, |p.keyword|) else None
  {
    RunKeyword(p, s, 0, 0);
    DropZero(p.keyword);
  }

  /** The engine computes the closed form. */
  lemma {:induction false} MatchLenClosed(p: Pattern, s: string)
    ensures MatchLen(p, s) == MatchSpec(p, s)
  {
    MatchLenKeyword(p, s);
    if StartsWith(s, p.keyword) {
      RunAfterKeyword(p, s, |p.keyword|);
    }
  }

  /** A prefix of `s` is in the pattern's language exactly when `s` starts with its three parts. */
  lemma {:induction false} PatternParts(p: Pattern, s: string, w: nat)
    requires |p.keyword| + w + |p.anchor| <= |s|
    ensures var n := |p.keyword| + w + |p.anchor|;
            InPattern(p, s[..n]) <==>
              && 1 <= w
              && StartsWith(s, p.keyword)
              && (forall i :: 0 <= i < w ==> IsSpace(s[|p.keyword|..][i]))
              && StartsWith(s[|p.keyword| + w..], p.anchor)
  {
    var kw := p.keyword;
    var n := |kw| + w + |p.anchor|;
    assert s[..n][..|kw|] == s[..|kw|];
    assert s[..n][n - |p.anchor|..] == s[|kw| + w..][..|p.anchor|];
    var blanks := s[..n][|kw|..n - |p.anchor|];
    assert |blanks| == w;
    assert forall i :: 0 <= i < w ==> blanks[i] == s[|kw|..][i];
    assert AllSpace(blanks) <==> forall i :: 0 <= i < w ==> IsSpace(s[|kw|..][i]);
  }

  /** What `MatchLen` finds is a match: a prefix of `s` in the pattern's language. */
  lemma {:induction false} MatchLenSound(p: Pattern, s: string)
    ensures MatchLen(p, s).Some? ==> InPattern(p, s[..MatchLen(p, s).value])
  {
    MatchLenClosed(p, s);
    if MatchLen(p, s).Some? {
      PatternParts(p, s, SpaceRun(s[|p.keyword|..]));
    }
  }

  /** Every prefix of `s` in the pattern's language is the one `MatchLen` finds: it is the only one. */
  lemma {:induction false} MatchLenComplete(p: Pattern, s: string, n: nat)
    requires WellFormed(p)
    requires n <= |s| && InPattern(p, s[..n])
    ensures MatchLen(p, s) == Some(n)
  {
    var kw := p.keyword;
    var w := n - |p.anchor| - |kw|;
    PatternParts(p, s, w);
    AnchorHead(p, s, |kw|, w);
    SpaceRunExact(s[|kw|..], w);
    MatchLenClosed(p, s);
  }

  /** Where the anchor starts, the blank run ends. */
  lemma {:induction false} AnchorHead(p: Pattern, s: string, k: nat, w: nat)
    requires WellFormed(p) && k + w <= |s| && StartsWith(s[k + w..], p.anchor)
    ensures w < |s[k..]| && !IsSpace(s[k..][w])
  {
    assert s[k..][w] == s[k + w..][..|p.anchor|][0];
  }

  /** The match attempt at position `i` of `s`, stated on `s` itself. */
  lemma {:induction false} MatchLenAt(p: Pattern, s: string, i: nat)
    requires i <= |s|
    ensures MatchLen(p, s[i..]).Some? ==>
              i + MatchLen(p, s[i..]).value <= |s| && PatternAt(p, s, i, i + MatchLen(p, s[i..]).value)
  {
    var r := MatchLen(p, s[i..]);
    MatchLenSound(p, s[i..]);
    if r.Some? {
      assert s[i..][..r.value] == s[i..i + r.value];
    }
  }

  lemma {:induction false} NoMatchAt(p: Pattern, s: string, i: nat)
    requires NoMatch(p, s) && i <= |s|
    ensures MissAt(p, s, i)
  {
    MatchLenAt(p, s, i);
  }

  /** No match starts anywhere, so none is found anywhere. */
  lemma {:induction false} NoMatchFromMisses(p: Pattern, s: string)
    requires WellFormed(p)
    requires forall i: nat :: i <= |s| ==> MissAt(p, s, i)
    ensures NoMatch(p, s)
  {
    forall i: nat, j: nat | i <= j <= |s|
      ensures !PatternAt(p, s, i, j)
    {
      assert MissAt(p, s, i);
      assert s[i..][..j - i] == s[i..j];
      if InPattern(p, s[i..j]) {
        MatchLenComplete(p, s[i..], j - i);
      }
    }
  }

  lemma {:induction false} NoMatchSuffix(p: Pattern, s: string, i: nat)
    requires NoMatch(p, s) && i <= |s|
    ensures NoMatch(p, s[i..])
  {
    forall a: nat, b: nat | a <= b <= |s[i..]|
      ensures !PatternAt(p, s[i..], a, b)
    {
      assert s[i..][a..b] == s[i + a..i + b];
      assert !PatternAt(p, s, i + a, i + b);
    }
  }

  /** Appending text after a match does not change it. */
  lemma {:induction false} MatchLenExtend(p: Pattern, a: string, t: string)
    requires WellFormed(p)
    ensures MatchLen(p, a).Some? ==> MatchLen(p, a + t) == MatchLen(p, a)
  {
    MatchLenSound(p, a);
    if MatchLen(p, a).Some? {
      var n := MatchLen(p, a).value;
      assert (a + t)[..n] == a[..n];
      MatchLenComplete(p, a + t, n);
    }
  }

  /** Cutting the text after a match does not change it. */
  lemma {:induction false} MatchLenRestrict(p: Pattern, s: string, j: nat)
    requires WellFormed(p) && j <= |s|
    ensures MatchLen(p, s).Some? && MatchLen(p, s).value <= j ==> MatchLen(p, s[..j]) == MatchLen(p, s)
  {
    MatchLenSound(p, s);
    if MatchLen(p, s).Some? && MatchLen(p, s).value <= j {
      var n := MatchLen(p, s).value;
      assert s[..j][..n] == s[..n];
      MatchLenComplete(p, s[..j], n);
    }
  }

  /** A pattern can only match where its keyword's first two characters stand. */
  lemma {:induction false} NoHeadAt(p: Pattern, x: string)
    requires |p.keyword| >= 2
    requires x == [] || x[0] != p.keyword[0] || (|x| > 1 && x[1] != p.keyword[1])
    ensures MatchLen(p, x).None?
  {
    if x != [] && x[0] == p.keyword[0] {
      assert KeywordRun(p, x, 0, 0) == KeywordRun(p, x[1..], 1, 1);
    }
  }

  // ---------------------------------------------------------------------------
  // Matches do not overlap.

  /**
    The characters `c0 c1` cannot stand together at a position after the start of
    a match of `p`: `c0` is not a blank, does not occur in the keyword after its
    first character, and wherever it occurs in the anchor it is followed there by
    a character other than `c1`.
   */
  predicate HeadFree(p: Pattern, c0: char, c1: char)
  {
    && !IsSpace(c0)
    && (forall o :: 1 <= o < |p.keyword| ==> p.keyword[o] != c0)
    && (forall j :: 0 <= j < |p.anchor| && p.anchor[j] == c0 ==> j + 1 < |p.anchor| && p.anchor[j + 1] != c1)
  }

  lemma {:induction false} HeadInsideMatch(p: Pattern, m: string, o: nat, c0: char, c1: char)
    requires InPattern(p, m) && HeadFree(p, c0, c1)
    requires 1 <= o < |m|
    ensures m[o] != c0 || (o + 1 < |m| && m[o + 1] != c1)
  {
    var kw := p.keyword;
    var an := p.anchor;
    if o < |kw| {
      assert m[o] == m[..|kw|][o];
    } else if o < |m| - |an| {
      assert m[o] == m[|kw|..|m| - |an|][o - |kw|];
    } else {
      var j := o - (|m| - |an|);
      assert m[o] == m[|m| - |an|..][j];
      if j + 1 < |an| {
        assert m[o + 1] == m[|m| - |an|..][j + 1];
      }
    }
  }

  /**
    A match that starts in `a` cannot reach into a following `t` whose first two
    characters cannot stand inside a match.
   */
  lemma {:induction false} NoMatchAcross(p: Pattern, a: string, t: string)
    requires a != [] && |t| >= 2 && HeadFree(p, t[0], t[1])
    ensures MatchLen(p, a + t).Some? ==> MatchLen(p, a + t).value <= |a|
  {
    var s := a + t;
    var r := MatchLen(p, s);
    MatchLenSound(p, s);
    if r.Some? && r.value > |a| {
      var m := s[..r.value];
      assert m[|a|] == t[0];
      assert |a| + 1 < |m| ==> m[|a| + 1] == t[1];
      HeadInsideMatch(p, m, |a|, t[0], t[1]);
    }
  }

  /** The position of the leftmost match (`re.search`), or `|s|` when there is none. */
  function FirstMatch(p: Pattern, s: string): (j: nat)
    ensures j <= |s|
    ensures forall i: nat :: i < j ==> MissAt(p, s, i)
    ensures j < |s| ==> !MissAt(p, s, j)
    decreases |s|
  {
    if s == [] || MatchLen(p, s).Some? then
      assert s[0..] == s;
      0
    else
      var j := 1 + FirstMatch(p, s[1..]);
      assert forall i: nat :: 1 <= i <= |s| ==> MissAt(p, s[1..], i - 1) == MissAt(p, s, i) by {
        forall i: nat | 1 <= i <= |s|
          ensures MissAt(p, s[1..], i - 1) == MissAt(p, s, i)
        {
          assert s[1..][i - 1..] == s[i..];
        }
      }
      assert s[0..] == s;
      j
  }

  // ---------------------------------------------------------------------------
  // What one pass does.

  /** The match attempts on `s[1..]` are those on `s`, one position on. */
  lemma {:induction false} MissAtShift(p: Pattern, s: string, j: nat)
    requires j < |s|
    ensures MissAt(p, s[1..], j) == MissAt(p, s, j + 1)
  {
    assert s[1..][j..] == s[j + 1..];
  }

  /** A failed match attempt copies one character. */
  lemma {:induction false} CopyStep(p: Pattern, r: string, s: string)
    requires s != [] && MissAt(p, s, 0)
    ensures ReSub(p, r, s) == [s[0]] + ReSub(p, r, s[1..])
  {
    assert s[0..] == s;
  }

  /** A successful match attempt emits the replacement and resumes after the match. */
  lemma {:induction false} MatchStep(p: Pattern, r: string, s: string)
    requires s != [] && MatchLen(p, s).Some?
    ensures ReSub(p, r, s) == r + ReSub(p, r, s[MatchLen(p, s).value..])
  {
  }

  /** Text before the first match is copied unchanged. */
  lemma {:induction false} SubPrefix(p: Pattern, r: string, s: string, m: nat)
    requires m <= |s|
    requires forall j: nat :: j < m ==> MissAt(p, s, j)
    ensures ReSub(p, r, s) == s[..m] + ReSub(p, r, s[m..])
  {
    if m == 0 {
      assert s[..0] + ReSub(p, r, s[0..]) == ReSub(p, r, s);
    } else {
      assert MissAt(p, s, 0);
      CopyStep(p, r, s);
      forall j: nat | j < m - 1
        ensures MissAt(p, s[1..], j)
      {
        MissAtShift(p, s, j);
      }
      SubPrefix(p, r, s[1..], m - 1);
      ConsPrefix(s, m, ReSub(p, r, s), ReSub(p, r, s[1..]), ReSub(p, r, s[m..]));
    }
  }

  /** The sequence algebra of one step of `SubPrefix`. */
  lemma {:induction false} ConsPrefix(s: string, m: nat, a: string, b: string, c: string)
    requires 0 < m <= |s|
    requires a == [s[0]] + b
    requires b == s[1..][..m - 1] + c
    ensures a == s[..m] + c
  {
    assert s[..m] == [s[0]] + s[1..][..m - 1];
  }

  /**
    A pass splits wherever two characters stand that cannot occur inside a match:
    the text before and the text after are rewritten independently.
   */
  lemma {:induction false} SubAcross(p: Pattern, r: string, a: string, t: string)
    requires WellFormed(p)
    requires |t| >= 2 && HeadFree(p, t[0], t[1])
    ensures ReSub(p, r, a + t) == ReSub(p, r, a) + ReSub(p, r, t)
    decreases |a|
  {
    AppendParts(a, t);
    if a != [] {
      var k := Advance(p, a);
      MatchLenAcross(p, a, t);
      StepAgree(p, r, a, t);
      SubAcross(p, r, a[k..], t);
      SubStep(p, r, a);
      Regroup(ReSub(p, r, a + t), Emit(p, r, a), ReSub(p, r, a[k..] + t),
              ReSub(p, r, a[k..]), ReSub(p, r, t), ReSub(p, r, a));
    }
  }

  /** One step of the scan. */
  lemma {:induction false} SubStep(p: Pattern, r: string, s: string)
    requires s != []
    ensures ReSub(p, r, s) == Emit(p, r, s) + ReSub(p, r, s[Advance(p, s)..])
  {
  }

  lemma {:induction false} Regroup(w: string, e: string, u: string, x: string, y: string, v: string)
    requires w == e + u && u == x + y && v == e + x
    ensures w == v + y
  {
  }

  /** The match attempt on `a` is not changed by a following `t` that no match can run into. */
  lemma {:induction false} MatchLenAcross(p: Pattern, a: string, t: string)
    requires WellFormed(p)
    requires a != [] && |t| >= 2 && HeadFree(p, t[0], t[1])
    ensures MatchLen(p, a + t) == MatchLen(p, a)
  {
    NoMatchAcross(p, a, t);
    MatchLenRestrict(p, a + t, |a|);
    MatchLenExtend(p, a, t);
    AppendParts(a, t);
  }

  /** Where the match attempts on `a` and on `a + t` agree, so does the first step of the scan. */
  lemma {:induction false} StepAgree(p: Pattern, r: string, a: string, t: string)
    requires a != [] && MatchLen(p, a + t) == MatchLen(p, a)
    ensures ReSub(p, r, a + t) == Emit(p, r, a) + ReSub(p, r, a[Advance(p, a)..] + t)
  {
    var s := a + t;
    assert Advance(p, s) == Advance(p, a) && Emit(p, r, s) == Emit(p, r, a);
    DropAppend(a, t, Advance(p, a));
  }

  /**
    Every occurrence of keyword, whitespace run and anchor becomes exactly the
    replacement, wherever it stands and whatever surrounds it, and the text on
    either side is rewritten on its own.
   */
  lemma {:induction false} SubOccurrence(p: Pattern, r: string, a: string, m: string, b: string)
    requires WellFormed(p) && HeadFree(p, p.keyword[0], p.keyword[1])
    requires InPattern(p, m)
    ensures ReSub(p, r, a + m + b) == ReSub(p, r, a) + r + ReSub(p, r, b)
  {
    var kw := p.keyword;
    assert m[0] == m[..|kw|][0] && m[1] == m[..|kw|][1];
    AppendHeads(m, b);
    SubAcross(p, r, a, m + b);
    AppendAssoc(a, m, b);
    AppendParts(m, b);
    MatchLenComplete(p, m + b, |m|);
  }

  // ---------------------------------------------------------------------------
  // Text that no match can start in.

  /** `x` starts with the keyword, one blank, a non-blank, and then not the anchor. */
  predicate SingleBlankMismatch(p: Pattern, x: string)
  {
    var kw := p.keyword;
    && p.anchor != []
    && |kw| + 1 + |p.anchor| <= |x|
    && x[..|kw|] == kw
    && IsSpace(x[|kw|])
    && !IsSpace(x[|kw| + 1])
    && x[|kw| + 1..|kw| + 1 + |p.anchor|] != p.anchor
  }

  /** No match of `p` can start at position `j` of `x`, whatever follows `x`. */
  predicate BlockedAt(p: Pattern, x: string, j: nat)
    requires j < |x|
  {
    var y := x[j..];
    && |p.keyword| >= 2
    && (y[0] != p.keyword[0] || (|y| >= 2 && y[1] != p.keyword[1]) || SingleBlankMismatch(p, y))
  }

  /** No match of `p` can start anywhere inside `x`, whatever follows it. */
  predicate Inert(p: Pattern, x: string)
  {
    forall j: nat :: j < |x| ==> BlockedAt(p, x, j)
  }

  lemma {:induction false} BlockedMiss(p: Pattern, x: string, t: string, j: nat)
    requires j < |x| && BlockedAt(p, x, j)
    ensures MissAt(p, x + t, j)
  {
    var y := x[j..];
    var z := (x + t)[j..];
    assert z == y + t;
    var kw := p.keyword;
    if y[0] != kw[0] || (|y| >= 2 && y[1] != kw[1]) {
      NoHeadAt(p, z);
    } else {
      assert z[..|kw|] == y[..|kw|];
      assert z[|kw|..][0] == y[|kw|] && z[|kw|..][1] == y[|kw| + 1];
      SpaceRunExact(z[|kw|..], 1);
      assert z[|kw| + 1..|kw| + 1 + |p.anchor|] == y[|kw| + 1..|kw| + 1 + |p.anchor|];
      MatchLenClosed(p, z);
    }
  }

  /** Text that no match can start in is copied through a pass unchanged. */
  lemma {:induction false} InertPrefix(p: Pattern, r: string, x: string, t: string)
    requires Inert(p, x)
    ensures ReSub(p, r, x + t) == x + ReSub(p, r, t)
  {
    forall j: nat | j < |x|
      ensures MissAt(p, x + t, j)
    {
      BlockedMiss(p, x, t, j);
    }
    SubPrefix(p, r, x + t, |x|);
    AppendParts(x, t);
  }

  /**
    Text `c` that no match can start in, or run into, is copied through a pass,
    and the text on either side of it is rewritten on its own.
   */
  lemma {:induction false} ThroughInert(p: Pattern, r: string, x: string, c: string, y: string)
    requires WellFormed(p) && |c| >= 2 && HeadFree(p, c[0], c[1]) && Inert(p, c)
    ensures ReSub(p, r, x + c + y) == ReSub(p, r, x) + c + ReSub(p, r, y)
  {
    AppendHeads(c, y);
    SubAcross(p, r, x, c + y);
    AppendAssoc(x, c, y);
    InertPrefix(p, r, c, y);
  }

  /** A match of `p2` is text in which no match of `p1` can start, when their heads differ. */
  lemma {:induction false} MatchInert(p1: Pattern, p2: Pattern, m: string)
    requires |p1.keyword| >= 2 && InPattern(p2, m)
    requires HeadFree(p2, p1.keyword[0], p1.keyword[1])
    requires p2.keyword != [] && p2.keyword[0] != p1.keyword[0]
    ensures Inert(p1, m)
  {
    forall j: nat | j < |m|
      ensures BlockedAt(p1, m, j)
    {
      if j == 0 {
        assert m[0] == m[..|p2.keyword|][0];
      } else {
        HeadInsideMatch(p2, m, j, p1.keyword[0], p1.keyword[1]);
      }
      assert m[j..][0] == m[j];
      assert j + 1 < |m| ==> m[j..][1] == m[j + 1];
    }
  }

  // ---------------------------------------------------------------------------
  // A pass leaves no match behind.

  /**
    The character a pass copies at its head cannot start a match of `p2`: a match
    there would either lie in the original text or run into the next replacement,
    whose head cannot stand inside a match.
   */
  lemma {:induction false} CopiedHeadNoMatch(p1: Pattern, r1: string, p2: Pattern, s: string)
    requires WellFormed(p1) && WellFormed(p2)
    requires |r1| >= 2 && HeadFree(p2, r1[0], r1[1])
    requires s != [] && MissAt(p1, s, 0)
    requires p1 == p2 || NoMatch(p2, s)
    ensures MatchLen(p2, [s[0]] + ReSub(p1, r1, s[1..])).None?
  {
    var rest := s[1..];
    var m := FirstMatch(p1, rest);
    SubPrefix(p1, r1, rest, m);
    var y := ReSub(p1, r1, rest[m..]);
    var x := s[..1 + m];
    HeadSplit(s, m, y);
    if p1 != p2 {
      NoMatchAt(p2, s, 0);
    }
    MissAtZero(p1, s);
    MissAtZero(p2, s);
    MatchLenExtend(p2, x, s[1 + m..]);
    if m < |rest| {
      assert !MissAt(p1, rest, m);
      MatchStep(p1, r1, rest[m..]);
      PrefixOfAppend(r1, ReSub(p1, r1, rest[m..][MatchLen(p1, rest[m..]).value..]));
    } else {
      assert |rest[m..]| == 0;
    }
    HeadNotExtended(p2, x, y, r1);
  }

  /** The sequence algebra of `CopiedHeadNoMatch`. */
  lemma {:induction false} HeadSplit(s: string, m: nat, y: string)
    requires m < |s|
    ensures [s[0]] + (s[1..][..m] + y) == s[..1 + m] + y
    ensures s == s[..1 + m] + s[1 + m..]
  {
    assert s[..1 + m] == [s[0]] + s[1..][..m];
  }

  lemma {:induction false} PrefixOfAppend(r: string, z: string)
    ensures (r + z)[..|r|] == r
  {
  }

  lemma {:induction false} AppendParts(a: string, t: string)
    ensures (a + t)[..|a|] == a && (a + t)[|a|..] == t
    ensures a == [] ==> a + t == t
  {
  }

  lemma {:induction false} AppendHeads(c: string, y: string)
    requires |c| >= 2
    ensures (c + y)[0] == c[0] && (c + y)[1] == c[1]
  {
  }

  lemma {:induction false} AppendAssoc(x: string, c: string, y: string)
    ensures x + c + y == x + (c + y)
  {
  }

  lemma {:induction false} DropAppend(a: string, t: string, k: nat)
    requires k <= |a|
    ensures (a + t)[k..] == a[k..] + t
  {
  }

  lemma {:induction false} MissAtZero(p: Pattern, s: string)
    ensures MissAt(p, s, 0) <==> MatchLen(p, s).None?
  {
    assert s[0..] == s;
  }

  /**
    Text `x` at whose start no match of `p` begins keeps none when followed by
    nothing or by text starting like `r`, whose head cannot stand inside a match.
   */
  lemma {:induction false} HeadNotExtended(p: Pattern, x: string, y: string, r: string)
    requires WellFormed(p) && x != [] && MatchLen(p, x).None?
    requires |r| >= 2 && HeadFree(p, r[0], r[1])
    requires y == [] || (|r| <= |y| && y[..|r|] == r)
    ensures MatchLen(p, x + y).None?
  {
    if y == [] {
      assert x + y == x;
    } else {
      assert y[0] == y[..|r|][0] && y[1] == y[..|r|][1];
      NoMatchAcross(p, x, y);
      MatchLenRestrict(p, x + y, |x|);
      AppendParts(x, y);
    }
  }

  /**
    After a pass of `p1` with replacement `r1` the text holds no match of `p1`,
    and the pass creates no match of a pattern `p2` the text did not hold, given
    that no match of `p2` can start inside `r1` or run into it.
   */
  lemma {:induction false} SubLeavesNoMatch(p1: Pattern, r1: string, p2: Pattern, s: string)
    requires WellFormed(p1) && WellFormed(p2)
    requires |r1| >= 2 && HeadFree(p2, r1[0], r1[1]) && Inert(p2, r1)
    requires p1 == p2 || NoMatch(p2, s)
    ensures NoMatch(p2, ReSub(p1, r1, s))
    decreases |s|
  {
    var out := ReSub(p1, r1, s);
    if s == [] {
      assert out[0..] == [];
      assert MissAt(p2, out, 0);
    } else {
      var n := Advance(p1, s);
      var rest := ReSub(p1, r1, s[n..]);
      if p1 != p2 {
        NoMatchSuffix(p2, s, n);
      }
      SubLeavesNoMatch(p1, r1, p2, s[n..]);
      var e := Emit(p1, r1, s);
      assert out == e + rest;
      forall i: nat | i <= |out|
        ensures MissAt(p2, out, i)
      {
        if i >= |e| {
          assert out[i..] == rest[i - |e|..];
          NoMatchAt(p2, rest, i - |e|);
        } else if MatchLen(p1, s).Some? {
          BlockedMiss(p2, r1, rest, i);
        } else {
          assert s[0..] == s;
          CopiedHeadNoMatch(p1, r1, p2, s);
          assert out[0..] == out;
        }
      }
    }
    NoMatchFromMisses(p2, out);
  }

  // ---------------------------------------------------------------------------
  // A pass changes the text exactly when the text holds a match.

  /** Neither of `r` and `m` is a prefix of the other. */
  predicate Diverges(r: string, m: string)
  {
    !(r <= m) && !(m <= r)
  }

  lemma {:induction false} SuffixChar(m: string, a: string, i: nat)
    requires |a| <= |m| && m[|m| - |a|..] == a && i < |a|
    ensures m[|m| - |a| + i] == a[i]
  {
    assert m[|m| - |a| + i] == m[|m| - |a|..][i];
  }

  lemma {:induction false} DivergesAt(r: string, m: string, i: nat)
    requires i < |r| && i < |m| && r[i] != m[i]
    ensures Diverges(r, m)
  {
  }

  /** Equal texts `r + z` and `m + w` have one of `r`, `m` a prefix of the other. */
  lemma {:induction false} SameTextNotDiverging(r: string, z: string, m: string, w: string)
    requires r + z == m + w
    ensures !Diverges(r, m)
  {
    if |r| <= |m| {
      assert r == (r + z)[..|r|] == (m + w)[..|r|] == m[..|r|];
    } else {
      assert m == (m + w)[..|m|] == (r + z)[..|m|] == r[..|m|];
    }
  }

  /** No match starts at the head of `s`, nor anywhere after it: none at all. */
  lemma {:induction false} NoMatchCons(p: Pattern, s: string)
    requires WellFormed(p) && s != []
    requires MissAt(p, s, 0) && NoMatch(p, s[1..])
    ensures NoMatch(p, s)
  {
    forall i: nat | i <= |s|
      ensures MissAt(p, s, i)
    {
      if i > 0 {
        NoMatchAt(p, s[1..], i - 1);
        assert s[1..][i - 1..] == s[i..];
      }
    }
    NoMatchFromMisses(p, s);
  }

  /**
    A pass whose replacement differs from every match leaves text unchanged
    only when the text holds no match.
   */
  lemma {:induction false} SubUnchangedNoMatch(p: Pattern, r: string, s: string)
    requires WellFormed(p)
    requires forall m :: InPattern(p, m) ==> Diverges(r, m)
    requires ReSub(p, r, s) == s
    ensures NoMatch(p, s)
    decreases |s|
  {
    if s == [] {
      NoMatchCons0(p, s);
    } else {
      MatchLenSound(p, s);
      MatchedTextChanges(p, r, s);
    }
    if s == [] {
    } else if MatchLen(p, s).Some? {
      assert false;
    } else {
      assert s[0..] == s;
      CopyStep(p, r, s);
      assert ReSub(p, r, s[1..]) == s[1..];
      SubUnchangedNoMatch(p, r, s[1..]);
      NoMatchCons(p, s);
    }
  }

  /** Where a match starts, a pass whose replacement diverges from it changes the text. */
  lemma {:induction false} MatchedTextChanges(p: Pattern, r: string, s: string)
    requires s != []
    ensures MatchLen(p, s).Some? && Diverges(r, s[..MatchLen(p, s).value]) ==> ReSub(p, r, s) != s
  {
    if MatchLen(p, s).Some? && Diverges(r, s[..MatchLen(p, s).value]) {
      var n := MatchLen(p, s).value;
      MatchStep(p, r, s);
      assert s == s[..n] + s[n..];
      if ReSub(p, r, s) == s {
        SameTextNotDiverging(r, ReSub(p, r, s[n..]), s[..n], s[n..]);
      }
    }
  }

  /** The empty text holds no match. */
  lemma {:induction false} NoMatchCons0(p: Pattern, s: string)
    requires WellFormed(p) && s == []
    ensures NoMatch(p, s)
  {
    forall i: nat | i <= |s|
      ensures MissAt(p, s, i)
    {
      NoHeadAt(p, s[i..]);
    }
    NoMatchFromMisses(p, s);
  }

  /** A pass leaves text without a match as it is. */
  lemma {:induction false} SubNoMatchUnchanged(p: Pattern, r: string, s: string)
    requires NoMatch(p, s)
    ensures ReSub(p, r, s) == s
  {
    forall j: nat | j < |s|
      ensures MissAt(p, s, j)
    {
      NoMatchAt(p, s, j);
    }
    SubPrefix(p, r, s, |s|);
    assert s[..|s|] == s && s[|s|..] == [];
  }

  // ---------------------------------------------------------------------------
  // The script's two rules.

  /** The characters of the anchor: no `f`, and no `i` followed by `m`. */
  lemma {:induction false} AnchorHeads(j: nat)
    requires j < |MODULE_ANCHOR|
    ensures MODULE_ANCHOR[j] != 'f'
    ensures MODULE_ANCHOR[j] == 'i' ==> j + 1 < |MODULE_ANCHOR| && MODULE_ANCHOR[j + 1] != 'm'
  {
  }

  /** The same for the part of the replacements after the keyword. */
  lemma {:induction false} TailHeads(j: nat)
    requires j < |REPLACEMENT_TAIL|
    ensures REPLACEMENT_TAIL[j] != 'f'
    ensures REPLACEMENT_TAIL[j] == 'i' ==> j + 1 < |REPLACEMENT_TAIL| && REPLACEMENT_TAIL[j + 1] != 'm'
  {
  }

  /** Both patterns meet what the general lemmas need, and each replacement starts with its keyword. */
  lemma {:induction false} RuleShape(k: Rule)
    ensures WellFormed(Pat(k))
    ensures Replacement(k)[..|Keyword(k)|] == Keyword(k)
    ensures Replacement(k)[|Keyword(k)|..] == REPLACEMENT_TAIL
  {
  }

  /** The head of either keyword cannot stand inside a match of either rule after its start. */
  lemma {:induction false} KeywordHeadFree(k1: Rule, k2: Rule)
    ensures HeadFree(Pat(k2), Keyword(k1)[0], Keyword(k1)[1])
  {
    forall j | 0 <= j < |MODULE_ANCHOR| && MODULE_ANCHOR[j] == Keyword(k1)[0]
      ensures j + 1 < |MODULE_ANCHOR| && MODULE_ANCHOR[j + 1] != Keyword(k1)[1]
    {
      AnchorHeads(j);
    }
  }

  /** A character of a replacement: from the keyword or from the tail. */
  lemma {:induction false} ReplacementAt(k: Rule, j: nat)
    requires j < |Replacement(k)|
    ensures |Replacement(k)| == |Keyword(k)| + |REPLACEMENT_TAIL|
    ensures Replacement(k)[j] == if j < |Keyword(k)| then Keyword(k)[j] else REPLACEMENT_TAIL[j - |Keyword(k)|]
  {
  }

  /** No keyword holds the head of either keyword after its first character. */
  lemma {:induction false} KeywordTail(k1: Rule, k2: Rule, j: nat)
    requires 1 <= j < |Keyword(k1)|
    ensures Keyword(k1)[j] != Keyword(k2)[0]
  {
  }

  /** No match of rule `k2` can start inside the keyword `k1` after its first character, nor inside the tail. */
  lemma {:induction false} ReplacementBigrams(k1: Rule, k2: Rule, j: nat)
    requires 1 <= j < |Replacement(k1)| && Replacement(k1)[j] == Keyword(k2)[0]
    ensures j + 1 < |Replacement(k1)| && Replacement(k1)[j + 1] != Keyword(k2)[1]
  {
    var kw := Keyword(k1);
    ReplacementAt(k1, j);
    if j < |kw| {
      KeywordTail(k1, k2, j);
    } else {
      TailHeads(j - |kw|);
      if j + 1 < |Replacement(k1)| {
        ReplacementAt(k1, j + 1);
      }
    }
  }

  /** A replacement is not itself a match of its own rule: one blank, then `digitalkin_`. */
  lemma {:induction false} ReplacementStartBlocked(k: Rule)
    ensures BlockedAt(Pat(k), Replacement(k), 0)
  {
    var x := Replacement(k);
    var kw := Keyword(k);
    RuleShape(k);
    assert x[0..] == x;
    assert x[..|kw|] == kw;
    assert x[|kw|] == REPLACEMENT_TAIL[0] == ' ';
    assert x[|kw| + 1] == REPLACEMENT_TAIL[1] == 'd';
    assert x[|kw| + 1..|kw| + 1 + |MODULE_ANCHOR|][10] == REPLACEMENT_TAIL[11] == '_';
  }

  /** No match of either rule can start inside either replacement, whatever follows it. */
  lemma {:induction false} ReplacementInert(k1: Rule, k2: Rule)
    ensures Inert(Pat(k2), Replacement(k1))
  {
    var x := Replacement(k1);
    RuleShape(k1);
    RuleShape(k2);
    forall j: nat | j < |x|
      ensures BlockedAt(Pat(k2), x, j)
    {
      if j == 0 {
        if k1 == k2 {
          ReplacementStartBlocked(k1);
        } else {
          assert x[0] == Keyword(k1)[0];
          assert x[j..][0] == x[0];
        }
      } else {
        if x[j] == Keyword(k2)[0] {
          ReplacementBigrams(k1, k2, j);
          assert x[j..][1] == x[j + 1];
        }
        assert x[j..][0] == x[j];
      }
    }
  }

  /** A match of the `import` rule holds no place where a match of the `from` rule could start. */
  lemma {:induction false} ImportMatchInert(m: string)
    requires InPattern(Pat(Import), m)
    ensures Inert(Pat(From), m)
  {
    KeywordHeadFree(From, Import);
    MatchInert(Pat(From), Pat(Import), m);
  }

  /** Two characters of a replacement: a non-blank after the one blank, and the `_` after `digitalkin`. */
  lemma {:induction false} ReplacementChars(k: Rule)
    ensures |Replacement(k)| == |Keyword(k)| + |REPLACEMENT_TAIL|
    ensures Replacement(k)[|Keyword(k)| + 1] == 'd' && Replacement(k)[|Keyword(k)| + 11] == '_'
  {
  }

  /** Neither replacement is a match of its rule, nor a prefix of one, nor one of them a prefix of it. */
  lemma {:induction false} ReplacementDiverges(k: Rule, m: string)
    requires InPattern(Pat(k), m)
    ensures Diverges(Replacement(k), m)
  {
    var kw := Keyword(k);
    var r := Replacement(k);
    ReplacementChars(k);
    var e := |m| - |MODULE_ANCHOR|;
    if e > |kw| + 1 {
      assert m[|kw| + 1] == m[|kw|..e][1];
      DivergesAt(r, m, |kw| + 1);
    } else {
      SuffixChar(m, MODULE_ANCHOR, 10);
      DivergesAt(r, m, e + 10);
    }
  }

  // ---------------------------------------------------------------------------
  // What the rewrite does.

  /**
    One pass of a rule changes the text exactly when the text holds a match of
    its pattern.
   */
  lemma {:induction false} SubUnchangedIff(k: Rule, s: string)
    ensures Sub(k, s) == s <==> NoMatch(Pat(k), s)
  {
    if NoMatch(Pat(k), s) {
      SubNoMatchUnchanged(Pat(k), Replacement(k), s);
    } else {
      RuleShape(k);
      forall m | InPattern(Pat(k), m)
        ensures Diverges(Replacement(k), m)
      {
        ReplacementDiverges(k, m);
      }
      if Sub(k, s) == s {
        SubUnchangedNoMatch(Pat(k), Replacement(k), s);
      }
    }
  }

  /**
    Every `from` or `import` statement naming the top-level module `digitalkin`
    is retargeted: the keyword, any run of whitespace and `digitalkin.` become
    the keyword, one blank and `digitalkin_proto.digitalkin.`, wherever the
    occurrence stands, and the text around it is rewritten on its own.
   */
  lemma {:induction false} RewriteOccurrence(k: Rule, a: string, m: string, b: string)
    requires InPattern(Pat(k), m)
    ensures Rewrite(a + m + b) == Rewrite(a) + Replacement(k) + Rewrite(b)
  {
    if k == From {
      RewriteFromOccurrence(a, m, b);
    } else {
      RewriteImportOccurrence(a, m, b);
    }
  }

  lemma {:induction false} RewriteFromOccurrence(a: string, m: string, b: string)
    requires InPattern(Pat(From), m)
    ensures Rewrite(a + m + b) == Rewrite(a) + Replacement(From) + Rewrite(b)
  {
    RuleShape(From);
    KeywordHeadFree(From, From);
    SubOccurrence(Pat(From), Replacement(From), a, m, b);
    FromReplacementThroughImport(Sub(From, a), Sub(From, b));
  }

  /** The `import` pass leaves a `from` replacement alone and rewrites the text on either side on its own. */
  lemma {:induction false} FromReplacementThroughImport(x: string, y: string)
    ensures Sub(Import, x + Replacement(From) + y) == Sub(Import, x) + Replacement(From) + Sub(Import, y)
  {
    RuleShape(From);
    RuleShape(Import);
    KeywordHeadFree(From, Import);
    ReplacementInert(From, Import);
    ThroughInert(Pat(Import), Replacement(Import), x, Replacement(From), y);
  }

  lemma {:induction false} RewriteImportOccurrence(a: string, m: string, b: string)
    requires InPattern(Pat(Import), m)
    ensures Rewrite(a + m + b) == Rewrite(a) + Replacement(Import) + Rewrite(b)
  {
    RuleShape(From);
    RuleShape(Import);
    KeywordHeadFree(Import, Import);
    KeywordHeadFree(Import, From);
    assert m[0] == m[..6][0] && m[1] == m[..6][1];
    ImportMatchInert(m);
    ThroughInert(Pat(From), Replacement(From), a, m, b);
    SubOccurrence(Pat(Import), Replacement(Import), Sub(From, a), m, Sub(From, b));
  }

  /** Text without any match of either rule passes through unchanged. */
  lemma {:induction false} RewriteNoMatchUnchanged(s: string)
    requires NoMatch(Pat(From), s) && NoMatch(Pat(Import), s)
    ensures Rewrite(s) == s
  {
    SubUnchangedIff(From, s);
    SubUnchangedIff(Import, s);
  }

  /** The rewritten text holds no match of either rule. */
  lemma {:induction false} RewriteLeavesNoMatch(s: string)
    ensures NoMatch(Pat(From), Rewrite(s)) && NoMatch(Pat(Import), Rewrite(s))
  {
    var pf, pi := Pat(From), Pat(Import);
    var rf, ri := Replacement(From), Replacement(Import);
    RuleShape(From);
    RuleShape(Import);
    KeywordHeadFree(From, From);
    KeywordHeadFree(Import, Import);
    KeywordHeadFree(Import, From);
    ReplacementInert(From, From);
    ReplacementInert(Import, Import);
    ReplacementInert(Import, From);
    assert rf[0] == Keyword(From)[0] && rf[1] == Keyword(From)[1];
    assert ri[0] == Keyword(Import)[0] && ri[1] == Keyword(Import)[1];
    SubLeavesNoMatch(pf, rf, pf, s);
    SubLeavesNoMatch(pi, ri, pf, Sub(From, s));
    SubLeavesNoMatch(pi, ri, pi, Sub(From, s));
  }

  /** Running the script a second time changes nothing. */
  lemma {:induction false} RewriteIdempotent(s: string)
    ensures Rewrite(Rewrite(s)) == Rewrite(s)
  {
    RewriteLeavesNoMatch(s);
    RewriteNoMatchUnchanged(Rewrite(s));
  }

  // ---------------------------------------------------------------------------
  // Text that does not name the module.

  /** A match ends with the anchor, so text in which the anchor never occurs holds none. */
  lemma {:induction false} NoMatchWithoutAnchor(p: Pattern, s: string)
    requires forall i: nat :: i <= |s| ==> !StartsWith(s[i..], p.anchor)
    ensures NoMatch(p, s)
  {
    forall i: nat, j: nat | i <= j <= |s|
      ensures !PatternAt(p, s, i, j)
    {
      if PatternAt(p, s, i, j) {
        AnchorEnds(p, s, i, j);
        assert false;
      }
    }
  }

  lemma {:induction false} AnchorEnds(p: Pattern, s: string, i: nat, j: nat)
    requires i <= j <= |s| && PatternAt(p, s, i, j)
    ensures j - |p.anchor| <= |s| && StartsWith(s[j - |p.anchor|..], p.anchor)
  {
    assert s[i..j][j - i - |p.anchor|..] == s[j - |p.anchor|..][..|p.anchor|];
  }

  /** A character of the keyword or the anchor that does not occur in `s` rules out every match. */
  lemma {:induction false} NoMatchWithoutChar(p: Pattern, s: string, c: char)
    requires c in p.keyword || c in p.anchor
    requires c !in s
    ensures NoMatch(p, s)
  {
    forall i: nat, j: nat | i <= j <= |s|
      ensures !PatternAt(p, s, i, j)
    {
      if PatternAt(p, s, i, j) {
        PatternHolds(p, s[i..j], c);
        SliceHolds(s, i, j, c);
        assert false;
      }
    }
  }

  lemma {:induction false} PatternHolds(p: Pattern, m: string, c: char)
    requires InPattern(p, m) && (c in p.keyword || c in p.anchor)
    ensures c in m
  {
    if c in p.keyword {
      var o :| 0 <= o < |p.keyword| && p.keyword[o] == c;
      assert m[o] == m[..|p.keyword|][o];
    } else {
      var o :| 0 <= o < |p.anchor| && p.anchor[o] == c;
      assert m[|m| - |p.anchor| + o] == m[|m| - |p.anchor|..][o];
    }
  }

  lemma {:induction false} SliceHolds(s: string, i: nat, j: nat, c: char)
    requires i <= j <= |s| && c in s[i..j]
    ensures c in s
  {
    var o :| 0 <= o < j - i && s[i..j][o] == c;
    assert s[i + o] == c;
  }

  /** Text in which `digitalkin.` never occurs passes through the script unchanged. */
  lemma {:induction false} RewriteWithoutModule(s: string)
    requires forall i: nat :: i <= |s| ==> !StartsWith(s[i..], MODULE_ANCHOR)
    ensures Rewrite(s) == s
  {
    NoMatchWithoutAnchor(Pat(From), s);
    NoMatchWithoutAnchor(Pat(Import), s);
    RewriteNoMatchUnchanged(s);
  }

  // ---------------------------------------------------------------------------
  // The characters of the output.

  /** A pass only ever emits characters of its input or of its replacement. */
  lemma {:induction false} SubWithout(p: Pattern, r: string, s: string, c: char)
    requires c !in s && c !in r
    ensures c !in ReSub(p, r, s)
    decreases |s|
  {
    if s != [] {
      var k := Advance(p, s);
      NotInDrop(s, k, c);
      SubWithout(p, r, s[k..], c);
      SubStep(p, r, s);
      NotInAppend(Emit(p, r, s), ReSub(p, r, s[k..]), c);
    }
  }

  lemma {:induction false} NotInDrop(s: string, k: nat, c: char)
    requires k <= |s| && c !in s
    ensures c !in s[k..]
  {
    forall i | 0 <= i < |s[k..]|
      ensures s[k..][i] != c
    {
      assert s[k..][i] == s[k + i];
    }
  }

  lemma {:induction false} NotInAppend(a: string, b: string, c: char)
    requires c !in a && c !in b
    ensures c !in a + b
  {
    forall i | 0 <= i < |a + b|
      ensures (a + b)[i] != c
    {
      if i < |a| {
        assert (a + b)[i] == a[i];
      } else {
        assert (a + b)[i] == b[i - |a|];
      }
    }
  }

  /** The script brings in no character that neither the text nor the replacements hold. */
  lemma {:induction false} RewriteWithout(s: string, c: char)
    requires c !in s && c !in Replacement(From) && c !in Replacement(Import)
    ensures c !in Rewrite(s)
  {
    SubWithout(Pat(From), Replacement(From), s, c);
    SubWithout(Pat(Import), Replacement(Import), Sub(From, s), c);
  }
}
