/**
  The rewrite on the lines of Python it is meant for, derived from the general
  lemmas of `ImportRewrite`. The text after the module name is left symbolic:
  any text that does not name `digitalkin` again.
 */
module ImportRewriteExamples {
  import opened ImportRewrite

  /** Text that no rule can match in, since it lacks a character every match holds, is left alone. */
  lemma Untouched(s: string, c: char)
    requires c in MODULE_ANCHOR && c !in s
    ensures Rewrite(s) == s
  {
    NoMatchWithoutChar(Pat(From), s, c);
    NoMatchWithoutChar(Pat(Import), s, c);
    RewriteNoMatchUnchanged(s);
  }

  /**
    `from digitalkin.agent import Agent` becomes
    `from digitalkin_proto.digitalkin.agent import Agent`. The pattern has no
    word boundary, so the statement is rewritten whatever stands before the
    keyword (`xfrom digitalkin.a` too); the text on either side is rewritten on
    its own.
   */
  lemma FromStatement(before: string, rest: string)
    ensures Rewrite(before + "from digitalkin." + rest) ==
            Rewrite(before) + "from digitalkin_proto.digitalkin." + Rewrite(rest)
  {
    var m := "from digitalkin.";
    assert InPattern(Pat(From), m) by {
      assert m[..4] == "from" && m[4..5] == " " && m[5..] == MODULE_ANCHOR;
    }
    RewriteOccurrence(From, before, m, rest);
    FromReplacementText();
  }

  /** `import`, any run of blanks and `digitalkin.` become `import digitalkin_proto.digitalkin.`, in any context. */
  lemma ImportStatement(before: string, blanks: string, rest: string)
    requires blanks != [] && AllSpace(blanks)
    ensures Rewrite(before + ("import" + blanks + "digitalkin.") + rest) ==
            Rewrite(before) + "import digitalkin_proto.digitalkin." + Rewrite(rest)
  {
    var m := "import" + blanks + "digitalkin.";
    assert InPattern(Pat(Import), m) by {
      assert m[..6] == "import" && m[6..|m| - 11] == blanks && m[|m| - 11..] == MODULE_ANCHOR;
    }
    RewriteOccurrence(Import, before, m, rest);
    ImportReplacementText();
  }

  /**
    In a line whose other text cannot match (it lacks a `d`, say), the
    statement is the only change: `x = 1; from digitalkin.a import b`.
   */
  lemma FromStatementAlone(before: string, rest: string)
    requires 'd' !in before && 'd' !in rest
    ensures Rewrite(before + "from digitalkin." + rest) == before + "from digitalkin_proto.digitalkin." + rest
  {
    FromStatement(before, rest);
    Untouched(before, 'd');
    Untouched(rest, 'd');
  }
}
