/**
  The file-name filter of the driver: `Path.rglob("*.py*")` keeps the entries
  whose last path component matches the shell-style pattern `*.py*`, where `*`
  stands for any run of characters (dots and a leading dot included) and every
  other character stands for itself, case-sensitively as on POSIX systems.
 */
module PathGlob {

  /** The shell-style match of a whole name against a pattern of literals and `*`. */
  function GlobMatch(pat: string, name: string): bool
    decreases |pat|, |name|
  {
    if pat == [] then name == []
    else if pat[0] == '*' then GlobMatch(pat[1..], name) || (name != [] && GlobMatch(pat, name[1..]))
    else name != [] && name[0] == pat[0] && GlobMatch(pat[1..], name[1..])
  }

  /** The pattern the driver passes to `rglob`. */
  const SOURCE_GLOB: string := "*.py*"

  /** `name` holds `lit` starting at position `i`. */
  predicate OccursAt(name: string, lit: string, i: nat)
  {
    i + |lit| <= |name| && name[i..i + |lit|] == lit
  }

  /** `name` holds `lit` somewhere. */
  predicate HasInfix(name: string, lit: string)
  {
    exists i: nat :: i <= |name| && OccursAt(name, lit, i)
  }

  /** A lone `*` matches every name. */
  lemma {:induction false} StarMatchesAll(name: string)
    ensures GlobMatch("*", name)
    decreases |name|
  {
    if name != [] {
      StarMatchesAll(name[1..]);
    }
  }

  /** A pattern of literal characters followed by `*` matches the names that start with those characters. */
  lemma {:induction false} LiteralThenStar(lit: string, name: string)
    requires '*' !in lit
    ensures GlobMatch(lit + "*", name) <==> |lit| <= |name| && name[..|lit|] == lit
    decreases |lit|
  {
    if lit == [] {
      assert lit + "*" == "*";
      StarMatchesAll(name);
    } else {
      assert (lit + "*")[0] == lit[0] && (lit + "*")[1..] == lit[1..] + "*";
      LiteralThenStar(lit[1..], if name == [] then [] else name[1..]);
      if name != [] && |lit| <= |name| {
        assert name[..|lit|] == [name[0]] + name[1..][..|lit| - 1];
      }
    }
  }

  /** A leading `*` lets the rest of the pattern match any suffix of the name. */
  lemma {:induction false} LeadingStar(rest: string, name: string)
    ensures GlobMatch("*" + rest, name) <==> exists i: nat :: i <= |name| && GlobMatch(rest, name[i..])
    decreases |name|
  {
    var pat := "*" + rest;
    assert pat[0] == '*' && pat[1..] == rest;
    assert name[0..] == name;
    if name != [] {
      LeadingStar(rest, name[1..]);
      if exists i: nat :: i <= |name| && GlobMatch(rest, name[i..]) {
        var i: nat :| i <= |name| && GlobMatch(rest, name[i..]);
        if i > 0 {
          assert name[1..][i - 1..] == name[i..];
        }
      }
      if exists i: nat :: i <= |name[1..]| && GlobMatch(rest, name[1..][i..]) {
        var i: nat :| i <= |name[1..]| && GlobMatch(rest, name[1..][i..]);
        assert name[1..][i..] == name[i + 1..];
      }
    }
  }

  /**
    `*.py*` accepts exactly the names that contain `.py` anywhere: `.py` and
    `.pyi` files, but also `.pyc`, `.pyw`, `x.py.bak` and `a.pyramid`.
   */
  lemma {:induction false} SourceGlobIffContainsPy(name: string)
    ensures GlobMatch(SOURCE_GLOB, name) <==> HasInfix(name, ".py")
  {
    assert SOURCE_GLOB == "*" + (".py" + "*");
    LeadingStar(".py" + "*", name);
    forall i: nat | i <= |name|
      ensures GlobMatch(".py" + "*", name[i..]) <==> OccursAt(name, ".py", i)
    {
      LiteralThenStar(".py", name[i..]);
      if i + 3 <= |name| {
        assert name[i..][..3] == name[i..i + 3];
      }
    }
  }

  /** A name lacking some character of `lit` does not hold `lit`. */
  lemma {:induction false} NoInfixWithoutChar(name: string, lit: string, c: char)
    requires c in lit && c !in name
    ensures !HasInfix(name, lit)
  {
    var o :| 0 <= o < |lit| && lit[o] == c;
    forall i: nat | i <= |name|
      ensures !OccursAt(name, lit, i)
    {
      CharAt(name, lit, i, o);
    }
  }

  lemma {:induction false} CharAt(name: string, lit: string, i: nat, o: nat)
    requires o < |lit|
    ensures OccursAt(name, lit, i) ==> i + o < |name| && name[i + o] == lit[o]
  {
    if OccursAt(name, lit, i) {
      assert name[i + o] == name[i..i + |lit|][o];
    }
  }

  /** `.py` and `.pyi` files pass the filter, as intended. */
  lemma SourceFilesAccepted(stem: string)
    ensures GlobMatch(SOURCE_GLOB, stem + ".py") && GlobMatch(SOURCE_GLOB, stem + ".pyi")
  {
    var a, b := stem + ".py", stem + ".pyi";
    assert OccursAt(a, ".py", |stem|) by { assert a[|stem|..|stem| + 3] == ".py"; }
    assert OccursAt(b, ".py", |stem|) by { assert b[|stem|..|stem| + 3] == ".py"; }
    SourceGlobIffContainsPy(a);
    SourceGlobIffContainsPy(b);
  }

  /** So do names that merely contain `.py`: compiled files, backups. */
  lemma OtherFilesAccepted(stem: string, tail: string)
    ensures GlobMatch(SOURCE_GLOB, stem + ".py" + tail)
  {
    var a := stem + ".py" + tail;
    assert OccursAt(a, ".py", |stem|) by { assert a[|stem|..|stem| + 3] == ".py"; }
    SourceGlobIffContainsPy(a);
  }

  /** A name without a lower-case `y` is never accepted, `setup.PY` included. */
  lemma WithoutYRejected(name: string)
    requires 'y' !in name
    ensures !GlobMatch(SOURCE_GLOB, name)
  {
    NoInfixWithoutChar(name, ".py", 'y');
    SourceGlobIffContainsPy(name);
  }
}
