/**
  The driver `fix_imports(directory)`: it walks the entries below the
  directory whose name matches `*.py*`, and rewrites every regular file among
  them in place, reporting each one as fixed, skipped (not UTF-8) or failed.

  The file system is a map from paths to nodes. What the operating system
  decides is a parameter: the order in which `rglob` yields the entries, the
  UTF-8 codec, and which files fail to be read or written, with what message.
 */
module FixImports {
  import opened Wrappers
  import opened PathGlob
  import ImportRewrite

  newtype byte = b: int | 0 <= b < 256

  type Bytes = seq<byte>

  /** A path as its list of components. */
  type Path = seq<string>

  /** An entry of the file system: a regular file, a directory, or anything else (a socket, a dangling link). */
  datatype Node = File(data: Bytes) | Directory | Other

  type FileSystem = map<Path, Node>

  /** The last component of a path, the one the glob is matched against. */
  function Name(p: Path): string
  {
    if p == [] then "" else p[|p| - 1]
  }

  /** `p` lies somewhere below the directory `root`. */
  predicate Below(root: Path, p: Path)
  {
    |root| < |p| && p[..|root|] == root
  }

  /**
    The file system is a tree: its root is a directory, and every entry sits
    in a directory, so each proper prefix of a path is one.
   */
  ghost predicate WellFormedFs(fs: FileSystem)
  {
    && [] in fs && fs[[]].Directory?
    && forall p, k :: p in fs && 0 < k < |p| ==> p[..k] in fs && fs[p[..k]].Directory?
  }

  /**
    `Path(root).rglob("*.py*")`: entries strictly below `root` whose name
    matches the glob, none twice, in the order the walk yields them. A
    directory the walk cannot list is skipped without a word, so an entry that
    matches may be missing from the walk.
   */
  ghost predicate IsSourceWalk(fs: FileSystem, root: Path, walk: seq<Path>)
  {
    && Distinct(walk)
    && (forall p :: p in walk ==> p in fs && Below(root, p) && GlobMatch(SOURCE_GLOB, Name(p)))
  }

  /** The walk missed nothing: every directory below `root` could be listed. */
  ghost predicate ListsAll(fs: FileSystem, root: Path, walk: seq<Path>)
  {
    forall p :: p in fs && Below(root, p) && GlobMatch(SOURCE_GLOB, Name(p)) ==> p in walk
  }

  /**
    What goes wrong with a file other than its encoding: opening or reading it
    fails, or writing it back fails after `open(path, "w")` has truncated it,
    leaving behind whatever reached the disk.
   */
  datatype Fault = ReadFault(message: string) | WriteFault(message: string, leftBehind: Bytes)

  /** The lines the script prints, one event each. */
  datatype Event =
    | Processing(path: Path)
    | FixedImports(path: Path)
    | SkippedNotUtf8(path: Path)
    | ErrorProcessing(path: Path, message: string)

  /** How the processing of one regular file ends. */
  datatype Outcome = Written | NotUtf8 | Failed(message: string)

  /** Text-mode reading with universal newlines: `\r\n` and a lone `\r` become `\n`. */
  function TranslateNewlines(s: string): (r: string)
    ensures '\r' !in r
    ensures |r| <= |s|
    decreases |s|
  {
    if s == [] then []
    else if s[0] == '\r' then "\n" + TranslateNewlines(if |s| >= 2 && s[1] == '\n' then s[2..] else s[1..])
    else [s[0]] + TranslateNewlines(s[1..])
  }

  /** The text the script writes back for the text it decoded. */
  function Rewritten(text: string): string
  {
    ImportRewrite.Rewrite(TranslateNewlines(text))
  }

  function FaultAt(faults: map<Path, Fault>, p: Path): Option<Fault>
  {
    if p in faults then Some(faults[p]) else None
  }

  /**
    Processing one regular file holding `data`: its new content and how it
    ends. The file is written exactly when it decodes and no fault hits it;
    a file that does not decode, or cannot be read, keeps its bytes.
   */
  function ProcessFile(data: Bytes, fault: Option<Fault>, decode: Bytes -> Option<string>, encode: string -> Bytes): (r: (Bytes, Outcome))
    ensures r.1.Written? <==> fault.None? && decode(data).Some?
    ensures r.1.Written? ==> r.0 == encode(Rewritten(decode(data).value))
    ensures r.1.NotUtf8? <==> (fault.None? || fault.value.WriteFault?) && decode(data).None?
    ensures r.1.Failed? ==> fault.Some? && r.1.message == fault.value.message
    ensures (r.1.NotUtf8? || (fault.Some? && fault.value.ReadFault?)) ==> r.0 == data
  {
    if fault.Some? && fault.value.ReadFault? then (data, Failed(fault.value.message))
    else match decode(data)
      case None => (data, NotUtf8)
      case Some(text) =>
        if fault.Some? then (fault.value.leftBehind, Failed(fault.value.message))
        else (encode(Rewritten(text)), Written)
  }

  /** An entry after the walk reached it: only a regular file changes. */
  function Visit(n: Node, fault: Option<Fault>, decode: Bytes -> Option<string>, encode: string -> Bytes): (r: Node)
    ensures r.File? <==> n.File?
    ensures n.File? && decode(n.data).None? ==> r == n
    ensures !n.File? ==> r == n
  {
    match n
    case File(data) => File(ProcessFile(data, fault, decode, encode).0)
    case _ => n
  }

  /** What reaching `p` prints. */
  function VisitLog(fs: FileSystem, p: Path, decode: Bytes -> Option<string>, encode: string -> Bytes, faults: map<Path, Fault>): seq<Event>
  {
    if p in fs && fs[p].File? then
      [Processing(p), OutcomeEvent(p, ProcessFile(fs[p].data, FaultAt(faults, p), decode, encode).1)]
    else []
  }

  /** The file system after a run over `walk`. */
  function AfterRun(fs: FileSystem, walk: seq<Path>, decode: Bytes -> Option<string>, encode: string -> Bytes, faults: map<Path, Fault>): FileSystem
  {
    map p | p in fs :: if p in walk then Visit(fs[p], FaultAt(faults, p), decode, encode) else fs[p]
  }

  /** What a run over `walk` prints, in order. */
  function RunLog(fs: FileSystem, walk: seq<Path>, decode: Bytes -> Option<string>, encode: string -> Bytes, faults: map<Path, Fault>): seq<Event>
    decreases |walk|
  {
    if walk == [] then []
    else RunLog(fs, walk[..|walk| - 1], decode, encode, faults) + VisitLog(fs, walk[|walk| - 1], decode, encode, faults)
  }

  /** The line printed when the processing of `p` ends with `outcome`. */
  function OutcomeEvent(p: Path, outcome: Outcome): (e: Event)
    ensures e.path == p
  {
    match outcome
    case Written => FixedImports(p)
    case NotUtf8 => SkippedNotUtf8(p)
    case Failed(message) => ErrorProcessing(p, message)
  }

  /**
    The body of the `try` for one regular file, step by step: read and decode
    it, apply the `from` rule and then the `import` rule, write the result
    back. `ProcessFile` is its specification.
   */
  method ProcessOne(data: Bytes, fault: Option<Fault>, decode: Bytes -> Option<string>, encode: string -> Bytes)
    returns (written: Bytes, outcome: Outcome)
    ensures (written, outcome) == ProcessFile(data, fault, decode, encode)
  {
    if fault.Some? && fault.value.ReadFault? {
      return data, Failed(fault.value.message);
    }
    var decoded := decode(data);
    if decoded.None? {
      return data, NotUtf8;
    }
    var content := TranslateNewlines(decoded.value);
    content := ImportRewrite.Sub(ImportRewrite.From, content);
    content := ImportRewrite.Sub(ImportRewrite.Import, content);
    if fault.Some? {
      return fault.value.leftBehind, Failed(fault.value.message);
    }
    return encode(content), Written;
  }

  /**
    One entry of the walk: when it is a regular file (`path.is_file()`), print
    that it is processed, process it, and print how that ended.
   */
  method VisitEntry(current: FileSystem, path: Path, decode: Bytes -> Option<string>, encode: string -> Bytes,
                    faults: map<Path, Fault>)
    returns (next: FileSystem, printed: seq<Event>)
    ensures next == if path in current && current[path].File?
                    then current[path := Visit(current[path], FaultAt(faults, path), decode, encode)]
                    else current
    ensures printed == VisitLog(current, path, decode, encode, faults)
  {
    next, printed := current, [];
    if path in current && current[path].File? {
      printed := printed + [Processing(path)];
      var written, outcome := ProcessOne(current[path].data, FaultAt(faults, path), decode, encode);
      next := current[path := File(written)];
      printed := printed + [OutcomeEvent(path, outcome)];
    }
  }

  /**
    `fix_imports(root)`: every regular file the walk yields is read, rewritten
    and written back, and the run prints what happened to each.
   */
  method FixImports(fs: FileSystem, root: Path, walk: seq<Path>,
                    decode: Bytes -> Option<string>, encode: string -> Bytes, faults: map<Path, Fault>)
    returns (after: FileSystem, log: seq<Event>)
    requires IsSourceWalk(fs, root, walk)
    ensures after == AfterRun(fs, walk, decode, encode, faults)
    ensures log == RunLog(fs, walk, decode, encode, faults)
  {
    after := fs;
    log := [];
    var i := 0;
    while i < |walk|
      invariant i <= |walk| && Progress(fs, walk[..i], after, log, decode, encode, faults)
    {
      var next, printed := VisitEntry(after, walk[i], decode, encode, faults);
      Step(fs, walk, i, after, next, log, log + printed, decode, encode, faults);
      after, log := next, log + printed;
      i := i + 1;
    }
    assert walk[..|walk|] == walk;
    VisitedAll(fs, walk, after, decode, encode, faults);
  }

  /** The state of the loop: the entries of `done` are processed, the others untouched. */
  ghost predicate Visited(fs: FileSystem, done: seq<Path>, after: FileSystem,
                          decode: Bytes -> Option<string>, encode: string -> Bytes, faults: map<Path, Fault>)
  {
    && after.Keys == fs.Keys
    && forall p :: p in fs ==> after[p] == if p in done then Visit(fs[p], FaultAt(faults, p), decode, encode) else fs[p]
  }

  /** The state of the loop once the entries of `done` are processed: the file system and what was printed. */
  ghost predicate Progress(fs: FileSystem, done: seq<Path>, after: FileSystem, log: seq<Event>,
                           decode: Bytes -> Option<string>, encode: string -> Bytes, faults: map<Path, Fault>)
  {
    Visited(fs, done, after, decode, encode, faults) && log == RunLog(fs, done, decode, encode, faults)
  }

  /** No path occurs twice in the walk. */
  ghost predicate Distinct(walk: seq<Path>)
  {
    forall a, b :: 0 <= a < b < |walk| ==> walk[a] != walk[b]
  }

  /** One more entry of the walk processed keeps the state of the loop. */
  lemma {:induction false} Step(fs: FileSystem, walk: seq<Path>, i: nat, before: FileSystem, after: FileSystem,
                                logBefore: seq<Event>, logAfter: seq<Event>,
                                decode: Bytes -> Option<string>, encode: string -> Bytes, faults: map<Path, Fault>)
    requires Distinct(walk) && i < |walk|
    requires Progress(fs, walk[..i], before, logBefore, decode, encode, faults)
    requires var q := walk[i];
             && after == (if q in before && before[q].File?
                          then before[q := Visit(before[q], FaultAt(faults, q), decode, encode)]
                          else before)
             && logAfter == logBefore + VisitLog(before, q, decode, encode, faults)
    ensures Progress(fs, walk[..i + 1], after, logAfter, decode, encode, faults)
  {
    PrefixStep(walk, i);
    var q := walk[i];
    assert q in fs ==> before[q] == fs[q];
    VisitStep(fs, walk, i, before, after, decode, encode, faults);
    assert VisitLog(before, q, decode, encode, faults) == VisitLog(fs, q, decode, encode, faults);
    LogStep(fs, walk, i, logBefore, logAfter, decode, encode, faults);
  }

  lemma {:induction false} VisitStep(fs: FileSystem, walk: seq<Path>, i: nat, before: FileSystem, after: FileSystem,
                                     decode: Bytes -> Option<string>, encode: string -> Bytes, faults: map<Path, Fault>)
    requires i < |walk| && walk[i] !in walk[..i]
    requires forall p :: p in walk[..i + 1] <==> p in walk[..i] || p == walk[i]
    requires Visited(fs, walk[..i], before, decode, encode, faults)
    requires var q := walk[i];
             after == if q in before && before[q].File?
                      then before[q := Visit(before[q], FaultAt(faults, q), decode, encode)]
                      else before
    ensures Visited(fs, walk[..i + 1], after, decode, encode, faults)
  {
  }

  lemma {:induction false} LogStep(fs: FileSystem, walk: seq<Path>, i: nat, before: seq<Event>, after: seq<Event>,
                                   decode: Bytes -> Option<string>, encode: string -> Bytes, faults: map<Path, Fault>)
    requires i < |walk| && before == RunLog(fs, walk[..i], decode, encode, faults)
    requires after == before + VisitLog(fs, walk[i], decode, encode, faults)
    ensures after == RunLog(fs, walk[..i + 1], decode, encode, faults)
  {
    assert walk[..i + 1][..i] == walk[..i] && walk[..i + 1][i] == walk[i];
  }

  /** Once the whole walk is processed, the state of the loop is the file system after the run. */
  lemma {:induction false} VisitedAll(fs: FileSystem, walk: seq<Path>, after: FileSystem,
                                      decode: Bytes -> Option<string>, encode: string -> Bytes, faults: map<Path, Fault>)
    requires Visited(fs, walk, after, decode, encode, faults)
    ensures after == AfterRun(fs, walk, decode, encode, faults)
  {
  }

  /** The walk's prefix grows by one entry, which it did not hold before. */
  lemma {:induction false} PrefixStep(walk: seq<Path>, i: nat)
    requires i < |walk| && Distinct(walk)
    ensures walk[i] !in walk[..i]
    ensures forall p :: p in walk[..i + 1] <==> p in walk[..i] || p == walk[i]
  {
    assert walk[..i + 1] == walk[..i] + [walk[i]];
  }

  // ---------------------------------------------------------------------------
  // What a run guarantees.

  /** Newline translation leaves a text alone exactly when it holds no carriage return. */
  lemma {:induction false} TranslateNewlinesFixed(s: string)
    ensures TranslateNewlines(s) == s <==> '\r' !in s
    decreases |s|
  {
    if s != [] && '\r' !in s {
      assert s[0] != '\r' && '\r' !in s[1..];
      TranslateNewlinesFixed(s[1..]);
      assert [s[0]] + s[1..] == s;
    }
  }

  /** The units of the translation: `\r\n` and a lone `\r` become `\n`; any other character stays. */
  lemma {:induction false} TranslateUnits(c: char)
    ensures TranslateNewlines("\r\n") == "\n"
    ensures TranslateNewlines("\r") == "\n"
    ensures c != '\r' ==> TranslateNewlines([c]) == [c]
  {
    assert "\r\n"[2..] == [];
    assert "\r"[1..] == [];
    assert [c][1..] == [];
  }

  /**
    The translation works piece by piece: text splits anywhere except between
    the two characters of a `\r\n`, and each piece is translated on its own.
   */
  lemma {:induction false} TranslateAppend(a: string, b: string)
    requires !(a != [] && a[|a| - 1] == '\r' && b != [] && b[0] == '\n')
    ensures TranslateNewlines(a + b) == TranslateNewlines(a) + TranslateNewlines(b)
    decreases |a|
  {
    if a == [] {
      assert a + b == b;
    } else {
      var k := NewlineStep(a);
      var out, rest := StepOut(a), a[k..];
      StepAppend(a, b);
      TranslateStep(a + b);
      TranslateStep(a);
      TranslateAppend(rest, b);
      ImportRewrite.AppendAssoc(out, TranslateNewlines(rest), TranslateNewlines(b));
    }
  }

  /** How many characters one step of the translation consumes: two for `\r\n`, else one. */
  function NewlineStep(s: string): (k: nat)
    requires s != []
    ensures 1 <= k <= |s|
  {
    if s[0] == '\r' && |s| >= 2 && s[1] == '\n' then 2 else 1
  }

  /** What one step of the translation emits. */
  function StepOut(s: string): string
    requires s != []
  {
    if s[0] == '\r' then "\n" else [s[0]]
  }

  lemma {:induction false} TranslateStep(s: string)
    requires s != []
    ensures TranslateNewlines(s) == StepOut(s) + TranslateNewlines(s[NewlineStep(s)..])
  {
  }

  lemma {:induction false} StepAppend(a: string, b: string)
    requires a != [] && !(a[|a| - 1] == '\r' && b != [] && b[0] == '\n')
    ensures NewlineStep(a + b) == NewlineStep(a) && StepOut(a + b) == StepOut(a)
    ensures (a + b)[NewlineStep(a)..] == a[NewlineStep(a)..] + b
    ensures var r := a[NewlineStep(a)..]; r == [] || r[|r| - 1] == a[|a| - 1]
  {
    var t := a + b;
    assert t[0] == a[0];
    if |a| >= 2 {
      assert t[1] == a[1];
    }
  }

  /** Rewriting a text the script wrote changes nothing: it holds no carriage return and no match. */
  lemma {:induction false} RewrittenStable(text: string)
    ensures Rewritten(Rewritten(text)) == Rewritten(text)
  {
    var t := TranslateNewlines(text);
    ImportRewrite.FromReplacementText();
    ImportRewrite.ImportReplacementText();
    ImportRewrite.RewriteWithout(t, '\r');
    TranslateNewlinesFixed(ImportRewrite.Rewrite(t));
    ImportRewrite.RewriteIdempotent(t);
  }

  /** Without faults, and with a codec that decodes what it encodes, visiting an entry twice is visiting it once. */
  lemma {:induction false} VisitTwice(n: Node, decode: Bytes -> Option<string>, encode: string -> Bytes)
    requires forall t :: decode(encode(t)) == Some(t)
    ensures Visit(Visit(n, None, decode, encode), None, decode, encode) == Visit(n, None, decode, encode)
  {
    if n.File? && decode(n.data).Some? {
      var text := decode(n.data).value;
      assert decode(encode(Rewritten(text))) == Some(Rewritten(text));
      RewrittenStable(text);
    }
  }

  /**
    Running the script a second time changes no file: the second run walks the
    same entries, and every file it rewrites already reads as its own rewrite.
   */
  lemma {:induction false} RunTwice(fs: FileSystem, root: Path, walk: seq<Path>,
                                    decode: Bytes -> Option<string>, encode: string -> Bytes)
    requires IsSourceWalk(fs, root, walk)
    requires forall t :: decode(encode(t)) == Some(t)
    ensures var once := AfterRun(fs, walk, decode, encode, map[]);
            && IsSourceWalk(once, root, walk)
            && (ListsAll(fs, root, walk) ==> ListsAll(once, root, walk))
            && AfterRun(once, walk, decode, encode, map[]) == once
  {
    var once := AfterRun(fs, walk, decode, encode, map[]);
    var twice := AfterRun(once, walk, decode, encode, map[]);
    forall p | p in once
      ensures twice[p] == once[p]
    {
      if p in walk {
        VisitTwice(fs[p], decode, encode);
      }
    }
    assert once.Keys == fs.Keys;
  }

  /**
    Only regular files below the root whose name contains `.py` can change;
    every other entry, and every file outside the root, keeps its content.
   */
  lemma {:induction false} OnlySourceFilesChange(fs: FileSystem, root: Path, walk: seq<Path>,
                                                 decode: Bytes -> Option<string>, encode: string -> Bytes,
                                                 faults: map<Path, Fault>, p: Path)
    requires IsSourceWalk(fs, root, walk) && p in fs
    requires AfterRun(fs, walk, decode, encode, faults)[p] != fs[p]
    ensures fs[p].File? && Below(root, p) && HasInfix(Name(p), ".py")
  {
    SourceGlobIffContainsPy(Name(p));
  }

  /** A file that is not valid UTF-8 keeps its content, whatever else happens to it. */
  lemma {:induction false} NotUtf8Unchanged(fs: FileSystem, walk: seq<Path>,
                                            decode: Bytes -> Option<string>, encode: string -> Bytes,
                                            faults: map<Path, Fault>, p: Path)
    requires p in fs && fs[p].File? && decode(fs[p].data).None?
    ensures AfterRun(fs, walk, decode, encode, faults)[p] == fs[p]
  {
  }

  /** What the run prints about `p`: whether it processed it, fixed it, skipped it as not UTF-8, or reported the error `m`. */
  lemma {:induction false} RunReports(fs: FileSystem, walk: seq<Path>,
                                      decode: Bytes -> Option<string>, encode: string -> Bytes,
                                      faults: map<Path, Fault>, p: Path, m: string)
    ensures Processing(p) in RunLog(fs, walk, decode, encode, faults) <==>
              p in walk && p in fs && fs[p].File?
    ensures FixedImports(p) in RunLog(fs, walk, decode, encode, faults) <==>
              p in walk && p in fs && fs[p].File? && p !in faults && decode(fs[p].data).Some?
    ensures SkippedNotUtf8(p) in RunLog(fs, walk, decode, encode, faults) <==>
              p in walk && p in fs && fs[p].File? && (p !in faults || faults[p].WriteFault?) && decode(fs[p].data).None?
    ensures ErrorProcessing(p, m) in RunLog(fs, walk, decode, encode, faults) <==>
              p in walk && p in fs && fs[p].File? && p in faults && m == faults[p].message &&
              (faults[p].ReadFault? || decode(fs[p].data).Some?)
    decreases |walk|
  {
    if walk != [] {
      var init, q := walk[..|walk| - 1], walk[|walk| - 1];
      RunReports(fs, init, decode, encode, faults, p, m);
      VisitReports(fs, q, decode, encode, faults, p, m);
      assert walk == init + [q];
    }
  }

  /**
    When the walk missed nothing, every regular file below the root whose name
    contains `.py` is processed: the run reports it, and when it decodes and no
    fault hits it, it now holds its rewritten text.
   */
  lemma {:induction false} EverySourceFileProcessed(fs: FileSystem, root: Path, walk: seq<Path>,
                                                    decode: Bytes -> Option<string>, encode: string -> Bytes,
                                                    faults: map<Path, Fault>, p: Path)
    requires IsSourceWalk(fs, root, walk) && ListsAll(fs, root, walk)
    requires p in fs && fs[p].File? && Below(root, p) && HasInfix(Name(p), ".py")
    ensures Processing(p) in RunLog(fs, walk, decode, encode, faults)
    ensures p !in faults && decode(fs[p].data).Some? ==>
              AfterRun(fs, walk, decode, encode, faults)[p] == File(encode(Rewritten(decode(fs[p].data).value)))
  {
    SourceGlobIffContainsPy(Name(p));
    RunReports(fs, walk, decode, encode, faults, p, "");
  }

  /** What reaching `q` prints about `p`. */
  lemma {:induction false} VisitReports(fs: FileSystem, q: Path,
                                        decode: Bytes -> Option<string>, encode: string -> Bytes,
                                        faults: map<Path, Fault>, p: Path, m: string)
    ensures Processing(p) in VisitLog(fs, q, decode, encode, faults) <==> p == q && p in fs && fs[p].File?
    ensures FixedImports(p) in VisitLog(fs, q, decode, encode, faults) <==>
              p == q && p in fs && fs[p].File? && p !in faults && decode(fs[p].data).Some?
    ensures SkippedNotUtf8(p) in VisitLog(fs, q, decode, encode, faults) <==>
              p == q && p in fs && fs[p].File? && (p !in faults || faults[p].WriteFault?) && decode(fs[p].data).None?
    ensures ErrorProcessing(p, m) in VisitLog(fs, q, decode, encode, faults) <==>
              p == q && p in fs && fs[p].File? && p in faults && m == faults[p].message &&
              (faults[p].ReadFault? || decode(fs[p].data).Some?)
  {
  }

  /** An entry below the root exists only when the root is a directory. */
  lemma {:induction false} RootOfEntry(fs: FileSystem, root: Path, p: Path)
    requires WellFormedFs(fs) && p in fs && Below(root, p)
    ensures root in fs && fs[root].Directory?
  {
    if root != [] {
      assert p[..|root|] == root;
    }
  }

  /** When the root is missing, or is not a directory, the run walks nothing, changes nothing and prints nothing. */
  lemma {:induction false} MissingRootNoop(fs: FileSystem, root: Path, walk: seq<Path>,
                                           decode: Bytes -> Option<string>, encode: string -> Bytes,
                                           faults: map<Path, Fault>)
    requires WellFormedFs(fs) && IsSourceWalk(fs, root, walk)
    requires root !in fs || !fs[root].Directory?
    ensures walk == []
    ensures AfterRun(fs, walk, decode, encode, faults) == fs
    ensures RunLog(fs, walk, decode, encode, faults) == []
  {
    if walk != [] {
      assert walk[0] in walk;
      RootOfEntry(fs, root, walk[0]);
      assert false;
    }
  }
}
