# fix_imports: retargeting `digitalkin` imports, modelled in Dafny

`scripts/fix_imports.py` migrates generated Python code from the top-level
package `digitalkin` to `digitalkin_proto.digitalkin`. It walks the entries
below a directory and keeps those whose name matches `*.py*`. For each regular
file among them it:

- reads the file as UTF-8 text, in text mode, so that `\r\n` and a lone `\r`
  become `\n`;
- applies two regular-expression substitutions in order: `from\s+(digitalkin)\.`
  becomes `from digitalkin_proto.digitalkin.`, then `import\s+(digitalkin)\.`
  becomes `import digitalkin_proto.digitalkin.`;
- writes the result back in place;
- reports the file as fixed, skipped (not UTF-8) or failed (any other error).

The project has four modules:

- `ImportRewrite` (`import_rewrite.dfy`) models the substitutions as pure
  functions. `MatchLen` is `re.match` of a pattern `keyword\s+anchor` at one
  position. It is a character-by-character engine with three phases (keyword,
  blanks, anchor), proved equal to the pattern's language. `ReSub` is `re.sub`:
  scan left to right, replace the leftmost match, resume after it. `Sub` and
  `Rewrite` are the script's two calls and their composition. The lemmas prove
  three things. First, what a pass does to each occurrence and to the text
  around it. Second, that a pass changes the text exactly when the text holds a
  match. Third, that the script's output holds no match of either rule, so
  running the script twice is running it once.
- `ImportRewriteExamples` (`import_rewrite_examples.dfy`) derives the rewrite
  of concrete statements from the general lemmas.
- `PathGlob` (`path_glob.dfy`) is shell-style matching of a file name against
  `*.py*`. It proves that the glob accepts exactly the names containing `.py`.
- `FixImports` (`fix_imports.dfy`) is the driver loop. The file system is a
  map from paths to nodes, and the loop updates it entry by entry while
  collecting the printed events. The method is proved against the
  specification functions `AfterRun` and `RunLog`. The lemmas prove what a run
  guarantees about those functions.

Several things the operating system decides are parameters:

- which matching entries `rglob` yields (it skips a directory it cannot list), and in what order;
- the UTF-8 codec (`decode`, `encode`);
- which files fail to be read or written, with what message, and what a
  failed write leaves on disk (`faults`).

Four properties of the code are worth stating up front:

- The patterns have no `\b`, so `xfrom digitalkin.a` is rewritten too
  (`ImportRewriteExamples.FromStatement`).
- The rewrite is idempotent. After the keyword and one blank, the output
  continues with `digitalkin_`, not `digitalkin.`, and a match must end in
  `digitalkin.`. This is proved for the rewrite
  (`ImportRewrite.RewriteIdempotent`) and for a whole run
  (`FixImports.RunTwice`).
- Every file the script writes back has `\n` line ends, even one that holds no
  import to rewrite, since reading in text mode turns `\r\n` and a lone
  `\r` into `\n` (`FixImports.TranslateUnits`, `FixImports.TranslateAppend`).
- The comment at `scripts/fix_imports.py:9` says the glob matches `.py` and
  `.pyi` files. `*.py*` accepts every name containing `.py`, for example
  `x.pyc`, `x.py.bak` and `a.pyramid` (`PathGlob.SourceGlobIffContainsPy`).

## Model

| member | source | states |
|---|---|---|
| ImportRewrite.IsSpace | scripts/fix_imports.py:17 | `\s` of a `str` pattern: exactly the characters for which `str.isspace()` holds. No `ensures` of its own; `MatchLenSound`, `MatchLenComplete` and `MatchLenClosed` use it as the pattern's whitespace |
| ImportRewrite.ReSub | scripts/fix_imports.py:17 | `re.sub` with a `keyword\s+anchor` pattern and a fixed replacement. No `ensures` of its own; `SubPrefix`, `SubOccurrence`, `SubNoMatchUnchanged` and `SubLeavesNoMatch` pin it down |
| ImportRewrite.Sub | scripts/fix_imports.py:17-22 | one of the two `re.sub` calls: its pattern and its replacement. No `ensures` of its own; `SubUnchangedIff`, `FromReplacementText` and `ImportReplacementText` pin it down |
| ImportRewrite.Rewrite | scripts/fix_imports.py:17-22 | the `from` call, then the `import` call. No `ensures` of its own; `RewriteOccurrence`, `RewriteNoMatchUnchanged`, `RewriteLeavesNoMatch` and `RewriteIdempotent` pin it down |
| ImportRewrite.MatchLen | scripts/fix_imports.py:17 | a match attempt that succeeds consumes at least one character and no more than the text holds |
| ImportRewrite.MatchLenSound | scripts/fix_imports.py:17 | what the match attempt finds is a prefix of the text in the language of `keyword\s+anchor`: the keyword, one or more whitespace characters, the anchor |
| ImportRewrite.MatchLenComplete | scripts/fix_imports.py:17 | every prefix of the text in the pattern's language is the one the match attempt finds (the greedy `\s+` never needs to backtrack) |
| ImportRewrite.MatchLenClosed | scripts/fix_imports.py:17 | the match attempt is the keyword, the longest run of whitespace (at least one), then the anchor |
| ImportRewrite.SubPrefix | scripts/fix_imports.py:17 | text before the first match is copied through a pass unchanged, in order |
| ImportRewrite.SubOccurrence | scripts/fix_imports.py:17 | wherever a match stands, a pass turns it into exactly the replacement, and rewrites the text on either side on its own |
| ImportRewrite.SubNoMatchUnchanged | scripts/fix_imports.py:17 | a pass leaves text without any match unchanged |
| ImportRewrite.SubLeavesNoMatch | scripts/fix_imports.py:17 | after a pass the text holds no match of the pass's own pattern, and no match of another pattern that it did not hold before, when no match of that pattern can start inside the replacement or run into it (both patterns well formed) |
| ImportRewrite.SubUnchangedIff | scripts/fix_imports.py:17-22 | each of the two passes changes the text if and only if the text holds a match of its pattern |
| ImportRewrite.FromReplacementText | scripts/fix_imports.py:17 | the `from` replacement with `\1` = `digitalkin` is `from digitalkin_proto.digitalkin.` |
| ImportRewrite.ImportReplacementText | scripts/fix_imports.py:21 | the `import` replacement with `\1` = `digitalkin` is `import digitalkin_proto.digitalkin.` |
| ImportRewrite.ReplacementInert | scripts/fix_imports.py:17-22 | no match of either rule can start inside either replacement, whatever text follows it |
| ImportRewrite.ReplacementDiverges | scripts/fix_imports.py:17-22 | no replacement equals a match of its rule, and neither is a prefix of the other |
| ImportRewrite.RewriteOccurrence | scripts/fix_imports.py:17-22 | every `from` or `import` followed by whitespace and `digitalkin.` becomes the keyword, one blank and `digitalkin_proto.digitalkin.`, and the text around it is rewritten on its own |
| ImportRewrite.RewriteNoMatchUnchanged | scripts/fix_imports.py:17-22 | text holding no match of either rule comes out unchanged |
| ImportRewrite.RewriteWithoutModule | scripts/fix_imports.py:17-22 | text in which `digitalkin.` never occurs comes out unchanged |
| ImportRewrite.NoMatchWithoutChar | scripts/fix_imports.py:17-22 | text lacking a character of the keyword or of `digitalkin.` holds no match |
| ImportRewrite.RewriteLeavesNoMatch | scripts/fix_imports.py:17-22 | the script's output holds no match of either rule |
| ImportRewrite.RewriteIdempotent | scripts/fix_imports.py:17-22 | rewriting the script's output again changes nothing |
| ImportRewrite.RewriteWithout | scripts/fix_imports.py:17-22 | the output holds no character absent from both the input and the replacements |
| ImportRewriteExamples.FromStatement | scripts/fix_imports.py:17 | `from digitalkin.` becomes `from digitalkin_proto.digitalkin.` whatever stands before or after it (no word boundary), and the text on either side is rewritten on its own |
| ImportRewriteExamples.FromStatementAlone | scripts/fix_imports.py:17 | with other text that holds no `d`, such as `x = 1; `, the statement is the only change |
| ImportRewriteExamples.ImportStatement | scripts/fix_imports.py:20-22 | `import`, any non-empty run of whitespace and `digitalkin.` become `import digitalkin_proto.digitalkin.` in any context, and the text on either side is rewritten on its own |
| ImportRewriteExamples.Untouched | scripts/fix_imports.py:17-22 | text without some character of `digitalkin.`, such as `import digitalkin` (no dot), comes out unchanged |
| PathGlob.GlobMatch | scripts/fix_imports.py:9 | a whole name against a pattern of literal characters and `*`, case-sensitively. No `ensures` of its own; `StarMatchesAll`, `LiteralThenStar`, `LeadingStar` and `SourceGlobIffContainsPy` pin it down |
| PathGlob.StarMatchesAll | scripts/fix_imports.py:9 | `*` matches every name |
| PathGlob.LiteralThenStar | scripts/fix_imports.py:9 | literal characters followed by `*` match exactly the names starting with them |
| PathGlob.LeadingStar | scripts/fix_imports.py:9 | a leading `*` lets the rest of the pattern match any suffix of the name |
| PathGlob.SourceGlobIffContainsPy | scripts/fix_imports.py:9 | `*.py*` accepts a name if and only if it contains `.py` |
| PathGlob.SourceFilesAccepted | scripts/fix_imports.py:9 | every `.py` and `.pyi` name is accepted |
| PathGlob.OtherFilesAccepted | scripts/fix_imports.py:9 | any name with `.py` inside is accepted too, such as `.pyc` and `x.py.bak` |
| PathGlob.WithoutYRejected | scripts/fix_imports.py:9 | a name without a lower-case `y` (`README.md`, `setup.PY`) is rejected |
| FixImports.IsSourceWalk | scripts/fix_imports.py:9 | what `rglob("*.py*")` yields: entries strictly below the root whose name matches the glob, none twice; an entry in a directory that cannot be listed may be missing. A predicate with no `ensures`; `FixImports`, `OnlySourceFilesChange`, `RunTwice` and `MissingRootNoop` require it |
| FixImports.ProcessFile | scripts/fix_imports.py:12-30 | a file is written exactly when it decodes and no fault hits it, and then it holds the encoded rewrite of its text. Undecodable text is reported if and only if no read fault came first. A failure carries the fault's message. A file that does not decode, or cannot be read, keeps its bytes |
| FixImports.Visit | scripts/fix_imports.py:10-30 | an entry stays a regular file exactly when it was one; anything else, and a file that does not decode, is left as it was |
| FixImports.OutcomeEvent | scripts/fix_imports.py:26-30 | the line printed when a file's processing ends names that file |
| FixImports.TranslateNewlines | scripts/fix_imports.py:13-14 | text-mode reading leaves no carriage return and never lengthens the text |
| FixImports.TranslateUnits | scripts/fix_imports.py:13-14 | text-mode reading turns `\r\n` into `\n` and a lone `\r` into `\n`, and keeps every other character |
| FixImports.TranslateAppend | scripts/fix_imports.py:13-14 | the translation of a text is the translation of its pieces, joined, wherever the text is split except inside a `\r\n`; with `TranslateUnits` this fixes its value on every text |
| FixImports.TranslateNewlinesFixed | scripts/fix_imports.py:13-14 | newline translation leaves a text unchanged if and only if it holds no carriage return |
| FixImports.ProcessOne | scripts/fix_imports.py:12-30 | one file's `try` block: a read failure keeps the content, undecodable bytes are skipped, otherwise both rules are applied and the result written, or the write failure's leftover stays |
| FixImports.VisitEntry | scripts/fix_imports.py:10-30 | only a regular file is processed; it prints `Processing` and then its outcome, and only that entry changes |
| FixImports.FixImports | scripts/fix_imports.py:7-30 | after the loop the file system is `AfterRun`: every walked regular file is processed once, everything else untouched; the printed events are `RunLog` |
| FixImports.RewrittenStable | scripts/fix_imports.py:13-25 | the text the script writes, read and rewritten again, is the same text |
| FixImports.VisitTwice | scripts/fix_imports.py:10-25 | without I/O faults and with a codec that decodes what it encodes, processing an entry a second time leaves it as the first time did |
| FixImports.RunTwice | scripts/fix_imports.py:7-30 | without I/O faults and with a codec that decodes what it encodes, a second run walks the same entries and changes no file |
| FixImports.EverySourceFileProcessed | scripts/fix_imports.py:9-25 | when every directory below the root can be listed, every regular file there whose name contains `.py` is reported as processed, and when it decodes and no fault hits it, it holds its rewritten text |
| FixImports.OnlySourceFilesChange | scripts/fix_imports.py:9-10 | only regular files below the root whose name contains `.py` can change |
| FixImports.NotUtf8Unchanged | scripts/fix_imports.py:27-28 | a file that is not valid UTF-8 keeps its content |
| FixImports.RunReports | scripts/fix_imports.py:10-30 | a path is reported as processed if and only if the walk yields it and it is a regular file. It is reported as fixed if and only if, in addition, it decodes and no I/O fault hits it, even when its content did not change. It is reported as skipped (not UTF-8) if and only if it does not decode and no read fault came first. An error with message `m` is reported if and only if a fault hits it, `m` is the fault's message, and the fault is a read fault or the file decodes |
| FixImports.MissingRootNoop | scripts/fix_imports.py:9 | when the root is missing or not a directory, the walk is empty, no file changes and nothing is printed |

## Left out

- `src/agentic_mesh_protocol/__version__.py` is not part of this model. It is a call into `importlib.metadata` with a constant fallback.
- The entry point at `scripts/fix_imports.py:33-34`, which hard-codes the directory `src/digitalkin_proto`. The root is a parameter.
- Real I/O. The walk's order, the UTF-8 codec and the failures of reading or writing a file are parameters. `rglob` is characterised by `IsSourceWalk`: matching entries below the root, none twice. A directory `rglob` cannot list is skipped silently, so the walk may miss entries; `ListsAll` states when it misses none.
- A failing `path.is_file()` at `scripts/fix_imports.py:10`. The call stands outside the `try`, so a stat error other than "not found" (a directory with read but no search permission) ends the whole run. The model assumes every walked entry can be stat'ed.
- Symbolic links. `is_file()` follows them and `rglob` does not descend into linked directories. The model knows regular files, directories and other entries only.
- What a failed write leaves on disk. `open(path, "w")` truncates first, so the leftover content is part of the fault and the model claims nothing about it.
- The exact wording of the printed lines. Each line is an `Event` carrying the path and, for errors, the exception's message.
- A failing `print` and exceptions outside `Exception` (`KeyboardInterrupt`). The model assumes printing succeeds and the run is never interrupted.
- Windows behaviour: case-insensitive globbing and `\n` written as `\r\n`. The model follows POSIX.
- Glob syntax other than literal characters and `*` (`?`, `[...]`), which `*.py*` does not use.
- FixImports.RunTwice: stated only for runs without I/O faults and for a codec that decodes what it encodes. A fault on the first run can leave arbitrary bytes behind.
