# sql-server-sync, modelled in Dafny

`sync.py` checks a directory of local stored-procedure files against the
definitions held by one or more SQL Server databases. For every enabled
server (optionally narrowed by a comma-separated `--context` list) it looks at
each `*.sql` file. It substitutes the server's `{key}` placeholders into the
file's lines and fetches the server's definition with `sp_helptext`. The two
line sequences are compared case-insensitively. Depending on the result and on
the `--create` / `--update` flags, the procedure is created on the server,
altered there, reported as missing, reported as matching, or reported as
failed with a list of mismatching lines. Once a server has
`MaxFailedFiles` failures, the rest of its files are skipped.

The model keeps this text logic and the two loops that drive it. Database
access, the file system, the console and the configuration file become
parameters:

- `wrappers.dfy`: `Option`.
- `text.dfy` (module `Text`): case folding, `"sep".join`, `split(",")`,
  `rstrip("\r\n")`, and `str(n)` for the length record.
- `rewrite.dfy` (module `Rewrite`): left-to-right, non-overlapping replacement
  of a literal pattern, optionally ignoring case. This is what all three
  `re.sub` calls do for the patterns used here: the one in `ReplaceVars` matches
  case-sensitively, and the two that rewrite the statement keyword ignore case. The module proves when a replacement
  leaves no occurrence behind and when it commutes with a separator character.
- `compare.dfy` (module `Compare`): `CompareFileToDatabase` as a `while` loop,
  proved equal to a specification `Report`, together with the properties of
  `Report`.
- `substitution.dfy` (module `Substitution`): `ReplaceVars` as nested loops that
  overwrite an `array<string>` in place, proved equal to substitution done line
  by line.
- `reconcile.dfy` (module `Reconcile`): the row loop of `ReadProcedure`, the
  statements built by `UpdateDatabase` / `InsertDatabase`, and the decision of
  `CheckOneFile`, both as a function and as a method that runs the loops above.
- `driver.dfy` (module `Driver`): server selection and the per-server file loop
  with its failure ceiling, as methods proved against a predicate that
  characterises their result.

Configuration values become parameters: `MaxErrorsInFile` becomes `maxErrors`,
`MaxFailedFiles` becomes `maxFailed`, and `--create`, `--update` and
`--context` become `create`, `update` and `context`. The outcome of a
database write is the `Outcome` value carrying the statement that
`cursor.execute` would receive.

## Model

| member | source | states |
|---|---|---|
| Text.Fold | sync.py:45-46 | case folding keeps the length of a line, leaves no upper-case ASCII letter, and turns each character into the same letter ignoring case |
| Text.FoldEqualIff | sync.py:45-49 | two lines fold to the same string iff they have the same length and each pair of characters is the same letter ignoring case |
| Text.FoldIdempotent | sync.py:45-46 | folding an already folded line changes nothing |
| Text.Split | sync.py:162 | `split(",")` yields at least one part, and no part contains the delimiter |
| Text.JoinSplit | sync.py:162 | `Join` (`"sep".join`) of the parts of a split with the delimiter gives back the original string |
| Text.StripLineEnd | sync.py:21 | `rstrip("\r\n")` returns a prefix of the row that does not end in CR or LF, and everything removed is CR or LF |
| Text.DecimalRoundTrip | sync.py:54-56 | `DecimalString` (`str(n)`) of a length is a non-empty string of digits, with no leading zero unless `n` is 0, that reads back as `n` |
| Text.DecimalStringInjective | sync.py:53-56 | different lengths give different strings, so the length record always shows two different values |
| Rewrite.ReplaceAllNoOccurrence | sync.py:84 | `ReplaceAll` (`re.sub` on a literal pattern, as at sync.py:84, 126 and 135) on a string that does not contain the pattern returns the string unchanged |
| Rewrite.ReplaceAllAround | sync.py:126 | a character that is not in the pattern cannot be part of a match, so `ReplaceAll` works independently on the two sides of it |
| Rewrite.NoOccurrenceRemains | sync.py:126 | if neither the pattern nor its replacement can be formed from parts of the other, the result of `ReplaceAll` contains no occurrence of the pattern |
| Compare.DiffIndices | sync.py:44-51 | the positions whose folded lines differ are strictly increasing, all below the bound, and each of them differs |
| Compare.CompareFileToDatabase | sync.py:40-58 | the loop returns exactly `Report`; with a cap of at least 1, the result is empty iff the two sequences are equivalent |
| Compare.DiffIndicesPrefix | sync.py:44 | the differing positions found when the walk stops early are the first differing positions of the whole common part |
| Compare.ContentRecordsAreFirstMismatches | sync.py:44-51 | the content records lie in the common part, are in increasing line order, hold the folded lines of a position where they differ, and a differing position is recorded iff fewer than `maxErrors` differing positions come before it |
| Compare.ReportShape | sync.py:44-56 | in `Report`, there are at most `maxErrors` content records; when the lengths differ, the length record is appended last, even past the cap, equal to `LengthRecord`: line 0 and `DecimalString` of the two lengths, digit strings that read back as those lengths and therefore differ |
| Compare.ReportEmptyIffEquivalent | sync.py:44-58 | with `maxErrors >= 1`, `Report` is empty iff the lengths are equal and every pair of lines is equal after folding; a difference in length alone is a failure |
| Compare.ReportWithoutCap | sync.py:44-56 | with `maxErrors <= 0`, no line is compared, and `Report` is empty iff the lengths are equal |
| Compare.ReportIgnoresCase | sync.py:45-46 | `Report` depends on the lines only through their folded forms |
| Substitution.ReplaceVars | sync.py:80-86 | the same array is returned, and its lines are rewritten in place into the line-by-line substitution of all variables in order |
| Substitution.SubstituteClearsTokens | sync.py:80-86 | with brace-free names and values and a line without nested braces, `Substitute` leaves no placeholder of any variable and creates no nesting |
| Substitution.SubstituteWithoutTokens | sync.py:80-86 | `Substitute` leaves a line containing no placeholder unchanged |
| Substitution.ReplaceVarsClearsTokens | sync.py:80-86 | under those conditions, no line keeps a placeholder, and substituting a second time changes nothing |
| Substitution.NestedBracesDefeatSubstitution | sync.py:80-86 | brace-free values alone are not enough: `{"a": "a"}` turns `{{a}}` into `{a}`, which still contains the placeholder and changes again on a second run |
| Reconcile.ReadProcedure | sync.py:14-24 | with no answer the result is `None`; otherwise there is one line per row, each with its trailing CR/LF stripped; this is `FetchedLines` of the rows |
| Reconcile.UpdateStatement | sync.py:124-126 | the update statement (lines joined with CR LF, `create` replaced by `alter` in any case) contains no `create` in any case |
| Reconcile.InsertStatement | sync.py:133-135 | the insert statement (lines joined with CR LF, `alter` replaced by `create` in any case) contains no `alter` in any case |
| Reconcile.CheckOneFile | sync.py:89-121 | substituting, reading and comparing give the decision `Reconcile` computes, and the returned boolean is `Succeeded` of that decision |
| Reconcile.ReconcileDecisionTable | sync.py:97-121 | for `Reconcile` with `MaxErrorsInFile >= 1`: missing and `create` gives the insert; missing otherwise gives a failure with no write; equivalent gives OK with no write; different and `update` gives the update; otherwise a failure carrying the non-empty report; success iff created, equivalent or updated |
| Reconcile.ReconcileWithoutCap | sync.py:97-121 | for `Reconcile` with `MaxErrorsInFile <= 0`: a file with the server's line count passes whatever its content; otherwise it is updated or fails, depending on `update` |
| Reconcile.KeywordsSeparated | sync.py:126 | neither `create` nor `alter`, in any case, can be formed by one keyword together with text next to it |
| Reconcile.RewriteJoined | sync.py:125-126 | a keyword cannot span a CR LF, so rewriting the joined text equals joining the lines rewritten one at a time |
| Reconcile.UpdateStatementByLine | sync.py:124-126 | the update statement is the lines joined with CR LF, each rewritten on its own, and a line without `create` is kept unchanged |
| Reconcile.InsertStatementByLine | sync.py:133-135 | the insert statement is the lines joined with CR LF, each rewritten on its own, and a line without `alter` is kept unchanged |
| Driver.IncludeListRoundTrip | sync.py:161-164 | `IncludeList` of a context has at least one item, no item contains a comma, and joining the items with commas gives back `--context` |
| Driver.SelectedMembership | sync.py:166-171 | a server is in `SelectedServers` iff it is configured, not disabled, and not left out of a non-empty include list |
| Driver.SelectedServersExactly | sync.py:161-171 | without `--context`, every enabled server is checked; with it, exactly the enabled servers whose id is one of its comma-separated items |
| Driver.SqlFilesMembership | sync.py:180-181 | a directory entry is in `SqlFiles` iff it is listed and `IsSqlFile` holds for it (its name ends in `.sql`) |
| Driver.CheckServer | sync.py:179-198 | the file loop satisfies `ServerScan`: the checked files are the `.sql` entries of the handled prefix, the counter is the number of failures among them, and the loop stops early only right after the entry that brought the counter to `MaxFailedFiles` |
| Driver.FailuresStep | sync.py:181-183 | handling one more entry raises the failure counter by zero or one |
| Driver.FailuresMonotone | sync.py:181-183 | the failure counter never decreases along the listing |
| Driver.ServerScanUnique | sync.py:179-198 | `ServerScan` determines how many entries are handled, which files are checked and the final count |
| Driver.ServerScanCeiling | sync.py:182-198 | with `MaxFailedFiles >= 1`, the counter never exceeds `MaxFailedFiles` |
| Driver.ServerScanCompletes | sync.py:180-198 | if fewer files fail than `MaxFailedFiles` allows, every entry is handled and every `.sql` file is checked |
| Driver.ServerScanWithoutCeiling | sync.py:197-198 | with `MaxFailedFiles <= 0`, the loop stops after the first entry, whether or not that entry is a `.sql` file |
| Driver.Run | sync.py:166-198 | one run per selected server, in configuration order, each of which satisfies `ServerScan` for that server's outcomes |

## Left out

- Database access: connecting, `sp_helptext`, `fetchall`, `execute` and
  `commit`. `ReadProcedure` receives the fetched rows as an `Option` (`None`
  for a `ProgrammingError`). A write is the statement carried by
  `Outcome.Created` / `Outcome.Updated`. In `Driver.Run`, `passes(server)(name)`
  stands for what `CheckOneFile` returns for that file on that server.
- Errors that end the whole run: an exception from `cursor.execute` or
  `commit` (sync.py:127-128, 136-137), any error other than
  `pyodbc.ProgrammingError` from the `sp_helptext` query or `fetchall` in
  `ReadProcedure` (sync.py:16-17; only `ProgrammingError` is caught, at
  sync.py:23),
  from `pyodbc.connect` (sync.py:175-176)
  or from `ReadFile` (sync.py:28-29, for example a file that is not valid
  UTF-8) is not caught. In the model a `Created` or `Updated` outcome always
  succeeds, and `passes` always returns a boolean.
- File system: `ReadFile` (`splitlines`), `os.listdir` and `os.path.join`.
  File lines and the directory listing are inputs. The listing order is
  whatever the input sequence gives.
- Console output: `print`, the coloured status words, `DumpAsAscii` and the
  `--ascii` flag, none of which change any result.
- argparse and `config.json`: replaced by parameters as described above.
  `Server` keeps `Id`, `Description`, `Disabled` (false when absent) and
  `Vars`. The connection settings are left out.
- `QueryModifyDate`, `FileModificationTime`, `GenerateUnifiedDiff` and the
  commented-out `--unified` branch: dead code around datetime and difflib.
- Text.Fold: `str.casefold` is modelled as ASCII lower-casing. Full Unicode
  folding, which can change a line's length (`ß` becomes `ss`), is not
  modelled.
- Rewrite.ReplaceAll: `re.sub` is modelled as literal replacement. This assumes
  that keys contain no regular-expression metacharacters (a key made only of
  digits would make `{key}` a quantifier) and that values contain no
  backslashes, which `re.sub` would read as escapes. Case-insensitive matching
  is ASCII-only. That is exact for the letters of `create` and `alter`.
- Driver.IsSqlFile: `fnmatch` is taken as case-sensitive, as on POSIX. On
  Windows, `normcase` would also accept `.SQL`.
- Substitution.ReplaceVarsClearsTokens: one might expect that if no value
  contains a placeholder, no placeholder remains after `ReplaceVars` and a
  second run changes nothing. That is false:
  `Substitution.NestedBracesDefeatSubstitution` shows `{"a": "a"}` turning
  `{{a}}` into `{a}`, which still holds the placeholder.
  The property is proved under a stronger hypothesis: names and values contain
  no braces, and no line nests one brace pair inside another.
- Reconcile.CheckOneFile: the object name that `splitext` derives from the file
  name is only used for the database query, so the method receives the rows
  directly.
