# findCname: a Dafny model of the dig-output scraper

findCname reads a file of domain names (or URLs), runs `dig CNAME <domain>`
for each one and prints, per domain, the DNS status dig reported and the
CNAME records it saw. The logic is in `get_dns_records`, which scrapes dig's
text output into a pair `(status, cname_records)`, and in `main`, which
filters the input lines and prints one block per domain.

The model takes the dig run's exit code and standard output as inputs and
covers:

- **Exit-code gate.** A non-zero exit code gives `Error (dig command failed)`
  and no records, whatever the output holds.
- **Status lookup.** The status comes from the first line starting with
  `;; ->>HEADER<<-`. It is the word captured by the leftmost match of
  `status: (\w+),` in that line. The loop stops at that line even when the
  pattern does not match it. The pattern's meaning is given as a predicate
  and is proved to agree with the greedy one-position matcher.
- **Fallback status.** `Error (Status not found)` when there is no header
  line, or when the first one has no match.
- **Record collection.** Every output line (split on `\n`) that contains
  `CNAME` contributes its last whitespace-separated token, in line order,
  whatever the status. This includes dig's echo line and question line.
- **Input filter and report.** One domain per input line whose stripped text
  is non-empty. Each domain's output block is its status line, then its
  heading and records only when the status is exactly `NOERROR`, then a
  blank line.

Files:

- `wrappers.dfy`: `Option`, standing in for Python's `None`.
- `text.dfy`: the Python string operations the scraper uses: `str.isspace`,
  `startswith`, `in`, `split('\n')`, `split()`, `strip()`.
- `seqs.dfy`: the positions in a sequence that satisfy a predicate, and
  list comprehensions.
- `dig_output.dfy`: `get_dns_records`. The two loops are methods:
  `FindStatus` and `CollectRecords`, composed by `GetDnsRecords`. Each is
  proved against a specification function (`StatusOf`, `RecordsOf`,
  `ParseDig`), and the lemmas are stated about those functions.
- `find_cname.dfy`: the domain-list comprehension and the printing loop of
  `main`, written as pure functions from lines to lines.

The status words dig prints (NOERROR, NXDOMAIN, SERVFAIL, ...) render the
RCODE field of section 4.1.1 of RFC 1035. The scraper never checks the word
against that list, and the model does not check it either.

Two behaviours of the code that a reader might not expect:

- Records are collected whatever the status is; only printing depends on
  the status being `NOERROR`. `RecordsWithoutStatus` shows a not-found
  status that comes with a record.
- The `--list` help text (findcname.py:59) asks for a file of domain names,
  but every stripped line goes through `urlparse(line.strip()).hostname`,
  which gives `None` for a name without a scheme. `Domains` therefore
  yields `Option` values. The program then calls `get_dns_records(None)`,
  which puts `None` in the argument list of `subprocess.run`
  (findcname.py:20); that raises `TypeError` and ends the run.

## Model

| member | source | states |
|---|---|---|
| `Text.IsSpace` | findcname.py:45 | the characters CPython's `str.isspace` accepts: the whitespace that `split()` and `strip()` (line 64) remove; `TokensAroundSpace` and `TrimStart`/`TrimEnd` characterise its use |
| `Text.SplitOn` | findcname.py:25 | `split('\n')` always gives at least one piece, even for empty output |
| `Text.SplitOnPiecesLackSep` | findcname.py:25 | no piece of `split('\n')` contains a newline |
| `Text.SplitThenJoin` | findcname.py:25 | joining the pieces with the separator gives back the original output exactly |
| `Text.JoinThenSplit` | findcname.py:25 | splitting joined separator-free pieces gives back the pieces (inverse direction) |
| `Text.SplitOnAppend` | findcname.py:25 | the lines of `a + "\n" + b` are the lines of `a` followed by the lines of `b` |
| `Text.Tokens` | findcname.py:45 | every token of `split()` is non-empty and contains no whitespace |
| `Text.TokensEmptyIffBlank` | findcname.py:45 | `split()` is empty exactly when the line is all whitespace |
| `Text.TokensAroundSpace` | findcname.py:45 | a whitespace character separates tokens: the tokens of `a + c + b` are those of `a` then those of `b` |
| `Text.TokensOfWord` | findcname.py:45 | a non-empty word without whitespace splits into itself alone |
| `Text.LastToken` | findcname.py:45 | `split()[-1]` is non-empty and contains no whitespace |
| `Text.LastTokenAfterSpace` | findcname.py:45 | a line ending in whitespace and then a word has that word as its last token |
| `Text.LastTokenIsTrailingRun` | findcname.py:45 | the line is `pre + token + post`, with `post` all whitespace and `pre` empty or ending in whitespace |
| `Text.Strip` | findcname.py:64 | `strip()` is empty exactly when the line is blank; a non-empty result starts and ends with non-whitespace |
| `Text.TrimStart` | findcname.py:64 | the left strip is a suffix of the line, only whitespace was removed, and it does not start with whitespace |
| `Text.TrimEnd` | findcname.py:64 | the right strip is a prefix of the line, only whitespace was removed, and it does not end with whitespace |
| `DigOutput.MatchStatusAt` | findcname.py:32 | one attempt of `status: (\w+),` at a position, greedy run then comma; a capture is always a non-empty word, and `MatchStatusAtMeansMatch` equates it with the pattern's meaning |
| `DigOutput.MatchStatusAtMeansMatch` | findcname.py:32 | the greedy matcher at position p captures `w` iff the line reads `status: ` + `w` + `,` there, with `w` a non-empty word (both directions) |
| `DigOutput.FindStatusMatch` | findcname.py:32 | the search returns a position where the pattern matches, and no earlier position matches; no result means no position matches |
| `DigOutput.StatusInLine` | findcname.py:32-34 | `re.search(...).group(1)` or None; a capture is always a non-empty word, and `StatusInLineIsLeftmostMatch` shows it is the leftmost match |
| `DigOutput.StatusInLineIsLeftmostMatch` | findcname.py:32-34 | the captured status is `w` iff `status: w,` occurs and no `status: <word>,` starts earlier (both directions) |
| `DigOutput.StatusInLineNoneIffNoMatch` | findcname.py:32-34 | no status is captured iff the line has no `status: <word>,` anywhere |
| `DigOutput.FirstHeader` | findcname.py:30-31 | the index found starts with the header prefix and no earlier line does; no index means no line does |
| `DigOutput.StatusOf` | findcname.py:27-39 | the status the header loop leaves: the capture from the first header line, or None; a found status is always a non-empty word (`StatusNotFoundIff` and `FoundStatusFromFirstHeader` characterise it) |
| `DigOutput.FindStatus` | findcname.py:27-35 | the header loop, with its early exit, leaves exactly the status captured from the first header line, or None |
| `DigOutput.StatusIgnoresLaterLines` | findcname.py:30-35 | once a header line has been seen, appending lines, later header lines included, never changes the status |
| `DigOutput.CnameLineHasTokens` | findcname.py:44-45 | a line containing `CNAME` has at least one token, so `split()[-1]` is defined on it |
| `DigOutput.RecordOf` | findcname.py:45 | a record taken from a CNAME line is non-empty and contains no whitespace |
| `DigOutput.RecordsOf` | findcname.py:43-45 | every collected record is non-empty and contains no whitespace |
| `DigOutput.CollectRecords` | findcname.py:43-45 | the record loop collects exactly `RecordsOf(lines)` |
| `DigOutput.RecordsFollowCnameLines` | findcname.py:43-45 | one record per line containing `CNAME`, in line order: the k-th record is the last token of the k-th such line |
| `DigOutput.RecordsOfAppend` | findcname.py:43-45 | records are collected line by line: records of `a + b` are the records of `a` followed by those of `b` |
| `DigOutput.EchoLinesYieldRecords` | findcname.py:44-45 | a non-answer line that mentions CNAME (the echoed command, the question `... IN CNAME`) contributes its final word, `CNAME` itself included |
| `DigOutput.ParseDig` | findcname.py:23-53 | the pair `get_dns_records` returns: its status is the dig error, the not-found error or a captured word; `StatusClassifies` says which and `RecordsFollowCnameLines` gives the records |
| `DigOutput.GetDnsRecords` | findcname.py:23-53 | the result is `ParseDig(returncode, stdout)`; a non-zero exit code gives `Error (dig command failed)` and no records |
| `DigOutput.StatusClassifies` | findcname.py:23-53 | the dig error appears iff the exit code is non-zero; the not-found error appears iff the exit code is 0 and nothing was captured; otherwise the status is the captured word |
| `DigOutput.StatusNotFoundIff` | findcname.py:37-39 | with exit code 0: `Error (Status not found)` iff there is no header line, or the first one holds no `status: <word>,` |
| `DigOutput.FoundStatusFromFirstHeader` | findcname.py:30-39 | any other status is the word of the leftmost `status: <word>,` in the first header line |
| `DigOutput.ParseDigAppend` | findcname.py:25-47 | the records of `a + "\n" + b` are those of `a` then those of `b`; after a header line in `a`, the status is that of `a` |
| `DigOutput.RecordsWithoutStatus` | findcname.py:37-47 | records do not depend on the status: a one-line output without a header line gives `Error (Status not found)` and a non-empty record list |
| `DigOutput.RecordsWithoutStatusExample` | findcname.py:37-47 | `a CNAME b` gives `(Error (Status not found), ["b"])` |
| `FindCname.Domains` | findcname.py:64 | the comprehension over the file's lines: the host of each line whose stripped text is non-empty; characterised by `DomainsFollowNonBlankLines` and `BlankLineIgnored` |
| `FindCname.DomainsFollowNonBlankLines` | findcname.py:64 | one domain per input line whose stripped text is non-empty, in file order; the k-th domain is the host of the k-th such line |
| `FindCname.BlankLineIgnored` | findcname.py:64 | a blank or whitespace-only line adds nothing to the domain list |
| `FindCname.Block` | findcname.py:69-74 | the lines printed for one domain: status line, heading and records only for `NOERROR`, blank line; `ReportBlockLines` states where they land in the output |
| `FindCname.Report` | findcname.py:67-74 | the printing loop over the results, block after block; characterised by `ReportAppend`, `ReportLayout` and `ReportLength` |
| `FindCname.ReportAppend` | findcname.py:67-74 | the output for two lists of domains is the output for the first followed by the output for the second |
| `FindCname.ReportLayout` | findcname.py:67-74 | the k-th domain's block sits intact right after the blocks of the domains before it |
| `FindCname.ReportLength` | findcname.py:67-74 | two lines per domain, plus a heading and the records for each `NOERROR` domain |
| `FindCname.ReportBlockLines` | findcname.py:69-74 | in the output, a non-`NOERROR` domain shows only its status line and a blank line; a `NOERROR` domain shows its heading and then exactly its records |
| `FindCname.Run` | findcname.py:66-74 | everything `main` prints after reading the file: the report for each domain's `get_dns_records` pair; `ResultsAreLookups`, `NoErrorRecordsPrinted`, `OtherStatusPrintsNoRecords` and `FailedDigPrintsNoRecords` characterise it |
| `FindCname.Results` | findcname.py:67-68 | one result per domain; `ResultsAreLookups` gives each one |
| `FindCname.ResultsAreLookups` | findcname.py:67-68 | each domain's result is the pair `get_dns_records` gives for dig's answer about it |
| `FindCname.FailedDigPrintsNoRecords` | findcname.py:48-53 | a domain whose dig run failed shows `Status for <domain>: Error (dig command failed)` and a blank line, nothing else |
| `FindCname.NoErrorRecordsPrinted` | findcname.py:68-74 | when get_dns_records gives `NOERROR` for a domain, all its records appear in the output, in order, right after its heading |
| `FindCname.OtherStatusPrintsNoRecords` | findcname.py:68-74 | when get_dns_records gives any other status, the domain's block is its status line and a blank line, with none of its records |

## Left out

- Running `dig` through `subprocess.run` (findcname.py:20) is external process I/O. Its exit code and standard output are parameters: `GetDnsRecords` takes them directly, and `Run` takes a function `dig` from domain to `(exit code, output)`. Being a function, `dig` gives a domain listed twice the same answer both times, while two real runs of dig need not agree; no property stated here depends on this.
- The contents of `stderr` and the error messages printed at findcname.py:40 and 51-52 are console output. They do not affect the returned pair.
- The banner (findcname.py:7-16) and argument parsing (findcname.py:58-60) are user interface.
- Opening and reading the list file (findcname.py:63) is file I/O. The model starts from the file's lines.
- `urlparse(...).hostname` (findcname.py:64) is a library call. It is the parameter `hostname`, which may return None.
- `FindCname.Results`: takes the domains as strings. For a None host from `Domains` the program raises `TypeError` in `subprocess.run` (findcname.py:20) and stops; the model does not represent that crash.
- `DigOutput.MatchStatusAtMeansMatch`: `\w` is taken as ASCII letters, digits and underscore. Python's `\w` also matches non-ASCII letters and digits, so a status word containing them is not modelled.
- Printing is modelled as the list of output lines. The model does not cover the interleaving of those lines with the error messages that go to the same stream.
