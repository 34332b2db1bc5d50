/**
 * Scraping the text that `dig CNAME <domain>` prints: the exit-code gate,
 * the status taken from the first `;; ->>HEADER<<-` line, and the CNAME
 * record list taken from every line that mentions `CNAME`.
 *
 * The status names dig prints (NOERROR, NXDOMAIN, SERVFAIL, ...) render the
 * RCODE field of section 4.1.1 of RFC 1035; the scraper never checks the
 * word against that list, it copies whatever word the pattern captures.
 */
module DigOutput {
  import opened Wrappers
  import opened Text
  import opened Seqs

  const HeaderPrefix := ";; ->>HEADER<<-"
  const StatusKey := "status: "
  const StatusNotFound := "Error (Status not found)"
  const DigFailed := "Error (dig command failed)"
  const NoError := "NOERROR"

  /** The result pair `(status, cname_records)`. */
  datatype Lookup = Lookup(status: string, records: seq<string>)

  // ---------------------------------------------------------------------
  // The pattern `status: (\w+),` searched with re.search

  /** `\w`, restricted to ASCII letters, digits and underscore. */
  predicate IsWordChar(c: char)
  {
    'a' <= c <= 'z' || 'A' <= c <= 'Z' || '0' <= c <= '9' || c == '_'
  }

  /** A string `\w+` matches in full. */
  predicate IsWord(w: string)
  {
    w != [] && forall i :: 0 <= i < |w| ==> IsWordChar(w[i])
  }

  /** The regular expression's meaning: starting at `p`, `line` reads
      "status: ", then the captured group `w` (one or more word characters),
      then a comma. */
  ghost predicate IsStatusMatch(line: string, p: nat, w: string)
  {
    IsWord(w) && OccursAt(line, StatusKey + w + ",", p)
  }

  /** What the regex engine does at start position `p`: match the literal,
      take the greedy run of word characters, then require a comma. Since a
      comma is not a word character, backtracking to a shorter run never
      helps, so one attempt decides. */
  function MatchStatusAt(line: string, p: nat): (r: Option<string>)
    ensures r.Some? ==> IsWord(r.value)
  {
    if OccursAt(line, StatusKey, p) then
      var rest := line[p + |StatusKey|..];
      var n := PrefixRun(rest, IsWordChar);
      if 0 < n < |rest| && rest[n] == ',' then Some(rest[..n]) else None
    else None
  }

  /** The engine at one position agrees with the pattern's meaning: it
      captures `w` exactly when `status: w,` with `w` a word occurs at `p`. */
  lemma MatchStatusAtMeansMatch(line: string, p: nat, w: string)
    ensures MatchStatusAt(line, p) == Some(w) <==> IsStatusMatch(line, p, w)
  {
    if IsStatusMatch(line, p, w) {
      MatchImpliesCapture(line, p, w);
    }
    if MatchStatusAt(line, p) == Some(w) {
      CaptureImpliesMatch(line, p, w);
    }
  }

  /** Where `status: w,` occurs, the engine captures exactly `w`: the greedy
      run of word characters stops at the comma. */
  lemma MatchImpliesCapture(line: string, p: nat, w: string)
    requires IsStatusMatch(line, p, w)
    ensures MatchStatusAt(line, p) == Some(w)
  {
    var k := |StatusKey|;
    var m := StatusKey + w + ",";
    assert line[p..p + |m|] == m;
    assert forall i :: 0 <= i < |m| ==> line[p + i] == m[i];
    assert m[..k] == StatusKey;
    SliceOfSlice(line, p, p + |m|, 0, k);
    assert line[p..p + k] == StatusKey;
    var rest := line[p + k..];
    assert forall i :: 0 <= i < |w| ==> rest[i] == w[i] by {
      forall i | 0 <= i < |w| ensures rest[i] == w[i] {
        assert rest[i] == line[p + k + i] == m[k + i];
      }
    }
    assert rest[|w|] == ',' by {
      assert rest[|w|] == line[p + k + |w|] == m[k + |w|];
    }
    var n := PrefixRun(rest, IsWordChar);
    assert n == |w|;
    assert rest[..n] == w;
  }

  /** What the engine captures is preceded by `status: ` and followed by a
      comma, and consists of word characters. */
  lemma CaptureImpliesMatch(line: string, p: nat, w: string)
    requires MatchStatusAt(line, p) == Some(w)
    ensures IsStatusMatch(line, p, w)
  {
    var k := |StatusKey|;
    assert OccursAt(line, StatusKey, p);
    var rest := line[p + k..];
    var n := PrefixRun(rest, IsWordChar);
    assert w == rest[..n];
    var m := StatusKey + w + ",";
    assert line[p..p + k] == StatusKey;
    assert forall i :: 0 <= i < |m| ==> line[p + i] == m[i] by {
      forall i | 0 <= i < |m| ensures line[p + i] == m[i] {
        if i < k {
          assert line[p + i] == line[p..p + k][i];
        } else if i < k + n {
          assert line[p + i] == rest[i - k];
        } else {
          assert line[p + i] == rest[n];
        }
      }
    }
    assert line[p..p + |m|] == m;
  }

  /** `re.search`: the leftmost position from `from` on where the pattern
      matches, if any. */
  function FindStatusMatch(line: string, from: nat): (r: Option<nat>)
    ensures r.Some? ==> from <= r.value <= |line| && MatchStatusAt(line, r.value).Some?
    ensures forall q :: from <= q <= |line| && (r.None? || q < r.value) ==> MatchStatusAt(line, q).None?
    decreases |line| + 1 - from
  {
    if from > |line| then None
    else if MatchStatusAt(line, from).Some? then Some(from)
    else FindStatusMatch(line, from + 1)
  }

  /** `match.group(1)` of `re.search(r"status: (\w+),", line)`, or None
      when the search finds nothing. */
  function StatusInLine(line: string): (r: Option<string>)
    ensures r.Some? ==> IsWord(r.value)
  {
    match FindStatusMatch(line, 0)
    case None => None
    case Some(p) => MatchStatusAt(line, p)
  }

  /** The captured status is the word of the leftmost `status: <word>,` in
      the line, and a line with such an occurrence always yields one. */
  lemma StatusInLineIsLeftmostMatch(line: string, w: string)
    ensures StatusInLine(line) == Some(w) <==>
              exists p: nat :: IsStatusMatch(line, p, w)
                && forall q: nat, v :: q < p ==> !IsStatusMatch(line, q, v)
  {
    var r := FindStatusMatch(line, 0);
    if StatusInLine(line) == Some(w) {
      var p := r.value;
      MatchStatusAtMeansMatch(line, p, w);
      forall q: nat, v | q < p ensures !IsStatusMatch(line, q, v) {
        MatchStatusAtMeansMatch(line, q, v);
      }
    }
    if exists p: nat :: IsStatusMatch(line, p, w) && forall q: nat, v :: q < p ==> !IsStatusMatch(line, q, v) {
      var p: nat :| IsStatusMatch(line, p, w) && forall q: nat, v :: q < p ==> !IsStatusMatch(line, q, v);
      MatchStatusAtMeansMatch(line, p, w);
      if r.Some? && r.value != p {
        var v := MatchStatusAt(line, r.value).value;
        MatchStatusAtMeansMatch(line, r.value, v);
      }
    }
  }

  /** No status is captured exactly when the line has no `status: <word>,`. */
  lemma StatusInLineNoneIffNoMatch(line: string)
    ensures StatusInLine(line).None? <==> forall p: nat, v :: !IsStatusMatch(line, p, v)
  {
    if StatusInLine(line).None? {
      forall p: nat, v ensures !IsStatusMatch(line, p, v) {
        MatchStatusAtMeansMatch(line, p, v);
      }
    } else {
      var p := FindStatusMatch(line, 0).value;
      MatchStatusAtMeansMatch(line, p, MatchStatusAt(line, p).value);
    }
  }

  // ---------------------------------------------------------------------
  // The status taken from the first header line

  predicate IsHeaderLine(line: string)
  {
    StartsWith(line, HeaderPrefix)
  }

  /** Index of the first line that starts with the header prefix. */
  function FirstHeader(lines: seq<string>): (r: Option<nat>)
    ensures r.Some? ==> r.value < |lines| && IsHeaderLine(lines[r.value])
    ensures forall i :: 0 <= i < |lines| && (r.None? || i < r.value) ==> !IsHeaderLine(lines[i])
  {
    if lines == [] then None
    else if IsHeaderLine(lines[0]) then Some(0)
    else match FirstHeader(lines[1..])
      case None => None
      case Some(i) => Some(i + 1)
  }

  /** The status the header loop leaves behind (None when it found none). */
  function StatusOf(lines: seq<string>): (r: Option<string>)
    ensures r.Some? ==> IsWord(r.value)
  {
    match FirstHeader(lines)
    case None => None
    case Some(i) => StatusInLine(lines[i])
  }

  /** The header loop: scan for the first header line, search it for the
      status pattern, and stop there whether or not the pattern matched. */
  method FindStatus(lines: seq<string>) returns (status: Option<string>)
    ensures status == StatusOf(lines)
  {
    status := None;
    var i := 0;
    while i < |lines|
      invariant 0 <= i <= |lines|
      invariant forall j :: 0 <= j < i ==> !IsHeaderLine(lines[j])
      invariant status == None
    {
      if StartsWith(lines[i], HeaderPrefix) {
        status := StatusInLine(lines[i]);
        break;
      }
      i := i + 1;
    }
  }

  /** Once a header line has been seen, nothing after it can change the
      status, not even a later header line when the first one has no
      `status: <word>,`. */
  lemma {:induction false} StatusIgnoresLaterLines(lines: seq<string>, more: seq<string>)
    requires FirstHeader(lines).Some?
    ensures StatusOf(lines + more) == StatusOf(lines)
  {
    var i := FirstHeader(lines).value;
    var all := lines + more;
    assert all[i] == lines[i];
    assert forall j :: 0 <= j < i ==> all[j] == lines[j];
    assert FirstHeader(all) == Some(i);
  }

  // ---------------------------------------------------------------------
  // The CNAME records

  predicate IsCnameLine(line: string)
  {
    Contains(line, "CNAME")
  }

  /** A line that mentions CNAME has a last token, so `split()[-1]` never
      fails on it. */
  lemma CnameLineHasTokens(line: string)
    requires IsCnameLine(line)
    ensures Tokens(line) != []
  {
    var i: nat :| i <= |line| && OccursAt(line, "CNAME", i);
    assert line[i] == 'C';
    TokensEmptyIffBlank(line);
  }

  /** `line.split()[-1]` for a line that mentions CNAME. */
  function RecordOf(line: string): (r: string)
    requires IsCnameLine(line)
    ensures r != [] && NoSpace(r)
  {
    CnameLineHasTokens(line);
    LastToken(line)
  }

  /** The records the record loop collects from `lines`, defined from the
      last line backwards so that it follows the loop's progress. */
  function RecordsOf(lines: seq<string>): (r: seq<string>)
    ensures forall k :: 0 <= k < |r| ==> r[k] != [] && NoSpace(r[k])
  {
    if lines == [] then []
    else
      var line := lines[|lines| - 1];
      RecordsOf(lines[..|lines| - 1]) + if IsCnameLine(line) then [RecordOf(line)] else []
  }

  /** The record loop: append the last token of every line containing
      "CNAME", in line order. */
  method CollectRecords(lines: seq<string>) returns (records: seq<string>)
    ensures records == RecordsOf(lines)
  {
    records := [];
    var i := 0;
    while i < |lines|
      invariant 0 <= i <= |lines|
      invariant records == RecordsOf(lines[..i])
    {
      assert lines[..i + 1][..i] == lines[..i];
      if Contains(lines[i], "CNAME") {
        records := records + [RecordOf(lines[i])];
      }
      i := i + 1;
    }
    assert lines[..i] == lines;
  }

  /** One record per line mentioning CNAME, in line order: the k-th record
      is the last token of the k-th such line. */
  lemma {:induction false} RecordsFollowCnameLines(lines: seq<string>)
    ensures var idx := Positions(lines, IsCnameLine);
            |RecordsOf(lines)| == |idx|
            && forall k :: 0 <= k < |idx| ==> RecordsOf(lines)[k] == RecordOf(lines[idx[k]])
  {
    if lines != [] {
      var init := lines[..|lines| - 1];
      RecordsFollowCnameLines(init);
      assert forall i :: 0 <= i < |init| ==> init[i] == lines[i];
    }
  }

  /** Records are found line by line: the records of two blocks of lines
      are the records of the first block followed by those of the second. */
  lemma {:induction false} RecordsOfAppend(a: seq<string>, b: seq<string>)
    ensures RecordsOf(a + b) == RecordsOf(a) + RecordsOf(b)
    decreases |b|
  {
    if b == [] {
      assert a + b == a;
    } else {
      var b' := b[..|b| - 1];
      assert (a + b)[..|a + b| - 1] == a + b';
      RecordsOfAppend(a, b');
    }
  }

  /** dig echoes the command (`; <<>> DiG ... <<>> CNAME example.com`) and
      the question (`;example.com.  IN  CNAME`); both mention CNAME, so the
      word after their last whitespace (the queried name, or `CNAME` itself)
      is collected as a record like any answer's target. */
  lemma EchoLinesYieldRecords(a: string, c: char, w: string)
    requires IsSpace(c) && w != [] && NoSpace(w) && IsCnameLine(a + [c] + w)
    ensures RecordsOf([a + [c] + w]) == [w]
  {
    LastTokenAfterSpace(a, c, w);
    assert [a + [c] + w][..0] == [];
  }

  // ---------------------------------------------------------------------
  // get_dns_records, with the command's exit status and output as inputs

  /** The pair get_dns_records returns for a run of dig that exited with
      `returncode` and printed `stdout`. */
  function ParseDig(returncode: int, stdout: string): (r: Lookup)
    ensures r.status == DigFailed || r.status == StatusNotFound || IsWord(r.status)
  {
    if returncode != 0 then Lookup(DigFailed, [])
    else
      var lines := SplitOn(stdout, '\n');
      Lookup(StatusOf(lines).GetOr(StatusNotFound), RecordsOf(lines))
  }

  method GetDnsRecords(returncode: int, stdout: string) returns (status: string, records: seq<string>)
    ensures Lookup(status, records) == ParseDig(returncode, stdout)
    ensures returncode != 0 ==> status == DigFailed && records == []
  {
    if returncode == 0 {
      var lines := SplitOn(stdout, '\n');
      var found := FindStatus(lines);
      status := if found.None? then StatusNotFound else found.value;
      records := CollectRecords(lines);
    } else {
      status := DigFailed;
      records := [];
    }
  }

  /** The status tells which path was taken: the dig error only for a
      non-zero exit code, the not-found error exactly when the header loop
      captured nothing, and otherwise a word captured from the first header
      line. */
  lemma StatusClassifies(returncode: int, stdout: string)
    ensures var st := ParseDig(returncode, stdout).status;
            var found := StatusOf(SplitOn(stdout, '\n'));
            && (st == DigFailed <==> returncode != 0)
            && (st == StatusNotFound <==> returncode == 0 && found.None?)
            && (returncode == 0 && found.Some? ==> st == found.value && IsWord(st))
  {
    assert !IsWordChar(DigFailed[5]);
    assert !IsWordChar(StatusNotFound[5]);
    assert DigFailed != StatusNotFound by { assert DigFailed[7] != StatusNotFound[7]; }
    var lines := SplitOn(stdout, '\n');
    match FirstHeader(lines)
    case None =>
    case Some(i) =>
      match FindStatusMatch(lines[i], 0)
      case None =>
      case Some(p) =>
        var w := MatchStatusAt(lines[i], p).value;
        MatchStatusAtMeansMatch(lines[i], p, w);
  }

  /** With exit code 0 the status is "Error (Status not found)" exactly
      when no line starts with the header prefix or the first one that does
      holds no `status: <word>,`. */
  lemma StatusNotFoundIff(stdout: string)
    ensures var lines := SplitOn(stdout, '\n');
            ParseDig(0, stdout).status == StatusNotFound <==>
              FirstHeader(lines).None?
              || forall p: nat, v :: !IsStatusMatch(lines[FirstHeader(lines).value], p, v)
  {
    var lines := SplitOn(stdout, '\n');
    StatusClassifies(0, stdout);
    if FirstHeader(lines).Some? {
      StatusInLineNoneIffNoMatch(lines[FirstHeader(lines).value]);
    }
  }

  /** A found status is the word of the leftmost `status: <word>,` of the
      first header line. */
  lemma FoundStatusFromFirstHeader(stdout: string)
    requires ParseDig(0, stdout).status != StatusNotFound
    ensures var lines := SplitOn(stdout, '\n');
            var w := ParseDig(0, stdout).status;
            FirstHeader(lines).Some?
            && exists p: nat :: IsStatusMatch(lines[FirstHeader(lines).value], p, w)
                 && forall q: nat, v :: q < p ==> !IsStatusMatch(lines[FirstHeader(lines).value], q, v)
  {
    var lines := SplitOn(stdout, '\n');
    StatusClassifies(0, stdout);
    var i := FirstHeader(lines).value;
    StatusInLineIsLeftmostMatch(lines[i], ParseDig(0, stdout).status);
  }

  /** Output after a block that already holds a header line never changes
      the status, and its records are simply appended. */
  lemma ParseDigAppend(a: string, b: string)
    ensures ParseDig(0, a + "\n" + b).records == ParseDig(0, a).records + ParseDig(0, b).records
    ensures FirstHeader(SplitOn(a, '\n')).Some? ==>
              ParseDig(0, a + "\n" + b).status == ParseDig(0, a).status
  {
    SplitOnAppend(a, b, '\n');
    RecordsOfAppend(SplitOn(a, '\n'), SplitOn(b, '\n'));
    if FirstHeader(SplitOn(a, '\n')).Some? {
      StatusIgnoresLaterLines(SplitOn(a, '\n'), SplitOn(b, '\n'));
    }
  }

  /** Records do not depend on the status: a one-line output without a
      header line that ends in a word after whitespace and mentions CNAME
      yields "Error (Status not found)" together with that word as a record. */
  lemma RecordsWithoutStatus(a: string, c: char, w: string)
    requires IsSpace(c) && c != '\n' && w != [] && NoSpace(w)
    requires '\n' !in a && !IsHeaderLine(a + [c] + w) && IsCnameLine(a + [c] + w)
    ensures ParseDig(0, a + [c] + w) == Lookup(StatusNotFound, [w])
  {
    var s := a + [c] + w;
    assert '\n' !in s by {
      assert forall i :: 0 <= i < |w| ==> w[i] != '\n';
    }
    SplitOnNoSep(s, '\n');
    EchoLinesYieldRecords(a, c, w);
  }

  /** An instance of RecordsWithoutStatus: `a CNAME b` on its own. */
  lemma RecordsWithoutStatusExample()
    ensures ParseDig(0, "a CNAME" + " " + "b") == Lookup(StatusNotFound, ["b"])
  {
    var a, w := "a CNAME", "b";
    assert !IsHeaderLine(a + [' '] + w) by { assert (a + [' '] + w)[0] != HeaderPrefix[0]; }
    assert IsCnameLine(a + [' '] + w) by { assert OccursAt(a + [' '] + w, "CNAME", 2); }
    RecordsWithoutStatus(a, ' ', w);
  }
}
