/**
 * The driver: the domain list read from the input file and the report
 * printed for it. Reading the file, `urlparse` and the dig command itself
 * are parameters: the file as its list of lines, the host-name extraction
 * as the function `hostname`, the command as the function `dig` from a
 * domain to its exit status and output.
 */
module FindCname {
  import opened Wrappers
  import opened Text
  import opened Seqs
  import opened DigOutput

  /** `line.strip()` is non-empty. */
  predicate IsNonBlank(line: string)
  {
    Strip(line) != []
  }

  /** `[urlparse(line.strip()).hostname for line in lines if line.strip()]`;
      `hostname` yields None where `urlparse` finds no host, as it does for a
      bare name without a scheme. */
  function Domains(lines: seq<string>, hostname: string -> Option<string>): seq<Option<string>>
  {
    FilterMap(lines, IsNonBlank, HostOfLine(hostname))
  }

  /** `urlparse(line.strip()).hostname` as a function of the line. */
  function HostOfLine(hostname: string -> Option<string>): string -> Option<string>
  {
    (line: string) => hostname(Strip(line))
  }

  /** One domain per non-blank line, in file order: the k-th domain is the
      host of the k-th line whose stripped text is non-empty. */
  lemma DomainsFollowNonBlankLines(lines: seq<string>, hostname: string -> Option<string>)
    ensures var idx := Positions(lines, IsNonBlank);
            |Domains(lines, hostname)| == |idx|
            && forall k :: 0 <= k < |idx| ==> Domains(lines, hostname)[k] == hostname(Strip(lines[idx[k]]))
  {
    FilterMapAt(lines, IsNonBlank, HostOfLine(hostname));
  }

  /** A blank or whitespace-only line contributes nothing. */
  lemma BlankLineIgnored(a: seq<string>, blank: string, b: seq<string>, hostname: string -> Option<string>)
    requires AllSpace(blank)
    ensures Domains(a + [blank] + b, hostname) == Domains(a + b, hostname)
  {
    assert !IsNonBlank(blank);
    FilterMapSkip(a, blank, b, IsNonBlank, HostOfLine(hostname));
  }

  // ---------------------------------------------------------------------
  // The report

  /** One domain with the pair get_dns_records returned for it. */
  datatype QueryResult = QueryResult(domain: string, status: string, records: seq<string>)

  function StatusLine(q: QueryResult): string
  {
    "Status for " + q.domain + ": " + q.status
  }

  function RecordsHeading(q: QueryResult): string
  {
    "CNAME records for " + q.domain + ":"
  }

  /** The lines printed for one domain. */
  function Block(q: QueryResult): seq<string>
  {
    [StatusLine(q)]
    + (if q.status == NoError then [RecordsHeading(q)] + q.records else [])
    + [""]
  }

  /** Every line printed for the domains, in order. */
  function Report(qs: seq<QueryResult>): seq<string>
  {
    if qs == [] then [] else Report(qs[..|qs| - 1]) + Block(qs[|qs| - 1])
  }

  /** A block opens with the status line and closes with a blank line; it
      lists the records, under their heading, only for status NOERROR, and
      otherwise holds nothing else. */
  lemma BlockShape(q: QueryResult)
    ensures var b := Block(q);
            b[0] == StatusLine(q) && b[|b| - 1] == ""
            && (q.status != NoError ==> |b| == 2)
            && (q.status == NoError ==>
                  |b| == |q.records| + 3 && b[1] == RecordsHeading(q) && b[2..|b| - 1] == q.records)
  {
  }

  /** Printing is block by block: the output for a list of domains is the
      output for a first part followed by the output for the rest. */
  lemma {:induction false} ReportAppend(qs: seq<QueryResult>, more: seq<QueryResult>)
    ensures Report(qs + more) == Report(qs) + Report(more)
    decreases |more|
  {
    if more == [] {
      assert qs + more == qs;
    } else {
      var m' := more[..|more| - 1];
      assert (qs + more)[..|qs + more| - 1] == qs + m';
      ReportAppend(qs, m');
    }
  }

  /** The k-th domain's block sits in the output right after the blocks of
      the domains before it, so every domain gets exactly one block, in
      order. */
  lemma ReportLayout(qs: seq<QueryResult>, k: nat)
    requires k < |qs|
    ensures |Report(qs[..k])| + |Block(qs[k])| <= |Report(qs)|
    ensures Report(qs)[|Report(qs[..k])|..|Report(qs[..k])| + |Block(qs[k])|] == Block(qs[k])
  {
    var pre, q, post := qs[..k], qs[k], qs[k + 1..];
    assert qs == pre + ([q] + post);
    ReportAppend(pre, [q] + post);
    ReportAppend([q], post);
    ReportSingle(q);
    AppendSliceMiddle(Report(pre), Block(q), Report(post));
  }

  /** The output for one domain is its block. */
  lemma ReportSingle(q: QueryResult)
    ensures Report([q]) == Block(q)
  {
    assert [q][..0] == [];
  }

  /** The output has two lines per domain, plus a heading and the records
      for each domain whose status is NOERROR. */
  function ReportSize(qs: seq<QueryResult>): nat
  {
    if qs == [] then 0
    else ReportSize(qs[..|qs| - 1]) + 2 + if qs[|qs| - 1].status == NoError then 1 + |qs[|qs| - 1].records| else 0
  }

  lemma {:induction false} ReportLength(qs: seq<QueryResult>)
    ensures |Report(qs)| == ReportSize(qs) >= 2 * |qs|
  {
    if qs != [] {
      ReportLength(qs[..|qs| - 1]);
      BlockShape(qs[|qs| - 1]);
    }
  }

  // ---------------------------------------------------------------------
  // The whole run

  /** Query every domain in order. */
  function Results(domains: seq<string>, dig: string -> (int, string)): (r: seq<QueryResult>)
    ensures |r| == |domains|
  {
    if domains == [] then []
    else
      var d := domains[|domains| - 1];
      var out := dig(d);
      var l := ParseDig(out.0, out.1);
      Results(domains[..|domains| - 1], dig) + [QueryResult(d, l.status, l.records)]
  }

  /** What main prints for `domains` when dig answers `dig(d)` for `d`. */
  function Run(domains: seq<string>, dig: string -> (int, string)): seq<string>
  {
    Report(Results(domains, dig))
  }

  /** Each domain's status and records are the ones get_dns_records gives
      for dig's answer about that domain. */
  lemma {:induction false} ResultsAreLookups(domains: seq<string>, dig: string -> (int, string), k: nat)
    requires k < |domains|
    ensures var l := ParseDig(dig(domains[k]).0, dig(domains[k]).1);
            Results(domains, dig)[k] == QueryResult(domains[k], l.status, l.records)
    decreases |domains|
  {
    if k < |domains| - 1 {
      ResultsAreLookups(domains[..|domains| - 1], dig, k);
    }
  }

  /** Within the output, the k-th block shows only the status line and
      the blank line unless the status is NOERROR; with NOERROR it shows the
      heading and then exactly the records, in order. */
  lemma ReportBlockLines(qs: seq<QueryResult>, k: nat)
    requires k < |qs|
    ensures qs[k].status != NoError ==>
              |Report(qs[..k])| + 2 <= |Report(qs)|
              && Report(qs)[|Report(qs[..k])|..|Report(qs[..k])| + 2] == [StatusLine(qs[k]), ""]
    ensures qs[k].status == NoError ==>
              |Report(qs[..k])| + 3 + |qs[k].records| <= |Report(qs)|
              && Report(qs)[|Report(qs[..k])|] == StatusLine(qs[k])
              && Report(qs)[|Report(qs[..k])| + 1] == RecordsHeading(qs[k])
              && Report(qs)[|Report(qs[..k])| + 2..|Report(qs[..k])| + 2 + |qs[k].records|] == qs[k].records
  {
    ReportLayout(qs, k);
    BlockLines(Report(qs), |Report(qs[..k])|, qs[k]);
  }

  /** What a block placed at `start` puts on the output lines. */
  lemma BlockLines(out: seq<string>, start: nat, q: QueryResult)
    requires start + |Block(q)| <= |out| && out[start..start + |Block(q)|] == Block(q)
    ensures q.status != NoError ==>
              start + 2 <= |out| && out[start..start + 2] == [StatusLine(q), ""]
    ensures q.status == NoError ==>
              start + 3 + |q.records| <= |out| && out[start] == StatusLine(q)
              && out[start + 1] == RecordsHeading(q)
              && out[start + 2..start + 2 + |q.records|] == q.records
  {
    BlockShape(q);
    var b := Block(q);
    if q.status == NoError {
      var n := |q.records|;
      assert out[start] == b[0] && out[start + 1] == b[1];
      SliceOfSlice(out, start, start + |b|, 2, 2 + n);
    }
  }

  /** A domain whose dig run failed gets exactly its status line
      `Status for <domain>: Error (dig command failed)` and a blank line. */
  lemma FailedDigPrintsNoRecords(domains: seq<string>, dig: string -> (int, string), k: nat)
    requires k < |domains| && dig(domains[k]).0 != 0
    ensures var qs := Results(domains, dig);
            var start := |Report(qs[..k])|;
            start + 2 <= |Run(domains, dig)|
            && Run(domains, dig)[start..start + 2]
               == ["Status for " + domains[k] + ": " + DigFailed, ""]
  {
    ResultsAreLookups(domains, dig, k);
    ReportBlockLines(Results(domains, dig), k);
    assert DigFailed != NoError;
  }

  /** The records of a domain whose status is NOERROR appear in the
      output, all of them and in order, right after its heading. */
  lemma NoErrorRecordsPrinted(domains: seq<string>, dig: string -> (int, string), k: nat)
    requires k < |domains|
    requires ParseDig(dig(domains[k]).0, dig(domains[k]).1).status == NoError
    ensures var records := ParseDig(dig(domains[k]).0, dig(domains[k]).1).records;
            var start := |Report(Results(domains, dig)[..k])|;
            start + 3 + |records| <= |Run(domains, dig)|
            && Run(domains, dig)[start + 2..start + 2 + |records|] == records
  {
    ResultsAreLookups(domains, dig, k);
    LookupPrinted(Results(domains, dig), k, domains[k], ParseDig(dig(domains[k]).0, dig(domains[k]).1));
  }

  /** A domain whose status is anything but NOERROR shows its status line
      and a blank line, and none of its records. */
  lemma OtherStatusPrintsNoRecords(domains: seq<string>, dig: string -> (int, string), k: nat)
    requires k < |domains|
    requires ParseDig(dig(domains[k]).0, dig(domains[k]).1).status != NoError
    ensures var status := ParseDig(dig(domains[k]).0, dig(domains[k]).1).status;
            var start := |Report(Results(domains, dig)[..k])|;
            start + 2 <= |Run(domains, dig)|
            && Run(domains, dig)[start..start + 2] == ["Status for " + domains[k] + ": " + status, ""]
  {
    ResultsAreLookups(domains, dig, k);
    LookupPrinted(Results(domains, dig), k, domains[k], ParseDig(dig(domains[k]).0, dig(domains[k]).1));
  }

  /** Where the pair `l` of the k-th domain `d` lands in the output. */
  lemma LookupPrinted(qs: seq<QueryResult>, k: nat, d: string, l: Lookup)
    requires k < |qs| && qs[k] == QueryResult(d, l.status, l.records)
    ensures l.status != NoError ==>
              |Report(qs[..k])| + 2 <= |Report(qs)|
              && Report(qs)[|Report(qs[..k])|..|Report(qs[..k])| + 2] == ["Status for " + d + ": " + l.status, ""]
    ensures l.status == NoError ==>
              |Report(qs[..k])| + 3 + |l.records| <= |Report(qs)|
              && Report(qs)[|Report(qs[..k])| + 2..|Report(qs[..k])| + 2 + |l.records|] == l.records
  {
    ReportBlockLines(qs, k);
  }
}
