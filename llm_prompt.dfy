/** Prompt construction (llm_prompt.py): the CVE record and the scanned
    dependencies become the text sent to the analysis agent. The record is a
    decoded JSON object; each key it may lack is an `Option`, and a present
    value is held as the text Python's `str()` gives it. */
module Prompt {
  import opened Wrappers
  import opened Text
  import opened Dependencies

  /** One entry of `affected_packages`: each key may be absent. */
  datatype AffectedPackage = AffectedPackage(
    name: Option<string>,
    ecosystem: Option<string>,
    versions: Option<seq<string>>)

  /** The keys of the CVE record that `build_prompt` reads. */
  datatype CveRecord = CveRecord(
    id: Option<string>,
    databaseSpecific: Option<string>,
    summary: Option<string>,
    details: Option<string>,
    affectedPackages: Option<seq<AffectedPackage>>)

  // ---------------------------------------------------------------------
  // format_affected_packages

  const NoPackageInformation := "No specific package information available"
  const NoPackageData := "No package data"

  /** The versions shown for one package: at most the first three, joined by
      ", "; a package without the key, or with an empty list, shows none. */
  function VersionsText(p: AffectedPackage): (r: string)
    ensures p.versions.None? || p.versions.value == [] ==> r == ""
  {
    Join(Take(p.versions.GetOr([]), 3), ", ")
  }

  /** "- {name} ({ecosystem}) - versions: {versions}", with "Unknown" for a
      missing name or ecosystem. */
  function PackageLine(p: AffectedPackage): (line: string)
    ensures StartsWith(line, "- " + p.name.GetOr("Unknown") + " (")
    ensures EndsWith(line, " (" + p.ecosystem.GetOr("Unknown") + ") - versions: " + VersionsText(p))
    ensures |line| == 18 + |p.name.GetOr("Unknown")| + |p.ecosystem.GetOr("Unknown")| + |VersionsText(p)|
  {
    var head := "- " + p.name.GetOr("Unknown");
    var tail := " (" + p.ecosystem.GetOr("Unknown") + ") - versions: " + VersionsText(p);
    var line := head + tail;
    assert line[..|head| + 2] == head + " (";
    assert line[|line| - |tail|..] == tail;
    line
  }

  function PackageLines(pkgs: seq<AffectedPackage>): (lines: seq<string>)
    ensures |lines| == |pkgs|
  {
    seq(|pkgs|, i requires 0 <= i < |pkgs| => PackageLine(pkgs[i]))
  }

  /** What `format_affected_packages` returns: the sentinel for an empty list,
      otherwise the package lines joined by newlines. */
  function AffectedPackagesText(pkgs: seq<AffectedPackage>): (r: string)
    ensures |pkgs| == 0 ==> r == NoPackageInformation
    ensures |pkgs| > 0 ==> StartsWith(r, "- ")
  {
    if |pkgs| == 0 then NoPackageInformation
    else
      var lines := PackageLines(pkgs);
      assert StartsWith(lines[0], "- ") by {
        assert lines[0] == PackageLine(pkgs[0]);
        assert ("- " + pkgs[0].name.GetOr("Unknown") + " (")[..2] == "- ";
      }
      JoinStartsWith(lines, "\n", "- ");
      Join(lines, "\n")
  }

  /** `format_affected_packages`: the loop appending one line per package. */
  method FormatAffectedPackages(pkgs: seq<AffectedPackage>) returns (s: string)
    ensures s == AffectedPackagesText(pkgs)
  {
    if |pkgs| == 0 {
      return NoPackageInformation;
    }
    var result: seq<string> := [];
    for i := 0 to |pkgs|
      invariant |result| == i
      invariant forall j :: 0 <= j < i ==> result[j] == PackageLine(pkgs[j])
    {
      var p := pkgs[i];
      var name := p.name.GetOr("Unknown");
      var ecosystem := p.ecosystem.GetOr("Unknown");
      var versions := Join(Take(p.versions.GetOr([]), 3), ", ");
      result := result + ["- " + name + " (" + ecosystem + ") - versions: " + versions];
    }
    assert result == PackageLines(pkgs);
    s := if |result| > 0 then Join(result, "\n") else NoPackageData;
  }

  lemma {:induction false} JoinStartsWith(parts: seq<string>, sep: string, p: string)
    requires |parts| >= 1 && StartsWith(parts[0], p)
    ensures StartsWith(Join(parts, sep), p)
  {
    if |parts| > 1 {
      var s := Join(parts, sep);
      assert s == parts[0] + (sep + Join(parts[1..], sep));
      assert s[..|p|] == parts[0][..|p|];
    }
  }

  /** The "No package data" fallback is never what comes out: an empty list
      gives the other sentinel and a non-empty one starts with "- ". */
  lemma {:induction false} NoPackageDataUnreachable(pkgs: seq<AffectedPackage>)
    ensures AffectedPackagesText(pkgs) != NoPackageData
    ensures |pkgs| > 0 ==> StartsWith(AffectedPackagesText(pkgs), "- ")
  {
    assert NoPackageData[0] != '-';
    assert NoPackageData != NoPackageInformation;
  }

  /** A package whose texts hold no newline renders on a single line. */
  predicate PackageOnOneLine(p: AffectedPackage) {
    && '\n' !in p.name.GetOr("Unknown")
    && '\n' !in p.ecosystem.GetOr("Unknown")
    && forall v :: v in p.versions.GetOr([]) ==> '\n' !in v
  }

  lemma {:induction false} JoinAvoids(parts: seq<string>, sep: string, c: char)
    requires c !in sep
    requires forall k :: 0 <= k < |parts| ==> c !in parts[k]
    ensures c !in Join(parts, sep)
  {
    if |parts| > 1 {
      JoinAvoids(parts[1..], sep, c);
    }
  }

  lemma {:induction false} PackageLineAvoidsNewline(p: AffectedPackage)
    requires PackageOnOneLine(p)
    ensures '\n' !in PackageLine(p)
  {
    var vs := Take(p.versions.GetOr([]), 3);
    assert forall k :: 0 <= k < |vs| ==> vs[k] in p.versions.GetOr([]);
    JoinAvoids(vs, ", ", '\n');
  }

  /** One output line per package, in input order: splitting the text at
      newlines gives back exactly the package lines. */
  lemma {:induction false} AffectedPackagesLines(pkgs: seq<AffectedPackage>)
    requires |pkgs| > 0
    requires forall k :: 0 <= k < |pkgs| ==> PackageOnOneLine(pkgs[k])
    ensures Split(AffectedPackagesText(pkgs), "\n") == PackageLines(pkgs)
  {
    var lines := PackageLines(pkgs);
    forall k | 0 <= k < |lines|
      ensures '\n' !in lines[k]
    {
      PackageLineAvoidsNewline(pkgs[k]);
    }
    SplitJoin(lines, "\n");
  }

  /** The versions shown are the first three listed (all of them when there
      are fewer), in order: splitting the shown text at ", " gives them back
      when no version contains a comma. */
  lemma {:induction false} VersionsShown(p: AffectedPackage)
    requires p.versions.Some? && |p.versions.value| > 0
    requires forall v :: v in p.versions.value ==> ',' !in v
    ensures Split(VersionsText(p), ", ") == Take(p.versions.value, 3)
    ensures |Split(VersionsText(p), ", ")| <= 3
  {
    var vs := Take(p.versions.value, 3);
    assert forall k :: 0 <= k < |vs| ==> vs[k] in p.versions.value;
    SplitJoin(vs, ", ");
  }

  // ---------------------------------------------------------------------
  // build_prompt

  /** The details excerpt: the first 500 characters of `details`, or of
      "No details available" when the key is absent. */
  function DetailsExcerpt(cve: CveRecord): (e: string)
    ensures |e| <= 500
    ensures StartsWith(cve.details.GetOr("No details available"), e)
    ensures |cve.details.GetOr("No details available")| <= 500 ==> e == cve.details.GetOr("No details available")
    ensures |cve.details.GetOr("No details available")| > 500 ==> |e| == 500
  {
    Take(cve.details.GetOr("No details available"), 500)
  }

  /** One "**Label:** value" line of the CVE summary. */
  function FieldLine(key: string, value: string): string {
    "**" + key + ":** " + value + "\n"
  }

  /** The affected-packages block that closes the CVE summary. */
  function AffectedBlock(cve: CveRecord): string {
    "**Affected Packages (from CVE database):**\n" + AffectedPackagesText(cve.affectedPackages.GetOr([])) + "\n"
  }

  /** `cve_summary`: the record's fields, each defaulted only when absent. */
  function CveSummary(cve: CveRecord): string {
    "\n"
    + FieldLine("CVE ID", cve.id.GetOr("None"))
    + FieldLine("Severity", cve.databaseSpecific.GetOr("Unknown"))
    + FieldLine("Summary", cve.summary.GetOr("No summary"))
    + "\n"
    + FieldLine("Details", DetailsExcerpt(cve))
    + "\n"
    + AffectedBlock(cve)
  }

  const Opening := "Analyze this CVE and its impact on the provided codebase.\n\n"

  /** The only place the dependencies enter: their number. */
  function CountLine(n: nat): string {
    "**Dependencies in codebase:** " + NatToString(n) + " total packages\n"
  }

  const Instructions :=
    "EXPLORE DEPENDENCIES USING AGENT TOOLS IN YOUR AGENT CONTEXT. YOU CAN EXPLORE FILES AND THEIR CONTENT.\n"
    + "IF YOU HAVE ANY DOUBTS ABOUT DEPENDENCIES OR USAGE, STATE THAT CLEARLY AND DO NOT ASSUME AFFECTED STATUS.\n"
    + "---\n"
    + "TASK:\n\n"
    + "Provide a clear, actionable report for an application security engineer. Include:\n\n"

  /** The seven numbered headers of the report the agent is asked for. */
  const SectionHeaders: seq<string> := [
    "1. **What is this vulnerability?**",
    "2. **Is this codebase affected?**",
    "3. **Risk Assessment**",
    "4. **Recommended Actions**",
    "5. **Production Impact**",
    "6. **Confidence Level**",
    "7. **Is risky for the project:**"
  ]

  /** What follows each header, up to the next one. */
  const SectionBodies: seq<string> := [
    " (2\U{2013}3 sentences in plain language)\n\n",
    " \n"
    + "   - YES/NO/UNCERTAIN (pick one)\n"
    + "   - Explain why, based on available evidence.\n"
    + "   - If manifests or dependency data are missing, explicitly mention that your assessment may be incomplete.\n\n",
    "\n"
    + "   - If affected: actual risk and exploitation context\n"
    + "   - If not affected or uncertain: explain why, and note what would need checking\n\n",
    "\n"
    + "   - Immediate steps (if vulnerable)\n"
    + "   - Verification steps if unsure\n"
    + "   - Preventive measures\n\n",
    "\n"
    + "   - Is this dependency/tool used at build-time, dev-time, or runtime?\n\n",
    " (Low / Medium / High)\n"
    + "   - Be conservative: if dependency data or manifests are missing, confidence should be \U{201C}Low\U{201D}.\n\n",
    " \n"
    + "   - YES / NO / UNCERTAIN\n"
    + "   - Reply NO only if evidence strongly shows the project is not affected.\n\n"
  ]

  const Closing := "Keep it concise, actionable, and avoid unnecessary technical jargon.\n"

  /** The numbered report sections, each header followed by its body. */
  function ReportSections(headers: seq<string>, bodies: seq<string>): string
    requires |headers| == |bodies|
  {
    if headers == [] then ""
    else headers[0] + bodies[0] + ReportSections(headers[1..], bodies[1..])
  }

  /** Everything before the dependency count. */
  function PromptHead(cve: CveRecord): string {
    Opening + CveSummary(cve) + "\n\n"
  }

  /** Everything after the dependency count: the fixed report template. */
  function PromptTail(): string {
    Instructions + ReportSections(SectionHeaders, SectionBodies) + Closing
  }

  /** `build_prompt`: the opening line, the CVE summary, the dependency count
      and the fixed report template. */
  function BuildPrompt(cve: CveRecord, dependencies: seq<Dependency>): string {
    PromptHead(cve) + CountLine(|dependencies|) + PromptTail()
  }

  /** The sections text contains every header it was built from. */
  lemma {:induction false} ReportSectionsShowHeaders(headers: seq<string>, bodies: seq<string>)
    requires |headers| == |bodies|
    ensures forall k :: 0 <= k < |headers| ==> Contains(ReportSections(headers, bodies), headers[k])
  {
    if headers != [] {
      var h := headers[0];
      var b := bodies[0];
      var rest := ReportSections(headers[1..], bodies[1..]);
      ReportSectionsShowHeaders(headers[1..], bodies[1..]);
      forall k | 0 <= k < |headers|
        ensures Contains(ReportSections(headers, bodies), headers[k])
      {
        if k == 0 {
          ContainsSelf(h);
          ContainsLeft(h, b, h);
          ContainsLeft(h + b, rest, h);
        } else {
          assert headers[k] == headers[1..][k - 1];
          ContainsRight(h + b, rest, headers[k]);
        }
      }
    }
  }

  /** Every prompt carries the seven numbered section headers verbatim. */
  lemma {:induction false} PromptHasAllSections(cve: CveRecord, dependencies: seq<Dependency>)
    ensures forall k :: 0 <= k < |SectionHeaders| ==> Contains(BuildPrompt(cve, dependencies), SectionHeaders[k])
  {
    ReportSectionsShowHeaders(SectionHeaders, SectionBodies);
    AllInPiece(Instructions, ReportSections(SectionHeaders, SectionBodies), Closing, SectionHeaders);
    AllInRight(PromptHead(cve) + CountLine(|dependencies|), PromptTail(), SectionHeaders);
  }

  /** Text found in the middle piece of five is found in the whole. */
  lemma {:induction false} InSecondOfFive(a: string, m: string, b: string, c: string, d: string, t: string)
    requires Contains(m, t)
    ensures Contains(a + m + b + c + d, t)
  {
    ContainsPiece(a, m, b, t);
    ContainsLeft(a + m + b, c, t);
    ContainsLeft(a + m + b + c, d, t);
  }

  /** Text of the CVE summary is text of the prompt. */
  lemma {:induction false} SummaryInPrompt(cve: CveRecord, dependencies: seq<Dependency>, t: string)
    requires Contains(CveSummary(cve), t)
    ensures Contains(BuildPrompt(cve, dependencies), t)
  {
    InSecondOfFive(Opening, CveSummary(cve), "\n\n", CountLine(|dependencies|), PromptTail(), t);
  }

  /** Each field line and the affected block is text of the CVE summary. */
  lemma {:induction false} SummaryShowsFields(cve: CveRecord)
    ensures Contains(CveSummary(cve), FieldLine("CVE ID", cve.id.GetOr("None")))
    ensures Contains(CveSummary(cve), FieldLine("Severity", cve.databaseSpecific.GetOr("Unknown")))
    ensures Contains(CveSummary(cve), FieldLine("Summary", cve.summary.GetOr("No summary")))
    ensures Contains(CveSummary(cve), FieldLine("Details", DetailsExcerpt(cve)))
    ensures Contains(CveSummary(cve), AffectedBlock(cve))
  {
    var l1 := FieldLine("CVE ID", cve.id.GetOr("None"));
    var l2 := FieldLine("Severity", cve.databaseSpecific.GetOr("Unknown"));
    var l3 := FieldLine("Summary", cve.summary.GetOr("No summary"));
    var l4 := FieldLine("Details", DetailsExcerpt(cve));
    var l5 := AffectedBlock(cve);
    var s1 := "\n" + l1;
    var s2 := s1 + l2;
    var s3 := s2 + l3;
    var s4 := s3 + "\n";
    var s5 := s4 + l4;
    var s6 := s5 + "\n";
    assert CveSummary(cve) == s6 + l5;
    // each line, then every longer prefix of the summary, contains it
    ContainsSelf(l1);
    ContainsRight("\n", l1, l1);
    ContainsLeft(s1, l2, l1);
    ContainsLeft(s2, l3, l1);
    ContainsLeft(s3, "\n", l1);
    ContainsLeft(s4, l4, l1);
    ContainsLeft(s5, "\n", l1);
    ContainsLeft(s6, l5, l1);
    ContainsSelf(l2);
    ContainsRight(s1, l2, l2);
    ContainsLeft(s2, l3, l2);
    ContainsLeft(s3, "\n", l2);
    ContainsLeft(s4, l4, l2);
    ContainsLeft(s5, "\n", l2);
    ContainsLeft(s6, l5, l2);
    ContainsSelf(l3);
    ContainsRight(s2, l3, l3);
    ContainsLeft(s3, "\n", l3);
    ContainsLeft(s4, l4, l3);
    ContainsLeft(s5, "\n", l3);
    ContainsLeft(s6, l5, l3);
    ContainsSelf(l4);
    ContainsRight(s4, l4, l4);
    ContainsLeft(s5, "\n", l4);
    ContainsLeft(s6, l5, l4);
    ContainsSelf(l5);
    ContainsRight(s6, l5, l5);
  }

  /** The prompt shows each field of the record, with "None", "Unknown",
      "No summary" and "No details available" standing in only for a key
      that is absent (a present empty value is shown empty). */
  lemma {:induction false} PromptShowsRecord(cve: CveRecord, dependencies: seq<Dependency>)
    ensures Contains(BuildPrompt(cve, dependencies), FieldLine("CVE ID", cve.id.GetOr("None")))
    ensures Contains(BuildPrompt(cve, dependencies), FieldLine("Severity", cve.databaseSpecific.GetOr("Unknown")))
    ensures Contains(BuildPrompt(cve, dependencies), FieldLine("Summary", cve.summary.GetOr("No summary")))
    ensures Contains(BuildPrompt(cve, dependencies), FieldLine("Details", DetailsExcerpt(cve)))
    ensures Contains(BuildPrompt(cve, dependencies), AffectedBlock(cve))
  {
    SummaryShowsFields(cve);
    SummaryInPrompt(cve, dependencies, FieldLine("CVE ID", cve.id.GetOr("None")));
    SummaryInPrompt(cve, dependencies, FieldLine("Severity", cve.databaseSpecific.GetOr("Unknown")));
    SummaryInPrompt(cve, dependencies, FieldLine("Summary", cve.summary.GetOr("No summary")));
    SummaryInPrompt(cve, dependencies, FieldLine("Details", DetailsExcerpt(cve)));
    SummaryInPrompt(cve, dependencies, AffectedBlock(cve));
  }

  /** The prompt states how many dependencies were found. */
  lemma {:induction false} PromptShowsCount(cve: CveRecord, dependencies: seq<Dependency>)
    ensures Contains(BuildPrompt(cve, dependencies), CountLine(|dependencies|))
  {
    var line := CountLine(|dependencies|);
    ContainsSelf(line);
    ContainsPiece(PromptHead(cve), line, PromptTail(), line);
  }

  /** The count line, between any fixed head and tail, determines the count. */
  lemma {:induction false} CountDetermines(head: string, tail: string, n1: nat, n2: nat)
    ensures head + CountLine(n1) + tail == head + CountLine(n2) + tail <==> n1 == n2
  {
    if head + CountLine(n1) + tail == head + CountLine(n2) + tail {
      CountLineDetermines(head, tail, n1, n2);
    }
  }

  lemma {:induction false} CountLineDetermines(head: string, tail: string, n1: nat, n2: nat)
    requires head + CountLine(n1) + tail == head + CountLine(n2) + tail
    ensures n1 == n2
  {
    var countKey := "**Dependencies in codebase:** ";
    var unit := " total packages\n";
    var c1 := CountLine(n1);
    var c2 := CountLine(n2);
    assert |c1| == |c2|;
    assert c1 == c2 by {
      MiddleOf(head, c1, tail);
      MiddleOf(head, c2, tail);
    }
    var d1 := NatToString(n1);
    var d2 := NatToString(n2);
    assert d1 == d2 by {
      MiddleOf(countKey, d1, unit);
      MiddleOf(countKey, d2, unit);
    }
    DecimalRoundTrip(n1);
    DecimalRoundTrip(n2);
  }

  /** The dependencies enter the prompt only through their number: two lists
      give the same prompt exactly when they have the same length. */
  lemma {:induction false} PromptDependsOnlyOnCount(cve: CveRecord, deps1: seq<Dependency>, deps2: seq<Dependency>)
    ensures BuildPrompt(cve, deps1) == BuildPrompt(cve, deps2) <==> |deps1| == |deps2|
  {
    SamePromptSameCount(cve, deps1, deps2);
    SameCountSamePrompt(cve, deps1, deps2);
  }

  lemma {:induction false} SamePromptSameCount(cve: CveRecord, deps1: seq<Dependency>, deps2: seq<Dependency>)
    ensures BuildPrompt(cve, deps1) == BuildPrompt(cve, deps2) ==> |deps1| == |deps2|
  {
    CountDetermines(PromptHead(cve), PromptTail(), |deps1|, |deps2|);
  }

  lemma {:induction false} SameCountSamePrompt(cve: CveRecord, deps1: seq<Dependency>, deps2: seq<Dependency>)
    ensures |deps1| == |deps2| ==> BuildPrompt(cve, deps1) == BuildPrompt(cve, deps2)
  {
  }

  // ---------------------------------------------------------------------
  // format_dependencies_summary

  /** `format_dependencies_summary`: "None found" for no dependencies,
      otherwise one `str(dep)` per line in order. */
  function DependenciesSummary(dependencies: seq<Dependency>): (r: string)
    ensures r == "None found" <==> |dependencies| == 0
  {
    if |dependencies| == 0 then "None found"
    else
      var lines := seq(|dependencies|, i requires 0 <= i < |dependencies| => Describe(dependencies[i]));
      JoinEndsWithLast(lines, "\n");
      assert "None found"[9] != ']';
      Join(lines, "\n")
  }

  /** A dependency whose texts hold no newline renders on a single line. */
  predicate DependencyOnOneLine(d: Dependency) {
    && '\n' !in d.name
    && '\n' !in d.ecosystem
    && (d.version.Some? ==> '\n' !in d.version.value)
    && (d.environment.Some? ==> '\n' !in d.environment.value)
  }

  /** One line per dependency, in order, each its `str()`. */
  lemma {:induction false} DependenciesSummaryLines(dependencies: seq<Dependency>)
    requires |dependencies| > 0
    requires forall k :: 0 <= k < |dependencies| ==> DependencyOnOneLine(dependencies[k])
    ensures |Split(DependenciesSummary(dependencies), "\n")| == |dependencies|
    ensures forall k :: 0 <= k < |dependencies| ==>
              Split(DependenciesSummary(dependencies), "\n")[k] == Describe(dependencies[k])
  {
    var lines := seq(|dependencies|, i requires 0 <= i < |dependencies| => Describe(dependencies[i]));
    forall k | 0 <= k < |lines|
      ensures '\n' !in lines[k]
    {
      DescribeAvoidsNewline(dependencies[k]);
    }
    SplitJoin(lines, "\n");
    JoinSplit(DependenciesSummary(dependencies), "\n");
    assert DependenciesSummary(dependencies) == Join(lines, "\n");
  }

  lemma {:induction false} DescribeAvoidsNewline(d: Dependency)
    requires DependencyOnOneLine(d)
    ensures '\n' !in Describe(d)
  {
    assert '\n' !in VersionPart(d);
    assert '\n' !in BracketPart(d);
  }

  lemma {:induction false} JoinEndsWithLast(parts: seq<string>, sep: string)
    requires |parts| >= 1 && |parts[|parts| - 1]| > 0
    ensures var s := Join(parts, sep); |s| > 0 && s[|s| - 1] == parts[|parts| - 1][|parts[|parts| - 1]| - 1]
  {
    if |parts| > 1 {
      JoinEndsWithLast(parts[1..], sep);
    }
  }
}
