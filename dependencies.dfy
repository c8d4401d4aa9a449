/** Manifest parsing (dependencies.py): `requirements.txt` lines and a decoded
    `package.json` become `Dependency` records; `scan_dependencies` joins the
    two lists. File reading, `json.load` and the existence test are inputs. */
module Dependencies {
  import opened Wrappers
  import opened Text

  /** A `Dependency` record: name, optional version, ecosystem ("PyPI" or
      "npm") and optional environment ("production" or "development"). */
  datatype Dependency = Dependency(
    name: string,
    version: Option<string>,
    ecosystem: string,
    environment: Option<string>)

  /** Python truthiness of a value that may be None: neither None nor "". */
  predicate Truthy(o: Option<string>) {
    o.Some? && o.value != ""
  }

  /** The version part of `str()`: " v" and the version, when truthy. */
  function VersionPart(d: Dependency): (v: string)
    ensures v == "" <==> !Truthy(d.version)
    ensures v != "" ==> |v| >= 2 && v[..2] == " v"
    ensures |v| == if Truthy(d.version) then 2 + |d.version.value| else 0
  {
    if Truthy(d.version) then
      var v := " v" + d.version.value;
      assert v[..2] == " v";
      v
    else ""
  }

  /** The bracketed part of `str()`: the ecosystem and, when truthy, the
      environment in parentheses. */
  function BracketPart(d: Dependency): (b: string)
    ensures |b| >= 3 && b[..2] == " [" && b[|b| - 1] == ']'
    ensures |b| == 3 + |d.ecosystem| + if Truthy(d.environment) then 3 + |d.environment.value| else 0
  {
    if Truthy(d.environment) then
      var b := " [" + d.ecosystem + " (" + d.environment.value + ")]";
      assert b[..2] == " [";
      b
    else
      var b := " [" + d.ecosystem + "]";
      assert b[..2] == " [";
      b
  }

  /** The shape of name + version part + bracketed part: the name in front,
      " v" right after it exactly when there is a version part, and the
      closing bracket last. */
  lemma {:induction false} DescribeShape(name: string, ver: string, bracket: string)
    requires ver == "" || (|ver| >= 2 && ver[..2] == " v")
    requires |bracket| >= 2 && bracket[..2] == " [" && bracket[|bracket| - 1] == ']'
    ensures StartsWith(name + ver + bracket, name)
    ensures ver != "" <==> StartsWith((name + ver + bracket)[|name|..], " v")
    ensures (name + ver + bracket)[|name + ver + bracket| - 1] == ']'
  {
    var s := name + ver + bracket;
    ThreeParts(name, ver, bracket);
    assert s[|s| - 1] == bracket[|bracket| - 1];
    if ver == "" {
      assert ver + bracket == bracket;
      assert bracket[1] != " v"[1];
    } else {
      assert (ver + bracket)[..2] == ver[..2];
    }
  }

  /** `Dependency.__str__`: "name v1.0 [PyPI (production)]", where the version
      and the environment appear only when truthy (see `DescribeLayout`). */
  function Describe(d: Dependency): (s: string)
    ensures StartsWith(s, d.name)
    ensures Truthy(d.version) <==> StartsWith(s[|d.name|..], " v")
    ensures |s| > 0 && s[|s| - 1] == ']'
  {
    DescribeShape(d.name, VersionPart(d), BracketPart(d));
    d.name + VersionPart(d) + BracketPart(d)
  }

  /** The rendered text is the name and the version (when truthy) in front,
      and the bracketed ecosystem with the environment (when truthy) at the
      end, with nothing in between: the length is that of the parts. */
  lemma {:induction false} DescribeLayout(d: Dependency)
    ensures Truthy(d.version) ==> StartsWith(Describe(d), d.name + " v" + d.version.value)
    ensures Truthy(d.environment) ==> EndsWith(Describe(d), " [" + d.ecosystem + " (" + d.environment.value + ")]")
    ensures !Truthy(d.environment) ==> EndsWith(Describe(d), " [" + d.ecosystem + "]")
    ensures |Describe(d)| == |d.name| + (if Truthy(d.version) then 2 + |d.version.value| else 0)
                             + 3 + |d.ecosystem| + (if Truthy(d.environment) then 3 + |d.environment.value| else 0)
  {
    ThreeParts(d.name, VersionPart(d), BracketPart(d));
    assert |Describe(d)| == |d.name| + |VersionPart(d)| + |BracketPart(d)|;
    if Truthy(d.version) {
      AppendAssoc(d.name, " v", d.version.value);
    }
  }

  /** An empty version or environment renders exactly as a missing one. */
  lemma {:induction false} DescribeFalsyAsMissing(d: Dependency)
    ensures Describe(d.(version := Some(""))) == Describe(d.(version := None))
    ensures Describe(d.(environment := Some(""))) == Describe(d.(environment := None))
  {
  }

  // ---------------------------------------------------------------------
  // requirements.txt

  /** The ValueError raised by `name, version = line.split('==')` when the
      line splits into more than two pieces. */
  datatype ParseError = TooManyValuesToUnpack(line: string)

  /** A stripped line that yields nothing: blank or a `#` comment. */
  predicate IsSkipped(line: string) {
    line == "" || StartsWith(line, "#")
  }

  /** What one stripped, non-skipped line of requirements.txt yields. */
  function ParseLine(line: string): (r: Result<Dependency, ParseError>)
    ensures r.Success? ==> r.value.ecosystem == "PyPI" && r.value.environment == None
    ensures r.Success? ==> (r.value.version.Some? <==> Contains(line, "=="))
    ensures r.Failure? ==> Contains(line, "==") && r.error == TooManyValuesToUnpack(line)
  {
    if Contains(line, "==") then
      var parts := Split(line, "==");
      if |parts| == 2 then Success(Dependency(Strip(parts[0]), Some(Strip(parts[1])), "PyPI", None))
      else Failure(TooManyValuesToUnpack(line))
    else
      Success(Dependency(Strip(line), None, "PyPI", None))
  }

  /** A line without `==` is kept whole, as the name, with no version. */
  lemma {:induction false} ParseLineWithoutSeparator(line: string)
    requires !Contains(line, "==")
    ensures ParseLine(line) == Success(Dependency(Strip(line), None, "PyPI", None))
  {
  }

  /** A kept raw line without `==` yields one record named by the stripped
      line itself: stripping it a second time changes nothing. */
  lemma {:induction false} LineWithoutSeparatorKeptWhole(raw: string)
    requires !IsSkipped(Strip(raw)) && !Contains(Strip(raw), "==")
    ensures LineResult(raw) == Success([Dependency(Strip(raw), None, "PyPI", None)])
  {
    StripIdempotent(raw);
  }

  /** A line whose `==` occurrences all overlap the leftmost one at `i` splits
      there: the name is the trimmed text before it, the version the trimmed
      text after it (so "flask==" has version ""). */
  lemma {:induction false} ParseLineSingleSeparator(line: string, i: nat)
    requires OccursAt(line, "==", i)
    requires forall j: nat :: j < i || i + 2 <= j ==> !OccursAt(line, "==", j)
    ensures ParseLine(line) == Success(Dependency(Strip(line[..i]), Some(Strip(line[i + 2..])), "PyPI", None))
  {
    ContainsAt(line, "==", i);
    var rest := line[i + 2..];
    forall j: nat | j + 2 <= |rest|
      ensures !OccursAt(rest, "==", j)
    {
      assert !OccursAt(line, "==", i + 2 + j);
      assert rest[j..j + 2] == line[i + 2 + j..i + 2 + j + 2];
    }
    assert Split(rest, "==") == [rest];
    assert Split(line, "==") == [line[..i]] + [rest];
  }

  /** Two non-overlapping `==` make the tuple unpacking fail. */
  lemma {:induction false} ParseLineTwoSeparators(line: string, i: nat, j: nat)
    requires OccursAt(line, "==", i) && OccursAt(line, "==", j) && i + 2 <= j
    ensures ParseLine(line) == Failure(TooManyValuesToUnpack(line))
  {
    ContainsAt(line, "==", i);
    var k := IndexOf(line, "==").value;
    assert k <= i;
    var rest := line[k + 2..];
    assert rest[j - k - 2..j - k] == line[j..j + 2];
    ContainsAt(rest, "==", j - k - 2);
    assert |Split(line, "==")| == 1 + |Split(rest, "==")|;
  }

  /** The outcome of one raw line: nothing, one dependency, or the error. */
  function LineResult(raw: string): (r: Result<seq<Dependency>, ParseError>)
    ensures IsSkipped(Strip(raw)) ==> r == Success([])
    ensures !IsSkipped(Strip(raw)) ==> (r.Success? <==> ParseLine(Strip(raw)).Success?)
    ensures r.Success? ==> |r.value| <= 1
  {
    var line := Strip(raw);
    if IsSkipped(line) then Success([])
    else
      match ParseLine(line)
      case Success(d) => Success([d])
      case Failure(e) => Failure(e)
  }

  /** Sequencing of two outcomes: the earlier failure wins, otherwise the
      dependency lists are concatenated. */
  function Then(a: Result<seq<Dependency>, ParseError>, b: Result<seq<Dependency>, ParseError>): Result<seq<Dependency>, ParseError> {
    if a.Failure? then a else if b.Failure? then b else Success(a.value + b.value)
  }

  lemma {:induction false} ThenAssociative(a: Result<seq<Dependency>, ParseError>, b: Result<seq<Dependency>, ParseError>, c: Result<seq<Dependency>, ParseError>)
    ensures Then(a, Then(b, c)) == Then(Then(a, b), c)
  {
    if a.Success? && b.Success? && c.Success? {
      assert a.value + (b.value + c.value) == (a.value + b.value) + c.value;
    }
  }

  lemma {:induction false} ThenSuccessEmpty(r: Result<seq<Dependency>, ParseError>)
    ensures Then(Success([]), r) == r
    ensures Then(r, Success([])) == r
  {
    if r.Success? {
      assert [] + r.value == r.value;
      assert r.value + [] == r.value;
    }
  }

  /** `parse_requirements` on the lines of the file. */
  function Requirements(lines: seq<string>): (r: Result<seq<Dependency>, ParseError>)
    ensures r.Success? ==> |r.value| <= |lines|
  {
    if lines == [] then Success([]) else Then(LineResult(lines[0]), Requirements(lines[1..]))
  }

  /** The stripped lines that yield a dependency or an error, in file order. */
  function KeptLines(lines: seq<string>): seq<string> {
    if lines == [] then []
    else
      var line := Strip(lines[0]);
      (if IsSkipped(line) then [] else [line]) + KeptLines(lines[1..])
  }

  /** Parsing a file is parsing its parts in sequence. */
  lemma {:induction false} RequirementsAppend(a: seq<string>, b: seq<string>)
    ensures Requirements(a + b) == Then(Requirements(a), Requirements(b))
    decreases |a|
  {
    if a == [] {
      assert a + b == b;
      ThenSuccessEmpty(Requirements(b));
    } else {
      assert (a + b)[0] == a[0];
      assert (a + b)[1..] == a[1..] + b;
      RequirementsAppend(a[1..], b);
      ThenAssociative(LineResult(a[0]), Requirements(a[1..]), Requirements(b));
    }
  }

  lemma {:induction false} RequirementsOfOneLine(line: string)
    ensures Requirements([line]) == LineResult(line)
  {
    assert [line][1..] == [];
    ThenSuccessEmpty(LineResult(line));
  }

  /** A blank or comment line contributes nothing wherever it stands. */
  lemma {:induction false} SkippedLineIgnored(before: seq<string>, line: string, after: seq<string>)
    requires IsSkipped(Strip(line))
    ensures Requirements(before + [line] + after) == Requirements(before + after)
  {
    var x := before + [line] + after;
    var y := [line] + after;
    assert x == before + y;
    RequirementsAppend(before, y);
    RequirementsAppend([line], after);
    RequirementsOfOneLine(line);
    assert LineResult(line) == Success([]);
    assert Requirements(y) == Then(Success([]), Requirements(after));
    ThenSuccessEmpty(Requirements(after));
    RequirementsAppend(before, after);
  }

  /** A line that parses to `d`, put in front of kept lines that parse to
      `ds`, gives kept lines that parse to `[d] + ds`; it holds for any line
      parser `parse`. */
  lemma {:induction false} ParsedLinesCons(parse: string -> Result<Dependency, ParseError>,
                                           line: string, d: Dependency, tail: seq<string>, ds: seq<Dependency>)
    requires parse(line) == Success(d) && |tail| == |ds|
    requires forall k :: 0 <= k < |tail| ==> parse(tail[k]) == Success(ds[k])
    ensures forall k :: 0 <= k < |tail| + 1 ==> parse(([line] + tail)[k]) == Success(([d] + ds)[k])
  {
    forall k | 0 <= k < |tail| + 1 ensures parse(([line] + tail)[k]) == Success(([d] + ds)[k]) {
      if k > 0 {
        assert ([line] + tail)[k] == tail[k - 1];
        assert ([d] + ds)[k] == ds[k - 1];
      }
    }
  }

  /** A successful parse yields exactly one dependency per kept line, in
      line order: the one that line parses to. */
  lemma {:induction false} RequirementsFollowKeptLines(lines: seq<string>)
    requires Requirements(lines).Success?
    ensures |Requirements(lines).value| == |KeptLines(lines)|
    ensures forall k :: 0 <= k < |KeptLines(lines)| ==>
              ParseLine(KeptLines(lines)[k]) == Success(Requirements(lines).value[k])
    decreases |lines|
  {
    if lines != [] {
      var rest := lines[1..];
      var line := Strip(lines[0]);
      var tail := KeptLines(rest);
      var rt := Requirements(rest);
      assert Requirements(lines) == Then(LineResult(lines[0]), rt);
      RequirementsFollowKeptLines(rest);
      if IsSkipped(line) {
        assert KeptLines(lines) == tail;
        ThenSuccessEmpty(rt);
      } else {
        assert KeptLines(lines) == [line] + tail;
        var d := ParseLine(line).value;
        assert Requirements(lines).value == [d] + rt.value;
        ParsedLinesCons(ParseLine, line, d, tail, rt.value);
      }
    }
  }

  /** A line that parses, put in front of kept lines whose first failure is
      at k, moves that first failure to k + 1. */
  lemma {:induction false} FirstFailureShifts(parse: string -> Result<Dependency, ParseError>,
                                              line: string, tail: seq<string>, e: ParseError, k: nat)
    requires parse(line).Success? && k < |tail| && parse(tail[k]) == Failure(e)
    requires forall j :: 0 <= j < k ==> parse(tail[j]).Success?
    ensures parse(([line] + tail)[k + 1]) == Failure(e)
    ensures forall j :: 0 <= j < k + 1 ==> parse(([line] + tail)[j]).Success?
  {
    var kept := [line] + tail;
    assert kept[k + 1] == tail[k];
    forall j | 0 <= j < k + 1 ensures parse(kept[j]).Success? {
      if j > 0 { assert kept[j] == tail[j - 1]; }
    }
  }

  /** A failed parse carries the error of the first kept line that fails. */
  lemma {:induction false} RequirementsFailAtFirstBadLine(lines: seq<string>)
    requires Requirements(lines).Failure?
    ensures exists k :: 0 <= k < |KeptLines(lines)| && ParseLine(KeptLines(lines)[k]) == Failure(Requirements(lines).error)
                        && forall j :: 0 <= j < k ==> ParseLine(KeptLines(lines)[j]).Success?
    decreases |lines|
  {
    var rest := lines[1..];
    var line := Strip(lines[0]);
    var tail := KeptLines(rest);
    var rt := Requirements(rest);
    if IsSkipped(line) {
      assert KeptLines(lines) == tail && Requirements(lines) == rt by {
        assert Requirements(lines) == Then(LineResult(lines[0]), rt);
        ThenSuccessEmpty(rt);
      }
      RequirementsFailAtFirstBadLine(rest);
    } else if ParseLine(line).Success? {
      assert KeptLines(lines) == [line] + tail && Requirements(lines) == rt by {
        assert Requirements(lines) == Then(LineResult(lines[0]), rt);
      }
      RequirementsFailAtFirstBadLine(rest);
      var k :| 0 <= k < |tail| && ParseLine(tail[k]) == Failure(rt.error)
               && forall j :: 0 <= j < k ==> ParseLine(tail[j]).Success?;
      FirstFailureShifts(ParseLine, line, tail, rt.error, k);
    } else {
      assert KeptLines(lines)[0] == line && Requirements(lines) == Failure(ParseLine(line).error) by {
        assert Requirements(lines) == Then(LineResult(lines[0]), rt);
        assert KeptLines(lines) == [line] + tail;
      }
    }
  }

  /** The parse succeeds exactly when every kept line parses. */
  lemma {:induction false} RequirementsSucceedIff(lines: seq<string>)
    ensures Requirements(lines).Success? <==>
            forall k :: 0 <= k < |KeptLines(lines)| ==> ParseLine(KeptLines(lines)[k]).Success?
  {
    if Requirements(lines).Success? {
      RequirementsFollowKeptLines(lines);
    } else {
      RequirementsFailAtFirstBadLine(lines);
    }
  }

  /** Every dependency read from requirements.txt is a PyPI one without an
      environment. */
  lemma {:induction false} RequirementsArePyPI(lines: seq<string>)
    requires Requirements(lines).Success?
    ensures forall d :: d in Requirements(lines).value ==> d.ecosystem == "PyPI" && d.environment == None
    decreases |lines|
  {
    if lines != [] {
      RequirementsArePyPI(lines[1..]);
    }
  }

  /** `parse_requirements`: the loop over the lines of the file. */
  lemma {:induction false} RequirementsStep(lines: seq<string>, i: nat)
    requires i < |lines|
    ensures Requirements(lines[i..]) == Then(LineResult(lines[i]), Requirements(lines[i + 1..]))
  {
    assert lines[i..][1..] == lines[i + 1..];
  }

  /** `parse_requirements`: the loop over the lines of the file. */
  method ParseRequirements(lines: seq<string>) returns (r: Result<seq<Dependency>, ParseError>)
    ensures r == Requirements(lines)
  {
    var deps: seq<Dependency> := [];
    assert lines[0..] == lines;
    ThenSuccessEmpty(Requirements(lines));
    for i := 0 to |lines|
      invariant Requirements(lines) == Then(Success(deps), Requirements(lines[i..]))
    {
      RequirementsStep(lines, i);
      ThenAssociative(Success(deps), LineResult(lines[i]), Requirements(lines[i + 1..]));
      var line := Strip(lines[i]);
      if line != "" && !StartsWith(line, "#") {
        if Contains(line, "==") {
          var parts := Split(line, "==");
          if |parts| != 2 {
            assert LineResult(lines[i]) == Failure(TooManyValuesToUnpack(line));
            return Failure(TooManyValuesToUnpack(line));
          }
          var d := Dependency(Strip(parts[0]), Some(Strip(parts[1])), "PyPI", None);
          assert LineResult(lines[i]) == Success([d]);
          deps := deps + [d];
        } else {
          var d := Dependency(Strip(line), None, "PyPI", None);
          assert LineResult(lines[i]) == Success([d]);
          deps := deps + [d];
        }
      } else {
        assert LineResult(lines[i]) == Success([]);
        assert deps + [] == deps;
      }
    }
    ThenSuccessEmpty(Success(deps));
    return Success(deps);
  }

  // ---------------------------------------------------------------------
  // package.json

  /** The decoded JSON object, reduced to what the parser reads: each
      top-level key with an object value, as its (name, version) entries in
      file order (Python dictionaries keep insertion order). */
  type JsonObject = map<string, seq<(string, string)>>

  /** The two keys read, in the order they are read. */
  const DependencyKeys: seq<string> := ["dependencies", "devDependencies"]

  function EnvironmentOf(key: string): string {
    if key == "dependencies" then "production" else "development"
  }

  /** The records for the entries of one key; an absent key gives none. */
  function Section(data: JsonObject, key: string): seq<Dependency> {
    if key in data then
      var entries := data[key];
      seq(|entries|, i requires 0 <= i < |entries| =>
        Dependency(entries[i].0, Some(entries[i].1), "npm", Some(EnvironmentOf(key))))
    else []
  }

  function Sections(data: JsonObject, keys: seq<string>): (r: seq<Dependency>)
    ensures forall i :: 0 <= i < |r| ==> r[i].ecosystem == "npm" && r[i].version.Some?
  {
    if keys == [] then [] else Sections(data, keys[..|keys| - 1]) + Section(data, keys[|keys| - 1])
  }

  /** `parse_package_json` on the decoded object. */
  function PackageJson(data: JsonObject): (r: seq<Dependency>)
    ensures forall i :: 0 <= i < |r| ==> r[i].ecosystem == "npm" && r[i].version.Some?
  {
    Sections(data, DependencyKeys)
  }

  function EntriesOf(data: JsonObject, key: string): seq<(string, string)> {
    if key in data then data[key] else []
  }

  /** The records of one key follow its entries one to one. */
  lemma {:induction false} SectionFollowsEntries(data: JsonObject, key: string)
    ensures |Section(data, key)| == |EntriesOf(data, key)|
    ensures forall i :: 0 <= i < |EntriesOf(data, key)| ==>
              Section(data, key)[i] == Dependency(EntriesOf(data, key)[i].0, Some(EntriesOf(data, key)[i].1), "npm", Some(EnvironmentOf(key)))
  {
  }

  /** The object's records are those of `dependencies`, then those of
      `devDependencies`. */
  lemma {:induction false} PackageJsonSections(data: JsonObject)
    ensures PackageJson(data) == Section(data, "dependencies") + Section(data, "devDependencies")
  {
    var first: seq<string> := ["dependencies"];
    assert DependencyKeys[..1] == first && first[..0] == [];
    assert Sections(data, first) == [] + Section(data, "dependencies");
  }

  /** All `dependencies` entries, tagged production, come first and in order;
      then all `devDependencies` entries, tagged development; all are npm
      records and an absent key contributes nothing. */
  lemma {:induction false} PackageJsonLayout(data: JsonObject)
    ensures var r := PackageJson(data);
      var prod := EntriesOf(data, "dependencies");
      var dev := EntriesOf(data, "devDependencies");
      && |r| == |prod| + |dev|
      && (forall i :: 0 <= i < |prod| ==> r[i] == Dependency(prod[i].0, Some(prod[i].1), "npm", Some("production")))
      && (forall i :: 0 <= i < |dev| ==> r[|prod| + i] == Dependency(dev[i].0, Some(dev[i].1), "npm", Some("development")))
  {
    var r := PackageJson(data);
    var prod := EntriesOf(data, "dependencies");
    var dev := EntriesOf(data, "devDependencies");
    PackageJsonSections(data);
    SectionFollowsEntries(data, "dependencies");
    SectionFollowsEntries(data, "devDependencies");
    assert EnvironmentOf("devDependencies") == "development" by {
      assert |"devDependencies"| != |"dependencies"|;
    }
    forall i | 0 <= i < |dev|
      ensures r[|prod| + i] == Dependency(dev[i].0, Some(dev[i].1), "npm", Some("development"))
    {
      assert r[|prod| + i] == Section(data, "devDependencies")[i];
    }
  }

  /** `parse_package_json`: the loop over the two keys and their entries. */
  method ParsePackageJson(data: JsonObject) returns (deps: seq<Dependency>)
    ensures deps == PackageJson(data)
  {
    deps := [];
    for k := 0 to |DependencyKeys|
      invariant deps == Sections(data, DependencyKeys[..k])
    {
      var depType := DependencyKeys[k];
      var env := if depType == "dependencies" then "production" else "development";
      assert DependencyKeys[..k + 1][..k] == DependencyKeys[..k];
      if depType in data {
        var entries := data[depType];
        ghost var before := deps;
        for i := 0 to |entries|
          invariant deps == before + Section(data, depType)[..i]
        {
          deps := deps + [Dependency(entries[i].0, Some(entries[i].1), "npm", Some(env))];
          assert Section(data, depType)[..i + 1] == Section(data, depType)[..i] + [Section(data, depType)[i]];
        }
        assert Section(data, depType)[..|entries|] == Section(data, depType);
      }
    }
    assert DependencyKeys[..|DependencyKeys|] == DependencyKeys;
  }

  // ---------------------------------------------------------------------
  // scan_dependencies

  /** `scan_dependencies`: requirements.txt then package.json, each only when
      the file is present; no deduplication across the two. A bad
      requirements line aborts the scan with its error. */
  method ScanDependencies(
    requirementsPresent: bool, requirementsLines: seq<string>,
    packageJsonPresent: bool, packageJson: JsonObject)
    returns (r: Result<seq<Dependency>, ParseError>)
    ensures r.Failure? <==> requirementsPresent && Requirements(requirementsLines).Failure?
    ensures r.Failure? ==> r == Requirements(requirementsLines)
    ensures r.Success? ==>
      r.value == (if requirementsPresent then Requirements(requirementsLines).value else [])
                 + (if packageJsonPresent then PackageJson(packageJson) else [])
  {
    var deps: seq<Dependency> := [];
    if requirementsPresent {
      var parsed := ParseRequirements(requirementsLines);
      if parsed.Failure? {
        return parsed;
      }
      assert [] + parsed.value == parsed.value;
      deps := deps + parsed.value;
    }
    if packageJsonPresent {
      var parsed := ParsePackageJson(packageJson);
      deps := deps + parsed;
    }
    return Success(deps);
  }
}
