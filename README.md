# CVE impact explainer: verified model of its deterministic core

The system fetches a CVE record, scans a codebase for the dependencies its
manifests declare, and uploads the codebase to a hosted agent. It then
asks the agent, through a fixed prompt, whether the codebase is affected.

This project models the four parts of that pipeline that are deterministic.
It proves in Dafny what each part promises:

- **Manifest parsing** (`dependencies.dfy`, module `Dependencies`):
  - `requirements.txt` lines become PyPI `Dependency` records;
  - a decoded `package.json` becomes npm records tagged `production` or `development`;
  - `scan_dependencies` concatenates the two lists;
  - `Dependency.__str__` is the formatter.
- **Prompt building** (`llm_prompt.dfy`, module `Prompt`):
  - `build_prompt` renders the CVE summary block and the dependency count into the fixed seven-section report template;
  - `format_affected_packages` is modelled;
  - `format_dependencies_summary` is modelled.
- **Codebase file listing** (`code_base_read.dfy`, module `CodeBase`):
  - `get_code_files` filters Git's tracked and untracked paths, keeping existing regular files under the analysed root;
  - it applies the extension denylist case-insensitively;
  - it prepends the priority files and sorts.
- **Agent setup** (`llm_init.dfy`, module `Session`):
  - `send_files_to_api` uploads at most ten files and records failures;
  - `create_agent` creates the library first and refuses to create an agent when nothing was uploaded;
  - `get_agent` reuses an agent by name, or else creates one.
  - The remote service is a `Client` object whose fields are its libraries, their documents and its agents.

Support modules:

- `Text` (`text.dfy`) gives the CPython `str` operations the core uses. All but `lower()` follow CPython exactly; `lower()` is exact only on the characters that matter for the denylist (see "Left out"):
  - `strip()`, with Python's whitespace set;
  - `in`;
  - `split(sep)`, which splits at leftmost non-overlapping occurrences;
  - `join`;
  - `rfind`;
  - slicing `[:n]`;
  - `lower()`;
  - `str(n)`.
- `Ordering` (`ordering.dfy`) gives Python's string order and `sorted()`.
- `Wrappers` (`wrappers.dfy`) gives `Option`, for a key that may be absent, and `Result`, for a value or the exception raised.

Inputs that come from I/O become parameters:

- the lines of `requirements.txt`;
- the decoded `package.json`, as ordered (name, version) entries per key;
- whether each manifest exists;
- Git's working-tree root, `git ls-files` output and untracked list;
- the set of existing regular files;
- the listing handed to the uploader;
- which upload attempts raise.

Each imperative source function is a `method` proved against a specification function. These methods keep the source's loop, with the invariants it needs:

- `ParseRequirements`;
- `ParsePackageJson`;
- `FormatAffectedPackages`;
- `GetCodeFiles`;
- `Client.SendFiles`;
- `Client.GetAgent`.

`ScanDependencies` has no loop in the source, so it is a method without one. It calls the two parsing methods.

The lemmas state what the source promises about those functions.

## Model

| member | source | states |
|---|---|---|
| Dependencies.Describe | dependencies.py:18-21 | `str(dep)` starts with the name; the text after the name starts with " v" exactly when the version is truthy; it always ends with "]" |
| Dependencies.DescribeLayout | dependencies.py:18-21 | the name is followed by " v" and the version when the version is truthy; the text ends with " [eco (env)]" when the environment is truthy and with " [eco]" otherwise; its length is exactly that of these parts, so nothing lies between them |
| Dependencies.ParseLine | dependencies.py:54-60 | a parsed line is a PyPI record with no environment, with a version exactly when the line holds "=="; a failure happens only on a line with "==" and carries that line |
| Dependencies.LineResult | dependencies.py:51-61 | a blank or comment line yields nothing; any other line succeeds exactly when its stripped text parses, and yields at most one record |
| Dependencies.LineWithoutSeparatorKeptWhole | dependencies.py:51-59 | a kept raw line without "==" yields one record named by the stripped line: stripping a second time changes nothing |
| Dependencies.Requirements | dependencies.py:51-61 | on success there are at most as many records as lines |
| Dependencies.PackageJson | dependencies.py:76-85 | every package.json record is npm and carries a version |
| Dependencies.DescribeFalsyAsMissing | dependencies.py:19-20 | an empty version or environment renders exactly like a missing one (truthiness tests) |
| Dependencies.ParseLineWithoutSeparator | dependencies.py:58-60 | a kept line without "==" becomes a PyPI record named by the whole stripped line, with no version |
| Dependencies.ParseLineSingleSeparator | dependencies.py:54-57 | a line whose only "==" is at i gives name = stripped text before it, version = stripped text after it (so "flask==" has version "") |
| Dependencies.ParseLineTwoSeparators | dependencies.py:55 | two non-overlapping "==" make the two-name unpacking raise, and the line yields no record |
| Dependencies.RequirementsAppend | dependencies.py:51-61 | parsing a file is parsing its two halves in sequence: first error wins, otherwise the lists concatenate |
| Dependencies.SkippedLineIgnored | dependencies.py:52-53 | a line that strips to "" or to text starting with "#" changes nothing, wherever it stands |
| Dependencies.RequirementsFollowKeptLines | dependencies.py:50-61 | on success there is exactly one record per kept line, in line order, each the one that line parses to |
| Dependencies.RequirementsFailAtFirstBadLine | dependencies.py:51-57 | on failure the error is that of the first kept line that fails, and every earlier kept line parses |
| Dependencies.RequirementsSucceedIff | dependencies.py:51-60 | the parse succeeds if and only if every kept line parses |
| Dependencies.RequirementsArePyPI | dependencies.py:56-60 | every record from requirements.txt has ecosystem "PyPI" and no environment |
| Dependencies.ParseRequirements | dependencies.py:41-61 | the loop, with its early exit on the unpacking error, returns exactly the specified parse of the lines |
| Dependencies.PackageJsonLayout | dependencies.py:76-85 | all `dependencies` entries (production) come first, in order, then all `devDependencies` entries (development); all npm; length is the sum of the present keys' sizes, an absent key gives nothing |
| Dependencies.ParsePackageJson | dependencies.py:64-85 | the nested loops over the two keys and their entries return exactly the specified list |
| Dependencies.ScanDependencies | dependencies.py:88-102 | fails exactly when requirements.txt is present and its parse fails; otherwise requirements records then package.json records, a missing manifest contributing nothing and duplicates kept |
| Prompt.PackageLine | llm_prompt.py:127-130 | each package line starts "- " then the name, or "Unknown" when absent; it ends with " (" + the ecosystem, or "Unknown" when absent, + ") - versions: " + the versions text; its length is exactly that of these parts, so nothing lies between them |
| Prompt.VersionsText | llm_prompt.py:129 | an absent or empty version list shows as "" |
| Prompt.AffectedPackagesText | llm_prompt.py:120-132 | no packages gives the "No specific package information available" sentinel; otherwise the text starts with "- " |
| Prompt.DependenciesSummary | llm_prompt.py:135-140 | the summary is "None found" exactly when there are no dependencies |
| Prompt.BuildPrompt | llm_prompt.py:51-117 | only computes (head, count line, fixed tail); what the prompt contains is stated by PromptShowsRecord, PromptShowsCount, PromptHasAllSections and PromptDependsOnlyOnCount below |
| Prompt.FormatAffectedPackages | llm_prompt.py:120-132 | the loop returns the sentinel for an empty list, otherwise the package lines joined by newlines |
| Prompt.NoPackageDataUnreachable | llm_prompt.py:122-132 | the "No package data" fallback never comes out; a non-empty list's text starts with "- " |
| Prompt.AffectedPackagesLines | llm_prompt.py:125-132 | splitting the text at newlines gives back exactly one line per package, in input order (no trailing newline) |
| Prompt.VersionsShown | llm_prompt.py:129 | the versions shown are the first three listed (all when fewer), in order, joined by ", " |
| Prompt.DetailsExcerpt | llm_prompt.py:70 | the excerpt is a prefix of `details` (or of "No details available" when absent) of at most 500 characters, the whole text when it is that short, exactly 500 otherwise |
| Prompt.PromptShowsRecord | llm_prompt.py:65-74 | the prompt shows id, severity, summary, details excerpt and affected block; "None", "Unknown", "No summary" stand in only for an absent key |
| Prompt.PromptShowsCount | llm_prompt.py:80 | the prompt states the number of dependencies |
| Prompt.PromptDependsOnlyOnCount | llm_prompt.py:51-117 | two dependency lists give the same prompt if and only if they have the same length |
| Prompt.PromptHasAllSections | llm_prompt.py:88-110 | every prompt contains the seven numbered section headers verbatim |
| Prompt.ReportSectionsShowHeaders | llm_prompt.py:88-114 | the numbered sections, each header followed by its body, contain every header |
| Prompt.SummaryShowsFields | llm_prompt.py:65-74 | the CVE summary block holds the id, severity, summary, details excerpt and affected lines |
| Prompt.CountDetermines | llm_prompt.py:80 | around any fixed text before and after, the count line determines the count: equal texts exactly when equal counts |
| Prompt.DependenciesSummaryLines | llm_prompt.py:135-140 | a non-empty list whose records hold no newline renders as one `str(dep)` per line, in order |
| CodeBase.Name | src/code_base_read.py:68 | `f.split("/")[-1]` holds no "/" |
| CodeBase.Suffix | src/code_base_read.py:62 | the suffix is empty or a dot-led tail of the name with no other dot, shorter than the name |
| CodeBase.SuffixEmptyIff | src/code_base_read.py:62 | a name has no suffix exactly when it has no dot after its first character or ends with a dot (".gitignore" has none) |
| CodeBase.NoSuffixNotIgnored | src/code_base_read.py:62-63 | a path without a suffix is never filtered by the denylist |
| CodeBase.SuffixAtLastDot | src/code_base_read.py:62 | a dot strictly inside the name, with no dot after it, starts the suffix |
| CodeBase.IsIgnored | src/code_base_read.py:62 | a denied path always has a non-empty suffix |
| CodeBase.IgnoredAnyCase | src/code_base_read.py:20-62 | a path is denied exactly when its suffix equals a denylist entry up to ASCII case (".PNG" is denied like ".png"), stated against an independent case-insensitive comparison |
| CodeBase.PathJoin | src/code_base_read.py:52 | joining an empty relative path gives the root; otherwise the result starts with the root and ends with "/" and the relative path |
| CodeBase.IsWithin | src/code_base_read.py:57-60 | a path that `relative_to` accepts starts with the root |
| CodeBase.Candidates | src/code_base_read.py:45-48 | a path is a candidate exactly when it is a line of `git ls-files` or an untracked file |
| CodeBase.KeptFiles | src/code_base_read.py:50-65 | every kept path is an existing regular file under the root that is not denied |
| CodeBase.PathJoinInjective | src/code_base_read.py:48-52 | distinct listed paths name distinct files, so a path listed as both tracked and untracked is considered once |
| CodeBase.KeptFilesIff | src/code_base_read.py:51-65 | a path is kept if and only if it is an existing regular file under the root, not denylisted, named by a tracked or untracked path |
| CodeBase.PriorityFiles | src/code_base_read.py:68-70 | the filter keeps every priority occurrence and nothing else |
| CodeBase.GetCodeFiles | src/code_base_read.py:6-72 | fails exactly when there is no Git repository; otherwise the result is sorted and lists each kept file once and each kept priority file twice |
| Ordering.Sort | src/code_base_read.py:72 | `sorted()` returns an ascending permutation of its input |
| Ordering.SortedUnique | src/code_base_read.py:72 | two ascending lists with the same elements are equal, so the sorted result is fully determined |
| Ordering.LessEqTotal | src/code_base_read.py:72 | Python's string order is total |
| Ordering.LessEqTransitive | src/code_base_read.py:72 | Python's string order is transitive |
| Ordering.LessEqAntisymmetric | src/code_base_read.py:72 | Python's string order is antisymmetric |
| Session.Uploaded | llm_init.py:31-47 | the uploaded files are no more than the tried ones and come from them; when no attempt fails, all are uploaded in order |
| Session.Failed | llm_init.py:31-47 | the failed files are no more than the tried ones and come from them; when no attempt fails, there are none |
| Session.UploadedSelectsSucceeded | llm_init.py:31-47 | the returned ids are exactly the tried files at the succeeding positions, in order |
| Session.UploadedAndFailedPartition | llm_init.py:31-47 | each tried file is either uploaded or recorded as an error: the counts add to min(10, number of paths) |
| Session.NothingUploadedIff | llm_init.py:42-47 | nothing is uploaded exactly when every attempt fails |
| Session.Succeeded | llm_init.py:31-47 | the succeeding positions are ascending, below the bound, none failing, and include every non-failing position |
| Session.FindByName | llm_init.py:101-104 | the first agent with the name, or none when no agent has it |
| Session.Client.CreateLibrary | llm_init.py:62-63 | creates one library with the given name and description and a fresh id, holding no documents; nothing else changes |
| Session.Client.NewAgent | llm_init.py:73-86 | appends one agent with the configured model, description, instructions, document-library and code-interpreter tools, temperature 0.3 and tool choice "auto"; libraries and documents are unchanged |
| Session.Client.SendFiles | llm_init.py:9-56 | tries the first ten paths in order; returns the uploaded and the failed ones; the library gains exactly the uploaded documents and nothing else changes |
| Session.Client.CreateAgent | llm_init.py:59-89 | always creates one library, named name + "_LIB" with the configured description, holding exactly the uploaded files (none when the listing raised); older libraries' documents are unchanged; fails when the listing raised or nothing was uploaded, creating no agent; otherwise appends the complete agent value: configured model, name, description and instructions, tools [document library of the new library, code interpreter], temperature 0.3, tool choice "auto" |
| Session.Client.GetAgent | llm_init.py:92-107 | returns the first listed agent with the name and changes nothing; otherwise does exactly what CreateAgent promises; after success a later lookup finds the returned agent |
| Text.Strip | dependencies.py:52 | `strip()` leaves no whitespace at either end |
| Text.StripPads | dependencies.py:52 | `strip()` removes only whitespace, on both sides |
| Text.IndexOf | dependencies.py:54 | `"==" in line` finds the leftmost occurrence, or reports none anywhere |
| Text.Split | dependencies.py:55 | `split(sep)` gives at least one piece |
| Text.SplitPieces | dependencies.py:55 | no piece of `split(sep)` contains the separator |
| Text.SplitCutsLeftmost | dependencies.py:55 | each cut is at the leftmost occurrence of the separator in the text that remains ("a===b" splits as "a", "=b") |
| Text.JoinSplit | llm_prompt.py:132 | joining the pieces of a split restores the text |
| Text.SplitJoin | llm_prompt.py:132 | splitting a join restores the pieces when none holds the separator's first character |
| Text.Take | llm_prompt.py:70 | `s[:n]` is the prefix of length min(n, len(s)) |
| Text.Lower | src/code_base_read.py:62 | lower-casing maps each character on its own |
| Text.NatToString | llm_prompt.py:80 | `str(n)` is a non-empty run of decimal digits with no leading zero |
| Text.DecimalRoundTrip | llm_prompt.py:80 | the count as rendered reads back as the same number |
| Text.LastIndexOf | src/code_base_read.py:62 | `rfind` gives the rightmost occurrence, or reports none anywhere |

## Left out

- File reading, `os.path.isfile`, `json.load` and its decoding errors. They are inputs; a malformed `package.json` is not modelled.
- A `package.json` whose `dependencies` or `devDependencies` value is not an object. Non-string versions are not modelled either. Each section is a sequence of (name, version) text pairs.
- The `dict` contents that `Dependency` inherits. Only its four attributes are modelled.
- Prompt.CveRecord: a present value is modelled as the text `str()` gives it. A dictionary's rendering is not computed, and a present key holding `None` is not distinguished from its text. For `details` this is weaker than the source: `None[:500]` raises `TypeError` at llm_prompt.py:70, and the model has no such error path. It renders the excerpt of the text instead.
- Prompt.AffectedPackagesText: the `affected_packages` key is read exactly as the code reads it. The records the system fetches name that list `affected`, so in practice the "No specific package information available" sentinel is what the prompt shows; the model follows the code.
- `explain` (llm_prompt.py:12-48). It is a call to the hosted agent plus prints; the system only picks the last message output.
- Every `print`, including upload progress and the error report.
- GitPython itself is not modelled: repository discovery, `ls_files`, `untracked_files`, `Path.resolve()` and symbolic links. They are inputs to `GetCodeFiles`.
- CodeBase.PathJoin: `pathlib` normalisation of "." components, doubled or trailing slashes, and absolute right-hand sides. Git never lists such paths.
- CodeBase.Suffix: follows the `pathlib` rule of Python 3.8 to 3.12 (last dot strictly inside the name).
- Text.Lower: covers the ASCII letters and the Kelvin sign, the only characters whose lower case can match an ASCII extension. Other characters are left as they are, which does not change membership in the all-ASCII denylist.
- Session.Client.SendFiles: the text of each exception is not modelled. An error records only the file path, and whether an attempt raises is given by the `fails` set of positions.
- The Mistral SDK. The remote service is the abstract `Client` state.
- `agents.list()` pagination and concurrent clients: the model lists every agent, and only this client changes the state.
- The module-level client construction and API keys.
- `src/cve.py`, `src/api.py`, `main.py`, `poc.py` and `llm_clean.py` are not part of this model. They are the HTTP fetch, the web front end, the command line, a scratch script and maintenance loops.
- The agent setup steps as a state machine: absent, then ready, or failed with the library left behind. This is stated through `GetAgent` and `CreateAgent`'s postconditions, not as a separate datatype.
- The denylist at src/code_base_read.py:20-33 has 31 entries. The model keeps all 31.
