# batch-auditor, modelled in Dafny

The batch auditor scores each repository of a personal portfolio against a
fixed file-presence policy. For one repository root, `audit_repo` asks
`has_file` about a dozen names and extensions. It derives four badges from the
answers:

- *dependable*: a Rust, Ada or Elixir marker, and no Python;
- *secure*: a Nickel file and a Justfile, and no YAML;
- *interoperable*: AsciiDoc and `void.ttl`;
- *governed*: `LICENSE` and `CONTRIBUTING.md`.

The score is 25 per earned badge. The audit also lists the required items that
are absent and the forbidden items that are present, each in a fixed order.
`main` audits every configured path that exists, shows a status tier and the
badge glyphs per repository, and sums up:

- the number of repositories in four score buckets;
- the truncating average score.

The model has five modules, one file each:

- `wrappers.dfy` (`Wrappers`): the `Option` type.
- `sequences.dfy` (`Sequences`): order-preserving filtering built by successive
  pushes, subsequences, distinctness, and counting true flags.
- `listing.dfy` (`Listing`): `has_file` and the display name.
  - A directory is its listing. `Dir` holds its entries and two flags:
    - `listable`: `read_dir` succeeds;
    - `searchable`: a child's metadata can be looked up, which is what
      `Path::exists` needs.
  - An entry whose `resolves` flag is false is a dangling link. It is listed,
    but `Path::exists` does not find it.
  - `Extension` follows Rust's `Path::extension`: the text after the last
    `.`, none for a name without one or whose only `.` leads, and none for `..`.
  - `Present` specifies `has_file`; the method `HasFile` is its loop, proved
    against it.
- `audit.dfy` (`Auditor`): the facts, the badges and their glyph tokens, the
  score, and the missing and forbidden lists.
  - `Audit(path, dir)` specifies `audit_repo`.
  - The method `AuditRepo` follows the source section by section and is proved
    equal to it.
- `report.dfy` (`Report`): the loop of `main`, the status tier, the buckets
  and the average.
  - The file system is a map from the paths that exist to their listings.
  - The `u32` counters wrap around modulo 2^32.

## Model

| member | source | states |
|---|---|---|
| Listing.LastDot | batch-auditor/src/main.rs:52 | the position found is a `.` with no `.` after it; none means the name has no `.` at all |
| Listing.Extension | batch-auditor/src/main.rs:52 | no extension iff the name is `..` or has no `.` after its first character; otherwise the extension holds no `.`, follows the last `.`, and the stem is non-empty |
| Listing.ExtensionIff | batch-auditor/src/main.rs:52-53 | a name's extension is `ext` iff the name ends in `.ext` after a non-empty stem, with no `.` in `ext` and the name not `..` |
| Listing.DotFileHasNoExtension | batch-auditor/src/main.rs:52 | a name that starts with its only dot (such as `.py`) has no extension |
| Listing.ExtensionIsLastPart | batch-auditor/src/main.rs:52 | `stem.ext` has extension `ext` (for `a.tar.gz`, `gz`) |
| Listing.LeadingCopies | batch-auditor/src/main.rs:49 | the span the trim removes is whole copies of the prefix, and what follows it does not start with another copy |
| Listing.TrimStartMatches | batch-auditor/src/main.rs:49 | exactly the leading copies of the prefix are removed: the result is a suffix of the input, what precedes it is whole copies of the prefix, and it does not start with another copy |
| Listing.ParsePattern | batch-auditor/src/main.rs:44-49 | definition: text without `*` is an exact name, text with one is the extension left after trimming leading `*.`; `Listing.ParseText` states its round trip |
| Listing.ParseText | batch-auditor/src/main.rs:44-49 | reading back a well-formed pattern's text gives the pattern; a `*` is exactly what selects the extension branch |
| Listing.HasResolvingChildIff | batch-auditor/src/main.rs:45 | the exact-name search succeeds iff some entry has that name and resolves |
| Listing.ChildExists | batch-auditor/src/main.rs:45 | definition of `path.join(pattern).exists()`: the directory is searchable and holds a resolving child of that name; `Listing.ExactNamePresence` states it entry by entry |
| Listing.HasChildWithExtensionIff | batch-auditor/src/main.rs:50-57 | the extension search succeeds iff some listed entry has that extension |
| Listing.HasFile | batch-auditor/src/main.rs:42-60 | the result, including the early return from the scan, equals `Present(dir, pattern)` |
| Listing.Present | batch-auditor/src/main.rs:42-60 | definition of `has_file`'s answer: an exact name needs a resolving child, an extension needs a listable directory with a matching entry; `Listing.HasFile`, `Listing.ExactNamePresence` and `Listing.ExtensionPresence` state it |
| Listing.ExactNamePresence | batch-auditor/src/main.rs:44-46 | an exact name is present iff the directory is searchable and a resolving child has exactly that name |
| Listing.ExtensionPresence | batch-auditor/src/main.rs:48-59 | `*.ext` is present iff the directory is listable and some immediate child's name ends in `.ext` after a non-empty stem |
| Listing.UnreadableDirHasNothing | batch-auditor/src/main.rs:42-60 | a directory that can be neither listed nor searched satisfies no pattern (fail-closed) |
| Listing.UnrelatedEntriesIrrelevant | batch-auditor/src/main.rs:42-60 | adding children that neither have the exact name nor the extension, before or after the others, does not change the result |
| Listing.ResolvingChildSurrounded | batch-auditor/src/main.rs:45 | entries with other names around the listing do not change the exact-name search |
| Listing.ChildWithExtensionSurrounded | batch-auditor/src/main.rs:51-57 | entries with other extensions around the listing do not change the extension search |
| Listing.ReadmeHasExtensionAdoc | batch-auditor/src/main.rs:84 | `README.adoc` has extension `adoc` |
| Listing.ReadmeImpliesAdoc | batch-auditor/src/main.rs:111 | a present `README.adoc` entails an `*.adoc` hit, whenever the directory is listable |
| Listing.LastSegment | batch-auditor/src/main.rs:63-66 | the last segment is a suffix of the path without `/`, and is preceded by `/` unless it is the whole path |
| Listing.FileName | batch-auditor/src/main.rs:63-66 | the display name is empty or a single normal component |
| Listing.FileNameOfChild | batch-auditor/src/main.rs:63-66 | the display name of `parent/child` is `child` |
| Listing.TrailingSeparatorIgnored | batch-auditor/src/main.rs:63-66 | a trailing `/` does not change the display name |
| Auditor.Badges.Glyphs | batch-auditor/src/main.rs:31-39 | the glyph string has a glyph iff its badge is earned, a diamond iff Rhodium, in the fixed order, with one token per earned badge plus the diamond |
| Auditor.Badges.IsRhodium | batch-auditor/src/main.rs:27-29 | definition: all four badges earned; `Auditor.RhodiumIffPerfect` relates it to the score |
| Auditor.EarnedCounts | batch-auditor/src/main.rs:121-126 | the number of earned badges is the count of true flags among the four |
| Auditor.ReportedTextsDistinct | batch-auditor/src/main.rs:107-118 | distinct missing or forbidden items are reported under distinct texts |
| Auditor.Label | batch-auditor/src/main.rs:107-114 | definition: the text pushed for each missing artifact; `Auditor.ReportedTextsDistinct` shows the six texts are distinct |
| Auditor.Message | batch-auditor/src/main.rs:116-118 | definition: the text pushed for each forbidden artifact; `Auditor.ReportedTextsDistinct` shows the three texts are distinct |
| Auditor.Provides | batch-auditor/src/main.rs:107-114 | definition: the negation of each push condition, README.adoc being provided by an `.adoc` child or an exact README.adoc; `Auditor.MissingList` rests on it |
| Auditor.Triggers | batch-auditor/src/main.rs:116-118 | definition: the push condition of each forbidden artifact; `Auditor.ForbiddenList` rests on it |
| Auditor.CountEarned | batch-auditor/src/main.rs:121-126 | the iterator count equals the number of earned badges and is at most 4 |
| Auditor.Score | batch-auditor/src/main.rs:120-128 | the score is 25 per earned badge and at most 100, so the `as u8` narrowing keeps it intact |
| Auditor.HasEither | batch-auditor/src/main.rs:70 | the short-circuit `or` of two lookups is the disjunction of their presences |
| Auditor.CheckDependable | batch-auditor/src/main.rs:68-74 | `dependable` is as `BadgesOf` defines it, and the Python fact is returned for the lists |
| Auditor.CheckSecure | batch-auditor/src/main.rs:76-81 | `secure` and the Nickel, Justfile and YAML facts are as `BadgesOf` and `FactsOf` define them |
| Auditor.CheckInteroperable | batch-auditor/src/main.rs:83-87 | `interoperable` and the AsciiDoc and VoID facts are as `BadgesOf` and `FactsOf` define them |
| Auditor.CheckGoverned | batch-auditor/src/main.rs:89-94 | `governed` and the licence and contributing facts are as `BadgesOf` and `FactsOf` define them; the code-of-conduct lookup is made but unused |
| Auditor.ListMissing | batch-auditor/src/main.rs:103-114 | the successive pushes produce the missing list; README.adoc is looked up only when no `*.adoc` child was found |
| Auditor.ListForbidden | batch-auditor/src/main.rs:116-118 | the successive pushes produce the forbidden list, with the Makefile looked up last |
| Auditor.AuditRepo | batch-auditor/src/main.rs:62-138 | the audit built step by step equals `Audit(path, dir)` |
| Auditor.ScoreIsQuarterPerBadge | batch-auditor/src/main.rs:120-128 | score is 25 per earned badge, so one of 0, 25, 50, 75 and 100, and below 256: the `as u8` cast never truncates |
| Auditor.RhodiumIffPerfect | batch-auditor/src/main.rs:27-29 | Rhodium iff all four badges iff a score of 100 |
| Auditor.PythonVetoesDependable | batch-auditor/src/main.rs:72-74 | a listed `.py` child makes `dependable` false whatever markers exist, and puts the Python entry in the forbidden list |
| Auditor.YamlVetoesSecure | batch-auditor/src/main.rs:79-81 | a listed `.yaml` or `.yml` child makes `secure` false even with Nickel and a Justfile, and puts the YAML entry in the forbidden list |
| Auditor.InteroperableIff | batch-auditor/src/main.rs:84-87 | `interoperable` iff an `.adoc` child is listed and a resolving `void.ttl` exists |
| Auditor.GovernedIff | batch-auditor/src/main.rs:90-94 | `governed` iff resolving `LICENSE` and `CONTRIBUTING.md` children exist |
| Auditor.UnlistableDir | batch-auditor/src/main.rs:76-117 | when listing fails, `secure` and `interoperable` are lost, config.ncl is reported missing, and no Python or YAML entry is forbidden |
| Auditor.MissingIsFilter | batch-auditor/src/main.rs:104-114 | the missing list is the fixed required list with the provided items deleted |
| Auditor.RequiredPushes | batch-auditor/src/main.rs:107-114 | filtering the required list is the same as pushing its items one by one in order |
| Auditor.ForbiddenIsFilter | batch-auditor/src/main.rs:116-118 | the forbidden list is the fixed banned list restricted to the triggered items |
| Auditor.BannedPushes | batch-auditor/src/main.rs:116-118 | filtering the banned list is the same as pushing its items one by one in order |
| Auditor.EveryRequirementListed | batch-auditor/src/main.rs:107-114 | every required item is one of the six checked |
| Auditor.EveryViolationListed | batch-auditor/src/main.rs:116-118 | every forbidden item is one of the three checked |
| Auditor.RequiredSelection | batch-auditor/src/main.rs:104-114 | any selection from the required list is an ordered subsequence, without duplicates, holding exactly the selected items |
| Auditor.BannedSelection | batch-auditor/src/main.rs:116-118 | any selection from the banned list is an ordered subsequence without duplicates, holding exactly the selected items; it has at most 3 items and is empty iff none is selected |
| Auditor.MissingList | batch-auditor/src/main.rs:104-114 | missing is an ordered subsequence of the six items, without duplicates, holding an item iff it is not provided |
| Auditor.ForbiddenList | batch-auditor/src/main.rs:116-118 | forbidden is an ordered subsequence of Python, YAML, Makefile, without duplicates, with an item iff triggered, at most 3 items, and empty iff none is triggered |
| Auditor.MissingItems | batch-auditor/src/main.rs:107-114 | in directory terms: LICENSE is missing iff no exact LICENSE exists, and README.adoc iff neither an `.adoc` child nor an exact README.adoc is found |
| Auditor.LicenseAndReadme | batch-auditor/src/main.rs:107-113 | LICENSE is missing iff absent; README.adoc iff neither the AsciiDoc fact nor the README fact holds |
| Auditor.ForbiddenItems | batch-auditor/src/main.rs:116-118 | in directory terms: the forbidden list is ordered, has no duplicates, and is empty iff no `.py`, `.yaml`, `.yml` child and no Makefile is found |
| Auditor.PushUnrelated | batch-auditor/src/main.rs:42-60 | appending a child that does not match a pattern leaves its presence unchanged |
| Auditor.CodeOfConductIgnored | batch-auditor/src/main.rs:92 | adding `CODE_OF_CONDUCT.md` (resolving or not) leaves the whole audit unchanged |
| Auditor.CodeOfConductChangesOneFact | batch-auditor/src/main.rs:69-118 | a new `CODE_OF_CONDUCT.md` child changes none of the facts except the code-of-conduct one |
| Auditor.CodeOfConductFactIgnored | batch-auditor/src/main.rs:92-138 | the audit does not depend on the code-of-conduct fact |
| Auditor.AuditOf | batch-auditor/src/main.rs:120-137 | definition of the returned `RepoAudit`: the display name, the path, a score of 25 per earned badge, the badges and both lists; `Auditor.ScoreIsQuarterPerBadge`, `Auditor.Score` and `Auditor.CodeOfConductFactIgnored` state its properties |
| Auditor.BadgesIgnoreConduct | batch-auditor/src/main.rs:74-101 | the badges do not depend on the code-of-conduct fact |
| Auditor.FactsOf | batch-auditor/src/main.rs:68-118 | definition: the fourteen `has_file` answers of `audit_repo`, each as `Present` of its pattern; `Auditor.AuditRepo` is proved against it |
| Auditor.BadgesOf | batch-auditor/src/main.rs:74-101 | definition of the four badges from the facts; `Auditor.PythonVetoesDependable`, `Auditor.YamlVetoesSecure`, `Auditor.InteroperableIff` and `Auditor.GovernedIff` state them |
| Auditor.MissingOf | batch-auditor/src/main.rs:103-114 | definition of the missing list in push order; `Auditor.MissingIsFilter` and `Auditor.MissingItems` state what it holds |
| Auditor.ForbiddenOf | batch-auditor/src/main.rs:116-118 | definition of the forbidden list in push order; `Auditor.ForbiddenIsFilter` and `Auditor.ForbiddenItems` state what it holds |
| Auditor.Audit | batch-auditor/src/main.rs:62-138 | definition of a repository's audit from its directory; `Auditor.AuditRepo` is proved against it |
| Auditor.ListsIgnoreConduct | batch-auditor/src/main.rs:103-118 | neither list depends on the code-of-conduct fact |
| Report.StatusOfAudit | batch-auditor/src/main.rs:167-172 | for an audited repository, the top tier iff Rhodium, the shared warning glyph iff two or three badges, the low tier iff at most one |
| Report.StatusOf | batch-auditor/src/main.rs:167-172 | definition of the status match; `Report.StatusOfAudit` and `Report.StatusMatchesBucket` state its tiers |
| Report.CountInBucket | batch-auditor/src/main.rs:202-205 | the pass over the results counts exactly the results whose score is in the bucket |
| Report.BucketsPartition | batch-auditor/src/main.rs:202-205 | for scores up to 100 the four bucket counts sum to the number of results |
| Report.InBucket | batch-auditor/src/main.rs:202-205 | definition of the four summary filters; `Report.BucketsPartition` shows they partition scores up to 100 |
| Report.StatusMatchesBucket | batch-auditor/src/main.rs:167-172 | on audited scores: the top tier is the perfect bucket, the warning tier the good and needs-work buckets, the low tier the critical bucket |
| Report.Average | batch-auditor/src/main.rs:220-223 | the average exists iff the count is positive, and is the largest value whose product with the count does not exceed the total |
| Report.Tally | batch-auditor/src/main.rs:152-196 | the loop's results are the audits of the existing paths in order; the total and count are the wrapped sum of scores and number of results |
| Report.TallyStep | batch-auditor/src/main.rs:193-194 | one iteration's wrapping updates keep the counters equal to the wrapped sum and length |
| Report.CountBuckets | batch-auditor/src/main.rs:202-205 | the four counts are the bucket sizes and add up to the number of results |
| Report.Summarize | batch-auditor/src/main.rs:152-223 | the summary's results, counters, buckets (covering every result once) and average, as `main` computes them |
| Report.ScoresBounded | batch-auditor/src/main.rs:156-195 | every result's score is one of 0, 25, 50, 75 and 100 |
| Report.ResultsAreAuditsOfFound | batch-auditor/src/main.rs:156-195 | the i-th result is the audit of the i-th configured path that exists, and there are exactly as many results as such paths |
| Report.MissingPathIgnored | batch-auditor/src/main.rs:159-162 | a path that does not exist contributes nothing: the results are those of the list without it |
| Report.SumBounded | batch-auditor/src/main.rs:193 | the sum of scores up to 100 is at most 100 per result |
| Report.AverageOfScores | batch-auditor/src/main.rs:220-223 | with no wrap-around, the average is present, is the truncated mean, and is at most 100 |
| Report.DivBounded | batch-auditor/src/main.rs:221 | a total of at most 100 per item averages to at most 100 |
| Report.ModAdd | batch-auditor/src/main.rs:193-194 | adding to a wrapped counter and wrapping again equals wrapping the exact sum |
| Report.AuditAll | batch-auditor/src/main.rs:156-196 | definition of the results list: the audits of the existing paths, in order; `Report.Tally`, `Report.ResultsAreAuditsOfFound` and `Report.MissingPathIgnored` state it |

## Left out

- Printing: the banner, the warning on standard error for a skipped path
  (line 160), the result lines with their widths, the detail lines, the
  summary lines, the legend and the next steps are presentation only.
  The model computes what they show (status, name, score, glyphs, lists,
  bucket counts, average) but not the text.
- Glyphs are tokens. The space after the shield glyph and the one before the
  diamond are not modelled.
- The hard-coded repository list is the parameter `repos`. Whether a path
  exists is membership in the map `fs`. A path that exists but is not a
  directory is a `Dir` that is neither listable nor searchable.
- The file system is a fixed listing. Every lookup in one audit sees the same
  directory, so changes between lookups are not modelled.
- `read_dir` entries that fail individually (`filter_map(Result::ok)`) are not
  modelled: every listed entry is readable.
- Names are Dafny strings. Lossy UTF-8 conversion of the display name and
  non-UTF-8 names are not modelled. Paths use `/` as their only separator.
- Listing.FileName: models the final normal component for `/`-separated paths
  (trailing separators and `.` components dropped, empty after `..`). It does
  not model Windows prefixes.
- Listing.ParseText: `has_file` reads back the pattern text only for
  well-formed patterns. Every pattern the audit uses is a fixed well-formed
  one, so other `*` patterns are not modelled.
- `Path::join` is not modelled for a pattern that holds a separator, is
  absolute, or is empty, `.` or `..` (these name the directory itself or its
  parent, so `Path::exists` would hold for any searchable directory). All
  patterns the audit passes are plain names (`Listing.PlainName`).
- Overflow: `total_score` and `count` wrap around as in a release build. The
  panic of a debug build is not modelled.
- Report.AverageOfScores: states the average only when neither counter wraps
  (fewer than 42,949,673 results). With more, the wrapped values are computed,
  but nothing is proved about them.
- Report.BucketsPartition: holds for scores up to 100. A byte score above 100
  would fall in no bucket, but `Report.ScoresBounded` shows that no audit
  produces one.
- The two middle arms of the status match (70-89 and 50-69) show the same
  glyph. The model keeps this as one `Warning` token, so three tiers stand for
  four score ranges.
- Unreadable directories: `has_file` fails closed where it reads the
  directory. The glob branch returns false when `read_dir` fails. The
  exact-name branch never lists the directory: it calls `Path::exists`, which
  needs only that a child's metadata can be looked up. The model keeps these
  apart with the `listable` and `searchable` flags. A directory that cannot
  be listed loses only the extension-based facts (`Auditor.UnlistableDir`).
  Both flags false gives false for every pattern
  (`Listing.UnreadableDirHasNothing`).
- Names are compared exactly, as on a case-sensitive file system that does
  not normalise names. `Path::exists` defers to the operating system, so on a
  case-insensitive one (the default on macOS and Windows) `LICENSE` would
  also be found as `license`. `Listing.ExactNamePresence`,
  `Auditor.GovernedIff` and `Auditor.MissingItems` rely on exact comparison.
  The glob branch compares extensions in Rust and is unaffected.
- `AuditRepo` runs the same lookups in the same order as `audit_repo`,
  grouped into helper methods along the source's commented sections. The
  short-circuit `||` becomes `Auditor.HasEither`.
