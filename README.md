# OpenCourseWare course pipeline — a Dafny model

This project models the core of the OpenCourseWare scraper and course pipeline:

- **The scraper.** It reads the course search response and builds the list of course page URLs.
  It visits each course's `/download` page and picks the course zip link with three strategies
  tried in order:
  1. an `<a>`/`<button>` whose href contains `.zip` and whose text mentions "download", "course" or "zip";
  2. the first `.zip` anchor near a "download … course" text;
  3. the first `.zip` anchor on the page.

  It resolves the chosen href against the site or the course URL. It records
  `(course URL, zip URL)` pairs, and it raises on a download page that does not answer 200.
- **The course context.** It reads the course's root `data.json`. It sorts the corpus resource
  records into the assignment, lecture-notes and readings buckets: the last path segment of each
  `.pdf` file whose resource types carry the tag. It pairs the assignment files into
  (problem, solution) batches by number. The four filename patterns are applied with Python `re.search`
  semantics and this priority:
  - inline solution `hw<d>_sol`;
  - separate solution `sol<d>`;
  - homework `hw<d>.pdf`;
  - problem set `ps<d>.pdf`.

  Numbers are zero-filled to two digits, a later file with the same number replaces an earlier one,
  and the keys are visited in sorted order. The context also reads corpus files with the 10000-line
  truncation and names the combined problem-set PDFs `problem_set_NN.pdf`.
- **The pipeline.** It runs the scraper, then processes every scraped course. It counts successes and
  failures, lists the failed course URLs and stamps the start and end times.

Modules:

| file | module | contents |
|---|---|---|
| `wrappers.dfy` | `Wrappers` | `Option`, `Result` (a value or a raised message), `Outcome` |
| `text.dfy` | `Text` | Python string operations used by the core: `in`, `startswith`/`endswith`, `zfill`, `str(n)`, `lower()`, `split(sep)[-1]`, `"".join` |
| `patterns.dfy` | `AssignmentPatterns` | The four filename regexes as leftmost-match searches, and the classification of a filename |
| `pairing.dfy` | `AssignmentPairing` | The last-write-wins key maps, sorted keys and the resulting batches, with their properties |
| `course_context.dfy` | `CourseContexts` | The `CourseContext` class, its buckets, file reading and batch file names |
| `scraper.dfy` | `Scraping` | The search response, the zip-link strategies and the `Scraper` class |
| `pipeline.dfy` | `Pipelines` | The `OpenCourseWarePipeline` class and its counters |

Effects become parameters:
- an HTTP response becomes a value (`Option<SearchResponse>`, `fetch: string -> DownloadPage`);
- the file system becomes a presence flag plus a manifest of parsed records;
- a clock reading becomes a string argument;
- the outcome of processing one course becomes `succeeds: nat -> bool`;
- whether a combined PDF was written becomes `saved: nat -> bool`.

## Model

| member | source | states |
|---|---|---|
| `AssignmentPatterns.TailMatches` | OpenCourseWare/course_context.py:580-583 | What each pattern needs after its digit group: "_sol", an optional "n" and `.*\.pdf$` (inline solution); `.*\.pdf$` (separate solution); no "_sol" lookahead and then `\.pdf$` (homework, problem set); `TailNeedsPdf` shows every tail needs a ".pdf" ending |
| `AssignmentPatterns.AnyThenPdfAtEnd` | OpenCourseWare/course_context.py:582-583 | `.*\.pdf$` from a position: non-newline characters, then a case-sensitive ".pdf" at the end or just before a final newline; `AnyThenPdfWitness` and `AnyThenPdfIntro` characterise it both ways |
| `AssignmentPatterns.DigitsThen` | OpenCourseWare/course_context.py:580-583 | The `(\d{1,2})` group returns one or two digits found at the position, followed by the pattern's tail; `DigitGroupMaximal` states that it is greedy |
| `AssignmentPatterns.DigitGroupMaximal` | OpenCourseWare/course_context.py:580-583 | For every pattern, a one-digit group is never followed by a digit: "sol12.pdf" and "hw12_sol.pdf" give "12", never "1" |
| `AssignmentPatterns.MatchAt` | OpenCourseWare/course_context.py:580-583 | A match at position i consists of the pattern's literal lead at i and a one- or two-digit group |
| `AssignmentPatterns.SearchFrom` | OpenCourseWare/course_context.py:580-583 | A search result is one or two digits |
| `AssignmentPatterns.Search` | OpenCourseWare/course_context.py:580-583 | `re.search` reduced to group 1: the group of the leftmost start that matches; `SearchFromFinds` and `SearchFromFirst` show a match is found and that no earlier start matches |
| `AssignmentPatterns.SearchFromWitness` | OpenCourseWare/course_context.py:580-583 | A successful search returns the group of some match that starts at or after the start position |
| `AssignmentPatterns.KeyOfDigits` | OpenCourseWare/course_context.py:586 | `zfill(2)` of the digit group is a two-digit key with the same value that ends with the group |
| `AssignmentPatterns.Classify` | OpenCourseWare/course_context.py:585-596 | A classified filename always carries a two-digit key |
| `AssignmentPatterns.AnyThenPdfWitness` | OpenCourseWare/course_context.py:582-583 | `.*\.pdf$` matches from p only if a `.pdf` ending follows p with no newline in between |
| `AssignmentPatterns.AnyThenPdfIntro` | OpenCourseWare/course_context.py:582-583 | Conversely, such a `.pdf` ending makes `.*\.pdf$` match from p |
| `AssignmentPatterns.PdfAtEndUnique` | OpenCourseWare/course_context.py:580-583 | `\.pdf$` can match in at most one place |
| `AssignmentPatterns.PdfAtEndShape` | OpenCourseWare/course_context.py:580-583 | Where `\.pdf$` matches, the name ends in ".pdf" or ".pdf\n" |
| `AssignmentPatterns.TailNeedsPdf` | OpenCourseWare/course_context.py:580-583 | Every pattern tail needs the name to end in ".pdf" (or ".pdf\n") |
| `AssignmentPatterns.DigitsThenNeedsPdf` | OpenCourseWare/course_context.py:580-583 | The digit group followed by a pattern tail needs a ".pdf" ending |
| `AssignmentPatterns.MatchNeedsPdf` | OpenCourseWare/course_context.py:580-583 | Any match of any of the four patterns needs a ".pdf" ending |
| `AssignmentPatterns.SearchNeedsPdf` | OpenCourseWare/course_context.py:580-583 | Any successful search needs a ".pdf" ending |
| `AssignmentPatterns.ClassifiedNamesEndInPdf` | OpenCourseWare/course_context.py:585-596 | Only names ending in ".pdf" (or ".pdf\n") are classified; other names never reach either map |
| `AssignmentPatterns.LookaheadRedundant` | OpenCourseWare/course_context.py:580-581 | After the digits, the `(?!_soln?)` lookahead followed by `\.pdf$` accepts exactly where `\.pdf$` alone does |
| `AssignmentPatterns.SearchFromFinds` | OpenCourseWare/course_context.py:580-583 | If any match exists at or after the start, the search succeeds |
| `AssignmentPatterns.SearchFromFirst` | OpenCourseWare/course_context.py:580-583 | The search returns the leftmost match |
| `AssignmentPatterns.SuffixMatchShape` | OpenCourseWare/course_context.py:580-581 | A homework or problem-set match is the lead, then the digits, then a `.pdf` ending |
| `AssignmentPatterns.PiecesFormSuffix` | OpenCourseWare/course_context.py:580-581 | Consecutive pieces that run to the end of a name form one suffix of it |
| `AssignmentPatterns.SuffixGivesPieces` | OpenCourseWare/course_context.py:580-581 | Conversely, a suffix made of pieces places each piece at its offset |
| `AssignmentPatterns.MatchGivesSuffix` | OpenCourseWare/course_context.py:580-581 | A homework or problem-set match means the name ends in `hw<d>.pdf`/`ps<d>.pdf` (optionally plus "\n") |
| `AssignmentPatterns.ShapeGivesSuffix` | OpenCourseWare/course_context.py:580-581 | A two-letter lead, the digits and a final `.pdf` in a row make the name end with lead + digits + ".pdf" (optionally plus "\n") |
| `AssignmentPatterns.SuffixPatternSound` | OpenCourseWare/course_context.py:580-581 | A successful homework or problem-set search returns the one or two digits of such a final suffix |
| `AssignmentPatterns.NoEarlierSuffixMatch` | OpenCourseWare/course_context.py:580-581 | No homework or problem-set match starts before the final suffix |
| `AssignmentPatterns.SuffixMatchAt` | OpenCourseWare/course_context.py:580-581 | A final `hw<d>.pdf` or `ps<d>.pdf` suffix is matched at its start with group d |
| `AssignmentPatterns.SuffixStart` | OpenCourseWare/course_context.py:580-581 | A name ending with lead + d + ".pdf" (optionally plus "\n") has the lead, then d, then a final `.pdf` at some position |
| `AssignmentPatterns.SuffixPatternComplete` | OpenCourseWare/course_context.py:580-581 | Every name ending in `hw<d>.pdf`/`ps<d>.pdf` (d of one or two digits) is found with group d |
| `AssignmentPatterns.SuffixPatternIff` | OpenCourseWare/course_context.py:580-581 | Both directions: the homework or problem-set search yields d exactly when the name ends with that suffix |
| `AssignmentPatterns.InlineSolutionWins` | OpenCourseWare/course_context.py:585-587 | A name matching the inline solution pattern anywhere is a solution, whatever else it matches |
| `AssignmentPatterns.SeparateSolutionWins` | OpenCourseWare/course_context.py:585-590 | A name matching the separate solution pattern anywhere is a solution |
| `AssignmentPatterns.ClassifyInlineExample` | OpenCourseWare/course_context.py:582-587 | "hw01_sol.pdf" is the solution for key "01" |
| `AssignmentPatterns.MatchNeedsLead` | OpenCourseWare/course_context.py:580-583 | A match needs the pattern's literal lead in the name, and an inline solution needs "_sol" |
| `AssignmentPatterns.SearchNeedsLead` | OpenCourseWare/course_context.py:580-583 | The same, for a successful search |
| `AssignmentPatterns.NoSolutionWithoutSol` | OpenCourseWare/course_context.py:582-583 | A name without "sol" matches neither solution pattern |
| `AssignmentPatterns.HomeworkName` | OpenCourseWare/course_context.py:580-593 | A name ending `hw<d>.pdf` without "sol" is the problem for `zfill(2)` of d |
| `AssignmentPatterns.ProblemSetName` | OpenCourseWare/course_context.py:581-596 | A name ending `ps<d>.pdf` with neither "sol" nor "hw" is the problem for `zfill(2)` of d |
| `AssignmentPatterns.ClassifyPaddedHomeworkExample` | OpenCourseWare/course_context.py:591-593 | "hw1.pdf" is the problem for key "01" (zero-filled) |
| `AssignmentPatterns.NoInlineWithoutUnderscoreSol` | OpenCourseWare/course_context.py:582 | A name without "_sol" never matches the inline solution pattern |
| `AssignmentPatterns.SeparateMatchExample` | OpenCourseWare/course_context.py:583 | `soln?(\d{1,2}).*\.pdf$` matches "soln1_extra.pdf" at 0 with group "1" |
| `AssignmentPatterns.ClassifyPaddedSolutionExample` | OpenCourseWare/course_context.py:588-590 | "soln1_extra.pdf" is the solution for key "01" |
| `AssignmentPatterns.Sol02Match` | OpenCourseWare/course_context.py:583 | `soln?(\d{1,2}).*\.pdf$` matches "sol02.pdf" at 0 with group "02" |
| `AssignmentPatterns.ClassifySeparateExample` | OpenCourseWare/course_context.py:588-590 | "sol02.pdf" is the solution for key "02" |
| `AssignmentPatterns.ClassifyTrailingWordExample` | OpenCourseWare/course_context.py:580-596 | "hw01_problems.pdf" matches no pattern, so it is dropped |
| `AssignmentPatterns.ThreeDigitsNotHomework` | OpenCourseWare/course_context.py:580 | `\d{1,2}` cannot absorb three digits, so "hw123.pdf" does not match the homework pattern |
| `AssignmentPatterns.ClassifyThreeDigitsExample` | OpenCourseWare/course_context.py:580-596 | "hw123.pdf" is dropped |
| `AssignmentPatterns.ClassifyUpperCaseExample` | OpenCourseWare/course_context.py:580-596 | The patterns are case-sensitive: "HW01.PDF" is dropped |
| `AssignmentPatterns.DigitBeforeExtension` | OpenCourseWare/course_context.py:580-581 | A homework or problem-set match puts a digit just before the final ".pdf", unless the name ends in a newline |
| `AssignmentPatterns.NoDigitBeforeExtension` | OpenCourseWare/course_context.py:580-581 | Hence a name without a final newline and without a digit before its last four characters matches neither pattern |
| `AssignmentPatterns.Unclassified` | OpenCourseWare/course_context.py:585-596 | A name with neither "sol" nor "ps" and no homework match is dropped |
| `AssignmentPatterns.ClassifyHomeworkExample` | OpenCourseWare/course_context.py:591-593 | "hw01.pdf" and "hw03.pdf" are the problems for keys "01" and "03" |
| `AssignmentPatterns.ClassifyPs02Example` | OpenCourseWare/course_context.py:594-596 | "ps02.pdf" is the problem for key "02" |
| `AssignmentPairing.Classifications` | OpenCourseWare/course_context.py:578-583 | One classification per filename, in order |
| `AssignmentPairing.RoleMap` | OpenCourseWare/course_context.py:575-596 | Every entry of `hw_map`/`sol_map` is keyed by a two-digit key and holds a filename classified with that role and key |
| `AssignmentPairing.FillPrefixStep` | OpenCourseWare/course_context.py:578-596 | One more filename updates the map exactly at its classified key, or not at all |
| `AssignmentPairing.Fill` | OpenCourseWare/course_context.py:578-596 | The dictionary assignments `hw_map[num] = path` / `sol_map[num] = path` over the loop, a later name overwriting an earlier one; `FillKeys` and `FillLastWrite` state its keys and values |
| `AssignmentPairing.FillKeys` | OpenCourseWare/course_context.py:578-596 | A key is in a map exactly when some filename is classified with that role and key |
| `AssignmentPairing.FillLastWrite` | OpenCourseWare/course_context.py:585-596 | The value at a key is the last filename with that role and key (a later file replaces an earlier one) |
| `AssignmentPairing.FillEntries` | OpenCourseWare/course_context.py:585-596 | Every map value is one of the filenames, classified with the map's role and that key |
| `AssignmentPairing.RoleMapLastWrite` | OpenCourseWare/course_context.py:585-596 | The same key and last-write facts, for the map built from the filenames |
| `AssignmentPairing.StrLessIrreflexive` | OpenCourseWare/course_context.py:598 | Python string order is irreflexive |
| `AssignmentPairing.StrLessTransitive` | OpenCourseWare/course_context.py:598 | Python string order is transitive |
| `AssignmentPairing.StrLessTotal` | OpenCourseWare/course_context.py:598 | Python string order is total |
| `AssignmentPairing.StrLessAsymmetric` | OpenCourseWare/course_context.py:598 | Python string order is asymmetric |
| `AssignmentPairing.MinOf` | OpenCourseWare/course_context.py:598 | Returns the member of a non-empty key set that is below all the others |
| `AssignmentPairing.SortKeys` | OpenCourseWare/course_context.py:598 | `sorted(set)`: the result holds exactly the set's keys, strictly increasing |
| `AssignmentPairing.IncreasingUnique` | OpenCourseWare/course_context.py:598 | Two strictly increasing sequences with the same members are equal, so the sorted order is unique |
| `AssignmentPairing.KeyOf` | OpenCourseWare/course_context.py:586-598 | The n-th two-digit key is a key |
| `AssignmentPairing.KeyOfOrder` | OpenCourseWare/course_context.py:598 | Numeric order of two-digit keys agrees with string order |
| `AssignmentPairing.KeyOfOnto` | OpenCourseWare/course_context.py:598 | Every two-digit key is one of "00".."99" |
| `AssignmentPairing.KeysInOrderFromSpec` | OpenCourseWare/course_context.py:598 | Walking "00".."99" and keeping the set's keys gives an increasing sequence of exactly those keys |
| `AssignmentPairing.SortedKeys` | OpenCourseWare/course_context.py:598 | The reference order for `sorted(...)` of the key set: the keys "00" to "99" that are in the set, in increasing order; `SortedKeysSpec` and `SortIsReference` tie it to any sort |
| `AssignmentPairing.SortedKeysSpec` | OpenCourseWare/course_context.py:598 | The reference order is increasing and holds exactly the set's keys |
| `AssignmentPairing.SortIsReference` | OpenCourseWare/course_context.py:598 | Any increasing listing of a set of keys, such as the one `SortKeys` returns, equals the reference order |
| `AssignmentPairing.PairsForPrefixStep` | OpenCourseWare/course_context.py:600-604 | One more key appends its pair exactly when both maps hold a non-empty filename for it |
| `AssignmentPairing.Emits` | OpenCourseWare/course_context.py:601-603 | `if hw and sol`: the key is in both maps and both stored names are non-empty |
| `AssignmentPairing.PairsFor` | OpenCourseWare/course_context.py:600-604 | The pairs loop over the sorted keys, appending `(hw_map[key], sol_map[key])` for each key it emits; `PairsForSpec` states what it holds |
| `AssignmentPairing.PairsForSpec` | OpenCourseWare/course_context.py:600-604 | Each pair holds the two map values of the matching key, and the keys emitted are the keys present in both maps, in order |
| `AssignmentPairing.BatchesFromSortedKeys` | OpenCourseWare/course_context.py:598-606 | Pairing along any increasing listing of the union of the map keys gives `Batches` |
| `AssignmentPairing.EmitsIffPresent` | OpenCourseWare/course_context.py:600-604 | A key yields a pair exactly when some filename is a problem and some filename is a solution for that key |
| `AssignmentPairing.BatchesOrdered` | OpenCourseWare/course_context.py:598-606 | The i-th batch is the (problem, solution) map values of the i-th emitted key |
| `AssignmentPairing.BatchKeysComplete` | OpenCourseWare/course_context.py:598-606 | A key is batched exactly when both a problem and a solution with that key were seen |
| `AssignmentPairing.Batches` | OpenCourseWare/course_context.py:570-610 | `problem_set_batches` computed from `problem_set_filenames`: the role maps, their sorted keys and the pairs loop; `BatchesSpec` states its order and completeness |
| `AssignmentPairing.BatchesSpec` | OpenCourseWare/course_context.py:570-610 | One batch per batched key, keys strictly increasing, each batch a problem and a solution for its key, no key missed |
| `AssignmentPairing.BatchesDistinct` | OpenCourseWare/course_context.py:598-606 | No filename appears in two batches on the same side |
| `AssignmentPairing.ExampleHomework` | OpenCourseWare/course_context.py:591-593 | In the five-file listing, "hw01.pdf" is the problem for key "01" |
| `AssignmentPairing.ExampleInlineSolution` | OpenCourseWare/course_context.py:585-587 | "hw01_sol.pdf" is the solution for key "01" |
| `AssignmentPairing.ExampleProblemSet` | OpenCourseWare/course_context.py:594-596 | "ps02.pdf" is the problem for key "02" |
| `AssignmentPairing.ExampleSeparateSolution` | OpenCourseWare/course_context.py:588-590 | "sol02.pdf" is the solution for key "02" |
| `AssignmentPairing.ExampleUnsolved` | OpenCourseWare/course_context.py:591-593 | "hw03.pdf" is the problem for key "03" |
| `AssignmentPairing.ExampleClassifications` | OpenCourseWare/course_context.py:578-596 | The classifications of the five-file listing |
| `AssignmentPairing.FillSnoc` | OpenCourseWare/course_context.py:585-596 | Appending a filename updates the map only at its classified key |
| `AssignmentPairing.ExampleFill` | OpenCourseWare/course_context.py:575-596 | The problem and solution maps of the five-file listing |
| `AssignmentPairing.ExampleRoleMap` | OpenCourseWare/course_context.py:575-596 | The same maps, built from the filenames |
| `AssignmentPairing.BatchesExample` | OpenCourseWare/course_context.py:570-606 | hw01/hw01_sol, ps02/sol02 and an unpaired hw03 give exactly two batches, in key order |
| `AssignmentPairing.PaddedClassifications` | OpenCourseWare/course_context.py:585-593 | "hw1.pdf" is the problem and "soln1_extra.pdf" the solution for the padded key "01" |
| `AssignmentPairing.PaddedBatchExample` | OpenCourseWare/course_context.py:570-606 | ["hw1.pdf", "soln1_extra.pdf"] gives exactly the one batch ("hw1.pdf", "soln1_extra.pdf") |
| `AssignmentPairing.ExamplePairs` | OpenCourseWare/course_context.py:598-606 | The pairing loop over keys "01","02","03" skips the key with no solution |
| `CourseContexts.Qualifies` | OpenCourseWare/course_context.py:309-310 | A record qualifies for a tag when the tag is among its resource types and its "file" is present, non-empty and contains ".pdf" |
| `CourseContexts.Bucket` | OpenCourseWare/course_context.py:303-313 | The names collected for a tag: the last "/" segment of each qualifying record's file, in record order; `BucketMembers`, `BucketAppend` and `BucketSize` state its contents |
| `CourseContexts.Records` | OpenCourseWare/course_context.py:303-307 | The parsed record of every manifest entry, in order |
| `CourseContexts.BucketAppend` | OpenCourseWare/course_context.py:304-313 | Collecting is order-preserving: the bucket of a concatenation is the concatenation of the buckets |
| `CourseContexts.ContributesStep` | OpenCourseWare/course_context.py:309-313 | A record list contributes a name exactly when its records before the last do or its last record does |
| `CourseContexts.BucketMembers` | OpenCourseWare/course_context.py:309-313 | A name is collected exactly when it is the last '/' segment of a tagged record whose file contains ".pdf" |
| `CourseContexts.BucketNamesHaveNoSlash` | OpenCourseWare/course_context.py:312 | A collected name holds no '/' |
| `CourseContexts.QualifyingIndicesStep` | OpenCourseWare/course_context.py:309-313 | One more record adds its position to the qualifying positions exactly when it qualifies |
| `CourseContexts.BucketSize` | OpenCourseWare/course_context.py:309-313 | The bucket's length is the number of qualifying records: one name per qualifying record |
| `CourseContexts.SubstringNotSuffixExample` | OpenCourseWare/course_context.py:310 | ".pdf" is tested as a substring: "static/notes.pdf.txt" is collected as "notes.pdf.txt" |
| `CourseContexts.CollectBucket` | OpenCourseWare/course_context.py:303-320 | Fails exactly when an entry cannot be read; otherwise returns the bucket of the records |
| `CourseContexts.TextOf` | OpenCourseWare/course_context.py:560-566 | The text of a plain file from its lines: all lines joined, or the first 10000 joined plus the truncation marker; `TextOfSpec` states both cases |
| `CourseContexts.TextOfSpec` | OpenCourseWare/course_context.py:558-566 | Up to 10000 lines are joined whole; more are cut to the first 10000, a prefix of the whole text, followed by the truncation marker and nothing else |
| `CourseContexts.TruncationMarkerText` | OpenCourseWare/course_context.py:564 | The marker is "\n... (truncated at 10000 lines)" |
| `CourseContexts.DotExtension` | OpenCourseWare/course_context.py:550 | The text after a name's last '.' ends the name with that dot and has no dot |
| `CourseContexts.Suffix` | OpenCourseWare/course_context.py:550 | `Path.suffix`: the last "."-segment of the final path component with its dot, or empty when the component has no dot, starts with it or ends with it; `SuffixShape` states its form |
| `CourseContexts.SuffixShape` | OpenCourseWare/course_context.py:550 | `Path.suffix` is empty or a dot plus at least one character, free of '.' and '/', and ends the path |
| `CourseContexts.ReadCorpusFile` | OpenCourseWare/course_context.py:542-568 | Raises "file does not exist: <target>" for a missing file and never for a stored one (a stored ".json" file is taken to parse); a lower-cased ".json" suffix gives the re-dumped JSON, ".pdf" the extracted text, any other suffix the possibly truncated text |
| `CourseContexts.UpperCasePdfExample` | OpenCourseWare/course_context.py:555-557 | "NOTES.PDF" is read as a PDF because the suffix is lower-cased |
| `CourseContexts.BatchFileName` | OpenCourseWare/course_context.py:468-469 | A batch file is named "problem_set_" … ".pdf" |
| `CourseContexts.BatchFileNumber` | OpenCourseWare/course_context.py:468 | Its middle is `str(i + 1).zfill(2)`: digits, at least two, with value i + 1 |
| `CourseContexts.BatchFileNamesDistinct` | OpenCourseWare/course_context.py:465-469 | Different batches get different file names |
| `CourseContexts.BatchFileNameExamples` | OpenCourseWare/course_context.py:468-469 | Batches 0 and 9 are "problem_set_01.pdf" and "problem_set_10.pdf" |
| `CourseContexts.SavedPaths` | OpenCourseWare/course_context.py:464-512 | The paths reported for the batches in order, each batch whose combined PDF was saved contributing "<out>/problem_set_NN.pdf"; `SavedPathsSpec` states which |
| `CourseContexts.SavedPathsSpec` | OpenCourseWare/course_context.py:464-512 | A path is returned exactly for each batch whose PDF was written, and no path twice |
| `CourseContexts.ExtractProblemSetsPdf` | OpenCourseWare/course_context.py:458-512 | Returns nothing exactly when there are no batches; otherwise the paths of the written batch files, in order |
| `CourseContexts.StoreName` | OpenCourseWare/course_context.py:579-596 | One loop step: a solution goes into `sol_map` and a problem into `hw_map` under its classified key, replacing the old value; an unclassified name changes neither map |
| `CourseContexts.FillRoleMaps` | OpenCourseWare/course_context.py:575-596 | The loop builds exactly the last-write-wins problem and solution maps |
| `CourseContexts.CourseContext.constructor` | OpenCourseWare/course_context.py:18-37 | Keeps both URLs, takes the slug as the URL's last '/' segment, starts all four lists empty |
| `CourseContexts.CourseContext.GetAssignments` | OpenCourseWare/course_context.py:292-320 | Raises exactly when the corpus exists and no data.json is found; on a readable manifest sets the assignment files to the "Assignments" bucket; otherwise leaves them |
| `CourseContexts.CourseContext.GetLectures` | OpenCourseWare/course_context.py:322-350 | The same for "Lecture Notes", raising with the assignment message |
| `CourseContexts.CourseContext.GetReadings` | OpenCourseWare/course_context.py:352-380 | The same for "Readings", with the readings message |
| `CourseContexts.CourseContext.BatchProblemSets` | OpenCourseWare/course_context.py:570-610 | With no assignment files nothing changes; otherwise the batches become `Batches` of the files |
| `CourseContexts.CourseContext.Contextualize` | OpenCourseWare/course_context.py:78-84 | A missing root data.json raises with the course URL and changes nothing; an empty manifest raises and changes nothing; with no corpus, or an unreadable manifest entry, the run passes, the three name lists stay as they were and the batches are recomputed from the old assignment names (or kept when those are empty); with a readable manifest all three lists are set, and the batches become the pairs of the new assignment names, or are kept when there are no assignment files |
| `Scraping.RunUrlsAppend` | OpenCourseWare/scraper.py:105-109 | URL collection is order-preserving over runs |
| `Scraping.HitsUrlsFlatten` | OpenCourseWare/scraper.py:101-109 | The nested loops give the URLs of all runs of all hits, flattened in order |
| `Scraping.RunUrlsSpec` | OpenCourseWare/scraper.py:105-109 | A URL is produced exactly for a run with a non-empty slug, as host + slug; one per such run |
| `Scraping.CourseUrls` | OpenCourseWare/scraper.py:95-111 | The URLs `_extract_course_urls` collects: host + slug for each run with a non-empty slug, hit by hit and run by run; `CourseUrlsSpec` states its contents |
| `Scraping.CourseUrlsSpec` | OpenCourseWare/scraper.py:95-111 | The course URLs are host + slug for every slugged run; a response without `hits.hits` gives none |
| `Scraping.CourseUrlsExample` | OpenCourseWare/scraper.py:95-111 | A run without a slug is skipped; the others become "https://ocw.mit.edu/" + slug |
| `Scraping.ResolveHref` | OpenCourseWare/scraper.py:169-174 | The resolved URL ends with the href |
| `Scraping.ResolveHrefIdempotent` | OpenCourseWare/scraper.py:169-174 | Against an http base, the resolved URL starts with "http" and resolving it again changes nothing |
| `Scraping.ResolveHrefKeepsZip` | OpenCourseWare/scraper.py:169-174 | Resolving keeps ".zip" in the URL |
| `Scraping.DownloadButton` | OpenCourseWare/scraper.py:162-168 | Strategy 1's test: an "a" or "button" whose href contains ".zip" and whose text, lower-cased, contains "download", "course" or "zip" |
| `Scraping.FirstDownloadButton` | OpenCourseWare/scraper.py:162-174 | Strategy 1: the first element passing that test, its href resolved; `FirstDownloadButtonSpec` states it |
| `Scraping.FirstDownloadButtonSpec` | OpenCourseWare/scraper.py:162-174 | Strategy 1 fails exactly when no element qualifies; otherwise it resolves the first qualifying element |
| `Scraping.FirstZipAnchor` | OpenCourseWare/scraper.py:192-200 | Strategy 3: the first anchor whose href contains ".zip", resolved; `FirstZipAnchorSpec` states it |
| `Scraping.FirstZipAnchorSpec` | OpenCourseWare/scraper.py:192-200 | Strategy 3 fails exactly when no anchor has ".zip" in its href; otherwise it resolves the first one |
| `Scraping.ZipLink` | OpenCourseWare/scraper.py:151-202 | `_extract_zip_download_link`: strategy 1, else strategy 2, else strategy 3, else None; `ZipLinkSpec` states the priority and the result's form |
| `Scraping.ZipLinkSpec` | OpenCourseWare/scraper.py:151-202 | None exactly when all three strategies fail; strategy 1 wins whenever it applies; any link found contains ".zip" |
| `Scraping.ZipLinkExample` | OpenCourseWare/scraper.py:162-174 | A relative "2-001.zip" in a "Download course" anchor resolves to the course URL + "/2-001.zip" |
| `Scraping.ZipUrls` | OpenCourseWare/scraper.py:138-139 | The returned zip URLs are the second components of the recorded pairs, in order |
| `Scraping.FoundLinks` | OpenCourseWare/scraper.py:127-140 | The (course URL, zip URL) pairs recorded in `self.urls`, one for each course whose page gave a link, in course order; `FoundLinksSpec` states them |
| `Scraping.FoundLinksSpec` | OpenCourseWare/scraper.py:127-140 | At most one pair per entry of the course list; each pair is a course and its own link, and every course with a link is recorded |
| `Scraping.ScrapeStep` | OpenCourseWare/scraper.py:127-140 | One more course extends the status check by its page and the found pairs and zip URLs by its link, if any |
| `Scraping.Scraper.constructor` | OpenCourseWare/scraper.py:10-17 | Host and API URL constants; no URLs; no pages scraped |
| `Scraping.Scraper.ExtractCourseUrls` | OpenCourseWare/scraper.py:95-111 | The nested loops return exactly `CourseUrls` of the response |
| `Scraping.Scraper.ExtractZipDownloadLink` | OpenCourseWare/scraper.py:151-202 | The three strategy loops return exactly `ZipLink` of the page |
| `Scraping.Scraper.ScrapeDownloadLinks` | OpenCourseWare/scraper.py:113-149 | Succeeds exactly when every download page answers 200; then the found pairs are appended and every page is counted; otherwise it raises with the first bad page's URL after recording the pages before it |
| `Scraping.Scraper.Scrape` | OpenCourseWare/scraper.py:19-63 | A failed search raises "Fetching courses failed." and changes nothing; no course URLs leaves the state alone; when every download page is fine the pairs and the page count are recorded; otherwise the first bad page raises "Bad response when looking up download page: <url>", with the pairs and the page count of the pages before it recorded |
| `Pipelines.SuccessCount` | OpenCourseWare/pipeline.py:39-52 | The "successful" counter: one for each course whose processing returned |
| `Pipelines.FailedUrls` | OpenCourseWare/pipeline.py:39-52 | `failed_courses`: the course URL of each payload whose processing raised, in order; `OutcomesPartition` and `FailuresListed` relate it to the counters |
| `Pipelines.OutcomesPartition` | OpenCourseWare/pipeline.py:39-52 | Successes plus failures equal the number of courses, and each listed failure is a failed course's URL |
| `Pipelines.FailuresListed` | OpenCourseWare/pipeline.py:48-52 | Every failed course's URL is listed; one failure does not stop the others |
| `Pipelines.OpenCourseWarePipeline.constructor` | OpenCourseWare/pipeline.py:13-23 | A fresh scraper, no failures, no timestamps, all counters zero |
| `Pipelines.OpenCourseWarePipeline.ProcessCourses` | OpenCourseWare/pipeline.py:39-52 | After the loop, `successful` grows by the successes and `failed` by the failures, the failed URLs are appended in order, and no other field of the stats changes |
| `Pipelines.OpenCourseWarePipeline.RunPipeline` | OpenCourseWare/pipeline.py:29-60 | Both timestamps are always set. It returns the stats exactly when scraping succeeded with URLs, and raises "No scraper URLs found" when there are none. The total is the number of URLs, the counters grow by the successes and failures, failures are listed in order, and from a fresh start successes plus failures equal the total. When scraping fails, the scraper's message is raised (for a bad download page, that page's URL, with the pairs found before it kept), and the total and both counters are untouched |
| `Text.EndsWithTransitive` | OpenCourseWare/course_context.py:550 | A suffix of a suffix is a suffix |
| `Text.ContainsIff` | OpenCourseWare/course_context.py:310 | Python `in` on strings holds exactly when the substring occurs at some position |
| `Text.ContainsInSuperstring` | OpenCourseWare/scraper.py:167 | A substring stays a substring of any extension |
| `Text.NotContains` | OpenCourseWare/course_context.py:582-583 | With no adjacent pair of its first two characters, a string does not contain the substring |
| `Text.DecimalString` | OpenCourseWare/course_context.py:468 | `str(n)` is digits with no leading zero, one digit exactly below 10 |
| `Text.DecimalRoundTrip` | OpenCourseWare/course_context.py:468 | Reading `str(n)` back gives n |
| `Text.ZFill` | OpenCourseWare/course_context.py:586 | `zfill` pads to the width and never shortens |
| `Text.ZFillDigits` | OpenCourseWare/course_context.py:586 | `zfill` of digits keeps digits, the value, and ends with the original |
| `Text.Lower` | OpenCourseWare/course_context.py:550 | `lower()` maps each character and keeps the length |
| `Text.ConcatPrefix` | OpenCourseWare/course_context.py:563 | Joining the first n lines gives a prefix of joining them all |
| `Text.LastSegment` | OpenCourseWare/course_context.py:21 | `split(sep)[-1]` is no longer than the string |
| `Text.LastSegmentShape` | OpenCourseWare/course_context.py:312 | `split(sep)[-1]` ends the string, contains no separator and is preceded by a separator or the start |
| `Text.LastSegmentWhole` | OpenCourseWare/course_context.py:312 | A string with no separator is its own last segment |
| `Text.LastSegmentAfter` | OpenCourseWare/course_context.py:312 | The last segment of pre + sep + post, post separator-free, is post |

## Left out

- Network I/O: the search POST, the download-page GETs, the zip download and its extraction (`_download`, `_download_zip_file`, `_extract_zip_file`). Responses are given as values; the search request becomes an `Option<SearchResponse>` (None for a failed request).
- HTML parsing: BeautifulSoup is not modelled. A page is a list of elements with tag, href and stripped text. Strategy 2's search for "download … course" text and its parent's `.zip` anchors is given as the first such href (`nearDownloadHref`), because it depends on the DOM tree.
- File-system access: `glob`, `open`, `json.load`, `Path.exists` and directory creation. The corpus is a presence flag plus a manifest of parsed records. An entry that cannot be read or parsed is `Unreadable`; JSON values of an unexpected type are not modelled.
- `read_corpus_static_resource_file` (course_context.py:514-540) has the same logic as `read_corpus_file` under a different directory. Both are modelled by `CourseContexts.ReadCorpusFile`, with the target path given as a string.
- `CourseContexts.ReadCorpusFile`: `json.dumps(data, indent=2)` and `extract_pdf` are given as the stored file's precomputed texts. A stored ".json" file is taken to parse: the `json.JSONDecodeError` that `json.load` raises on invalid JSON (course_context.py:555-558) is not modelled, and neither are decoding errors of plain-text files.
- `Text.Lower`: lower-casing covers ASCII only. Python's full Unicode case mapping is not modelled.
- `AssignmentPatterns.Classify`: `\d` is modelled as the ASCII digits 0-9. Python's `\d` also matches other Unicode decimal digits.
- `CourseContexts.CourseContext.Contextualize`: `_get_course_info` field extraction (title, year, level, …) is not modelled; only the presence check and its error are. `infoPresent` means the info step completes. The step also raises when data.json is not valid JSON, and when "level" is missing or empty (`course_data.get("level")[0]`, course_context.py:242); those raises are not modelled. The fields are not read by the core.
- Unchecked error paths: an exception from `requests.get` (connection error, timeout) propagates out of `scrape` (scraper.py:129-131); a JSON null in a hit's `_source` or `runs` makes `.get` or the loop raise a `TypeError` (scraper.py:102-105); a `None` corpus path makes `self.corpus_path / "data.json"` raise (course_context.py:236). None of these is modelled.
- `extract_problem_sets_pdf`: merging the two PDFs with PyMuPDF and writing them is given as `saved(i)`, "batch i was written". The per-batch exception is logged and skipped.
- `extract_lectures_pdf`, `extract_readings_pdf`, `extract_all*`, `_process_problem_set_batch`, `_save_problem_set`, `save_course`, `get_remote_path`, `load`, `_clear_corpus` and `_clear_course_out_dir`: database, object-storage and file-system work outside the modelled core.
- `Pipelines.OpenCourseWarePipeline.RunPipeline`: `CourseContext(...).extracl_all_to_db()` for one course is given as `succeeds(i)`. Logging, the `asyncio.run` wrapper and `processed_courses` (never written) are not modelled.
- `Scraping.Scraper.Scrape`: `time.time`, the duration, `time.sleep(delay)` between pages and the "No courses found" summary dict (returned but unused by the pipeline) are not modelled. The `department`, `size` and `delay` arguments are not modelled either; `_fetch_courses_with_problem_sets` ignores them.
- Logging throughout.
- The lecture-notes lookup raises "No files found when looking up assignment data.json", the same message as the assignment lookup. The model keeps this message as the code has it.
