/**
 * A course unpacked from its OpenCourseWare download: the resource buckets filled from the
 * per-resource `data.json` records, the assignment pairer, the text read back from the corpus and
 * the names of the combined problem-set PDFs.
 */
module CourseContexts {
  import opened Wrappers
  import opened Text
  import opened AssignmentPatterns
  import opened AssignmentPairing

  // ----- Resource records and buckets -------------------------------------------------------

  /**
   * One `resources/**/data.json` record: its `file` entry (None when the key is absent or its
   * value is falsy) and its `learning_resource_types` list (empty when absent).
   */
  datatype Record = Record(file: Option<string>, tags: seq<string>)

  /** A manifest entry: a record, or a file that could not be opened or parsed as JSON. */
  datatype Entry = Parsed(record: Record) | Unreadable

  const AssignmentsTag := "Assignments"
  const LectureNotesTag := "Lecture Notes"
  const ReadingsTag := "Readings"

  /** Whether a record goes into the bucket for `tag`: exact tag, a non-empty `file` containing ".pdf". */
  predicate Qualifies(r: Record, tag: string) {
    tag in r.tags && r.file.Some? && r.file.value != [] && Contains(r.file.value, ".pdf")
  }

  /** The file name a qualifying record contributes: the text after the last '/' of its `file`. */
  function FileName(r: Record): string
    requires r.file.Some?
  {
    LastSegment(r.file.value, '/')
  }

  /** The bucket for `tag`: the file names of the qualifying records, in record order. */
  function Bucket(records: seq<Record>, tag: string): seq<string> {
    if records == [] then []
    else
      var n := |records| - 1;
      Bucket(records[..n], tag) + (if Qualifies(records[n], tag) then [FileName(records[n])] else [])
  }

  /** Every entry of the manifest could be read. */
  predicate AllReadable(manifest: seq<Entry>) {
    forall i :: 0 <= i < |manifest| ==> manifest[i].Parsed?
  }

  /** The records of a fully readable manifest. */
  function Records(manifest: seq<Entry>): (rs: seq<Record>)
    requires AllReadable(manifest)
    ensures |rs| == |manifest| && forall i :: 0 <= i < |rs| ==> rs[i] == manifest[i].record
  {
    seq(|manifest|, i requires 0 <= i < |manifest| => manifest[i].record)
  }

  /** Buckets keep record order: the bucket of two record lists is the two buckets one after the other. */
  lemma {:induction false} BucketAppend(a: seq<Record>, b: seq<Record>, tag: string)
    ensures Bucket(a + b, tag) == Bucket(a, tag) + Bucket(b, tag)
    decreases |b|
  {
    if b == [] {
      assert a + b == a;
    } else {
      var n := |b| - 1;
      assert (a + b)[..|a + b| - 1] == a + b[..n];
      BucketAppend(a, b[..n], tag);
    }
  }

  /** Some qualifying record of `records` contributes the name `x`. */
  predicate Contributes(records: seq<Record>, tag: string, x: string) {
    exists i :: 0 <= i < |records| && Qualifies(records[i], tag) && FileName(records[i]) == x
  }

  /** The records before the last contribute a name, or the last record does. */
  lemma ContributesStep(records: seq<Record>, tag: string, x: string)
    requires records != []
    ensures var n := |records| - 1;
      Contributes(records, tag, x) <==>
      Contributes(records[..n], tag, x) || (Qualifies(records[n], tag) && FileName(records[n]) == x)
  {
    var n := |records| - 1;
    if Contributes(records[..n], tag, x) {
      var i :| 0 <= i < n && Qualifies(records[..n][i], tag) && FileName(records[..n][i]) == x;
      assert records[i] == records[..n][i];
    }
    if Contributes(records, tag, x) && !(Qualifies(records[n], tag) && FileName(records[n]) == x) {
      var i :| 0 <= i < |records| && Qualifies(records[i], tag) && FileName(records[i]) == x;
      assert records[..n][i] == records[i];
    }
  }

  /** A name is in the bucket exactly when some qualifying record contributes it. */
  lemma {:induction false} BucketMembers(records: seq<Record>, tag: string, x: string)
    ensures x in Bucket(records, tag) <==> Contributes(records, tag, x)
  {
    if records != [] {
      BucketMembers(records[..|records| - 1], tag, x);
      ContributesStep(records, tag, x);
    }
  }

  /** Every name of a bucket is a final path segment, so it holds no '/'. */
  lemma {:induction false} BucketNamesHaveNoSlash(records: seq<Record>, tag: string, x: string)
    requires x in Bucket(records, tag)
    ensures forall j :: 0 <= j < |x| ==> x[j] != '/'
  {
    var n := |records| - 1;
    if x in Bucket(records[..n], tag) {
      BucketNamesHaveNoSlash(records[..n], tag, x);
    } else {
      LastSegmentShape(records[n].file.value, '/');
    }
  }

  /** The positions of the records that go into the bucket for `tag`. */
  function QualifyingIndices(records: seq<Record>, tag: string): set<nat> {
    set i: nat | i < |records| && Qualifies(records[i], tag)
  }

  /** Adding a record adds its position exactly when it qualifies. */
  lemma QualifyingIndicesStep(records: seq<Record>, tag: string)
    requires records != []
    ensures var n := |records| - 1;
      QualifyingIndices(records, tag) ==
      QualifyingIndices(records[..n], tag) + (if Qualifies(records[n], tag) then {n} else {})
  {
    var n := |records| - 1;
    forall i: nat | i < n
      ensures Qualifies(records[..n][i], tag) == Qualifies(records[i], tag)
    {
      assert records[..n][i] == records[i];
    }
  }

  /** A bucket holds one name per qualifying record: its length counts the qualifying records. */
  lemma {:induction false} BucketSize(records: seq<Record>, tag: string)
    ensures |Bucket(records, tag)| == |QualifyingIndices(records, tag)|
  {
    if records != [] {
      var n := |records| - 1;
      BucketSize(records[..n], tag);
      QualifyingIndicesStep(records, tag);
      assert n !in QualifyingIndices(records[..n], tag);
    }
  }

  /** ".pdf" is a substring test, not a suffix test: "notes.pdf.txt" is collected. */
  lemma SubstringNotSuffixExample()
    ensures Bucket([Record(Some("static/notes.pdf.txt"), ["Readings"])], ReadingsTag) == ["notes.pdf.txt"]
  {
    var f := "static/notes.pdf.txt";
    assert OccursAt(f, ".pdf", 12);
    ContainsIff(f, ".pdf");
    var r := Record(Some(f), ["Readings"]);
    assert Qualifies(r, ReadingsTag);
    assert [r][..0] == [];
    assert f == "static" + ['/'] + "notes.pdf.txt";
    LastSegmentAfter("static", '/', "notes.pdf.txt");
  }

  /**
   * The body of the `_get_*` loop: the bucket for `tag`, or None when an entry cannot be read (the
   * loop is then abandoned and the caller's field keeps its old value).
   */
  method CollectBucket(manifest: seq<Entry>, tag: string) returns (r: Option<seq<string>>)
    ensures r.None? <==> !AllReadable(manifest)
    ensures r.Some? ==> r.value == Bucket(Records(manifest), tag)
  {
    var names := [];
    var i := 0;
    while i < |manifest|
      invariant 0 <= i <= |manifest|
      invariant AllReadable(manifest[..i])
      invariant names == Bucket(Records(manifest[..i]), tag)
    {
      match manifest[i]
      case Unreadable =>
        return None;
      case Parsed(rec) =>
        if tag in rec.tags && rec.file.Some? && rec.file.value != [] && Contains(rec.file.value, ".pdf") {
          names := names + [LastSegment(rec.file.value, '/')];
        }
        assert Records(manifest[..i + 1])[..i] == Records(manifest[..i]);
      i := i + 1;
    }
    assert manifest[..i] == manifest;
    r := Some(names);
  }

  // ----- Reading corpus files ---------------------------------------------------------------

  const MaxLines := 10000

  /** The marker appended after the kept lines of a truncated file. */
  function TruncationMarker(): string {
    "\n... (truncated at " + DecimalString(MaxLines) + " lines)"
  }

  /** The text of a plain-text corpus file given its lines (`readlines()`, each with its newline). */
  function TextOf(lines: seq<string>): string {
    if |lines| > MaxLines then Concat(lines[..MaxLines]) + TruncationMarker() else Concat(lines)
  }

  /**
   * A file of at most 10000 lines is returned whole; a longer one is cut to its first 10000 lines,
   * which are a prefix of the whole text, followed by the marker.
   */
  lemma TextOfSpec(lines: seq<string>)
    ensures |lines| <= MaxLines ==> TextOf(lines) == Concat(lines)
    ensures |lines| > MaxLines ==>
      && |TextOf(lines)| == |Concat(lines[..MaxLines])| + |TruncationMarker()|
      && StartsWith(TextOf(lines), Concat(lines[..MaxLines]))
      && StartsWith(Concat(lines), Concat(lines[..MaxLines]))
      && EndsWith(TextOf(lines), TruncationMarker())
  {
    if |lines| > MaxLines {
      ConcatPrefix(lines, MaxLines);
      var kept := Concat(lines[..MaxLines]);
      assert TextOf(lines)[..|kept|] == kept;
      assert TextOf(lines)[|TextOf(lines)| - |TruncationMarker()|..] == TruncationMarker();
    }
  }

  /** The marker reads "\n... (truncated at 10000 lines)". */
  lemma TruncationMarkerText()
    ensures TruncationMarker() == "\n... (truncated at 10000 lines)"
  {
    assert DecimalString(10000) == "10000" by {
      assert DecimalString(1) == "1";
      assert DecimalString(10) == "10";
      assert DecimalString(100) == "100";
      assert DecimalString(1000) == "1000";
    }
  }

  /**
   * `Path.suffix`: within the final path component, the text from its last '.', unless there is no
   * dot, the dot starts the component or the dot ends it.
   */
  function Suffix(path: string): string {
    var name := LastSegment(path, '/');
    var ext := LastSegment(name, '.');
    if |ext| + 1 < |name| && ext != [] then ['.'] + ext else []
  }

  /** The dot before the last '.'-segment, with that segment, ends the name. */
  lemma DotExtension(name: string)
    requires |LastSegment(name, '.')| < |name|
    ensures EndsWith(name, ['.'] + LastSegment(name, '.'))
    ensures forall i :: 0 <= i < |LastSegment(name, '.')| ==> LastSegment(name, '.')[i] != '.'
  {
    var ext := LastSegment(name, '.');
    LastSegmentShape(name, '.');
    assert name[|name| - |ext| - 1..] == [name[|name| - |ext| - 1]] + name[|name| - |ext|..];
  }

  /** A suffix is empty or a dot followed by at least one character that is neither '.' nor '/', and it ends the path. */
  lemma SuffixShape(path: string)
    ensures Suffix(path) == [] || (Suffix(path)[0] == '.' && 2 <= |Suffix(path)|)
    ensures forall i :: 0 < i < |Suffix(path)| ==> Suffix(path)[i] != '.' && Suffix(path)[i] != '/'
    ensures EndsWith(path, Suffix(path))
  {
    var name := LastSegment(path, '/');
    var ext := LastSegment(name, '.');
    LastSegmentShape(path, '/');
    var r := Suffix(path);
    if |ext| + 1 < |name| && ext != [] {
      DotExtension(name);
      EndsWithTransitive(path, name, r);
      forall i | 0 < i < |r| ensures r[i] != '/' {
        EndsWithAt(name, r, i);
      }
    }
  }

  /** What the corpus holds at a path: nothing, or a file with its lines, its JSON re-dump and its PDF text. */
  datatype StoredFile = Missing | Stored(lines: seq<string>, jsonDump: string, pdfText: string)

  /**
   * `read_corpus_file` / `read_corpus_static_resource_file` on the joined path `target`: a missing
   * file raises; ".json" gives the re-dumped JSON, ".pdf" the extracted PDF text (the suffix compared
   * lower-cased), anything else the possibly truncated text.
   */
  function ReadCorpusFile(target: string, file: StoredFile): (r: Result<string>)
    ensures r.Raised? <==> file.Missing?
    ensures r.Raised? ==> StartsWith(r.message, "file does not exist: ") && EndsWith(r.message, target)
    ensures file.Stored? && Lower(Suffix(target)) == ".json" ==> r == Ok(file.jsonDump)
    ensures file.Stored? && Lower(Suffix(target)) == ".pdf" ==> r == Ok(file.pdfText)
    ensures file.Stored? && Lower(Suffix(target)) != ".json" && Lower(Suffix(target)) != ".pdf" ==>
      r == Ok(TextOf(file.lines))
  {
    match file
    case Missing =>
      var m := "file does not exist: " + target;
      assert m[..21] == "file does not exist: " && m[21..] == target;
      Raised(m)
    case Stored(lines, jsonDump, pdfText) =>
      var suffix := Lower(Suffix(target));
      if suffix == ".json" then Ok(jsonDump)
      else if suffix == ".pdf" then Ok(pdfText)
      else Ok(TextOf(lines))
  }

  /** The suffix test ignores case: "NOTES.PDF" is read as a PDF. */
  lemma UpperCasePdfExample(file: StoredFile)
    requires file.Stored?
    ensures ReadCorpusFile("static_resources/NOTES.PDF", file) == Ok(file.pdfText)
  {
    var t := "static_resources/NOTES.PDF";
    assert t == "static_resources" + ['/'] + "NOTES.PDF";
    LastSegmentAfter("static_resources", '/', "NOTES.PDF");
    assert "NOTES.PDF" == "NOTES" + ['.'] + "PDF";
    LastSegmentAfter("NOTES", '.', "PDF");
    assert Suffix(t) == ".PDF";
    assert Lower(".PDF") == ".pdf";
  }

  // ----- Problem-set PDFs -------------------------------------------------------------------

  /** The output name of the batch at 0-based position `i`: "problem_set_" + `str(i + 1).zfill(2)` + ".pdf". */
  function BatchFileName(i: nat): (name: string)
    ensures StartsWith(name, "problem_set_") && EndsWith(name, ".pdf")
  {
    var num := ZFill(DecimalString(i + 1), 2);
    var name := "problem_set_" + num + ".pdf";
    assert name[..12] == "problem_set_" && name[|name| - 4..] == ".pdf";
    name
  }

  /** The number in a batch file name reads back as the batch's 1-based position. */
  lemma BatchFileNumber(i: nat)
    ensures var num := BatchFileName(i)[12..|BatchFileName(i)| - 4];
      AllDigits(num) && |num| >= 2 && DecimalValue(num) == i + 1
  {
    var num := ZFill(DecimalString(i + 1), 2);
    var name := "problem_set_" + num + ".pdf";
    assert name[12..|name| - 4] == num;
    ZFillDigits(DecimalString(i + 1), 2);
    DecimalRoundTrip(i + 1);
  }

  /** Distinct batches are written to distinct files, so no combined PDF overwrites another. */
  lemma BatchFileNamesDistinct(i: nat, j: nat)
    requires i != j
    ensures BatchFileName(i) != BatchFileName(j)
  {
    BatchFileNumber(i);
    BatchFileNumber(j);
  }

  /** Example: the first batch is written to "problem_set_01.pdf" and the tenth to "problem_set_10.pdf". */
  lemma BatchFileNameExamples()
    ensures BatchFileName(0) == "problem_set_01.pdf"
    ensures BatchFileName(9) == "problem_set_10.pdf"
  {
    assert DecimalString(1) == "1";
    assert DecimalString(10) == "10";
    assert ZFill("1", 2) == "01";
  }

  /**
   * The paths `extract_problem_sets_pdf` reports for the first `n` batches: the batch at `i` is
   * reported when saving its combined PDF succeeded (`saved(i)`).
   */
  function SavedPaths(outDir: string, n: nat, saved: nat -> bool): seq<string> {
    if n == 0 then []
    else SavedPaths(outDir, n - 1, saved) + (if saved(n - 1) then [outDir + "/" + BatchFileName(n - 1)] else [])
  }

  /** Every reported path is a saved batch's file, the batches reported in order and without repeats. */
  lemma {:induction false} SavedPathsSpec(outDir: string, n: nat, saved: nat -> bool)
    ensures forall p :: p in SavedPaths(outDir, n, saved) <==>
      exists i :: 0 <= i < n && saved(i) && p == outDir + "/" + BatchFileName(i)
    ensures forall a, b :: 0 <= a < b < |SavedPaths(outDir, n, saved)| ==>
      SavedPaths(outDir, n, saved)[a] != SavedPaths(outDir, n, saved)[b]
  {
    if n > 0 {
      SavedPathsSpec(outDir, n - 1, saved);
      var before := SavedPaths(outDir, n - 1, saved);
      var last := outDir + "/" + BatchFileName(n - 1);
      forall i | 0 <= i < n - 1 ensures outDir + "/" + BatchFileName(i) != last {
        BatchFileNamesDistinct(i, n - 1);
        var p := outDir + "/" + BatchFileName(i);
        assert p[|outDir| + 1..] == BatchFileName(i) && last[|outDir| + 1..] == BatchFileName(n - 1);
      }
      assert last !in before;
    }
  }

  /**
   * The batch loop of `extract_problem_sets_pdf`: None when there are no batches (the method returns
   * early), otherwise the paths of the batches whose combined PDF was saved.
   */
  method ExtractProblemSetsPdf(batches: seq<(string, string)>, outDir: string, saved: nat -> bool)
    returns (r: Option<seq<string>>)
    ensures batches == [] <==> r.None?
    ensures r.Some? ==> r.value == SavedPaths(outDir, |batches|, saved)
  {
    if batches == [] {
      return None;
    }
    var paths := [];
    var i := 0;
    while i < |batches|
      invariant 0 <= i <= |batches|
      invariant paths == SavedPaths(outDir, i, saved)
    {
      var num := ZFill(DecimalString(i + 1), 2);
      var filename := "problem_set_" + num + ".pdf";
      if saved(i) {
        paths := paths + [outDir + "/" + filename];
      }
      i := i + 1;
    }
    r := Some(paths);
  }

  // ----- The course context ----------------------------------------------------------------

  /**
   * The body of the classification loop of `_batch_problem_sets`: `path` is tried against the four
   * patterns in priority order and stored in `hw_map` or `sol_map` under its zero-filled key,
   * replacing what was stored there; a name matching none is skipped.
   */
  method StoreName(hwMap: map<string, string>, solMap: map<string, string>, path: string)
    returns (hw: map<string, string>, sol: map<string, string>)
    ensures Classify(path).None? ==> hw == hwMap && sol == solMap
    ensures Classify(path).Some? && Classify(path).value.role == Problem ==>
      hw == hwMap[Classify(path).value.key := path] && sol == solMap
    ensures Classify(path).Some? && Classify(path).value.role == Solution ==>
      hw == hwMap && sol == solMap[Classify(path).value.key := path]
  {
    hw, sol := hwMap, solMap;
    var hwMatch := Search(path, Homework);
    var psMatch := Search(path, ProblemSet);
    var solMatchInline := Search(path, InlineSolution);
    var solMatchSeparate := Search(path, SeparateSolution);
    if solMatchInline.Some? {
      sol := sol[KeyOfDigits(solMatchInline.value) := path];
    } else if solMatchSeparate.Some? {
      sol := sol[KeyOfDigits(solMatchSeparate.value) := path];
    } else if hwMatch.Some? {
      hw := hw[KeyOfDigits(hwMatch.value) := path];
    } else if psMatch.Some? {
      hw := hw[KeyOfDigits(psMatch.value) := path];
    }
  }

  /**
   * The classification loop of `_batch_problem_sets`: every name is stored in turn, so the maps are
   * the ones filled from the names' classifications, a later name replacing an earlier one.
   */
  method FillRoleMaps(names: seq<string>) returns (hwMap: map<string, string>, solMap: map<string, string>)
    ensures hwMap == Fill(names, Classifications(names), Problem)
    ensures solMap == Fill(names, Classifications(names), Solution)
  {
    ghost var cs := Classifications(names);
    hwMap, solMap := map[], map[];
    var i := 0;
    while i < |names|
      invariant 0 <= i <= |names|
      invariant hwMap == Fill(names[..i], cs[..i], Problem)
      invariant solMap == Fill(names[..i], cs[..i], Solution)
    {
      FillPrefixStep(names, cs, Problem, i);
      FillPrefixStep(names, cs, Solution, i);
      hwMap, solMap := StoreName(hwMap, solMap, names[i]);
      i := i + 1;
    }
    assert names[..i] == names && cs[..i] == cs;
  }

  class CourseContext {
    const url: string
    const downloadUrl: string
    /** `url.split('/')[-1]`. */
    const slug: string
    var problemSetFilenames: seq<string>
    var problemSetBatches: seq<(string, string)>
    var lectureFilenames: seq<string>
    var readingsFilenames: seq<string>

    constructor(downloadUrl: string, url: string)
      ensures this.url == url && this.downloadUrl == downloadUrl && slug == LastSegment(url, '/')
      ensures problemSetFilenames == [] && problemSetBatches == []
      ensures lectureFilenames == [] && readingsFilenames == []
    {
      this.url := url;
      this.downloadUrl := downloadUrl;
      this.slug := LastSegment(url, '/');
      problemSetFilenames := [];
      problemSetBatches := [];
      lectureFilenames := [];
      readingsFilenames := [];
    }

    /**
     * `_get_assignments` over the records found by the glob: nothing happens without a corpus; an
     * empty manifest raises; an unreadable entry is logged and leaves the field as it was.
     */
    method GetAssignments(corpusPresent: bool, manifest: seq<Entry>) returns (o: Outcome)
      modifies this`problemSetFilenames
      ensures corpusPresent && manifest == [] <==> o.Fail?
      ensures o.Fail? ==> o.message == "No files found when looking up assignment data.json"
      ensures corpusPresent && manifest != [] && AllReadable(manifest)
        ==> problemSetFilenames == Bucket(Records(manifest), AssignmentsTag)
      ensures !(corpusPresent && manifest != [] && AllReadable(manifest))
        ==> problemSetFilenames == old(problemSetFilenames)
    {
      if !corpusPresent {
        return Pass;
      }
      if manifest == [] {
        return Fail("No files found when looking up assignment data.json");
      }
      var r := CollectBucket(manifest, AssignmentsTag);
      if r.Some? {
        problemSetFilenames := r.value;
      }
      o := Pass;
    }

    /** `_get_lectures`: as `GetAssignments` for "Lecture Notes"; it raises with the same message. */
    method GetLectures(corpusPresent: bool, manifest: seq<Entry>) returns (o: Outcome)
      modifies this`lectureFilenames
      ensures corpusPresent && manifest == [] <==> o.Fail?
      ensures o.Fail? ==> o.message == "No files found when looking up assignment data.json"
      ensures corpusPresent && manifest != [] && AllReadable(manifest)
        ==> lectureFilenames == Bucket(Records(manifest), LectureNotesTag)
      ensures !(corpusPresent && manifest != [] && AllReadable(manifest))
        ==> lectureFilenames == old(lectureFilenames)
    {
      if !corpusPresent {
        return Pass;
      }
      if manifest == [] {
        return Fail("No files found when looking up assignment data.json");
      }
      var r := CollectBucket(manifest, LectureNotesTag);
      if r.Some? {
        lectureFilenames := r.value;
      }
      o := Pass;
    }

    /** `_get_readings`: as `GetAssignments` for "Readings", with its own message. */
    method GetReadings(corpusPresent: bool, manifest: seq<Entry>) returns (o: Outcome)
      modifies this`readingsFilenames
      ensures corpusPresent && manifest == [] <==> o.Fail?
      ensures o.Fail? ==> o.message == "No files found when looking up reading data.json"
      ensures corpusPresent && manifest != [] && AllReadable(manifest)
        ==> readingsFilenames == Bucket(Records(manifest), ReadingsTag)
      ensures !(corpusPresent && manifest != [] && AllReadable(manifest))
        ==> readingsFilenames == old(readingsFilenames)
    {
      if !corpusPresent {
        return Pass;
      }
      if manifest == [] {
        return Fail("No files found when looking up reading data.json");
      }
      var r := CollectBucket(manifest, ReadingsTag);
      if r.Some? {
        readingsFilenames := r.value;
      }
      o := Pass;
    }

    /**
     * `_batch_problem_sets`: with no assignment files nothing changes; otherwise the batches are the
     * pairs `Batches` describes (see `BatchesSpec` for their order and completeness).
     */
    method BatchProblemSets()
      modifies this`problemSetBatches
      ensures problemSetFilenames == [] ==> problemSetBatches == old(problemSetBatches)
      ensures problemSetFilenames != [] ==> problemSetBatches == Batches(problemSetFilenames)
    {
      var names := problemSetFilenames;
      if names == [] {
        return;
      }
      var hwMap, solMap := FillRoleMaps(names);
      var allKeys := SortKeys(hwMap.Keys + solMap.Keys);
      var pairs := [];
      var j := 0;
      while j < |allKeys|
        invariant 0 <= j <= |allKeys|
        invariant pairs == PairsFor(allKeys[..j], hwMap, solMap)
      {
        var key := allKeys[j];
        PairsForPrefixStep(allKeys, hwMap, solMap, j);
        if key in hwMap && key in solMap && hwMap[key] != [] && solMap[key] != [] {
          pairs := pairs + [(hwMap[key], solMap[key])];
        }
        j := j + 1;
      }
      assert allKeys[..j] == allKeys;
      BatchesFromSortedKeys(names, hwMap, solMap, allKeys);
      problemSetBatches := pairs;
    }

    /**
     * `contextualize`, from the course info on: a missing root data.json raises; then assignments are
     * collected and batched, then lectures and readings, the first raising step ending the run.
     */
    method Contextualize(infoPresent: bool, corpusPresent: bool, manifest: seq<Entry>) returns (o: Outcome)
      modifies this`problemSetFilenames, this`problemSetBatches, this`lectureFilenames, this`readingsFilenames
      ensures !infoPresent ==> o == Fail("Course is lacking root level data.json - cannot process this course: " + url)
      ensures infoPresent && corpusPresent && manifest == [] ==> o == Fail("No files found when looking up assignment data.json")
      ensures !infoPresent || (corpusPresent && manifest == []) ==>
        && problemSetFilenames == old(problemSetFilenames) && problemSetBatches == old(problemSetBatches)
        && lectureFilenames == old(lectureFilenames) && readingsFilenames == old(readingsFilenames)
      ensures infoPresent && corpusPresent && manifest != [] && AllReadable(manifest) ==>
        && o == Pass
        && problemSetFilenames == Bucket(Records(manifest), AssignmentsTag)
        && lectureFilenames == Bucket(Records(manifest), LectureNotesTag)
        && readingsFilenames == Bucket(Records(manifest), ReadingsTag)
        && (problemSetFilenames != [] ==> problemSetBatches == Batches(problemSetFilenames))
        && (problemSetFilenames == [] ==> problemSetBatches == old(problemSetBatches))
      ensures infoPresent && (!corpusPresent || (manifest != [] && !AllReadable(manifest))) ==>
        && o == Pass
        && problemSetFilenames == old(problemSetFilenames)
        && lectureFilenames == old(lectureFilenames) && readingsFilenames == old(readingsFilenames)
        && (old(problemSetFilenames) == [] ==> problemSetBatches == old(problemSetBatches))
        && (old(problemSetFilenames) != [] ==> problemSetBatches == Batches(old(problemSetFilenames)))
    {
      if !infoPresent {
        return Fail("Course is lacking root level data.json - cannot process this course: " + url);
      }
      o := GetAssignments(corpusPresent, manifest);
      if o.Fail? {
        return;
      }
      BatchProblemSets();
      o := GetLectures(corpusPresent, manifest);
      if o.Fail? {
        return;
      }
      o := GetReadings(corpusPresent, manifest);
    }
  }
}
