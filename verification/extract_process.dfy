/**
 The deprecated `InputHandlerService.process()`: read the header row of the
 four bundled extracts and check each, fail-fast, in the order students,
 courses, grades, usage. Any exception on the way (a missing extract or a
 rejected header) escapes wrapped in one `RuntimeException`.
 */
module ExtractProcess {
  import opened Wrappers
  import opened Text
  import opened HeaderCheck

  datatype ExtractFile = Students | Courses | Grades | Usage

  /** The fixed per-file rule written into each of the four checks. */
  function RuleFor(f: ExtractFile): (r: Rule)
    ensures r.minColumns >= 4
    ensures |r.key| > 0 && forall k :: 0 <= k < |r.key| ==> 'A' <= r.key[k] <= 'Z' || r.key[k] == '_'
  {
    match f
    case Students => Rule(14, "ALTERNATIVE_ID")
    case Courses => Rule(4, "COURSE_ID")
    case Grades => Rule(8, "ALTERNATIVE_ID")
    case Usage => Rule(4, "ALTERNATIVE_ID")
  }

  const CheckOrder: seq<ExtractFile> := [Students, Courses, Grades, Usage]

  /**
   One bundled extract: `Missing` when the classpath lookup found nothing
   (wrapping the null stream in a reader then throws), otherwise the header
   row the CSV reader returns (`None` for an empty file).
   */
  datatype Source = Missing | Opened(header: Option<Row>)

  datatype Extracts = Extracts(students: Source, courses: Source, grades: Source, usage: Source) {
    function SourceOf(f: ExtractFile): Source {
      match f
      case Students => students
      case Courses => courses
      case Grades => grades
      case Usage => usage
    }
  }

  /** The exception the `RuntimeException` wraps. */
  datatype Cause =
    | NullStream(file: ExtractFile)
    | InvalidHeader(file: ExtractFile, error: HeaderError)

  datatype ProcessOutcome = Completed | Failed(cause: Cause)

  /** The step for file `f` completes without an exception. */
  predicate Passes(x: Extracts, f: ExtractFile) {
    x.SourceOf(f).Opened? && Accepts(x.SourceOf(f).header, RuleFor(f))
  }

  /** One step of `process()`: open the file's reader, then check its header. */
  function CheckFile(x: Extracts, f: ExtractFile): (r: Outcome<Cause>)
    ensures r.Pass? <==> Passes(x, f)
    ensures r.Fail? ==> r.error.file == f
    ensures r.Fail? ==> (r.error.NullStream? <==> x.SourceOf(f).Missing?)
    ensures r.Fail? && r.error.InvalidHeader? ==>
      && x.SourceOf(f).Opened?
      && CheckHeader(x.SourceOf(f).header, RuleFor(f)) == Fail(r.error.error)
      && !r.error.error.NoFirstCell?
  {
    match x.SourceOf(f)
    case Missing => Fail(NullStream(f))
    case Opened(header) =>
      match CheckHeader(header, RuleFor(f))
      case Pass => Pass
      case Fail(e) => Fail(InvalidHeader(f, e))
  }

  /**
   Runs the four steps in order and stops at the first failure. `reached`
   lists the files whose step ran. All four files are looked up first (the
   lookups are `x` itself), but no header after a failing one is read.
   */
  method Process(x: Extracts) returns (outcome: ProcessOutcome, reached: seq<ExtractFile>)
    ensures outcome.Completed? <==> forall f :: Passes(x, f)
    ensures 1 <= |reached| <= |CheckOrder| && reached == CheckOrder[..|reached|]
    ensures outcome.Completed? ==> reached == CheckOrder
    ensures forall k :: 0 <= k < |reached| - 1 ==> Passes(x, reached[k])
    ensures outcome.Failed? ==>
      && outcome.cause.file == reached[|reached| - 1]
      && !Passes(x, outcome.cause.file)
    ensures outcome.Failed? && outcome.cause.NullStream? ==> x.SourceOf(outcome.cause.file).Missing?
    ensures outcome.Failed? && outcome.cause.InvalidHeader? ==>
      && x.SourceOf(outcome.cause.file).Opened?
      && CheckHeader(x.SourceOf(outcome.cause.file).header, RuleFor(outcome.cause.file)) == Fail(outcome.cause.error)
      && !outcome.cause.error.NoFirstCell?
  {
    reached := [];
    var i := 0;
    while i < |CheckOrder|
      invariant 0 <= i <= |CheckOrder|
      invariant reached == CheckOrder[..i]
      invariant forall k :: 0 <= k < i ==> Passes(x, CheckOrder[k])
    {
      var f := CheckOrder[i];
      reached := reached + [f];
      var step := CheckFile(x, f);
      if step.Fail? {
        return Failed(step.error), reached;
      }
      i := i + 1;
    }
    EveryFileInOrder(x);
    return Completed, reached;
  }

  /** The check order lists every extract file, so passing it in order means every file passes. */
  lemma EveryFileInOrder(x: Extracts)
    requires forall k :: 0 <= k < |CheckOrder| ==> Passes(x, CheckOrder[k])
    ensures forall f :: Passes(x, f)
  {
    forall f ensures Passes(x, f) {
      var k := match f case Students => 0 case Courses => 1 case Grades => 2 case Usage => 3;
      assert CheckOrder[k] == f;
    }
  }

  /**
   The fixed rules, stated with their literal values: for any row whose first
   cell is exactly `COURSE_ID` (courses) or `ALTERNATIVE_ID` (the other three
   files), the file's rule accepts it iff it has at least 14 (students),
   4 (courses), 8 (grades) or 4 (usage) cells.
   */
  lemma RuleThresholdIsExact(f: ExtractFile, cells: Row)
    requires |cells| > 0
    requires cells[0] == Some(if f == Courses then "COURSE_ID" else "ALTERNATIVE_ID")
    ensures Accepts(Some(cells), RuleFor(f)) <==>
      |cells| >= (match f case Students => 14 case Courses => 4 case Grades => 8 case Usage => 4)
  {
    var key := RuleFor(f).key;
    var st := SkipLeading(key, 0);
    assert st == 0;
    assert Trim(key) == key by {
      assert key[..0] == [] && key[|key|..] == [];
      TrimUnique(key, 0, |key|);
    }
    assert Upper(key) == key;
  }
}
