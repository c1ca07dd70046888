/**
 * The COBIDAS check engine: grading and percentage formatting of a
 * `(tally, total)` pair, and the two concrete rules, which count the NIfTI
 * files of a BIDS dataset and those whose sidecar metadata holds the keys
 * the guideline asks for.
 *
 * The pybids layout is abstracted as a list of files, each with its
 * extension, its `task` entity and the set of keys of its metadata, and the
 * list of task names the layout reports.
 */
module Guidelines {
  import opened Wrappers
  import Text

  // ---------------------------------------------------------------------
  // Grading

  /** The four grades of a rule. */
  datatype Status = NotApplicable | CompleteFailure | PartialSuccess | CompleteSuccess {
    /** The string `_grade_success` returns for this grade. */
    function Label(): string {
      match this
      case NotApplicable => "not applicable"
      case CompleteFailure => "complete failure"
      case PartialSuccess => "partial success"
      case CompleteSuccess => "complete success"
    }
  }

  /** Different grades are reported as different strings. */
  lemma LabelsDistinct(a: Status, b: Status)
    requires a != b
    ensures a.Label() != b.Label()
  {
    var la, lb := a.Label(), b.Label();
    assert la[0] != lb[0] || la[|la| - 3] != lb[|lb| - 3];
  }

  /** `_grade_success`: exactly one of the four statuses, chosen by the counts.
      Nothing excludes `tally > total`; such a pair is graded partial success. */
  function GradeSuccess(tally: nat, total: nat): (status: Status)
    ensures status == NotApplicable <==> tally == 0 && total == 0
    ensures status == CompleteFailure <==> tally == 0 && total != 0
    ensures status == CompleteSuccess <==> tally != 0 && tally == total
    ensures status == PartialSuccess <==> tally != 0 && tally != total
  {
    if tally == 0 && total == 0 then NotApplicable
    else if tally == 0 && total != 0 then CompleteFailure
    else if tally == total then CompleteSuccess
    else PartialSuccess
  }

  // ---------------------------------------------------------------------
  // Percentage

  /** Python's `round` on the exact quotient `num / den`. */
  function RoundHalfEven(num: nat, den: nat): nat
    requires den > 0
  {
    var q, rem := num / den, num % den;
    if 2 * rem < den then q
    else if 2 * rem > den then q + 1
    else if q % 2 == 0 then q
    else q + 1
  }

  /** Python's `round` on the exact quotient `num / den`: a nearest integer,
      and the even one of the two when the quotient lies exactly halfway. */
  lemma RoundHalfEvenIsNearest(num: nat, den: nat)
    requires den > 0
    ensures var r := RoundHalfEven(num, den);
      && 2 * num - den <= 2 * r * den <= 2 * num + den
      && ((2 * r * den == 2 * num - den || 2 * r * den == 2 * num + den) ==> r % 2 == 0)
  {
    var q, rem := num / den, num % den;
    assert num == q * den + rem;
    assert 2 * q * den == 2 * num - 2 * rem;
    assert 2 * (q + 1) * den == 2 * num - 2 * rem + 2 * den;
  }

  lemma MulAtMostOne(d: int, den: int)
    requires den > 0 && d >= 1 && d * den <= den
    ensures d == 1
  {
  }

  /** The two properties of RoundHalfEven determine its result. */
  lemma RoundingIsUnique(num: nat, den: nat, r': int)
    requires den > 0
    requires 2 * num - den <= 2 * r' * den <= 2 * num + den
    requires (2 * r' * den == 2 * num - den || 2 * r' * den == 2 * num + den) ==> r' % 2 == 0
    ensures r' == RoundHalfEven(num, den)
  {
    var r := RoundHalfEven(num, den);
    RoundHalfEvenIsNearest(num, den);
    if r < r' {
      TwoNearestAreTies(num, den, r, r');
    } else if r' < r {
      TwoNearestAreTies(num, den, r', r);
    }
  }

  lemma SignOfProduct(x: int, n: int)
    requires n > 0
    ensures x * n >= 0 ==> x >= 0
  {
  }

  lemma ScaledBound(r: int, k: int, n: int)
    requires n > 0 && 2 * r * n <= (2 * k + 1) * n
    ensures r <= k
  {
    var x := 2 * k + 1 - 2 * r;
    assert x * n == (2 * k + 1) * n - 2 * r * n;
    SignOfProduct(x, n);
  }

  /** Two different integers within a half of `num / den` are the two
      neighbours of an exact half. */
  lemma TwoNearestAreTies(num: nat, den: nat, lo: int, hi: int)
    requires den > 0 && lo < hi
    requires 2 * num - den <= 2 * lo * den && 2 * hi * den <= 2 * num + den
    ensures hi == lo + 1
    ensures 2 * lo * den == 2 * num - den && 2 * hi * den == 2 * num + den
  {
    var d := hi - lo;
    assert 2 * hi * den - 2 * lo * den == 2 * (d * den);
    MulAtMostOne(d, den);
  }

  /** `_measure_success`: the rounded percentage `100 * tally / total` in decimal,
      followed by `" %"`; `"0 %"` when there is nothing to measure. */
  function MeasureSuccess(tally: nat, total: nat): string {
    if total == 0 then "0 %"
    else Text.NatToString(RoundHalfEven(100 * tally, total)) + " %"
  }

  /** The percentage string reads back as the decimal digits of the rounded
      percentage, without leading zeros, followed by `" %"`. */
  lemma MeasureSuccessReadsBack(tally: nat, total: nat)
    ensures var text := MeasureSuccess(tally, total);
      && |text| >= 3 && text[|text| - 2..] == " %"
      && Text.IsDigits(text[..|text| - 2])
      && (total == 0 ==> text == "0 %")
      && (total != 0 ==> Text.DigitsValue(text[..|text| - 2]) == RoundHalfEven(100 * tally, total))
      && (|text| > 3 ==> text[0] != '0')
  {
    var text := MeasureSuccess(tally, total);
    if total != 0 {
      assert text[..|text| - 2] == Text.NatToString(RoundHalfEven(100 * tally, total));
    }
  }

  /** For a consistent pair the shown percentage lies in 0..100. */
  lemma PercentInRange(tally: nat, total: nat)
    requires 0 < total && tally <= total
    ensures RoundHalfEven(100 * tally, total) <= 100
  {
    var r := RoundHalfEven(100 * tally, total);
    RoundHalfEvenIsNearest(100 * tally, total);
    assert 2 * r * total <= 201 * total;
    ScaledBound(r, 100, total);
  }

  /** A complete success always shows `"100 %"`. */
  lemma MeasureComplete(n: nat)
    requires n > 0
    ensures MeasureSuccess(n, n) == "100 %"
  {
    RoundingIsUnique(100 * n, n, 100);
    assert Text.NatToString(100) == "100";
  }

  /** A complete failure always shows `"0 %"`. */
  lemma MeasureNone(n: nat)
    ensures MeasureSuccess(0, n) == "0 %"
  {
    if n > 0 {
      RoundingIsUnique(0, n, 0);
    }
  }

  /** Half of the files gives `"50 %"`. */
  lemma MeasureHalf()
    ensures MeasureSuccess(1, 2) == "50 %"
  {
    RoundingIsUnique(100, 2, 50);
    assert Text.NatToString(50) == "50";
  }

  /** A partial success may still show `"0 %"` or `"100 %"` after rounding. */
  lemma PartialAtTheExtremes()
    ensures GradeSuccess(1, 201) == PartialSuccess && MeasureSuccess(1, 201) == "0 %"
    ensures GradeSuccess(200, 201) == PartialSuccess && MeasureSuccess(200, 201) == "100 %"
  {
    RoundingIsUnique(100, 201, 0);
    RoundingIsUnique(20000, 201, 100);
    assert Text.NatToString(100) == "100";
  }

  /** At 23 of 40 the exact percentage is 57.5, a tie, which rounds to the
      even 58. */
  lemma MeasureExactTie()
    ensures MeasureSuccess(23, 40) == "58 %"
  {
  }

  /** An inconsistent pair with `tally > total` is graded partial success and
      shows more than 100. */
  lemma TallyAboveTotal()
    ensures GradeSuccess(2, 1) == PartialSuccess && MeasureSuccess(2, 1) == "200 %"
  {
    RoundingIsUnique(200, 1, 200);
    assert Text.NatToString(200) == "200";
  }

  // ---------------------------------------------------------------------
  // The dataset layout

  const NiftiExtension: string := ".nii.gz"

  /** One file of the dataset, with the keys of its resolved sidecar metadata. */
  datatype BidsFile = BidsFile(path: string, extension: string, task: Option<string>, metadata: set<string>)

  /** The dataset as the rules see it: its files and `get_tasks()`. */
  datatype Layout = Layout(files: seq<BidsFile>, tasks: seq<string>)

  predicate Selected(f: BidsFile, task: Option<string>) {
    f.extension == NiftiExtension && (task.Some? ==> f.task == task)
  }

  /** `layout.get(extension='nii.gz')`, restricted to one task when `task` is given:
      the selected files, in layout order. */
  function Get(files: seq<BidsFile>, task: Option<string>): (r: seq<BidsFile>)
    ensures |r| <= |files|
  {
    if files == [] then []
    else (if Selected(files[0], task) then [files[0]] else []) + Get(files[1..], task)
  }

  /** The query returns exactly the selected files of the layout. */
  lemma {:induction false} GetSelects(files: seq<BidsFile>, task: Option<string>, f: BidsFile)
    ensures f in Get(files, task) <==> f in files && Selected(f, task)
    decreases |files|
  {
    if files != [] {
      GetSelects(files[1..], task, f);
      assert files == [files[0]] + files[1..];
    }
  }

  /** The files the task loop visits: those of each task of `tasks`, task after task. */
  function TaskFiles(layout: Layout, tasks: seq<string>): seq<BidsFile>
  {
    if tasks == [] then []
    else TaskFiles(layout, tasks[..|tasks| - 1]) + Get(layout.files, Some(tasks[|tasks| - 1]))
  }

  /** The task loop visits exactly the NIfTI files whose task is one of `tasks`. */
  lemma {:induction false} TaskFilesMembership(layout: Layout, tasks: seq<string>, f: BidsFile)
    ensures f in TaskFiles(layout, tasks) <==>
      f in layout.files && f.extension == NiftiExtension && f.task.Some? && f.task.value in tasks
    decreases |tasks|
  {
    if tasks != [] {
      var init, last := tasks[..|tasks| - 1], tasks[|tasks| - 1];
      assert tasks == init + [last];
      TaskFilesMembership(layout, init, f);
      GetSelects(layout.files, Some(last), f);
    }
  }

  /** The task loop visits, in total, the sum over `tasks` of each task's file count. */
  lemma TaskFilesCount(layout: Layout, tasks: seq<string>, t: string)
    ensures |TaskFiles(layout, tasks + [t])| == |TaskFiles(layout, tasks)| + |Get(layout.files, Some(t))|
  {
    assert (tasks + [t])[..|tasks|] == tasks;
  }

  predicate HasKeys(f: BidsFile, keys: set<string>) {
    keys <= f.metadata
  }

  /** The number of files whose metadata holds every key of `keys`. */
  function CountWithKeys(fs: seq<BidsFile>, keys: set<string>): (n: nat)
    ensures n <= |fs|
  {
    if fs == [] then 0
    else CountWithKeys(fs[..|fs| - 1], keys) + (if HasKeys(fs[|fs| - 1], keys) then 1 else 0)
  }

  /** The count is zero exactly when no file has the keys, and the full length
      exactly when every file has them. */
  lemma {:induction false} CountExtremes(fs: seq<BidsFile>, keys: set<string>)
    ensures CountWithKeys(fs, keys) == 0 <==> forall i :: 0 <= i < |fs| ==> !HasKeys(fs[i], keys)
    ensures CountWithKeys(fs, keys) == |fs| <==> forall i :: 0 <= i < |fs| ==> HasKeys(fs[i], keys)
    decreases |fs|
  {
    if fs != [] {
      var init := fs[..|fs| - 1];
      CountExtremes(init, keys);
      assert forall i :: 0 <= i < |init| ==> init[i] == fs[i];
    }
  }

  /** Counting one more file adds one exactly when it has the keys. */
  lemma CountSnoc(fs: seq<BidsFile>, f: BidsFile, keys: set<string>)
    ensures CountWithKeys(fs + [f], keys) == CountWithKeys(fs, keys) + if HasKeys(f, keys) then 1 else 0
  {
    assert (fs + [f])[..|fs|] == fs;
  }

  lemma {:induction false} CountAppend(a: seq<BidsFile>, b: seq<BidsFile>, keys: set<string>)
    ensures CountWithKeys(a + b, keys) == CountWithKeys(a, keys) + CountWithKeys(b, keys)
    decreases |b|
  {
    if b == [] {
      assert a + b == a;
    } else {
      var init, last := b[..|b| - 1], b[|b| - 1];
      assert b == init + [last];
      assert a + b == (a + init) + [last];
      CountSnoc(a + init, last, keys);
      CountSnoc(init, last, keys);
      CountAppend(a, init, keys);
    }
  }

  /** What a rule's status says about the files it counted: not applicable
      exactly when there are none, complete failure when none has the keys,
      complete success when all have them, partial success otherwise. */
  lemma GradeOfFiles(fs: seq<BidsFile>, keys: set<string>)
    ensures GradeSuccess(CountWithKeys(fs, keys), |fs|) == NotApplicable <==> fs == []
    ensures GradeSuccess(CountWithKeys(fs, keys), |fs|) == CompleteFailure <==>
      fs != [] && forall i :: 0 <= i < |fs| ==> !HasKeys(fs[i], keys)
    ensures GradeSuccess(CountWithKeys(fs, keys), |fs|) == CompleteSuccess <==>
      fs != [] && forall i :: 0 <= i < |fs| ==> HasKeys(fs[i], keys)
    ensures GradeSuccess(CountWithKeys(fs, keys), |fs|) == PartialSuccess <==>
      (exists i :: 0 <= i < |fs| && HasKeys(fs[i], keys)) &&
      (exists i :: 0 <= i < |fs| && !HasKeys(fs[i], keys))
  {
    CountExtremes(fs, keys);
  }

  // ---------------------------------------------------------------------
  // The rules

  /** An entry of the loaded catalog. */
  datatype GuidelineEntry = GuidelineEntry(info: string, text: string)

  /** The dictionary a rule returns. */
  datatype RuleResult = RuleResult(tally: nat, total: nat, status: Status, percentSuccess: string)

  /** The `KeyError` raised when the catalog has no entry for a rule. */
  datatype RuleError = KeyError(key: string)

  /** The catalog key of a rule, character by character from its method name. */
  function CatalogKey(name: string): string {
    seq(|name|, i requires 0 <= i < |name| => if name[i] == '_' then '.' else name[i])
  }

  /** The key is `name.replace('_', '.')`: same length, every `_` turned into `.`,
      every other character kept, and no `_` left. */
  lemma CatalogKeyIsReplace(name: string)
    ensures CatalogKey(name) == Text.ReplaceAll(name, "_", ".")
    ensures '_' !in CatalogKey(name)
  {
    Text.ReplaceCharPointwise(name, '_', '.');
  }

  /** The keys of the two rules of this model. */
  lemma RuleKeys()
    ensures CatalogKey(InstructionsRule) == "D01.05.02.00.00.01"
    ensures CatalogKey(ScannerRule) == "D02.02.01.00.00.01"
  {
  }

  /** The method names of the two rules, as `inspect` reports them. */
  const InstructionsRule: string := "D01_05_02_00_00_01"
  const ScannerRule: string := "D02_02_01_00_00_01"

  const InstructionsKeys: set<string> := {"Instructions"}
  const ScannerKeys: set<string> := {"Manufacturer", "ManufacturersModelName", "MagneticFieldStrength"}

  /** The three separate membership tests of the scanner rule amount to one
      inclusion of its key set. */
  lemma ScannerKeysPresent(metadata: set<string>)
    ensures ScannerKeys <= metadata <==>
      "Manufacturer" in metadata && "ManufacturersModelName" in metadata && "MagneticFieldStrength" in metadata
  {
  }

  /** The `cobidas` checker: a dataset layout and the catalog it checks against. */
  class Cobidas {
    const layout: Layout
    const guidelines: map<string, GuidelineEntry>

    constructor (layout: Layout, guidelines: map<string, GuidelineEntry>)
      ensures this.layout == layout && this.guidelines == guidelines
    {
      this.layout := layout;
      this.guidelines := guidelines;
    }

    /** Instructions given to subjects: one unit per NIfTI file of each task,
        satisfied when its metadata has `Instructions`. */
    method D01_05_02_00_00_01() returns (r: Result<RuleResult, RuleError>)
      ensures r.Failure? <==> CatalogKey(InstructionsRule) !in guidelines
      ensures r.Failure? ==> r.error == KeyError(CatalogKey(InstructionsRule))
      ensures r.Success? ==>
        var files := TaskFiles(layout, layout.tasks);
        && r.value.total == |files|
        && r.value.tally == CountWithKeys(files, InstructionsKeys)
        && r.value.tally <= r.value.total
        && r.value.status == GradeSuccess(r.value.tally, r.value.total)
        && r.value.percentSuccess == MeasureSuccess(r.value.tally, r.value.total)
    {
      var index := CatalogKey(InstructionsRule);
      if index !in guidelines {
        return Failure(KeyError(index));
      }
      var tally, total := 0, 0;
      var tasks := layout.tasks;
      for i := 0 to |tasks|
        invariant total == |TaskFiles(layout, tasks[..i])|
        invariant tally == CountWithKeys(TaskFiles(layout, tasks[..i]), InstructionsKeys)
      {
        var taskFiles := Get(layout.files, Some(tasks[i]));
        ghost var done := TaskFiles(layout, tasks[..i]);
        for j := 0 to |taskFiles|
          invariant total == |done| + j
          invariant tally == CountWithKeys(done, InstructionsKeys) + CountWithKeys(taskFiles[..j], InstructionsKeys)
        {
          total := total + 1;
          var metadata := taskFiles[j].metadata;
          if "Instructions" in metadata {
            tally := tally + 1;
          }
          assert CountWithKeys(taskFiles[..j + 1], InstructionsKeys) ==
            CountWithKeys(taskFiles[..j], InstructionsKeys) + if "Instructions" in metadata then 1 else 0
          by {
            assert taskFiles[..j + 1] == taskFiles[..j] + [taskFiles[j]];
            CountSnoc(taskFiles[..j], taskFiles[j], InstructionsKeys);
          }
        }
        assert TaskFiles(layout, tasks[..i + 1]) == done + taskFiles by {
          assert tasks[..i + 1][..i] == tasks[..i];
        }
        assert taskFiles[..|taskFiles|] == taskFiles;
        CountAppend(done, taskFiles, InstructionsKeys);
      }
      assert tasks[..|tasks|] == tasks;
      r := Success(RuleResult(tally, total, GradeSuccess(tally, total), MeasureSuccess(tally, total)));
    }

    /** Scanner make, model and field strength: one unit per NIfTI file,
        satisfied only when all three keys are present. */
    method D02_02_01_00_00_01() returns (r: Result<RuleResult, RuleError>)
      ensures r.Failure? <==> CatalogKey(ScannerRule) !in guidelines
      ensures r.Failure? ==> r.error == KeyError(CatalogKey(ScannerRule))
      ensures r.Success? ==>
        var files := Get(layout.files, None);
        && r.value.total == |files|
        && r.value.tally == CountWithKeys(files, ScannerKeys)
        && r.value.tally <= r.value.total
        && r.value.status == GradeSuccess(r.value.tally, r.value.total)
        && r.value.percentSuccess == MeasureSuccess(r.value.tally, r.value.total)
    {
      var index := CatalogKey(ScannerRule);
      if index !in guidelines {
        return Failure(KeyError(index));
      }
      var tally, total := 0, 0;
      var niftiFiles := Get(layout.files, None);
      for j := 0 to |niftiFiles|
        invariant total == j
        invariant tally == CountWithKeys(niftiFiles[..j], ScannerKeys)
      {
        total := total + 1;
        var metadata := niftiFiles[j].metadata;
        ScannerKeysPresent(metadata);
        if "Manufacturer" in metadata
          && "ManufacturersModelName" in metadata
          && "MagneticFieldStrength" in metadata
        {
          tally := tally + 1;
        }
        assert niftiFiles[..j + 1] == niftiFiles[..j] + [niftiFiles[j]];
        CountSnoc(niftiFiles[..j], niftiFiles[j], ScannerKeys);
      }
      assert niftiFiles[..|niftiFiles|] == niftiFiles;
      r := Success(RuleResult(tally, total, GradeSuccess(tally, total), MeasureSuccess(tally, total)));
    }
  }

  /** Two NIfTI files of one task, one with `Instructions` and one without
      (and a sidecar that is not counted): the instructions rule reports
      1 of 2, partial success, `"50 %"`. */
  lemma InstructionsScenario()
    ensures
      var layout := Layout(
        [ BidsFile("sub-01_task-rest_bold.nii.gz", NiftiExtension, Some("rest"), {"Instructions"}),
          BidsFile("sub-01_task-rest_bold.json", ".json", Some("rest"), {"Instructions"}),
          BidsFile("sub-02_task-rest_bold.nii.gz", NiftiExtension, Some("rest"), {"RepetitionTime"}) ],
        ["rest"]);
      var files := TaskFiles(layout, layout.tasks);
      && |files| == 2
      && CountWithKeys(files, InstructionsKeys) == 1
      && GradeSuccess(1, 2) == PartialSuccess
      && MeasureSuccess(1, 2) == "50 %"
  {
    var f1 := BidsFile("sub-01_task-rest_bold.nii.gz", NiftiExtension, Some("rest"), {"Instructions"});
    var f2 := BidsFile("sub-01_task-rest_bold.json", ".json", Some("rest"), {"Instructions"});
    var f3 := BidsFile("sub-02_task-rest_bold.nii.gz", NiftiExtension, Some("rest"), {"RepetitionTime"});
    var layout := Layout([f1, f2, f3], ["rest"]);
    assert ".json" != NiftiExtension by { assert ".json"[1] != NiftiExtension[1]; }
    assert Get([f3], Some("rest")) == [f3];
    assert Get([f2, f3], Some("rest")) == [f3] by { assert [f2, f3][1..] == [f3]; }
    assert Get([f1, f2, f3], Some("rest")) == [f1, f3] by { assert [f1, f2, f3][1..] == [f2, f3]; }
    assert TaskFiles(layout, ["rest"]) == [f1, f3] by { assert ["rest"][..0] == []; }
    assert !HasKeys(f3, InstructionsKeys);
    assert CountWithKeys([f1], InstructionsKeys) == 1;
    assert CountWithKeys([f1, f3], InstructionsKeys) == 1 by { assert [f1, f3][..1] == [f1]; }
    MeasureHalf();
  }
}
