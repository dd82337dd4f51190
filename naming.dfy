/**
 * The batch loop of `main` in add_wm.py, without its I/O: the list of input
 * files is gathered pattern by pattern, then each file gets an output path
 * `./{dir}/{count}-{image_name}` with a counter that starts at 0 and rises by
 * one per file. Directory listing is a parameter (`glob`); reading, writing
 * and the image transforms themselves are not part of this loop's model.
 */
module Naming {

  /** The file patterns `main` asks for, in the order it asks. */
  const Patterns: seq<string> := ["*.png", "*.jpg", "*.jpeg"]

  /** The glob pattern `./{image_dir}/{pattern}`. */
  function GlobPattern(dir: string, pattern: string): string
  {
    "./" + dir + "/" + pattern
  }

  /** The directory output files are written to, `./{image_dir}/`. */
  function OutputDir(dir: string): string
  {
    "./" + dir + "/"
  }

  /** The files matched by each of `patterns`, one list after the other. */
  function AllMatches(dir: string, glob: string -> seq<string>, patterns: seq<string>): (files: seq<string>)
    decreases |patterns|
  {
    if patterns == [] then []
    else AllMatches(dir, glob, patterns[..|patterns| - 1]) + glob(GlobPattern(dir, patterns[|patterns| - 1]))
  }

  /**
   * The start of `main` in add_wm.py: `files_grabbed` is extended with the matches of each
   * pattern in turn, so it holds every `.png` match, then every `.jpg`
   * match, then every `.jpeg` match, each list in the order glob gave it.
   */
  method GrabFiles(dir: string, glob: string -> seq<string>) returns (files: seq<string>)
    ensures files == glob(GlobPattern(dir, "*.png")) + glob(GlobPattern(dir, "*.jpg"))
      + glob(GlobPattern(dir, "*.jpeg"))
  {
    files := [];
    for k := 0 to |Patterns|
      invariant files == AllMatches(dir, glob, Patterns[..k])
    {
      assert Patterns[..k + 1][..k] == Patterns[..k];
      files := files + glob(GlobPattern(dir, Patterns[k]));
    }
    assert Patterns[..3] == Patterns;
    assert Patterns[..2] == ["*.png", "*.jpg"] && Patterns[..1] == ["*.png"];
  }

  /** The character of one decimal digit. */
  function DigitChar(d: nat): (ch: char)
    requires d < 10
    ensures '0' <= ch <= '9'
  {
    "0123456789"[d]
  }

  predicate IsDigits(s: string)
  {
    forall i :: 0 <= i < |s| ==> '0' <= s[i] <= '9'
  }

  /**
   * `str(n)` for a natural number: its decimal digits, at least one, with
   * no leading zero.
   */
  function Decimal(n: nat): (s: string)
    ensures |s| >= 1 && IsDigits(s)
    ensures s[0] == '0' ==> s == "0"
    decreases n
  {
    if n < 10 then [DigitChar(n)] else Decimal(n / 10) + [DigitChar(n % 10)]
  }

  /** The number a string of decimal digits denotes (the inverse of `Decimal`). */
  function DigitsValue(s: string): nat
    requires IsDigits(s)
    decreases |s|
  {
    if s == [] then 0
    else 10 * DigitsValue(s[..|s| - 1]) + (s[|s| - 1] as int - '0' as int)
  }

  lemma DigitCharValue(d: nat)
    requires d < 10
    ensures DigitChar(d) as int - '0' as int == d
  {
  }

  /** Reading back the digits of `str(n)` gives `n`. */
  lemma {:induction false} DecimalRoundTrip(n: nat)
    ensures DigitsValue(Decimal(n)) == n
    decreases n
  {
    var s := Decimal(n);
    if n < 10 {
      DigitCharValue(n);
    } else {
      DecimalRoundTrip(n / 10);
      DigitCharValue(n % 10);
      assert s[..|s| - 1] == Decimal(n / 10);
    }
  }

  /** Different counter values have different decimal forms. */
  lemma DecimalInjective(a: nat, b: nat)
    ensures a != b ==> Decimal(a) != Decimal(b)
  {
    DecimalRoundTrip(a);
    DecimalRoundTrip(b);
  }

  /** `path.rsplit('\\', 1)[-1]`: the text after the last backslash of `path`. */
  function AfterLastBackslash(path: string): (name: string)
    ensures |name| <= |path|
    decreases |path|
  {
    if path == [] then []
    else if path[|path| - 1] == '\\' then []
    else AfterLastBackslash(path[..|path| - 1]) + [path[|path| - 1]]
  }

  /**
   * `name` is the last backslash-separated segment of `path`: a suffix of it
   * holding no backslash that is either the whole path or preceded by a
   * backslash.
   */
  predicate IsLastSegment(name: string, path: string)
  {
    |name| <= |path|
      && (forall i :: 0 <= i < |name| ==> name[i] == path[|path| - |name| + i])
      && (forall j :: |path| - |name| <= j < |path| ==> path[j] != '\\')
      && (|name| < |path| ==> path[|path| - |name| - 1] == '\\')
  }

  /** The image name is the last backslash-separated segment of the path. */
  lemma {:induction false} AfterLastBackslashIsLastSegment(path: string)
    ensures IsLastSegment(AfterLastBackslash(path), path)
    decreases |path|
  {
    if path != [] && path[|path| - 1] != '\\' {
      AfterLastBackslashIsLastSegment(path[..|path| - 1]);
    }
  }

  /** At most one string is the last segment of a path. */
  lemma LastSegmentIsUnique(a: string, b: string, path: string)
    requires IsLastSegment(a, path) && IsLastSegment(b, path)
    ensures a == b
  {
  }

  /** A path with no backslash (a POSIX path, for one) is kept whole as the image name. */
  lemma NoBackslashKeepsWholePath(path: string)
    requires forall i :: 0 <= i < |path| ==> path[i] != '\\'
    ensures AfterLastBackslash(path) == path
  {
  }

  /** The name of output file number `count`: `{count}-{image_name}`. */
  function OutputName(count: nat, path: string): (name: string)
    ensures |name| == |Decimal(count)| + 1 + |AfterLastBackslash(path)|
    ensures name[..|Decimal(count)| + 1] == Decimal(count) + "-"
    ensures name[|Decimal(count)| + 1..] == AfterLastBackslash(path)
  {
    Decimal(count) + "-" + AfterLastBackslash(path)
  }

  /**
   * An output name reads as the counter in decimal (digits denoting `count`,
   * with no leading zero), a dash, and the last backslash-separated segment
   * of the input path.
   */
  lemma OutputNameParts(count: nat, path: string)
    ensures var name, d := OutputName(count, path), |Decimal(count)|;
      d < |name| && IsDigits(name[..d]) && DigitsValue(name[..d]) == count
      && (name[0] == '0' ==> d == 1) && name[d] == '-' && IsLastSegment(name[d + 1..], path)
  {
    var name, d := OutputName(count, path), |Decimal(count)|;
    assert name[..d] == Decimal(count);
    DecimalRoundTrip(count);
    AfterLastBackslashIsLastSegment(path);
  }

  /** In `d-r`, the text before position |d| is `d` and position |d| holds the dash. */
  lemma DashAfter(d: string, r: string)
    ensures |d + "-" + r| > |d|
    ensures (d + "-" + r)[|d|] == '-'
    ensures forall i :: 0 <= i < |d| ==> (d + "-" + r)[i] == d[i]
  {
  }

  /** Output names of different counter values differ, whatever the input paths. */
  lemma OutputNamesDiffer(k1: nat, p1: string, k2: nat, p2: string)
    requires k1 != k2
    ensures OutputName(k1, p1) != OutputName(k2, p2)
  {
    var d1, d2 := Decimal(k1), Decimal(k2);
    var n1, n2 := d1 + "-" + AfterLastBackslash(p1), d2 + "-" + AfterLastBackslash(p2);
    assert n1 == OutputName(k1, p1) && n2 == OutputName(k2, p2);
    DashAfter(d1, AfterLastBackslash(p1));
    DashAfter(d2, AfterLastBackslash(p2));
    if |d1| < |d2| {
      assert n2[|d1|] == d2[|d1|] != '-';
    } else if |d2| < |d1| {
      assert n1[|d2|] == d1[|d2|] != '-';
    } else {
      DecimalInjective(k1, k2);
      var i :| 0 <= i < |d1| && d1[i] != d2[i];
      assert n1[i] != n2[i];
    }
  }

  /** `os.path.join(curr_path, name)`: the name is relative, so it is appended to the directory. */
  function OutputPath(dir: string, count: nat, path: string): (out: string)
    ensures |out| == |OutputDir(dir)| + |OutputName(count, path)|
    ensures out[..|OutputDir(dir)|] == "./" + dir + "/"
    ensures out[|OutputDir(dir)|..] == OutputName(count, path)
  {
    OutputDir(dir) + OutputName(count, path)
  }

  /**
   * `os.path.join(a, b)` for two parts: an absolute `b` replaces `a`;
   * otherwise `b` is appended, with a separator when `a` does not already
   * end in one.
   */
  function PathJoin(a: string, b: string): string
  {
    if |b| > 0 && b[0] == '/' then b
    else if a == [] || a[|a| - 1] == '/' then a + b
    else a + "/" + b
  }

  /**
   * The output path is `os.path.join(curr_path, name)`: the name starts with
   * a digit, so it is relative, and `curr_path` ends in a separator.
   */
  lemma OutputPathIsJoin(dir: string, count: nat, path: string)
    ensures OutputPath(dir, count, path) == PathJoin(OutputDir(dir), OutputName(count, path))
  {
  }

  /** Output paths in one directory differ when their counter values differ. */
  lemma OutputPathsDiffer(dir: string, k1: nat, p1: string, k2: nat, p2: string)
    requires k1 != k2
    ensures OutputPath(dir, k1, p1) != OutputPath(dir, k2, p2)
  {
    var o1, o2 := OutputPath(dir, k1, p1), OutputPath(dir, k2, p2);
    OutputNamesDiffer(k1, p1, k2, p2);
    assert o1[|OutputDir(dir)|..] == OutputName(k1, p1);
    assert o2[|OutputDir(dir)|..] == OutputName(k2, p2);
  }

  /** One processed file: where it was read from and where its result is written. */
  datatype Job = Job(input: string, output: string)

  /**
   * The jobs of a batch in processing order: file k is written under counter
   * value k. The specification of the naming loop.
   */
  function Plan(dir: string, files: seq<string>): (jobs: seq<Job>)
    ensures |jobs| == |files|
    decreases |files|
  {
    if files == [] then []
    else
      var last := |files| - 1;
      Plan(dir, files[..last]) + [Job(files[last], OutputPath(dir, last, files[last]))]
  }

  /** Job k of a batch reads file k and writes it under counter value k. */
  lemma {:induction false} PlanAt(dir: string, files: seq<string>, k: nat)
    requires k < |files|
    ensures Plan(dir, files)[k] == Job(files[k], OutputPath(dir, k, files[k]))
    decreases |files|
  {
    var last := |files| - 1;
    if k < last {
      PlanAt(dir, files[..last], k);
    }
  }

  /** No two jobs of a batch write to the same path. */
  lemma PlanOutputsDistinct(dir: string, files: seq<string>)
    ensures forall k1, k2 :: 0 <= k1 < k2 < |files| ==>
      Plan(dir, files)[k1].output != Plan(dir, files)[k2].output
  {
    forall k1, k2 | 0 <= k1 < k2 < |files|
      ensures Plan(dir, files)[k1].output != Plan(dir, files)[k2].output
    {
      PlanAt(dir, files, k1);
      PlanAt(dir, files, k2);
      OutputPathsDiffer(dir, k1, files[k1], k2, files[k2]);
    }
  }

  /**
   * The loop of `main` in add_wm.py without the image work: `count` starts at 0, each file in
   * turn is written to `./{dir}/{count}-{image_name}`, and `count` then rises
   * by one. File k in processing order is written under counter value k, the
   * final counter is the number of files, and no two files share an output.
   */
  method NameOutputs(dir: string, files: seq<string>) returns (jobs: seq<Job>, count: nat)
    ensures count == |files| && |jobs| == |files|
    ensures forall k :: 0 <= k < |files| ==>
      jobs[k].input == files[k] && jobs[k].output == OutputPath(dir, k, files[k])
    ensures forall k1, k2 :: 0 <= k1 < k2 < |jobs| ==> jobs[k1].output != jobs[k2].output
  {
    jobs := [];
    count := 0;
    for n := 0 to |files|
      invariant count == n
      invariant jobs == Plan(dir, files[..n])
    {
      var path := files[n];
      var imageName := AfterLastBackslash(path);
      var name := Decimal(count) + "-" + imageName;
      assert files[..n + 1][..n] == files[..n];
      jobs := jobs + [Job(path, OutputDir(dir) + name)];
      count := count + 1;
    }
    assert files[..|files|] == files;
    forall k | 0 <= k < |files|
      ensures jobs[k].input == files[k] && jobs[k].output == OutputPath(dir, k, files[k])
    {
      PlanAt(dir, files, k);
    }
    PlanOutputsDistinct(dir, files);
  }
}
