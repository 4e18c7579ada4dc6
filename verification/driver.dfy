/**
 * The k-means loop of ClusterCenterDriver: run a round, compare the centroids it
 * wrote with the previous generation, and stop at the first round where no
 * centroid moved by more than 1.0; then copy the last-but-one output folder to
 * the output path.
 */
module Driver {
  import opened Wrappers
  import opened JavaText
  import opened DataPoints
  import opened Records
  import opened ClusterCenter

  // ---------------------------------------------------------------------
  // The convergence check
  // ---------------------------------------------------------------------

  /**
   * Old and new centroids compared by position. complexDistance(a, b) > 1.0
   * holds exactly when the squared distance exceeds 1 (a square root is above 1
   * only for arguments above 1). A new list shorter than the old one makes
   * newKCentroids.get(i) throw once every earlier pair has passed.
   */
  function Converged(olds: seq<Point>, news: seq<Point>): (r: Result<bool>)
    ensures r == Success(true) <==>
              |olds| <= |news| && forall i | 0 <= i < |olds| :: SquaredDistance(olds[i], news[i]) <= 1
    ensures r.Failure? <==>
              |news| < |olds| && forall i | 0 <= i < |news| :: SquaredDistance(olds[i], news[i]) <= 1
    ensures r.Failure? ==> r.error == IndexOutOfBounds
  {
    if olds == [] then Success(true)
    else if news == [] then Failure(IndexOutOfBounds)
    else if SquaredDistance(olds[0], news[0]) > 1 then Success(false)
    else
      var r := Converged(olds[1..], news[1..]);
      assert forall i | 1 <= i < |olds| && i < |news| :: olds[1..][i - 1] == olds[i] && news[1..][i - 1] == news[i];
      r
  }

  /** Centroids that did not move have converged, whatever the new list holds after them. */
  lemma ConvergedOnUnchanged(olds: seq<Point>, extra: seq<Point>)
    ensures Converged(olds, olds + extra) == Success(true)
  {
    forall i | 0 <= i < |olds| ensures SquaredDistance(olds[i], (olds + extra)[i]) <= 1 {
      SquaredDistanceProperties(olds[i], olds[i]);
    }
  }

  /** The comparison loop, which returns false at the first centroid that moved. */
  method CompareGenerations(oldKCentroids: seq<Point>, newKCentroids: seq<Point>) returns (r: Result<bool>)
    ensures r == Converged(oldKCentroids, newKCentroids)
  {
    for i := 0 to |oldKCentroids|
      invariant i <= |newKCentroids|
      invariant Converged(oldKCentroids, newKCentroids) == Converged(oldKCentroids[i..], newKCentroids[i..])
    {
      if i >= |newKCentroids| {
        return Failure(IndexOutOfBounds);
      }
      if SquaredDistance(oldKCentroids[i], newKCentroids[i]) > 1 {
        return Success(false);
      }
      assert oldKCentroids[i..][1..] == oldKCentroids[i + 1..];
      assert newKCentroids[i..][1..] == newKCentroids[i + 1..];
    }
    return Success(true);
  }

  /**
   * Old centroids are raw lines in round 0 and "key TAB point" lines afterwards;
   * the cc mapper's CentroidFormat(false, n) is this same format in every round.
   */
  function OldFormat(numIterations: int): LineFormat
  {
    if numIterations == 0 then WholeLine else AfterFirstTab
  }

  /** hasConverged: read the old file, then the new one, then compare; a parse error propagates. */
  function ConvergenceVerdict(numIterations: int, oldLines: seq<string>, newLines: seq<string>): Result<bool>
  {
    var olds := ParseLines(OldFormat(numIterations), oldLines);
    if olds.failure.Some? then Failure(olds.failure.value)
    else
      var news := ParseLines(AfterFirstTab, newLines);
      if news.failure.Some? then Failure(news.failure.value)
      else Converged(olds.points, news.points)
  }

  /** A round whose reducer rewrote the previous generation's centroids under any labels is the last one. */
  lemma ConvergesOnRepeatedOutput(numIterations: int, keys: seq<int>, newKeys: seq<int>, cs: seq<Point>)
    requires numIterations != 0 && |keys| == |cs| && |newKeys| == |cs|
    ensures ConvergenceVerdict(numIterations,
              seq(|cs|, i requires 0 <= i < |cs| => LabelledLine(keys[i], cs[i])),
              seq(|cs|, i requires 0 <= i < |cs| => LabelledLine(newKeys[i], cs[i])))
            == Success(true)
  {
    ParseLabelledLines(keys, cs);
    ParseLabelledLines(newKeys, cs);
    assert cs + [] == cs;
    ConvergedOnUnchanged(cs, []);
  }

  /**
   * In round 0 the legacy mapper reads the initial centroid file from index two
   * while the convergence check reads the same lines whole: a generator line with
   * a four-digit year is one centroid for the check and a different one, its year
   * cut to two digits, for the mapper.
   */
  lemma LegacyRoundZeroDisagreement(p: Point)
    requires 1000 <= p.year <= 9999
    ensures ParseLine(CentroidFormat(true, 0), ToText(p)) == Success(Point(p.year % 100, p.temperature))
    ensures ParseLine(OldFormat(0), ToText(p)) == Success(p)
    ensures ParseLine(CentroidFormat(true, 0), ToText(p)) != ParseLine(OldFormat(0), ToText(p))
  {
    FromIndexTwoMisreadsRawLine(p);
    ParseToText(p);
  }

  // ---------------------------------------------------------------------
  // Folder names
  // ---------------------------------------------------------------------

  const PartFile: string := "/part-r-00000"

  /** The output folder of round n: args[3] + "_" + n. */
  function OutputFolder(output: string, n: int): string
  {
    output + "_" + IntToString(n)
  }

  /** The centroid file the mapper of round n is given. */
  function KCentroidsFile(args: seq<string>, n: int): string
    requires |args| == 4
  {
    if n == 0 then args[2] else OutputFolder(args[3], n - 1) + PartFile
  }

  /** The (old, new) names main passes to hasConverged after round n. */
  function ConvergenceArguments(args: seq<string>, n: int): (string, string)
    requires |args| == 4
  {
    if n == 0 then (args[2], OutputFolder(args[3], n))
    else (OutputFolder(args[3], n - 1), OutputFolder(args[3], n))
  }

  /** The files hasConverged opens: the part file is appended to the old name except in round 0, and always to the new one. */
  function OpenedFiles(numIterations: int, oldName: string, newName: string): (string, string)
  {
    (if numIterations == 0 then oldName else oldName + PartFile, newName + PartFile)
  }

  /** The folder copyFinalCentroidsFile copies when the loop stops at round n. */
  function CopySource(output: string, n: int): string
  {
    output + "_" + IntToString(n - 1)
  }

  /** The check after round n reads as old the very file round n's mapper was given, and as new round n's output. */
  lemma CheckReadsMapperInput(args: seq<string>, n: int)
    requires |args| == 4
    ensures var (o, w) := ConvergenceArguments(args, n);
            OpenedFiles(n, o, w) == (KCentroidsFile(args, n), OutputFolder(args[3], n) + PartFile)
  {
  }

  /** Round n + 1 reads the centroids round n wrote. */
  lemma NextRoundReadsOutput(args: seq<string>, n: nat)
    requires |args| == 4
    ensures KCentroidsFile(args, n + 1) == OutputFolder(args[3], n) + PartFile
  {
  }

  lemma {:induction false} NatToStringInjective(m: nat, n: nat)
    requires NatToString(m) == NatToString(n)
    ensures m == n
  {
    NatToStringValue(m);
    NatToStringValue(n);
  }

  /** Every round writes to a folder of its own. */
  lemma OutputFoldersDistinct(output: string, m: nat, n: nat)
    requires m != n
    ensures OutputFolder(output, m) != OutputFolder(output, n)
  {
    var prefix := output + "_";
    if OutputFolder(output, m) == OutputFolder(output, n) {
      assert OutputFolder(output, m)[|prefix|..] == NatToString(m);
      assert OutputFolder(output, n)[|prefix|..] == NatToString(n);
      NatToStringInjective(m, n);
    }
  }

  /** Stopping at round n >= 1 copies the output of round n - 1, not the one the check just accepted. */
  lemma CopyIsOneBehind(output: string, n: nat)
    requires n >= 1
    ensures CopySource(output, n) == OutputFolder(output, n - 1)
    ensures CopySource(output, n) != OutputFolder(output, n)
  {
    OutputFoldersDistinct(output, n - 1, n);
  }

  /** Stopping at round 0 copies args[3]_-1, a folder no round writes. */
  lemma CopyAtRoundZeroNamesNoOutput(output: string, m: nat)
    ensures CopySource(output, 0) == output + "_-1"
    ensures CopySource(output, 0) != OutputFolder(output, m)
  {
    var prefix := output + "_";
    assert CopySource(output, 0)[|prefix|] == '-';
    IntToStringChars(m);
    assert OutputFolder(output, m)[|prefix|] == IntToString(m)[0];
  }

  // ---------------------------------------------------------------------
  // The driver
  // ---------------------------------------------------------------------

  /** What one round's job is configured with. */
  datatype Job = Job(canopyCentersFile: string, kCentroidsFile: string, numIterations: string, outputFolder: string)

  function JobFor(args: seq<string>, n: int): Job
    requires |args| == 4
  {
    Job(args[1], KCentroidsFile(args, n), IntToString(n), OutputFolder(args[3], n))
  }

  /** The mapper's setup parses the NUM_ITERATIONS entry back to the round number. */
  lemma JobPassesRound(args: seq<string>, n: int32)
    requires |args| == 4
    ensures ParseInt(JobFor(args, n).numIterations) == Some(n)
  {
    ParseIntToString(n);
  }

  /** How main ends. Unfinished: the rounds supplied ran out while the loop would go on. */
  datatype Exit = Usage | Copied(source: string, target: string) | Threw(error: Exception) | Unfinished

  /** The first position whose verdict is not Success(false), or |verdicts|. */
  function FirstStop(verdicts: seq<Result<bool>>): (k: nat)
    ensures k <= |verdicts|
    ensures forall i | 0 <= i < k :: verdicts[i] == Success(false)
    ensures k < |verdicts| ==> verdicts[k] != Success(false)
  {
    if verdicts == [] || verdicts[0] != Success(false) then 0
    else
      var k := FirstStop(verdicts[1..]);
      assert forall i | 1 <= i < k + 1 :: verdicts[1..][i - 1] == verdicts[i];
      k + 1
  }

  /** The static state of the driver: NUM_ITERATIONS and the two centroid lists of the last check. */
  class ClusterCenterDriver {
    var numIterations: int
    var oldKCentroids: seq<Point>
    var newKCentroids: seq<Point>

    constructor ()
      ensures numIterations == 0 && oldKCentroids == [] && newKCentroids == []
    {
      numIterations := 0;
      oldKCentroids, newKCentroids := [], [];
    }

    /** hasConverged on the contents of the two files; the lists keep what was read before any exception. */
    method HasConverged(oldLines: seq<string>, newLines: seq<string>) returns (r: Result<bool>)
      modifies this
      ensures numIterations == old(numIterations)
      ensures r == ConvergenceVerdict(numIterations, oldLines, newLines)
      ensures oldKCentroids == ParseLines(OldFormat(numIterations), oldLines).points
      ensures ParseLines(OldFormat(numIterations), oldLines).failure.None? ==>
                newKCentroids == ParseLines(AfterFirstTab, newLines).points
      ensures ParseLines(OldFormat(numIterations), oldLines).failure.Some? ==> newKCentroids == []
    {
      oldKCentroids, newKCentroids := [], [];
      var readOld, readNew;
      oldKCentroids, readOld := ReadPoints(OldFormat(numIterations), oldLines);
      if readOld.Fail? {
        return Failure(readOld.error);
      }
      newKCentroids, readNew := ReadPoints(AfterFirstTab, newLines);
      if readNew.Fail? {
        return Failure(readNew.error);
      }
      r := CompareGenerations(oldKCentroids, newKCentroids);
    }

    /**
     * main. The job of a round and the reading of its files are outside the
     * model: verdicts[i] stands for what hasConverged returns after the i-th
     * round of this run. The loop ends at the first verdict that is not
     * Success(false), or when the verdicts run out.
     */
    method Run(args: seq<string>, verdicts: seq<Result<bool>>) returns (rounds: seq<int>, exit: Exit)
      modifies this
      ensures |args| != 4 ==> exit == Usage && rounds == [] && numIterations == old(numIterations)
      ensures |args| == 4 ==>
                var k := FirstStop(verdicts);
                && |rounds| == (if k < |verdicts| then k + 1 else k)
                && (forall i | 0 <= i < |rounds| :: rounds[i] == old(numIterations) + i)
                && numIterations == old(numIterations) + k
                && exit == (if k == |verdicts| then Unfinished
                            else if verdicts[k].Failure? then Threw(verdicts[k].error)
                            else Copied(CopySource(args[3], numIterations), args[3]))
    {
      if |args| != 4 {
        return [], Usage;
      }
      var k;
      rounds, k := Rounds(verdicts);
      if k == |verdicts| {
        exit := Unfinished;
      } else if verdicts[k].Failure? {
        exit := Threw(verdicts[k].error);
      } else {
        exit := Copied(CopySource(args[3], numIterations), args[3]);
      }
    }

    /**
     * The loop of main: run the job of the current round, stop at the first verdict
     * that is not Success(false), else count the round. rounds lists the
     * NUM_ITERATIONS of each job run; the job itself is JobFor(args, round).
     */
    method Rounds(verdicts: seq<Result<bool>>) returns (rounds: seq<int>, k: nat)
      modifies this
      ensures k == FirstStop(verdicts)
      ensures numIterations == old(numIterations) + k
      ensures |rounds| == (if k < |verdicts| then k + 1 else k)
      ensures forall i | 0 <= i < |rounds| :: rounds[i] == old(numIterations) + i
    {
      rounds := [];
      ghost var first := numIterations;
      k := 0;
      while k < |verdicts|
        invariant k <= |verdicts|
        invariant forall j | 0 <= j < k :: verdicts[j] == Success(false)
        invariant numIterations == first + k
        invariant |rounds| == k && forall j | 0 <= j < k :: rounds[j] == first + j
      {
        rounds := rounds + [numIterations];
        if verdicts[k] != Success(false) {
          FirstStopAt(verdicts, k);
          return;
        }
        numIterations := numIterations + 1;
        k := k + 1;
      }
      FirstStopAt(verdicts, k);
    }
  }

  /** FirstStop is the first position that is not Success(false). */
  lemma FirstStopAt(verdicts: seq<Result<bool>>, i: nat)
    requires i <= |verdicts|
    requires forall j | 0 <= j < i :: verdicts[j] == Success(false)
    requires i < |verdicts| ==> verdicts[i] != Success(false)
    ensures FirstStop(verdicts) == i
  {
    var k := FirstStop(verdicts);
    assert !(k < i) && !(i < k);
  }
}
