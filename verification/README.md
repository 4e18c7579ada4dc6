# Canopy clustering on Hadoop, in Dafny

This project models canopy-accelerated k-means over integer `(year, temperature)` data points. The original is a chain of Hadoop jobs, and each job is a mapper/reducer pair:

- **CanopyCenter** picks canopy centres. It runs a greedy pass in every map task and a second greedy pass in the reducer. A point becomes a centre when no centre kept so far lies within T2 of it.
- **CanopyAssign** tags each point with every canopy centre within T1 of it.
- **ClusterAssign** sends each point to the nearest of k initial centroids, by brute force.
- **ClusterCenter** is one k-means round. The mapper indexes, for each canopy centre, the centroids within T1 of it. It then sends each (canopy, point) record to the nearest centroid of that canopy. The reducer writes the mean of each group under a counter that goes up by one per call.
- **ClusterCenterDriver** repeats ClusterCenter rounds until no centroid moves by more than 1.0. It then copies an output folder to the final path.

There are two near-identical trees:
- the legacy packages, over `TemperatureDataPoint`, with T1 = 10 and T2 = 5;
- the `cc` packages, over `cc.dataset.DataPoint`, with T1 = 10 and T2 = 6.

One `Point` datatype serves both trees. The thresholds are a parameter (`LegacyThresholds`, `CcThresholds`), and the two `compareTo` variants are two functions.

Files, one module each:

| file | module | models |
|---|---|---|
| `wrappers.dfy` | `Wrappers`, `MapReduce` | Java exceptions as `Result`/`Outcome`; `context.write` as appending to `Context.written` |
| `javatext.dfy` | `JavaText` | 32-bit ints, `String.indexOf`, `Integer.parseInt`, `Integer.toString` |
| `dataio.dfy` | `DataIO` | `DataOutput.writeInt` / `DataInput.readInt` (big-endian, two's complement) |
| `datapoint.dfy` | `DataPoints` | the data point: constructors, text and binary encodings, distances, `compareTo`, `equals`, `hashCode`, `getAverageDataPoint` |
| `records.dfy` | `Records` | reading reference files line by line (whole line, after the first tab, from index two) and the "canopy TAB point" records |
| `canopycenter.dfy` | `CanopyCenter` | the greedy centre rule and the CanopyCenter mapper and reducers |
| `canopyassign.dfy` | `CanopyAssign` | the CanopyAssign mappers (the T1 fan-out) |
| `centroids.dfy` | `Centroids` | the argmin loop shared by the clustering mappers |
| `clusterassign.dfy` | `ClusterAssign` | the brute-force ClusterAssign mapper |
| `clustercenter.dfy` | `ClusterCenter` | the canopy-to-centroids index, the pruned ClusterCenter mappers and the labelling reducers |
| `driver.dfy` | `Driver` | `hasConverged`, the iteration loop of `main`, folder names and `copyFinalCentroidsFile` |

Static fields of the Java classes become the fields of a Dafny class per mapper, reducer or driver. Examples are the `canopyCenters` lists, `kCentroids`, the canopy-to-centroids `HashMap`, `CENTROID_KEY` and `NUM_ITERATIONS`. Their methods carry `modifies` clauses. Where the Java code loops, the Dafny method loops too, and it is proved equal to a specification function. The properties of the specification functions are proved as lemmas.

Where the specification and the code disagree, the model follows the code:
- **Convergence.** The code returns false only when some distance is strictly above 1.0, so a distance of exactly 1.0 counts as converged. It compares by position. A new list longer than the old one is accepted. A shorter one throws `IndexOutOfBoundsException` once the earlier pairs have passed.
- **Empty groups.** The code does not raise an error for an empty group. `getAverageDataPoint` of no points yields (0, 0), because `(int)` of NaN is 0.
- **Read errors.** A malformed line is not skipped. The exception ends the setup or check that reads it.

## Model

| member | source | states |
|---|---|---|
| DataPoints.Default | src/cc/dataset/DataPoint.java:44-47 | the default constructor's point prints as "0,0" |
| DataPoints.Copy | src/DataPoint/TemperatureDataPoint.java:70-74 | the copy is equal to the original, compares as 0 with it and has the same hash code |
| DataPoints.ParseToText | src/cc/dataset/DataPoint.java:56-61 | the String constructor reads back every point toString prints, for all 32-bit year and temperature values |
| DataPoints.ParseNeedsOneComma | src/cc/dataset/DataPoint.java:58-60 | no comma throws StringIndexOutOfBounds; two or more commas throw NumberFormat; so a line that parses has exactly one comma |
| DataPoints.ParseSides | src/DataPoint/TemperatureDataPoint.java:56-61 | text with one comma parses iff both sides are decimal ints, and then to exactly those ints |
| DataPoints.Write | src/cc/dataset/DataPoint.java:83-88 | write emits 8 bytes, and the first 4 read back as the year |
| DataPoints.ReadFields | src/cc/dataset/DataPoint.java:97-102 | readFields succeeds iff 8 bytes are left, and consumes exactly 8 |
| DataPoints.ReadFieldsWrite | src/DataPoint/TemperatureDataPoint.java:83-102 | readFields(write(p) + rest) gives p and leaves rest |
| DataIO.ReadWriteInt | src/cc/dataset/DataPoint.java:86-87 | readInt reads back every int writeInt wrote, and leaves what follows |
| DataPoints.SimpleDistanceProperties | src/cc/dataset/DataPoint.java:169-172 | the cheap distance is symmetric, zero exactly on equal temperatures, blind to the year, and obeys the triangle inequality |
| DataPoints.WithinTests | src/cc/dataset/DataPoint.java:142-159 | withinT1 and withinT2 are symmetric; T2 <= T1 makes withinT2 imply withinT1 |
| DataPoints.SquaredDistanceProperties | src/cc/dataset/DataPoint.java:182-186 | the squared exact distance is symmetric and zero exactly between equal points |
| DataPoints.NoOverflowInGeneratorRange | input/gen.py:11-17 | within the generator's year and temperature ranges, the cheap distance, the squared distance and hashCode's sum all fit in an int |
| DataPoints.Equals | src/cc/dataset/DataPoint.java:209-217 | equals holds exactly for equal points |
| DataPoints.CompareTo | src/cc/dataset/DataPoint.java:127-131 | the cc compareTo returns only -1, 0 or 1, returns 0 exactly when equals holds, and is negative exactly when a is lexicographically before b by (temperature, year) |
| DataPoints.CompareToIsTotalOrder | src/cc/dataset/DataPoint.java:127-131 | the cc compareTo is antisymmetric and transitive |
| DataPoints.CompareTemperature | src/DataPoint/TemperatureDataPoint.java:127-129 | the legacy compareTo returns -1, 0 or 1, and returns 0 exactly when the temperatures are equal |
| DataPoints.CompareTemperatureInconsistentWithEquals | src/DataPoint/TemperatureDataPoint.java:127-129 | the legacy compareTo returns 0 for (2000,50) and (1990,50), which are not equal |
| DataPoints.HashCode | src/cc/dataset/DataPoint.java:227-230 | hashCode is 17 * year + 31 * temperature modulo 2^32, as a 32-bit int |
| DataPoints.EqualsAgreesWithHashCode | src/DataPoint/TemperatureDataPoint.java:208-228 | equal points have equal hash codes |
| DataPoints.TruncDiv | src/cc/dataset/DataPoint.java:251-252 | the (int) cast of sum / count rounds toward zero: the quotient q satisfies q*n <= s < q*n + n for s >= 0, and q*n - n < s <= q*n for s < 0 |
| DataPoints.Mean | src/cc/dataset/DataPoint.java:240-255 | the truncated mean of a field lies between that field's minimum and maximum |
| DataPoints.AverageDataPoint | src/cc/dataset/DataPoint.java:240-255 | the loop sums each field and counts the points, then divides each sum by the count truncating toward zero; the result is the per-field truncated mean, and (0, 0) for no points |
| DataPoints.AverageWithinRange | src/DataPoint/TemperatureDataPoint.java:239-253 | each coordinate of a non-empty average lies within the input's range of that coordinate |
| DataPoints.AverageOfCopies | src/cc/dataset/DataPoint.java:240-255 | the average of n >= 1 copies of p is p |
| DataPoints.AverageIgnoresOrder | src/DataPoint/TemperatureDataPoint.java:239-253 | inputs that are permutations of each other have the same average |
| JavaText.IndexOf | src/cc/dataset/DataPoint.java:58 | indexOf gives -1 iff the character is absent, otherwise its first position |
| JavaText.ParseIntToString | src/cc/dataset/DataPoint.java:59-60 | parseInt reads back every int that toString prints |
| JavaText.ParseIntRejects | src/cc/dataset/DataPoint.java:60 | parseInt rejects any text that holds a comma or a tab |
| Records.ParseLines | src/cc/canopyassign/CanopyAssignMapper.java:52-57 | a setup read yields, in order, the points of the lines before the first line that throws, and that line's exception |
| Records.ReadPoints | src/ClusterAssign/ClusterAssignMapper.java:53-58 | the read loop stops at the first line that throws, and returns what ParseLines describes |
| Records.AfterFirstTabReadsLabelledLine | src/cc/clustercenter/ClusterCenterMapper.java:68-69 | keeping the text after the first tab reads back the point of a "key TAB point" line, whatever the key |
| Records.FromIndexTwoReadsOneDigitLabel | src/CanopyAssign/CanopyAssignMapper.java:56 | dropping two characters reads back the point of a line whose key is one digit |
| Records.FromIndexTwoRejectsLongLabel | src/ClusterCenter/ClusterCenterMapper.java:62 | with a key of 10 or more, dropping two characters leaves a tab before the comma, and the parse throws NumberFormat |
| Records.FromIndexTwoMisreadsRawLine | src/ClusterCenter/ClusterCenterMapper.java:62 | dropping two characters of an unlabelled line with a four-digit year reads the year modulo 100 |
| Records.ParseLabelledLines | src/ClusterCenter/ClusterCenterDriver.java:98-103 | reading "key TAB point" lines after the tab gives back exactly their points, with no exception |
| Records.ParseRecordOfPair | src/cc/clustercenter/ClusterCenterMapper.java:128-130 | a record "canopy TAB point" written by CanopyAssign parses back to that pair |
| CanopyCenter.ScanCenters | src/cc/canopycenter/CanopyCenterMapper.java:73-85 | the flagged scan with break says insert exactly when no current centre lies within T2 of the point |
| CanopyCenter.Greedy | src/cc/canopycenter/CanopyCenterReducer.java:58-82 | the list only grows: the old list is a prefix of the new one, and it gains at most one entry per value |
| CanopyCenter.GreedyKeepsSeparation | src/cc/canopycenter/CanopyCenterMapper.java:63-95 | offering values keeps the centres pairwise outside T2 of each other |
| CanopyCenter.SeparatedDistinct | src/cc/canopycenter/CanopyCenterReducer.java:67-75 | with T2 >= 1, separated centres have pairwise different temperatures, so they hold no duplicates |
| CanopyCenter.GreedyCovers | src/cc/canopycenter/CanopyCenterReducer.java:67-75 | every offered value lies within T2 of some centre of the result (itself, when it was kept) |
| CanopyCenter.GreedyKeepsOrder | src/cc/canopycenter/CanopyCenterReducer.java:58-80 | the centres a stage adds are a subsequence of the values it received, in their order |
| CanopyCenter.GreedyCompose | src/cc/canopycenter/CanopyCenterReducer.java:21-36 | a list that persists across reduce calls: offering a and then b is offering a + b |
| CanopyCenter.GreedyOfSeparated | src/CanopyCenter/CanopyCenterReducer.java:60-80 | values already separated from each other and from the list are all kept, in order |
| CanopyCenter.GreedyIdempotent | src/cc/canopycenter/CanopyCenterReducer.java:60-80 | from an empty list, running the reduce rule on its own output reproduces it |
| CanopyCenter.TwoLevelCoverage | src/CanopyCenter/CanopyCenterReducer.java:67-75 | a point of a split lies within cheap distance 2*(T2-1) of a global centre, when all its split's local centres reach the reducer |
| CanopyCenter.LegacyGreedyDistances | src/CanopyCenter/CanopyCenterReducer.java:67-80 | with T2 = 5, kept centres are pairwise at cheap distance >= 5, and every value is within 4 of a centre |
| CanopyCenter.CcGreedyDistances | src/cc/canopycenter/CanopyCenterReducer.java:67-80 | with T2 = 6, kept centres are pairwise at cheap distance >= 6, and every value is within 5 of a centre |
| CanopyCenter.CanopyCenterMapper.constructor | src/cc/canopycenter/CanopyCenterMapper.java:32-40 | a new mapper starts with an empty, trivially separated list |
| CanopyCenter.CanopyCenterMapper.Setup | src/cc/canopycenter/CanopyCenterMapper.java:32-40 | setup resets the list to empty |
| CanopyCenter.CanopyCenterMapper.Map | src/cc/canopycenter/CanopyCenterMapper.java:56-97 | a parse error changes nothing; otherwise the point is appended and (1, point) written iff no centre is within T2 of it, and the list stays the greedy result of all parsed points and stays separated |
| CanopyCenter.CanopyCenterReducer.Setup | src/cc/canopycenter/CanopyCenterReducer.java:31-36 | setup resets the list to empty |
| CanopyCenter.CanopyCenterReducer.Offer | src/CanopyCenter/CanopyCenterReducer.java:60-81 | a value is written under the key and a copy appended iff no stored centre is within T2 of it; otherwise nothing changes |
| CanopyCenter.CanopyCenterReducer.OfferAll | src/CanopyCenter/CanopyCenterReducer.java:58-82 | the loop leaves the greedy result of the values on the list, and writes exactly the added centres under the key |
| CanopyCenter.CanopyCenterReducer.Reduce | src/cc/canopycenter/CanopyCenterReducer.java:54-83 | reduce extends the list by the greedy rule and writes the added centres, in order, under the received key; the list stays the greedy result of everything received since setup, and stays separated |
| CanopyAssign.CanopyPairs | src/cc/canopyassign/CanopyAssignMapper.java:80-85 | map writes at most as many pairs as there are canopy centres |
| CanopyAssign.CanopyPairsMembers | src/CanopyAssign/CanopyAssignMapper.java:82-87 | every written pair is (c, p) for a centre c within T1 of p, and every such centre gets its pair |
| CanopyAssign.CanopyPairsDistinct | src/cc/canopyassign/CanopyAssignMapper.java:80-85 | centres without duplicates never yield the same pair twice |
| CanopyAssign.GreedyCentresPairOnce | src/CanopyAssign/CanopyAssignMapper.java:85 | centres from the greedy rule with T2 >= 1 yield each pair at most once |
| CanopyAssign.CanopyCoverage | src/cc/canopyassign/CanopyAssignMapper.java:83 | when 2*(T2-1) < T1, every point gets at least one canopy |
| CanopyAssign.LegacyCoverage | src/CanopyAssign/CanopyAssignMapper.java:85 | with T1 = 10 and T2 = 5, every point gets at least one canopy |
| CanopyAssign.CcCoverageGap | src/cc/canopyassign/CanopyAssignMapper.java:83 | with T1 = 10 and T2 = 6, splits [(2000,5),(2000,0)] and [(2000,10)] leave (2000,0) without a canopy |
| CanopyAssign.SetupReadsReducerOutput | src/cc/canopyassign/CanopyAssignMapper.java:55 | dropping two characters reads back every point of the reducer's "1 TAB point" lines |
| CanopyAssign.CanopyAssignMapper.Setup | src/CanopyAssign/CanopyAssignMapper.java:35-60 | the list holds the points of the lines read from index two, up to the first line that throws |
| CanopyAssign.CanopyAssignMapper.Map | src/cc/canopyassign/CanopyAssignMapper.java:73-86 | a parse error writes nothing; otherwise exactly the pairs for the centres within T1, in list order, and the list is unchanged |
| CanopyAssign.CanopyAssignMapper.WritePairs | src/CanopyAssign/CanopyAssignMapper.java:82-87 | the loop over the centres appends exactly those pairs |
| Centroids.Nearest | src/cc/clustercenter/ClusterCenterMapper.java:137-151 | the chosen offset is valid, no candidate is closer, and every earlier candidate is strictly farther |
| Centroids.NearestIsUnique | src/ClusterAssign/ClusterAssignMapper.java:91 | the first least offset is unique, so the strict comparison fixes the tie-break |
| Centroids.ArgMin | src/ClusterAssign/ClusterAssignMapper.java:83-96 | the argmin loop returns that offset, and -1 for no candidates |
| ClusterAssign.ClusterAssignMapper.Setup | src/ClusterAssign/ClusterAssignMapper.java:35-60 | kCentroids holds the points of the lines read from index two, up to the first line that throws |
| ClusterAssign.ClusterAssignMapper.Map | src/ClusterAssign/ClusterAssignMapper.java:76-100 | a parse error writes nothing; with no centroids get(-1) throws; otherwise exactly one pair (nearest centroid, point) |
| ClusterAssign.AssignmentIsNearest | src/ClusterAssign/ClusterAssignMapper.java:88-99 | the written centroid is one of the k centroids, and none is closer to the point |
| ClusterCenter.InCanopy | src/ClusterCenter/ClusterCenterMapper.java:85-90 | a centroid is on a canopy's list iff it lies within T1 of the canopy centre |
| ClusterCenter.CanopyIndex | src/cc/clustercenter/ClusterCenterMapper.java:88-103 | a centre is a key iff its T1-filtered list is non-empty, and the key maps to that list |
| ClusterCenter.Assignment | src/cc/clustercenter/ClusterCenterMapper.java:133-152 | a canopy absent from the index yields nothing; a present one yields one pair: a centroid of its list no farther than any other, with the point |
| ClusterCenter.FilterCentroids | src/ClusterCenter/ClusterCenterMapper.java:85-90 | the filter loop yields the centroids within T1, in their file order |
| ClusterCenter.CentroidFormatReadsLabelledLine | src/ClusterCenter/ClusterCenterMapper.java:62 | after round 0, both trees read labelled centroid lines correctly while the labels have one digit |
| ClusterCenter.CcCentroidFormatReadsBack | src/cc/clustercenter/ClusterCenterMapper.java:64-69 | the cc mapper reads raw lines in round 0, and labelled lines in every later round whatever the label |
| ClusterCenter.AssignedCentroidInCanopy | src/cc/clustercenter/ClusterCenterMapper.java:133-152 | a point is sent to one of the centroids, within T1 of its canopy centre |
| ClusterCenter.ClusterCenterMapper.BuildIndex | src/ClusterCenter/ClusterCenterMapper.java:80-95 | the nested loops build exactly the canopy index |
| ClusterCenter.ClusterCenterMapper.Setup | src/cc/clustercenter/ClusterCenterMapper.java:38-104 | an exception while reading either file leaves the index empty; otherwise the index is built from the parsed centroids and canopy centres |
| ClusterCenter.ClusterCenterMapper.Map | src/ClusterCenter/ClusterCenterMapper.java:113-146 | a bad record throws and writes nothing; otherwise exactly the canopy's assignment is written |
| ClusterCenter.ClusterCenterMapper.Lookup | src/cc/clustercenter/ClusterCenterMapper.java:133-152 | the lookup and argmin write exactly the canopy's assignment |
| ClusterCenter.ClusterCenterReducer.constructor | src/cc/clustercenter/ClusterCenterReducer.java:18 | the counter starts at 1 |
| ClusterCenter.ClusterCenterReducer.Reduce | src/cc/clustercenter/ClusterCenterReducer.java:35-44 | exactly one pair is written: the old counter value with the average of the values; the counter goes up by one; labels stay 1, 2, 3, ... |
| Driver.Converged | src/ClusterCenter/ClusterCenterDriver.java:107-112 | true iff the new list is at least as long and every squared distance is at most 1; IndexOutOfBounds iff the new list is shorter and the pairs before its end all passed |
| Driver.ConvergedOnUnchanged | src/ClusterCenter/ClusterCenterDriver.java:107-112 | centroids that did not move have converged, whatever follows them in the new list |
| Driver.CompareGenerations | src/ClusterCenter/ClusterCenterDriver.java:106-112 | the comparison loop, with its early return, gives the Converged verdict |
| Driver.ConvergesOnRepeatedOutput | src/ClusterCenter/ClusterCenterDriver.java:81-112 | after round 0, rewriting the previous centroids under any labels ends the loop |
| Driver.LegacyRoundZeroDisagreement | src/ClusterCenter/ClusterCenterDriver.java:65-76 | in round 0 the check reads a raw line whole, while the legacy mapper reads the year modulo 100 |
| Driver.CheckReadsMapperInput | src/ClusterCenter/ClusterCenterDriver.java:185-194 | the check after round n reads as old the very file round n's mapper was given, and as new round n's output |
| Driver.NextRoundReadsOutput | src/ClusterCenter/ClusterCenterDriver.java:153-168 | round n + 1 reads the part file round n wrote |
| Driver.OutputFoldersDistinct | src/ClusterCenter/ClusterCenterDriver.java:168 | different rounds write to different folders |
| Driver.CopyIsOneBehind | src/ClusterCenter/ClusterCenterDriver.java:130 | stopping at round n >= 1 copies folder n - 1, not the folder the check just accepted |
| Driver.CopyAtRoundZeroNamesNoOutput | src/ClusterCenter/ClusterCenterDriver.java:130 | stopping at round 0 copies args[3]_-1, which no round writes |
| Driver.JobPassesRound | src/ClusterCenter/ClusterCenterDriver.java:157 | the mapper parses the NUM_ITERATIONS setting back to the round number |
| Driver.FirstStop | src/ClusterCenter/ClusterCenterDriver.java:185-196 | the loop stops at the first round whose check does not return false |
| Driver.ClusterCenterDriver.constructor | src/DataPoint/TemperatureDataPoint.java:35 | NUM_ITERATIONS starts at 0 |
| Driver.ClusterCenterDriver.HasConverged | src/ClusterCenter/ClusterCenterDriver.java:50-113 | the verdict is the Converged verdict of the two files read in their formats, or the first read exception; both lists are cleared first, so an exception in the old file leaves the new list empty; NUM_ITERATIONS is unchanged |
| Driver.ClusterCenterDriver.Rounds | src/ClusterCenter/ClusterCenterDriver.java:148-197 | the loop runs one job per round number from the start value on; NUM_ITERATIONS goes up once per non-converged round |
| Driver.ClusterCenterDriver.Run | src/ClusterCenter/ClusterCenterDriver.java:134-201 | with the wrong number of arguments main prints usage and runs nothing; otherwise it runs rounds until the first converged check, then copies folder NUM_ITERATIONS - 1, or ends with the check's exception |

## Left out

- Hadoop plumbing is not modelled: job configuration, `FileSystem` and `BufferedReader` reads, `FileUtil.copy` and `System.out`. File contents are parameters (`seq<string>`), and `context.write` appends to `Context.written`. The drivers of CanopyCenter, CanopyAssign and ClusterAssign are job setup only.
- Engine behaviour is not modelled: the shuffle, sort and grouping of reduce keys, the order values arrive in across splits, and races on static fields shared by tasks. Reducer input is an arbitrary sequence, and lemmas such as `CanopyCenter.TwoLevelCoverage` take every order.
- The identity reducers (`CanopyAssignReducer`, `ClusterAssignReducer`, both trees) only forward their input, so they are not modelled.
- `cc.dataset.SmartPlugDataPoint` is not modelled. It works on `float` fields with `Math.floor`, and as given it declares a class of another name.
- `input/gen.py` is a random data generator. Only its value ranges appear, in `DataPoints.InGeneratorRange`.
- `DataPoints.SquaredDistance`: complexDistance's `Math.sqrt` is not modelled. The square root is monotone, so comparing squared distances picks the same centroid. `> 1.0` on the root holds exactly when the square is above 1.
- `DataPoints.Average`: the `double` sums of getAverageDataPoint are exact integer sums. Sums of ints are exact in a double below 2^53, so this matches the code for fewer than 2^22 points.
- `DataPoints.SimpleDistance` and `DataPoints.SquaredDistance` are exact integers, without Java's 32-bit wrap-around. `DataPoints.NoOverflowInGeneratorRange` shows that no wrap occurs within the generator's ranges. `DataPoints.HashCode` does model the wrap.
- `ClusterCenter.ClusterCenterReducer.Reduce` and `Driver.ClusterCenterDriver.Rounds` count with unbounded integers. `CENTROID_KEY` (int) and `NUM_ITERATIONS` (long) would wrap only after 2^31 and 2^63 steps.
- `JavaText.ParseInt` accepts only ASCII digits. `Integer.parseInt` also accepts other Unicode decimal digits, which the program never prints.
- readFields is modelled as a function returning a new point. The partial update it leaves behind when the second readInt fails is not modelled, nor is in-place mutation of data point objects in general. Points are values, and the copy constructor is `DataPoints.Copy`.
- equals on `null` or on an object of another class is not modelled: the model only compares points.
- The driver's `while(true)` loop has no bound. `Driver.ClusterCenterDriver.Run` takes the verdicts of the successive checks as a parameter, and stops as `Unfinished` when they run out. The jobs themselves run outside the model; `Rounds` returns the round numbers it ran, and `Driver.JobFor` gives each round's job settings.
- The argmin loops' `Double.MAX_VALUE` start is modelled by the `offset == -1` test in `Centroids.ArgMin`. Every finite distance is below `Double.MAX_VALUE`, so the first candidate is always taken.
- `CanopyCenter.TwoLevelCoverage` needs the cheap distance's triangle inequality only. The triangle inequality of the exact distance is not used and not proved.

## Findings

| source | as written | input that shows it | evidently intended | confidence | as-written member | corrected member |
|---|---|---|---|---|---|---|
| src/ClusterCenter/ClusterCenterMapper.java:62 | the legacy mapper drops the first two characters of every centroid line, including round 0's raw initial file | round 0 with an initial centroid line "2000,10": the mapper reads (0,10), while hasConverged reads (2000,10); a label of 10 or more later fails to parse | read round 0's file whole and later files after the first tab, as the cc mapper does | not executed | Driver.LegacyRoundZeroDisagreement | ClusterCenter.CcCentroidFormatReadsBack |
| src/cc/dataset/DataPoint.java:26 | T2 = 6 with T1 = 10 lets two greedy passes push a point 10 away from every surviving centre, and CanopyAssign's withinT1 test (src/cc/canopyassign/CanopyAssignMapper.java:83) is strict | splits [(2000,5),(2000,0)] and [(2000,10)], with the reducer seeing (2000,10) first: (2000,0) gets no canopy | every point in at least one canopy, which holds when 2*(T2-1) < T1, as with T2 = 5 | not executed | CanopyAssign.CcCoverageGap | CanopyAssign.CanopyCoverage |
| src/DataPoint/TemperatureDataPoint.java:127-129 | the legacy compareTo compares temperatures only, so it is not consistent with equals; Hadoop groups reduce keys by compareTo, so centroids with equal temperatures share one reduce call | (2000,50) and (1990,50): compareTo gives 0, equals gives false | order by temperature and then by year, as the cc compareTo does | not executed | DataPoints.CompareTemperatureInconsistentWithEquals | DataPoints.CompareToIsTotalOrder |
