# Backblaze B2 character-count evaluator, modelled in Dafny

The program connects to a B2 storage account with an application key id and
key given on the command line. It downloads every file of every bucket and
counts the occurrences of the character `'a'` in each file's text. It then
prints one `<count> <fileName>` line per file. The lines are sorted by count,
then by file name.

This project models the sequential logic of that program:

- `ConnectionCredentials` (`connection_credentials.dfy`): the credential pair
  and the command-line validator `convertCommandLineToCredentials`.
- `FileResults` (`file_result.dfy`): the bucket and the per-file result record.
- `CharacterCount` (`character_count.dfy`): `countCharacters`. It is a method
  with Java's `int` index and `int` counter. It is proved equal to a
  specification function `Count`, and `Count` is proved equal to the number of
  matching positions.
- `ResultOrder` (`result_order.dfy`): the comparator of `printFileResults`
  (`Long.compare` on counts, then `String.compareTo` on names) and the stable
  sort. The sort is proved to be sorted, a permutation and stable. It is also
  proved to be the only sorted order that keeps tied results in input order.
- `Report` (`report.dfy`): the report lines, the empty/non-empty branch of
  `main`, and a parser that reads a line back, so that each line is proved to
  show exactly its result's count and name.
- `FileEvaluator` (`file_evaluator.dfy`): `evaluateFile` after the download,
  `evaluateBucketFiles` and `evaluateFiles` over a given listing, and `main` as
  a method that returns what goes to standard output and standard error.
- `JavaLang` (`java_lang.dfy`): the Java value types as they matter here. A
  `char` is a UTF-16 code unit (`Char16`), a `String` is a sequence of them,
  `byte` and `int` are fixed-width integers, and `null` is `None`.

Java strings are sequences of UTF-16 code units, not of Unicode characters.
`String.compareTo` compares code units, and so does `CompareTo` here. Message
literals are converted with `Utf16`, which writes a character outside the
Basic Multilingual Plane as a surrogate pair.

What the storage service lists and what a download returns are inputs. A
`FileDownload` carries the file name, the downloaded byte array (`None` for
`null`) and the text that UTF-8 decoding of those bytes gives. A
`BucketListing` is one bucket and its listed files, in listing order.

## Model

| member | source | states |
|---|---|---|
| `ConnectionCredentials.ConvertCommandLineToCredentials` | src/main/java/com/au5tie/hireme/connection/ConnectionCredentialUtils.java:25-41 | credentials are returned exactly when the array is non-null, has at least two elements and neither of the first two is blank; they are then (args[0], args[1]) |
| `ConnectionCredentials.ConvertedCredentialsAreValid` | src/main/java/com/au5tie/hireme/connection/ConnectionCredentialUtils.java:32-40 | returned credentials have both fields non-blank |
| `ConnectionCredentials.ExtraArgumentsIgnored` | src/main/java/com/au5tie/hireme/connection/ConnectionCredentialUtils.java:27-40 | arguments after the first two never change the result |
| `ConnectionCredentials.EmptyKeyIdRefused` | src/main/java/com/au5tie/hireme/connection/ConnectionCredentialUtils.java:32-35 | an empty first argument, such as in `["", "secret"]`, gives no credentials for any whitespace classification |
| `CharacterCount.Count` | src/main/java/com/au5tie/hireme/FileEvaluator.java:251-259 | the count of `c` in `s` lies between 0 and the length of `s` |
| `CharacterCount.CountCharacters` | src/main/java/com/au5tie/hireme/FileEvaluator.java:242-259 | the left-to-right `int` loop returns `Count(source, c)`; for any string whose length fits in an `int`, the counter never overflows |
| `CharacterCount.CountIsNumberOfPositions` | src/main/java/com/au5tie/hireme/FileEvaluator.java:251-259 | the count equals the number of indices `i` with `s[i] == c` |
| `CharacterCount.CountAppend` | src/main/java/com/au5tie/hireme/FileEvaluator.java:253-257 | counting is additive over concatenation |
| `CharacterCount.CountZeroIffAbsent` | src/main/java/com/au5tie/hireme/FileEvaluator.java:253-257 | the count is 0 exactly when `c` does not occur, so the empty string gives 0 |
| `CharacterCount.CountFullIffUniform` | src/main/java/com/au5tie/hireme/FileEvaluator.java:253-257 | the count equals the length exactly when every position holds `c` |
| `ResultOrder.Insert` | src/main/java/com/au5tie/hireme/FileEvaluator.java:293-295 | inserting a result adds exactly that result to the multiset |
| `ResultOrder.SortResults` | src/main/java/com/au5tie/hireme/FileEvaluator.java:293-295 | the sorted list is a permutation of the input |
| `ResultOrder.CompareToZeroIffEqual` | src/main/java/com/au5tie/hireme/FileEvaluator.java:290 | `String.compareTo` is 0 exactly on equal strings |
| `ResultOrder.CompareToAntisymmetric` | src/main/java/com/au5tie/hireme/FileEvaluator.java:290 | swapping the operands of `String.compareTo` negates the result |
| `ResultOrder.CompareToTransitive` | src/main/java/com/au5tie/hireme/FileEvaluator.java:290 | the `String.compareTo` order is transitive |
| `ResultOrder.CompareAntisymmetric` | src/main/java/com/au5tie/hireme/FileEvaluator.java:288-290 | swapping the operands of the composed comparator negates the result |
| `ResultOrder.CompareZeroIffSameKey` | src/main/java/com/au5tie/hireme/FileEvaluator.java:288-290 | the comparator returns 0 exactly for equal count and equal file name |
| `ResultOrder.LeTotal` | src/main/java/com/au5tie/hireme/FileEvaluator.java:288-290 | any two results are comparable |
| `ResultOrder.LeTransitive` | src/main/java/com/au5tie/hireme/FileEvaluator.java:288-290 | the comparator's order is transitive |
| `ResultOrder.InsertSorted` | src/main/java/com/au5tie/hireme/FileEvaluator.java:293-295 | inserting into a sorted list keeps it sorted |
| `ResultOrder.SortResultsSorted` | src/main/java/com/au5tie/hireme/FileEvaluator.java:288-295 | every earlier result is ordered before every later one under the comparator |
| `ResultOrder.SortResultsOrdered` | src/main/java/com/au5tie/hireme/FileEvaluator.java:288-295 | counts are non-decreasing, and among equal counts names are non-decreasing under `compareTo` |
| `ResultOrder.TiesOfInsert` | src/main/java/com/au5tie/hireme/FileEvaluator.java:293-295 | insertion puts the new result in front of every result tied with it |
| `ResultOrder.SortResultsStable` | src/main/java/com/au5tie/hireme/FileEvaluator.java:293-295 | results with equal keys keep their relative input order, as `Stream.sorted` guarantees |
| `ResultOrder.SortedDeterminedByTies` | src/main/java/com/au5tie/hireme/FileEvaluator.java:288-295 | two sorted lists with the same tied results in the same order are equal |
| `ResultOrder.SortResultsUnique` | src/main/java/com/au5tie/hireme/FileEvaluator.java:293-295 | every sorted, stable rearrangement of the input is the sort's output, so the order does not depend on the sorting algorithm |
| `ResultOrder.SortResultsExample` | src/main/java/com/au5tie/hireme/FileEvaluator.java:288-295 | (3,"b"), (1,"a"), (3,"a") sort to (1,"a"), (3,"a"), (3,"b") |
| `Report.PrintFileResults` | src/main/java/com/au5tie/hireme/FileEvaluator.java:285-301 | one line per result |
| `Report.Display` | src/main/java/com/au5tie/hireme/FileEvaluator.java:59-63 | the report has one line per result, or one line when there are no results |
| `Report.DigitsValueOfDigits` | src/main/java/com/au5tie/hireme/FileEvaluator.java:299 | the decimal digits of a count read back as that count |
| `Report.LongToStringRoundTrip` | src/main/java/com/au5tie/hireme/FileEvaluator.java:299 | `Long.toString` of any count, negative included, parses back to the count |
| `Report.LineRoundTrip` | src/main/java/com/au5tie/hireme/FileEvaluator.java:299 | a line `count + " " + fileName` parses back to its count and file name, even when the name contains spaces |
| `Report.LineStart` | src/main/java/com/au5tie/hireme/FileEvaluator.java:299 | a result line starts with a digit or a minus sign |
| `Report.NoResultsMessageStart` | src/main/java/com/au5tie/hireme/FileEvaluator.java:62 | the "no file results" line starts with `T` |
| `Report.DisplayShowsSortedResults` | src/main/java/com/au5tie/hireme/FileEvaluator.java:293-300 | with results, line `i` shows the count and name of the `i`-th result in sorted order |
| `Report.DisplayNoResultsIff` | src/main/java/com/au5tie/hireme/FileEvaluator.java:59-63 | the single "no file results" line is printed exactly when the result list is empty |
| `FileEvaluator.Evaluated` | src/main/java/com/au5tie/hireme/FileEvaluator.java:190-222 | a file's result is a success with no error message, the bucket, the file name and the requested character; its count lies between 0 and the text length, and is 0 when the bytes are null or empty |
| `FileEvaluator.NoContentIgnoresText` | src/main/java/com/au5tie/hireme/FileEvaluator.java:190-192 | with null or empty bytes the decoded text has no effect on the result, so decoding is skipped |
| `FileEvaluator.EvaluateFile` | src/main/java/com/au5tie/hireme/FileEvaluator.java:190-222 | the result is `Evaluated`: count 0 without bytes, otherwise `countCharacters` of the decoded text |
| `FileEvaluator.EvaluateBucketFiles` | src/main/java/com/au5tie/hireme/FileEvaluator.java:124-145 | one result per listed file, in listing order |
| `FileEvaluator.EvaluateFiles` | src/main/java/com/au5tie/hireme/FileEvaluator.java:81-113 | the results of every bucket, bucket after bucket; a notice and no results when there are no buckets |
| `FileEvaluator.AccountEvaluationsShape` | src/main/java/com/au5tie/hireme/FileEvaluator.java:88-96 | there is exactly one result per listed file, and each is a success for the requested character with a non-negative count |
| `FileEvaluator.RunEvaluator` | src/main/java/com/au5tie/hireme/FileEvaluator.java:44-64 | bad arguments print only the error line; otherwise standard output holds the no-bucket notice if any, then the report of all results for `'a'` |
| `FileEvaluator.TwoFileReport` | src/main/java/com/au5tie/hireme/FileEvaluator.java:285-301 | files "aaa" and "b" counted for `'a'` print `0 <second>` then `3 <first>` |
| `FileEvaluator.SortTwo` | src/main/java/com/au5tie/hireme/FileEvaluator.java:288-300 | two results with different counts are printed smaller count first |

## Left out

- The B2 session is not modelled. Client creation and `close`, listing buckets and file names, and `downloadByName` with SHA-1 re-read verification are network I/O behind a library not shown. The listing and the downloaded bytes are inputs.
- UTF-8 decoding (`new String(bytes, "UTF-8")`) is the JDK's. The decoded text is an input of each `FileDownload`.
- `System.exit(1)` on listing, download and decoding failures is not modelled. Those are process-termination paths. The failure result built after `System.exit` on a decoding error can never be returned, so it is not modelled either. The commented-out alternatives are not modelled.
- `RunEvaluator`: the exit status is not modelled, only the output. On missing or blank arguments `main` prints to standard error and returns normally, so the process exits with status 0. The listing, download and decoding failures exit with status 1 instead.
- `ConnectionCredentials.IsBlank`: which code units count as whitespace comes from `Character.isWhitespace` inside commons-lang. The classification is a parameter, so every property holds for any classification.
- `CharacterCount.CountCharacters` requires the text length to fit in an `int`. Every Java `String` satisfies this, because `String.length()` is an `int`.
- The bucket is reduced to its id and name. The Lombok builders and getters are generated code; datatype constructors and fields stand for them.
- The target character is fixed to `'a'` as in the code. The counting functions take it as a parameter.
