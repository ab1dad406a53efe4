# DZ9: maximum-by-key selection and a cancellable directory walker, in Dafny

This project models the two pieces of logic in `Program.cs`:

- `CollectionExtensions.GetMax`: an extension method that returns the element of a
  collection with the largest score. It returns `null` for a null or empty
  collection. Otherwise it scans once from the first element and moves only on a
  strictly greater score, so ties keep the earliest element.
- `FileSearcher.Search`: a recursive walk over a directory. It raises the
  `FileFound` event for each file of the directory, then searches each
  subdirectory. The handler may set `FileArgs.Cancel`, which makes the current
  `Search` invocation `return`. Any exception inside an invocation is caught
  there, reported on the console, and ends that invocation only.

Module `CollectionExtensions` (file `CollectionExtensions.dfy`) holds `GetMax`:
- The null collection is `None` of an `Option<seq<T>>`.
- The scoring delegate is a total function `T -> int`.
- `GetMax` is a method with the source's loop. It is proved against `MaxIndex`, a
  function that gives the index the left-to-right scan ends on.
- Lemmas prove that this index is the first element with the maximal score, and
  that only one index can be that.

Module `FileSearch` (file `FileSearch.dfy`) holds the walker. The file system is
an in-memory tree `Dir`:
- Each directory has a path, its file listing and its subdirectory listing, both in
  listing order.
- Two flags say whether `Directory.GetFiles` or `Directory.GetDirectories` throws
  for it.

The `FileFound` subscriber is a `Handler`: either no subscriber, or a pure function
from the file path to a `Reaction`. The reaction is `Proceed`, `Cancel` (the
handler sets `Cancel`) or `Throws` (the handler throws). Everything observable the
walk does is recorded in the searcher's `log`:
- one `Found(path)` for each `OnFileFound` call, whether or not anyone subscribed;
- `CancelNotice` for the cancellation message;
- `Failure(dir)` for the message printed by the `catch`.

`FileArgs` and `FileSearcher` are classes. `Search` is a recursive method whose
postcondition ties the new `log` to the pure function `Walk`. `Walk`'s properties
are lemmas:
- pre-order reporting when nothing cancels or throws;
- only the files of the tree are reported, none more often than it is listed;
- what a cancel or a failure cuts off: the rest of that directory and its subtree;
- what they leave alone: the siblings, and the files already reported.

Cancellation is local to one directory. The program's own text says otherwise:
- the comment on `FileArgs.Cancel` (Program.cs:37) says the flag is there to cancel
  the further search;
- the handler in `Main` (Program.cs:115-119) cancels "the further search" once an
  important file is found.

The code does something narrower. The `return` at Program.cs:63 leaves only the
current `Search` invocation, and the recursive call at Program.cs:69 ignores it.
The parent therefore goes on with its remaining subdirectories, and reports their
files. The model follows the code: `Search` and `Walk` cancel locally.
`CancelIsLocalToOneDirectory` shows this on a concrete tree, and
`SubdirectoryWalkedInFull` states it in general. The discrepancy is recorded under
"## Findings", together with a corrected walk in which cancellation stops the whole
search.

## Model

| member | source | states |
|---|---|---|
| `CollectionExtensions.GetMax` | Program.cs:9-30 | `None` exactly when the collection is null or empty; otherwise the element the strict-`>` scan ends on, which is in the collection, has a score no element exceeds, and is the first element with that score |
| `CollectionExtensions.MaxIndex` | Program.cs:16-27 | the scan from the first element ends on a valid index whose score is at least every element's score |
| `CollectionExtensions.MaxIndexIsFirstMax` | Program.cs:19-27 | because replacement happens only on a strictly greater score, the scan ends on the first index with the maximal score (ties keep the earliest) |
| `CollectionExtensions.FirstMaxUnique` | Program.cs:22-26 | at most one index is the first maximal one, so "first element with the largest score" determines the result |
| `CollectionExtensions.SizeScenario` | Program.cs:94-96 | an invented instance of `GetMax` scoring files by length: lengths 10, 50 and 5 select the second file |
| `FileSearch.StopAt` | Program.cs:55-64 | the file loop stops at the first file whose handler cancels or throws: every earlier file lets the loop go on, and the stopping file does not |
| `FileSearch.FileArgs.constructor` | Program.cs:39-43 | a new `FileArgs` carries the given path and `Cancel == false`, so no cancel decision carries over from one file to another |
| `FileSearch.FileSearcher.constructor` | Program.cs:47-49 | a searcher with the given `FileFound` subscriber (or none) and nothing done yet |
| `FileSearch.FileSearcher.OnFileFound` | Program.cs:78-81 | raising `FileFound` records the path; `Cancel` becomes set exactly when it was already set or the handler cancels; `thrown` holds exactly when the handler throws; with no subscriber `Cancel` keeps its value and `thrown` is false, though the raise is still logged |
| `FileSearch.FileSearcher.Search` | Program.cs:51-76 | the events of a search are exactly `Walk(d, fileFound)` appended to the log: a failing file listing logs the error only; otherwise the file loop, then (unless it stopped) either the error of a failing subdirectory listing or the searches of every subdirectory in order |
| `FileSearch.FileSearcher.RaiseFileFound` | Program.cs:55-65 | the files are raised in listing order (the body builds a fresh `FileArgs` for each, so no cancel decision carries over); it stops with the cancel message or the caught error at the first file whose handler cancels or throws, and reports whether it stopped |
| `FileSearch.FileSearcher.SearchAll` | Program.cs:67-70 | each subdirectory is searched in listing order, and each search's outcome is ignored |
| `FileSearch.ReportedByOneDirectory` | Program.cs:53-75 | a failing file listing reports nothing; a cancel or exception on file k reports exactly files 0..k and nothing from subdirectories; a failing subdirectory listing reports exactly the directory's files; otherwise its files come first, then what the subdirectories report |
| `FileSearch.UnhinderedReportsPreOrder` | Program.cs:55-70 | with readable listings and a handler that neither cancels nor throws (or no subscriber), the reported files are exactly the tree in pre-order: a directory's files before its subdirectories', subdirectories in listing order, each file once per listing |
| `FileSearch.UnhinderedReportsPreOrderAll` | Program.cs:67-70 | the same, for a sequence of sibling directories: their pre-orders, one after another |
| `FileSearch.ReportedWithinTree` | Program.cs:51-76 | whatever the handler and the listings do, every reported file is a file of the tree and none is reported more often than it is listed |
| `FileSearch.ReportedWithinTreeAll` | Program.cs:67-70 | the same bound for a sequence of sibling directories |
| `FileSearch.WalkAllAppend` | Program.cs:67-70 | searching two runs of subdirectories one after another gives the events of the first run followed by those of the second, with no interaction between them |
| `FileSearch.SiblingsAreIndependent` | Program.cs:67-70 | within a subdirectory listing, the search of each subdirectory contributes its full walk between those of its earlier and later siblings |
| `FileSearch.SubdirectoryWalkedInFull` | Program.cs:60-70 | once a directory's files are all through and its subdirectories are listed, each subdirectory is walked in full whatever its earlier siblings did: a cancel or an exception in one subdirectory does not propagate to the parent |
| `FileSearch.CancelIsLocalToOneDirectory` | Program.cs:60-69 | on a concrete tree, a cancel in subdirectory `a` stops `a` and its subdirectory `a/deep`, and the sibling `b` is still searched |
| `FileSearch.LocalCancelReportsLaterFiles` | Program.cs:60-69 | as written, on a concrete tree, the search reports `b/x.txt`, which comes after the cancelling file `a/important.log` in pre-order, where a search cancelled as a whole would report only `a/important.log` |
| `FileSearch.CutAfter` | Program.cs:37 | the files a search cancelled as a whole reports, without reference to how it is computed: a prefix of the given files (the pre-order, where the corrected walk uses it) in which every file but the last lets the search go on, and which, when shorter than the whole, ends at a file whose handler cancels or throws |
| `FileSearch.StopAtAppend` | Program.cs:55-64 | over two runs of files, the first stopping file is the first run's, if it has one; otherwise it lies in the second run |
| `FileSearch.GlobalCancelStopsAtFirstCancel` | Program.cs:37 | corrected walk: with readable listings and a handler that does not throw, the reported files are exactly the pre-order cut after the first cancelling file, and the walk reports cancellation exactly when such a file exists |
| `FileSearch.GlobalCancelStopsAtFirstCancelAll` | Program.cs:67-70 | the same for a run of sibling directories: a cancel in one of them ends the loop over the rest |

## Findings

| source | as written | input that shows it | evidently intended | confidence | as-written member | corrected member |
|---|---|---|---|---|---|---|
| Program.cs:60-63, 67-70 | a handler's `Cancel` ends only the current `Search` invocation, and the parent goes on with the remaining subdirectories | `root` with subdirectories `a` (holding `a/important.log`) and `b` (holding `b/x.txt`), and a handler that cancels on `a/important.log`: `b/x.txt` is still reported | `Cancel` stops the whole search (comment at Program.cs:37, and Program.cs:115-119) | medium; not executed | `FileSearch.LocalCancelReportsLaterFiles` | `FileSearch.GlobalCancelStopsAtFirstCancel` |

`FileSearcher.Search` keeps modelling the code as written, because that is what the program does. `WalkGlobal` and `WalkAllGlobal` define the corrected walk, and the intended property is proved about them.

## Left out

- `Program.Main` (Program.cs:87-129) is left out: console output, `Console.ReadKey`, the recursive `Directory.GetFiles(..., AllDirectories)` listing and the real `FileInfo.Length` of each file. `SizeScenario` is an invented instance of its `GetMax` call, not data from the program.
- The real `System.IO.Directory` calls are not modelled. The tree `Dir` takes their place, with listing order as given and a failure flag for each listing. Symbolic-link cycles and changes to the tree during the walk are not modelled.
- The console messages are reduced to the events `CancelNotice` and `Failure(dir)`. Their text and the exception message are not modelled.
- The `float` score is not modelled. Scores are unbounded integers, so NaN, infinities and rounding do not arise.
- An exception thrown by the scoring delegate is not modelled: the delegate is a total function. Likewise, the model does not count how many times the delegate is called.
- Multicast delegates and subscribing or unsubscribing during a walk are not modelled. The searcher has one subscriber or none, fixed when it is created.
- The handler is a pure function of the path. A handler that both sets `Cancel` and throws is modelled as throwing, which is what the `catch` makes of it.
- `GetMax` over a lazily evaluated `IEnumerable` that yields different elements on each enumeration is not modelled. The collection is a sequence.
- CollectionExtensions.GetMax: the source allows null elements (`T` is only constrained to be a class). When the first maximal element is null, the source returns `null`, which its caller cannot tell apart from the empty-collection result. The model returns `Some` of that element and so keeps the two cases apart.
