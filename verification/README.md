# langchain-doc-app: batched indexing and the source list, in Dafny

The application is a small retrieval-augmented question-answering demo.
It crawls documentation pages, splits them into chunks, embeds them into a
vector store and answers questions with a hosted language model. Almost all
of that is delegated to hosted services. Two pieces of its own logic are
pure, and this project models them and proves what they promise:

- **Batched indexing.** `index_documents_async` (ingestion.py) does three things:
  - it cuts the document list into consecutive slices of `batch_size`;
  - it submits every slice to the vector store as a task numbered from 1;
  - it counts the `True` results and compares that count with the number of batches.

  Module `Ingestion` (ingestion.dfy) models these steps. The vector store's
  verdict on each task is a parameter `accept: Task<T> -> bool`. A `Task`
  is a batch together with its number.
- **The source list.** `create_sources_string` (main.py) renders the set of
  source URLs behind an answer:
  - an empty set gives the empty string;
  - otherwise a `sources:` header line comes first, followed by one line
    `<n>. <url>` per source, in ascending string order, numbered from 1.

  Module `Sources` (sources.dfy) models it. Three supporting modules serve it:
  - `LexOrder` (lex_order.dfy): Python's `<` on `str`;
  - `Decimal` (decimal.dfy): the decimal rendering of `f"{n}"`;
  - `Seqs` (seqs.dfy): concatenation and repetition-freedom of sequences.

Python's `range` and slicing are written out explicitly, as follows.
- `range(0, n, b)` with `b > 0` is `Ingestion.Range`.
- A slice clamps both of its bounds to the list's length; that is
  `Ingestion.Slice`.
- `range` raises `ValueError` for a step of zero. `IndexDocuments`
  returns `Err(ZeroBatchSize)` in that case.
- A negative step gives an empty range. There are then no batches, and the
  call reports 0 of 0 batches succeeded, which is full success.

`list(source_urls)` enumerates a set in an order the program does not
control. `Sources.ListOf` models it as a method that picks members in an
arbitrary order. `list.sort()` is modelled by `Sources.Sort`, an insertion
sort whose contract is the same as `sort()`'s: an ascending permutation.
`Sources.SortIsCanonical` proves that every ascending permutation of any
enumeration is the same list, `Sources.SortedSources`. So the text depends
only on the set.

## Model

| member | source | states |
|---|---|---|
| Ingestion.Range | ingestion.py:51 | `range(start, stop, step)` with a positive step: element k is `start + k*step` and lies below `stop`; the range is empty exactly when `stop <= start`; otherwise its last element is the last step below `stop`, and one more step would reach or pass it |
| Ingestion.Slice | ingestion.py:51 | `s[lo:hi]` with bounds clamped to the length: the length is `min(hi, len) - lo` when `lo < hi` and `lo < len`, else 0; element k is `s[lo + k]` |
| Ingestion.BatchContents | ingestion.py:50-52 | batch k is exactly `docs[k*b : min((k+1)*b, len)]`, and there are just enough batches to reach the end: `(count-1)*b < len <= count*b` |
| Ingestion.BatchCount | ingestion.py:50-52 | for a positive batch size b, the number of batches is ceil(len(documents) / b) |
| Ingestion.BatchSizes | ingestion.py:50-52 | every batch holds 1..b documents; every batch but the last holds exactly b; the last holds the remainder `len - (count-1)*b` |
| Ingestion.BatchesCover | ingestion.py:50-52 | joining the batches in order gives back the document list exactly: nothing lost, duplicated or reordered |
| Ingestion.Enumerate | ingestion.py:71 | `enumerate` with a shifted start: task i carries batch i and the number `first + i` |
| Ingestion.BatchNumbers | ingestion.py:71 | the batch numbers are exactly 1..len(batches), in both directions of membership, and they strictly increase along the task list |
| Ingestion.CountSucceeded | ingestion.py:75 | the success count lies in 0..len(results); it equals len(results) exactly when every result is `True`, and is 0 exactly when none is |
| Ingestion.CountIsOccurrences | ingestion.py:75 | the success count equals the number of occurrences of `True` among the results |
| Ingestion.FailedNumbers | ingestion.py:59-68 | the numbers reported as failed are exactly those of tasks whose result is `False`; their count plus the success count is the number of tasks |
| Ingestion.RunTasks | ingestion.py:71-77 | one result per task, in task order: total is the number of tasks, successes are exactly the number of accepted tasks (so at most total), and the all-succeeded test holds exactly when every task is accepted; the failed numbers are exactly the rejected tasks' numbers |
| Ingestion.IndexDocuments | ingestion.py:41-84 | the whole call: an error exactly when batch_size is 0; a negative size reports 0 of 0; a positive size attempts the numbered batches, with successes exactly the number of accepted batches, all-succeeded exactly when every batch is accepted and failures named by batch number |
| Ingestion.IndexedBatchCount | ingestion.py:50-56 | a call with a positive batch size attempts ceil(len(documents) / batch_size) batches |
| Ingestion.ConfiguredBatchCounts | ingestion.py:41-52 | with the default size 50 a call attempts ceil(n/50) batches; with the size 500 that the pipeline passes at line 114, ceil(n/500) |
| Ingestion.EmptyInputSucceeds | ingestion.py:75-80 | no documents and a non-zero size: zero batches, 0 of 0 succeeded, and the all-succeeded branch is taken |
| Ingestion.CountOneShort | ingestion.py:75 | exactly one `False` result gives a success count one below the number of results |
| Ingestion.OneRejection | ingestion.py:59-77 | when only the task at position j is rejected, one task fewer than the total succeeds and the failure report holds that task's number alone |
| Ingestion.SingleFailureIsReported | ingestion.py:41-84 | when only batch j (from 0) fails, successes are total - 1, the failed batch is reported as number j + 1 alone, and the all-succeeded branch is not taken |
| LexOrder.LessIsFirstDifference | main.py:17 | the recursive string comparison agrees with the textbook order: a proper prefix comes first, otherwise the smaller character at the first difference decides |
| LexOrder.StrictTotalOrder | main.py:17 | string `<` is irreflexive, asymmetric, transitive and connected, so sorting by it is well defined |
| Decimal.FromNat | main.py:20 | `f"{n}"` for a natural n is a non-empty string of decimal digits with no leading zero, except for "0" itself |
| Decimal.RoundTrip | main.py:20 | reading the rendered digits back gives n |
| Decimal.Injective | main.py:20 | distinct numbers render as distinct strings |
| Sources.SortedSources | main.py:16-17 | the sorted source list holds each member of the set once, and no other string, in strictly ascending order |
| Sources.ListOf | main.py:16 | `list(source_urls)`: some ordering of the set's members, each exactly once |
| Sources.Insert | main.py:17 | inserting into an ascending list keeps it ascending and adds exactly that one element |
| Sources.Sort | main.py:17 | `list.sort()`: the result is ascending and a permutation of the input |
| Sources.AscendingUnique | main.py:16-17 | two strictly ascending lists with the same members are equal |
| Sources.SortIsCanonical | main.py:16-17 | whatever order the set is enumerated in, any ascending permutation of that enumeration is the canonical sorted list of the set |
| Sources.EntryNumberIsRank | main.py:19-20 | the source listed with number i + 1 has exactly i sources smaller than it: each entry's number is the source's rank in the set |
| Sources.AppendEntries | main.py:19-20 | the loop appends to the text, in list order, one entry per source, where entry i reads `"<i+1>. <source>\n"` |
| Sources.CreateSourcesString | main.py:13-21 | the result is empty exactly when the set is empty; otherwise it is the header followed by the numbered entries of the sorted sources |
| Sources.ListingShape | main.py:14-18 | the text is empty exactly when there are no sources; otherwise it starts with `"sources:\n"` |
| Sources.ListingIndependentOfOrder | main.py:16-17 | any repetition-free enumeration of the set, once sorted and formatted, gives the same text: equal sets give identical strings |
| Sources.EntryLineBreak | main.py:20 | an entry for a URL without a line break holds exactly one line break |
| Sources.ListingLineCount | main.py:18-20 | when no URL contains a line break, the text holds no line break for no sources, and otherwise exactly one per source plus one for the header |

## Left out

- The vector store, embeddings and crawl clients (ingestion.py:27-37 and 61) are network calls to hosted services. A submission's outcome is the opaque parameter `accept`.
- The concurrency of `asyncio.gather` (ingestion.py:72) is not modelled. `gather` returns the results in task order, and the model computes them in that order. Each outcome is a function of its task alone.
- `gather(..., return_exceptions=True)` can also return a `BaseException` that `add_batch` does not catch, such as a cancellation. Such a result is not `True`, so the count would treat it as a failure. The model's results are booleans only.
- The `log_*` calls are not modelled: they only write output. Their messages carry the counts the model computes. `Report.failed` stands for the `log_error` lines of ingestion.py:66: the program keeps no such list, and it prints those lines in the order the submissions complete, while the model lists the numbers in task order.
- The document loader, the text splitter and `main()` of ingestion.py (lines 88-124) are not modelled. The splitter is a third-party algorithm.
- backend/core.py and tavily_test.py are not modelled. They consist only of calls to hosted services.
- The Streamlit page in main.py (lines 1-11 and 23-30) is not modelled. Neither is the set built from the answer's documents (line 26); the model takes that set as its input.
- main.py:13 annotates its parameter with `Set` but never imports it, so importing the module would fail. This is an import-time defect outside the function's logic and is not modelled.
- Strings are Dafny `string`s, whose `char` cannot hold a lone surrogate (U+D800 to U+DFFF). A Python `str` can, so URLs containing one are outside what `LexOrder` and `Sources` describe.
- `list.sort()` is Timsort. The model sorts by insertion, which meets the same contract. `Sources.SortIsCanonical` shows that any ascending permutation gives the same list.
- No integer width is modelled: Python integers are unbounded, like Dafny's, so nothing wraps around.
