# HR policy assistant: retrieval, conflict filter and prompt assembly in Dafny

The backend answers employee questions about HR policy. The work happens in three steps:

- At start-up, `DocumentLoader.load` reads the `.txt` files of the knowledge base. Each file becomes a document with a `filename` and an `effective_year`.
- For each question, `PolicyRetriever.retrieve` takes the similarity-search results and resolves conflicts between policy versions:
  - A question is "about policy" when its lower-cased text contains a work keyword.
  - Such a question, when policy documents are among the results, gets the current policies, those with year 2024 or later, newest first and at most three. If no policy is current, it gets the single newest policy.
  - Any other question, or a policy question without policy documents among the results, gets up to two policies and up to two other documents, three at most in all. As shipped, the loader sets no `document_type`, so every question takes this path.
- `RAGPipeline.run` joins the selected documents into a context of `[filename]` blocks. It fills the prompt template with the context and the question, asks the language model, and returns the answer, the distinct source file names and the documents.

Modules, one per file:

| file | module | what it holds |
|---|---|---|
| `wrappers.dfy` | `Wrappers` | `Option` and `Result` |
| `seqs.dfy` | `Seqs` | order-keeping filter (a list comprehension with a condition), `s[:n]`, and their laws |
| `text.dfy` | `Text` | `sub in s`, `s.lower()`, `endswith`, `split(c)[-1]`, `replace(pat, "")`, `sep.join` |
| `documents.dfy` | `Documents` | the document record; the defaults `"general"` and `0` for missing metadata |
| `year_sort.dfy` | `YearSort` | `list.sort(key=year, reverse=True)` as a stable insertion sort |
| `retriever.dfy` | `Retriever` | the filter as a specification (`Select`) and as the source runs it (`Retrieve`) |
| `python_int.dfy` | `PythonInt` | `int(s)` on a `str` |
| `document_loader.dfy` | `DocumentLoader` | the loader as a specification (`LoadAll`) and as the source runs it (`Load`) |
| `rag_pipeline.dfy` | `RagPipeline` | the template, the context join, the source list and `run` |

How the source's form carries over:

- Both loops that build lists (the partition in `retrieve` and the append loop in `load`) are methods with `for` loops. Each is proved equal to a specification function, and the properties are lemmas about that function.
- `run` and the template are pure. They are functions, with the vector search and the language model as function parameters.

Behaviour of the code worth knowing, which the model keeps:

- Documents are indexed whole, one document per file.
- The loader sets no `document_type`. So every loaded document falls into the non-policy group, and the policy path of the retriever is reachable only for documents typed elsewhere (`DocumentLoader.LoadedDocumentsSkipPolicyPath`).
- The loader tests for `"policy"` case-sensitively.
- The year comes from the text after the last `_`, with every `.txt` in it removed.
- A year segment that `int()` rejects raises an exception, which aborts the whole load. The file does not get year 0.
- The retriever keeps every policy with year at least 2024, up to three of them.
- Equal years keep search order, through the stability of Python's sort.
- `run` has no gate on an empty retrieval: the model is asked with an empty context.
- Context blocks always carry the `[filename]` header. Sources are plain file names.

## Model

| member | source | states |
|---|---|---|
| Retriever.Retrieve | BE/app/rag/retriever.py:11-86 | the method with the partition loop returns exactly `Select(query, rawResults)`; the loop keeps both lists equal to the order-keeping filters of the results seen so far |
| Retriever.Select | BE/app/rag/retriever.py:22-86 | `retrieve` returns at most three documents, and returns none exactly when the search returned none |
| Retriever.Rank | BE/app/rag/retriever.py:22-86 | once the intent is known, at most three documents come back on every path, and the result is empty exactly when the results are |
| Retriever.EmptyResultsSelectNothing | BE/app/rag/retriever.py:22-24 | no search results give an empty list |
| Retriever.PartitionExact | BE/app/rag/retriever.py:34-42 | every result lands in exactly one of the two lists (multiset sum), and in the policy list iff its `document_type` is `"policy"` |
| Documents.PolicyIffTagged | BE/app/rag/retriever.py:38-39 | a document is a policy iff its type is present and equal to `"policy"`; a missing type makes it non-policy |
| Seqs.Filter | BE/app/rag/retriever.py:61-62 | the comprehension keeps exactly the elements that satisfy the condition, never more than it was given |
| Seqs.Take | BE/app/rag/retriever.py:72 | `s[:n]` has length `min(len(s), n)` and is a prefix of `s` |
| Retriever.IsPolicyQuery | BE/app/rag/retriever.py:19-47 | a policy question's lower-cased text is at least three characters long, the length of the shortest keyword |
| Retriever.PolicyQueryIff | BE/app/rag/retriever.py:47 | a query is a policy question iff one of the nine keywords occurs at some index of its lower-cased text |
| Retriever.PolicyQueryIgnoresCase | BE/app/rag/retriever.py:47 | lower-casing a query first does not change the intent test |
| Text.ContainsIff | BE/app/rag/retriever.py:47 | `sub in s` holds iff `sub` occurs at some index of `s` |
| Text.Contains | BE/app/rag/retriever.py:47 | the empty string is in every string, and a string found in `s` is no longer than `s` |
| Text.Lower | BE/app/rag/retriever.py:47 | the lower-cased text holds no ASCII capital and is no shorter |
| Text.LowerAppend | BE/app/rag/retriever.py:47 | lower-casing distributes over concatenation |
| Text.LowerIdempotent | BE/app/rag/retriever.py:47 | lower-casing twice is lower-casing once |
| YearSort.SortByYearDesc | BE/app/rag/retriever.py:52 | the sort is a permutation of its input and is newest first |
| YearSort.SortIsStable | BE/app/rag/retriever.py:52 | documents of one year leave the sort in the order they came in |
| YearSort.SortedHeadIsNewest | BE/app/rag/retriever.py:52 | the first sorted document has the maximum year |
| YearSort.FilterSortCommute | BE/app/rag/retriever.py:52-62 | filtering the sorted list gives the sort of the filtered list |
| Retriever.PolicyQueryReturnsOnlyPolicies | BE/app/rag/retriever.py:50-78 | a policy question with a policy among the results gets one to three documents, all policies from the results |
| Retriever.CurrentPoliciesWin | BE/app/rag/retriever.py:61-74 | with a current policy present, the answer is the first three of the sorted current policies; all are current policies, newest first, and no current policy left out is newer than one returned |
| Retriever.FallbackNewestPolicy | BE/app/rag/retriever.py:75-78 | with policies present but none current, exactly one comes back: a policy of the maximum year, the first of that year in search order |
| Retriever.MixedSelection | BE/app/rag/retriever.py:80-86 | otherwise the answer is up to two sorted policies followed by the first non-policies, with the length `min(3, np + min(nn, 2))`; it splits back into those two parts, policies first |
| Retriever.RankBounded | BE/app/rag/retriever.py:50-86 | on every path at most three documents, each a search result, none repeated more often than in the results |
| Retriever.UntypedResultsTakeFirstTwo | BE/app/rag/retriever.py:37-86 | results without any `document_type` give the first two results, whatever the query |
| Text.LastSegment | BE/app/rag/document_loader.py:16 | `split("_")[-1]` holds no `_`, ends the name, and starts the name or follows a `_` |
| Text.LastSegmentOfSuffix | BE/app/rag/document_loader.py:16 | the last segment of `prefix + "_" + tail` is `tail` when `tail` has no `_` |
| Text.RemoveAll | BE/app/rag/document_loader.py:16 | `replace(pat, "")` never lengthens the text |
| Text.RemoveAllFirstOccurrence | BE/app/rag/document_loader.py:16 | `replace(pat, "")` removes the first occurrence of `pat`, wherever it is, keeps the text before it and goes on after it |
| Text.RemoveAllKeepsCharacters | BE/app/rag/document_loader.py:16 | `replace(pat, "")` only deletes: no character occurs more often in the result than in the text |
| Text.RemoveAllAbsent | BE/app/rag/document_loader.py:16 | `replace(pat, "")` changes nothing when `pat` does not occur |
| Text.RemoveTxtSuffix | BE/app/rag/document_loader.py:16 | removing `.txt` from `x + ".txt"` is removing it from `x` |
| PythonInt.ParseInt | BE/app/rag/document_loader.py:16 | when `int()` succeeds, the stripped text is non-empty, ends in a digit and holds only digits and underscores after its first character; a negative value needs a leading `-` |
| PythonInt.ParseIntRoundTrip | BE/app/rag/document_loader.py:16 | `int(str(i)) == i` for every integer |
| PythonInt.ParseIntRejectsOtherCharacters | BE/app/rag/document_loader.py:16 | a character other than a digit, `_`, `+` or `-` anywhere in the stripped text makes `int()` fail |
| PythonInt.ParseIntIgnoresPadding | BE/app/rag/document_loader.py:16 | whitespace before and after a text that neither starts nor ends with whitespace does not change what `int()` gives |
| PythonInt.ParseIntLeadingZeros | BE/app/rag/document_loader.py:16 | any run of `0` in front of `str(n)` still reads as `n`, for every natural `n` |
| PythonInt.ParseIntPlusSign | BE/app/rag/document_loader.py:16 | `+` in front of `str(n)` reads as `n`, for every natural `n` |
| PythonInt.ParseIntSkipsUnderscore | BE/app/rag/document_loader.py:16 | one `_` between two runs of digits is accepted and skipped: `int(x + "_" + y) == int(x + y)` |
| PythonInt.SeparatorBeforeNumberFails | BE/app/rag/document_loader.py:16 | the separators U+001C to U+001F are not whitespace to `int()`: one in front of a number makes it fail |
| DocumentLoader.YearSegment | BE/app/rag/document_loader.py:16 | the text after the last `_` with `.txt` removed holds no `_` and is no longer than the name |
| DocumentLoader.EffectiveYear | BE/app/rag/document_loader.py:16 | only a name containing `policy` gets a year other than 0, and it gets the value `int()` gives its year segment; an error comes only for such a name whose segment `int()` rejects, and names the file and the segment |
| DocumentLoader.MakeDocument | BE/app/rag/document_loader.py:18-26 | the document keeps the file's name and text, carries the given year, and is not a policy, since no `document_type` is set |
| DocumentLoader.LoadAll | BE/app/rag/document_loader.py:8-27 | a successful load gives no more documents than files were listed, and none of them is a policy |
| DocumentLoader.Load | BE/app/rag/document_loader.py:8-27 | the append loop returns exactly `LoadAll(files)`: the documents, or the first error |
| DocumentLoader.LoadedDocuments | BE/app/rag/document_loader.py:9-27 | a successful load has one document per `.txt` file in listing order, each with the file's name and text, no `document_type`, and the year its name gives |
| DocumentLoader.LoadFailure | BE/app/rag/document_loader.py:16 | the load fails iff some `.txt` file's year does not parse, and then with the error of the first such file |
| DocumentLoader.YearFromPolicyName | BE/app/rag/document_loader.py:16 | a name `<prefix>_<str(y)>.txt` containing `policy` gets year `y` |
| DocumentLoader.YearOfPolicy2024 | BE/app/rag/document_loader.py:16 | `policy_2024.txt` gets 2024 |
| DocumentLoader.PolicyNameWithoutUnderscore | BE/app/rag/document_loader.py:16 | a name `<stem>.txt` containing `policy`, whose stem has no `_` and no `.`, takes its whole stem as the year segment: the stem's value if it parses, the error otherwise |
| DocumentLoader.PolicyWithoutYearFails | BE/app/rag/document_loader.py:16 | `<stem>.txt`, where the stem contains `policy`, starts and ends with a lower-case letter and has no `_` and no `.` (as in `policy.txt`), fails with the stem as the segment instead of defaulting |
| DocumentLoader.OtherFilesGetYearZero | BE/app/rag/document_loader.py:16 | a loaded document whose name lacks `policy` has year 0 |
| DocumentLoader.LoadedDocumentsSkipPolicyPath | BE/app/rag/document_loader.py:18-26 | search results drawn from loaded documents never reach the policy path: the first two come back |
| RagPipeline.Format | BE/app/rag/rag_pipeline.py:37 | filling a template succeeds iff every placeholder has a value |
| RagPipeline.FillTemplate | BE/app/rag/rag_pipeline.py:8-27 | the template gives the fixed preamble, the context, the fixed middle, the question and the fixed closing, once each |
| RagPipeline.Prompt | BE/app/rag/rag_pipeline.py:37 | the formatted prompt is that five-part text |
| RagPipeline.PromptRoundTrip | BE/app/rag/rag_pipeline.py:37 | the context and the question can be read back from their positions in the prompt |
| RagPipeline.Blocks | BE/app/rag/rag_pipeline.py:33 | one `[filename]\ncontent` block per document, in order |
| RagPipeline.Context | BE/app/rag/rag_pipeline.py:32-34 | the context is empty exactly when there are no documents, and a single document gives its block alone |
| RagPipeline.EmptyContext | BE/app/rag/rag_pipeline.py:32-34 | no documents give the empty context |
| RagPipeline.ContextLayout | BE/app/rag/rag_pipeline.py:32-34 | each document's header and text sit at its offset in the context: the first at the start, the last at the end, one blank line between neighbours |
| Text.Join | BE/app/rag/rag_pipeline.py:32-34 | `sep.join` of no parts is empty, of one part is that part, and is never shorter than its first part |
| Text.JoinPartAt | BE/app/rag/rag_pipeline.py:32-34 | each part sits at its offset in the joined string, and the last one ends it |
| Text.JoinSeparatorAfter | BE/app/rag/rag_pipeline.py:32-34 | exactly one separator stands between neighbouring parts |
| RagPipeline.PromptCitesEachDocument | BE/app/rag/rag_pipeline.py:32-37 | every retrieved document's block appears in the prompt, shifted by the preamble |
| RagPipeline.Distinct | BE/app/rag/rag_pipeline.py:40 | `list(set(xs))` has no duplicates and the same elements as `xs` |
| RagPipeline.Sources | BE/app/rag/rag_pipeline.py:40 | the sources have no duplicates and are exactly the file names of the retrieved documents |
| RagPipeline.Run | BE/app/rag/rag_pipeline.py:29-42 | the documents are the retriever's selection for the search results; the answer is the model's reply to the filled prompt; the sources are the distinct file names |
| RagPipeline.RunDocumentsFromSearch | BE/app/rag/rag_pipeline.py:30-42 | at most three documents come back, all from the search, and no more sources than documents |
| RagPipeline.NoAnswerGate | BE/app/rag/rag_pipeline.py:29-42 | with no search results, the model is still asked, with an empty context, and its reply comes back with no sources and no documents |

## Left out

- The similarity search (`self.retriever.invoke`, top 10 by embedding distance) is not modelled. Its ordered result is the input of `Retrieve`, and the function `search` in `Run`.
- The language model is an arbitrary function from prompt to reply text. Azure OpenAI and the `response.content` wrapper are not modelled.
- RagPipeline.Run: that the search and the model are each called exactly once is not stated. A pure function can say what `run` returns, not how often its collaborators were called.
- Listing the directory and reading the files are not modelled. `Load` takes the listing in `os.listdir` order, with each file's text.
- The `print` tracing in `retrieve` has no effect on results and is left out.
- Vector-store set-up, FastAPI routing, the exception wrapper in `main.py`, configuration and the front end are outside these three files.
- `RagPipeline.Sources`: Python's set gives no order, so the contract states only "no duplicates, same elements as the file names". The body keeps first occurrences, one of the orders Python may produce.
- `Text.Lower`: ASCII capitals, the Kelvin sign and U+0130 are modelled. Every other character is kept as is. Their real lower-case forms are not ASCII, so they cannot create or destroy a match with the ASCII keywords. The contract states no ASCII capital remains, not the full Unicode mapping.
- `PythonInt.ParseInt` accepts only ASCII digits. Python also accepts other Unicode decimal digits, and refuses numbers of more than 4300 digits; neither is modelled.
- Metadata values that are not integers (for example a string `effective_year` in a hand-built index) are not modelled. `effective_year` is an optional integer.
- `YearSort.SortByYearDesc` models Python's in-place `list.sort` on values. Since `policy_docs` is a fresh local list in `retrieve`, aliasing does not matter.
