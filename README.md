# markdown-vectorizer, modelled in Dafny

This project models the deterministic logic of markdown-vectorizer, a small
service that indexes a tree of markdown files into a vector store and answers
similarity queries over HTTP and from the command line. What is modelled:

- **Loading files** (`utils.py`). Markdown files are chosen by a case-insensitive
  extension test over an `os.walk` listing. Rendered HTML becomes plain text
  through a fixed chain of fourteen `str.replace` calls. Each file gets its
  `source`, `filename` and `directory` metadata.
- **Pipeline control** (`vectorizer.py`). The indexing loop keeps the files
  that read and skips the ones that fail. It returns early when there are no
  markdown files. Retrieved results are turned into dictionaries by a fixed
  ladder of attribute tests. The command line dispatches on `sys.argv` and
  prints the results.
- **HTTP layer** (`api.py`). `POST /api/query` validates the body, defaults the
  count to 5, turns a failed query into an empty list and formats the
  results. `GET /api/health` reports whether the index directory is usable.

The Python built-ins this logic relies on are modelled after CPython's
behaviour, within the limits listed under "Left out":

- `str.lower`, `str.endswith`, `str.replace`, substring `in`;
- `int()` of a string and of a decoded JSON value, including the default
  limit of 4300 digits on int/str conversion, and `str()` of an int;
- `os.path.join`, `basename`, `dirname` and `relpath` (POSIX).

Files:

| file | module | contents |
|---|---|---|
| `values.dfy` | `Values` | `Option`, `Result`, decoded JSON, metadata dictionaries, opaque scores, Python truthiness |
| `pystr.dfy` | `PyStr` | the string built-ins and `int()`/`str()` |
| `pypath.dfy` | `PyPath` | the `posixpath` functions |
| `utils.dfy` | `Utils` | `FileUtils.get_markdown_files`, the replacement chain, `FileUtils.read_markdown_file` |
| `vectorizer.dfy` | `Vectorizer` | `process_markdown_files`, `query_index`, the `__main__` block |
| `api.dfy` | `Api` | `query_vector_db`, `query_endpoint`, `health_check` |

State is never updated in place here. The Python code appends to local lists
inside loops. Those loops are Dafny methods, and each one is proved against a
specification function. Outside effects are parameters:

- the walk listing, as a sequence of `(root, dirs, files)` steps;
- the result of reading and rendering each file, as a function from path to `Rendered(html)` or `Unreadable`;
- the current directory used by `relpath`;
- whether the library steps of `process_markdown_files` raise: the setup of the
  embedding model and service context, and the Chroma setup and index build;
- the retrieval, as a function from query and count to results or a raised error;
- the state of the index directory.

Three behaviours of the code are worth knowing, since a caller might expect otherwise:

- A failed query answers 200 with an empty list (`Api.QueryVectorDb`), so a
  caller cannot tell a failure from "no matches".
- On the command line, a failed query prints the error and exits with status
  0 (`Vectorizer.RunScript`). Only an exception out of `process` or a bad
  argument list gives status 1.
- An index directory that cannot be listed makes `GET /api/health` answer 500
  (`Api.HealthCheck`).

## Model

| member | source | states |
|---|---|---|
| `PyStr.Lower` | utils.py:23 | lower-casing keeps the length, turns every capital A-Z into the small letter at the same place in the alphabet, keeps every other character, and leaves no capital |
| `PyStr.LowerUnchanged` | utils.py:23 | a string without capitals is its own lower-case form |
| `PyStr.Replace` | utils.py:45-51 | definition of `str.replace` as a left-to-right scan; its properties are stated by `PyStr.ReplaceWithoutLead`, `PyStr.ReplaceRemovesPattern` and `PyStr.ReplaceKeepsAbsence` |
| `PyStr.ReplaceSkipFirst` | utils.py:45-51 | where the pattern does not start the string, its first character is copied and the scan goes on from the next one |
| `PyStr.ReplaceWithoutLead` | utils.py:45 | `s.replace(pat, rep)` is `s` when the first character of `pat` does not occur in `s` |
| `PyStr.ReplaceRemovesPattern` | utils.py:45-51 | after `s.replace(pat, rep)`, with `rep` non-empty and sharing no character with `pat`, `pat` occurs nowhere in the result |
| `PyStr.ReplaceKeepsAbsence` | utils.py:45-51 | a replacement whose text shares no character with `q` does not create an occurrence of `q` |
| `PyStr.ParseIntOfIntToString` | vectorizer.py:243 | `int(str(i)) == i` for every integer `str()` can print, that is one with at most 4300 digits |
| `PyStr.ParseInt` | vectorizer.py:243 | definition of `int()` on a string: surrounding whitespace, an optional sign, digits with single underscores, at most 4300 digits; its properties are stated by `PyStr.ParseIntOfIntToString` and `PyStr.ParseRejectsOverLimit` |
| `PyStr.ParseRejectsOverLimit` | vectorizer.py:243 | `int()` rejects a string of more than 4300 digits |
| `PyPath.Basename` | utils.py:59 | the base name has no slash, is a suffix of the path, and is either the whole path or starts right after a slash; with `PyPath.BasenameBelow` it is the last component |
| `PyPath.Join` | utils.py:24 | definition of `os.path.join`; its properties are stated by `PyPath.BasenameDirnameOfJoin` and `PyPath.BasenameBelow` |
| `PyPath.Dirname` | utils.py:60 | definition of `os.path.dirname`; its properties are stated by `PyPath.BasenameDirnameOfJoin` |
| `PyPath.RelPath` | utils.py:54 | definition of `os.path.relpath`, `None` for an empty path; its properties are stated by `PyPath.RelPathBelowRoot` and `PyPath.RelPathToItself` |
| `PyPath.RelPathBelowRoot` | utils.py:54 | `relpath(R/c1/.../cn, R)` is `c1/.../cn` for plain components |
| `PyPath.RelPathToItself` | utils.py:54 | `relpath(p, p)` is `"."` for any non-empty path |
| `PyPath.BasenameDirnameOfJoin` | utils.py:59-60 | for `c1/.../cn`, `basename` is `cn` and `dirname` is `c1/.../c(n-1)`, or `""` when n = 1 |
| `PyPath.BasenameBelow` | utils.py:59 | the base name of `x/c1/.../cn` is `cn` |
| `Utils.GetMarkdownFiles` | utils.py:20-25 | the nested loops return the markdown paths of the walk, in walk order |
| `Utils.MarkdownPathsMembership` | utils.py:20-25 | a path is returned iff some listed file has a markdown name and joins with its directory to give that path |
| `Utils.MarkdownPathsAppend` | utils.py:21-24 | selection over a listing is the selection over its parts, concatenated in order |
| `Utils.MarkdownPathsBound` | utils.py:20-25 | no entries are added: at most one path per listed file |
| `Utils.SelectedBasenamesAreMarkdown` | utils.py:23-24 | every returned path's base name passes the extension test |
| `Utils.MarkdownNamesSelected` | utils.py:23 | `NOTES.MD`, `guide.Markdown` and `.md` are selected |
| `Utils.OtherNamesRejected` | utils.py:23 | `a.md.bak`, `readme` and `md` are not selected |
| `Utils.MarkdownExtensionSelected` | utils.py:23 | any name ending in `.md` or `.MD` is selected |
| `Utils.IsMarkdownName` | utils.py:23 | definition of the extension test; its properties are stated by `Utils.MarkdownNamesSelected`, `Utils.OtherNamesRejected` and `Utils.MarkdownExtensionSelected` |
| `Utils.HtmlToText` | utils.py:45-51 | definition of the replacement chain; its properties are stated by `Utils.HtmlToTextWithoutMarkup`, `Utils.HtmlToTextOfPieces` and `Utils.HtmlToTextRemovesTags` |
| `Utils.HtmlToTextWithoutMarkup` | utils.py:45-51 | text without `<` comes out of the replacement chain unchanged |
| `Utils.HtmlToTextOfPieces` | utils.py:45-51 | for HTML made of `<`-free text and tags, each paragraph or heading tag becomes its replacement and everything else stays |
| `Utils.HeadingRules` | utils.py:46-51 | replacement pairs 2n and 2n+1 turn `<hn>` into n `#` and a space, and `</hn>` into a blank line |
| `Utils.ParagraphToText` | utils.py:45 | `<p>X</p>` becomes `X` followed by `"\n\n"` when X has no `<` |
| `Utils.HeadingToText` | utils.py:46-51 | `<hN>X</hN>` becomes N `#`, a space, X and `"\n\n"`, for N in 1..6 and X without `<` |
| `Utils.HtmlToTextRemovesTags` | utils.py:45-51 | after conversion no `</p>` and no opening or closing h1-h6 tag occurs in the text, for any input |
| `Utils.MetadataOf` | utils.py:57-61 | the metadata has exactly the keys `source`, `filename` and `directory` |
| `Utils.ReadMarkdownFile` | utils.py:38-63 | the read succeeds iff the file can be read and rendered and the path is non-empty; the text is the converted HTML |
| `Utils.ReadFileBelowInputRoot` | utils.py:54-61 | for `/volumes/input/c1/.../cn`: `source` is `c1/.../cn`, `filename` is `cn`, `directory` is `c1/.../c(n-1)` or `""` |
| `Vectorizer.ProcessMarkdownFiles` | vectorizer.py:97-139 | raises iff the model setup raises, or there are markdown files and the indexing raises; returns early iff the setup succeeds and no markdown file is found; otherwise the documents are those of the reads that succeeded, in discovery order |
| `Vectorizer.CollectDocuments` | vectorizer.py:112-119 | definition of the documents the reading loop collects; its properties are stated by `Vectorizer.CollectDocumentsAppend`, `Vectorizer.CollectDocumentsSingle`, `Vectorizer.FailedReadSkipped`, `Vectorizer.CollectDocumentsBound` and `Vectorizer.CollectDocumentsAllRead` |
| `Vectorizer.CollectDocumentsAppend` | vectorizer.py:112-119 | the documents of a list of files are those of its parts, in order |
| `Vectorizer.CollectDocumentsSingle` | vectorizer.py:114-119 | one file adds its document when its read succeeds and nothing otherwise |
| `Vectorizer.FailedReadSkipped` | vectorizer.py:113-119 | an unreadable file is skipped without affecting the files before or after it |
| `Vectorizer.CollectDocumentsBound` | vectorizer.py:112-119 | there are never more documents than files |
| `Vectorizer.CollectDocumentsAllRead` | vectorizer.py:112-119 | when every file reads, there is one document per file, in order, holding its converted text |
| `Vectorizer.SelectedPathsNonEmpty` | utils.py:24 | every selected path is non-empty, so `relpath` accepts it |
| `Vectorizer.ExtractResult` | vectorizer.py:200-204 | the score is copied unchanged |
| `Vectorizer.ExtractResultFirstOffered` | vectorizer.py:183-198 | the first of node, source node, text, `str()` that the result offers gives the content; metadata is that object's or `{}` |
| `Vectorizer.ExtractAll` | vectorizer.py:179-206 | one dictionary per result, each with that result's score |
| `Vectorizer.QueryIndex` | vectorizer.py:176-210 | a failed retrieval is raised again; otherwise the output has the results' length and order and each entry is extracted from its result |
| `Vectorizer.ExitStatusOfDispatch` | vectorizer.py:226-266 | the status is 1 iff argv is too short, the command is unknown, the query text is missing, `int()` rejects the count, or `process` raises; otherwise it is 0 |
| `Vectorizer.Dispatch` | vectorizer.py:226-243 | definition of the `sys.argv` dispatch; its properties are stated by `Vectorizer.ExitStatusOfDispatch` and `Vectorizer.QueryResultCount` |
| `Vectorizer.QueryResultCount` | vectorizer.py:242-243 | `query TEXT` asks for 5 results; `query TEXT str(n)` asks for n, for every n `str()` can print |
| `Vectorizer.Snippet` | vectorizer.py:256 | the snippet is a prefix of the content of length min(300, length) |
| `Vectorizer.ReportResults` | vectorizer.py:248-258 | the printing loop produces `ReportOf(results)`: "No results found." iff there are no results; otherwise one entry per result, in order |
| `Vectorizer.EntryShowsResult` | vectorizer.py:251-258 | an entry has position i+1 and the result's score; its source is `metadata['source']` or "Unknown"; it has a snippet iff the content is non-empty |
| `Vectorizer.RunScript` | vectorizer.py:226-266 | the status is that of the dispatch, with `process` failing iff it raises; usage, process and query run exactly when dispatched; a query prints the error iff retrieval raised and otherwise the report of the extracted results; `process` returns early iff setup succeeds and there are no markdown files, and indexes the documents that read |
| `Api.TruncateReal` | api.py:73 | `int()` of a float truncates toward zero |
| `Api.RequestedCountAccepted` | api.py:73 | the count is 5 when absent, and n when given as n or as the string `str(n)` of a printable n |
| `Api.PyIntOfPrinted` | api.py:73 | `int()` of the string `str(n)` is n, for every n `str()` can print |
| `Api.RequestedCountRaises` | api.py:73 | a count string raises `ValueError` iff `int()` rejects it (for example "five"); `null`, a list or an object raises `TypeError`; a number or a boolean is accepted |
| `Api.PyInt` | api.py:73 | definition of `int()` on a decoded JSON value; its properties are stated by `Api.TruncateReal`, `Api.PyIntOfPrinted` and `Api.RequestedCountRaises` |
| `Api.RequestedCount` | api.py:73 | definition of `int(data.get('num_results', 5))`; its properties are stated by `Api.RequestedCountAccepted` and `Api.RequestedCountRaises` |
| `Api.QueryVectorDb` | api.py:41-46 | the results of the query, or `[]` when it raises |
| `Api.VectorDbResults` | api.py:41-46 | definition of what `query_vector_db` returns; its property is stated by `Api.FailureLooksEmpty` |
| `Api.FailureLooksEmpty` | api.py:41-46 | a failed query gives the same results as one that found nothing |
| `Api.FormatResult` | api.py:81-86 | score, content and metadata are copied; `source` is `metadata['source']` when present, else "Unknown" |
| `Api.FormatAll` | api.py:79-86 | one formatted entry per result |
| `Api.FormatResults` | api.py:79-86 | the loop builds one formatted entry per result, in order |
| `Api.QueryEndpoint` | api.py:63-98 | the endpoint returns the response that validation, counting, querying and formatting determine |
| `Api.CheckBody` | api.py:67-72 | definition of `not data or 'query' not in data` and `data['query']` on any JSON value; its property is stated by `Api.BadRequestIffMissingQuery` |
| `Api.EndpointResponse` | api.py:63-98 | definition of the response; its properties are stated by `Api.BadRequestIffMissingQuery`, `Api.SuccessfulResponse`, `Api.DefaultCountRequested` and `Api.FailedQueryAnsweredEmpty` |
| `Api.BadRequestIffMissingQuery` | api.py:67-70 | status 400 with "Missing required parameter: query" iff the body is missing or falsy, or Python's `in` finds no `query` in it |
| `Api.SuccessfulResponse` | api.py:72-92 | status 200 iff the body is an object with `query` and an acceptable count; `query` is echoed, and `num_results` is the length of the results, formatted in retrieval order |
| `Api.DefaultCountRequested` | api.py:72-76 | without `num_results`, 5 results are asked for |
| `Api.FailedQueryAnsweredEmpty` | api.py:41-46 | a query that raises is answered 200 with the query and no results |
| `Api.HealthCheck` | api.py:109-123 | unhealthy (500) iff listing the directory raises; otherwise `index_available` holds iff the directory exists and has an entry |

## Left out

- Chunking (`TokenTextSplitter`), the embedding model, ChromaDB and the building and searching of `VectorStoreIndex` are library code with no visible source. Retrieval is a parameter and scores are opaque values.
- `markdown.markdown` is a foreign converter. Its HTML output is an input of the model.
- `os.walk`, `open`, `os.path.exists` and `os.listdir` are I/O. Their results are parameters. The two `os.makedirs` calls sit inside the setup steps of `process_markdown_files`, so only whether they raise is modelled, as part of those steps.
- The working directory used by `relpath` for relative paths is a parameter and is assumed to be absolute.
- Flask routing and `jsonify` are not modelled. Handling of a wrong content type or malformed JSON depends on the Flask version; the body is taken as already decoded, and JSON `null` stands for no body. The same goes for logging, traceback printing, the port and debug settings.
- The `/` endpoint returns a fixed message and is not modelled.
- The text of Python exception messages is not modelled. A 500 response records only whether the exception was a `TypeError` or a `ValueError`.
- The `:.4f` formatting of scores is not modelled. Neither are the errors that would arise from a result with no `score` attribute.
- `Api.PyInt` does not model JSON `NaN` and `Infinity`, which Python decodes as floats and `int()` rejects.
- `PyStr.Lower` lower-cases ASCII letters only. Python's `str.lower` also lower-cases other Unicode letters. For example, U+212A KELVIN SIGN lower-cases to ASCII `k`, so Python selects `a.MAR\u212ADOWN` and the model does not. Python's `lower` can also change the length of a string (U+0130 becomes two characters), which the model's equal-length contract does not allow.
- `PyStr.ParseInt` accepts ASCII digits only. Python's `int()` also accepts other Unicode decimal digits. The 4300-digit limit is CPython's default; a limit changed with `sys.set_int_max_str_digits` or `PYTHONINTMAXSTRDIGITS` is not modelled.
- `PyStr.IntToString` does not raise for an integer of more than 4300 digits, as `str()` does. The lemmas that use it require `PyStr.Printable`.
- Exceptions raised inside the printing loop of the query command are not modelled. In the code, the `try` at vectorizer.py:245 would catch them and they would be printed like a failed query.
