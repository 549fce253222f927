/** The control logic of the vectorizer: collecting documents from the
    markdown files found in the input directory, turning retrieved nodes into
    result dictionaries, and the command line. Chunking, embedding, the vector
    store and retrieval are outside the model: retrieval is a given function. */
module Vectorizer {
  import opened Values
  import opened PyStr
  import opened PyPath
  import opened Utils

  // ===========================================================================
  // Indexing

  /** A document handed to the index: the converted text and the file's names. */
  datatype Document = Document(text: string, metadata: Metadata)

  /** Whether the library calls of `process_markdown_files` raise. The setup
      of the embedding model and service context comes before the files are
      listed. The setup of the Chroma collection and the building of the
      index come after the files are read. Neither is caught. */
  datatype LibrarySteps = LibrarySteps(setupRaises: bool, indexRaises: bool)

  /** What `process_markdown_files` did. It raised during setup, returned
      early, raised while indexing these documents, or indexed them. */
  datatype IndexRun =
    | SetupRaised
    | NoMarkdownFiles
    | IndexRaised(documents: seq<Document>)
    | Indexed(documents: seq<Document>)

  /** The run ended with an exception. */
  predicate Raised(run: IndexRun)
  {
    run.SetupRaised? || run.IndexRaised?
  }

  /** `process_markdown_files` raises exactly when the setup raises, or when
      there are files to index and the indexing raises. */
  predicate ProcessRaises(walk: seq<WalkStep>, steps: LibrarySteps)
  {
    steps.setupRaises || (MarkdownPaths(walk) != [] && steps.indexRaises)
  }

  /** The outcome of `read_markdown_file` for each file, in order. */
  function ReadAll(files: seq<string>, cwd: string, read: string -> FileRead): (rs: seq<Result<(string, Metadata)>>)
    ensures |rs| == |files|
  {
    seq(|files|, i requires 0 <= i < |files| => ReadMarkdownFile(files[i], cwd, read(files[i])))
  }

  /** The documents of the reads that succeeded, in order. */
  function Successes(rs: seq<Result<(string, Metadata)>>): seq<Document>
    decreases |rs|
  {
    if rs == [] then []
    else
      var prev := Successes(rs[..|rs| - 1]);
      match rs[|rs| - 1]
      case Ok(v) => prev + [Document(v.0, v.1)]
      case Err(_) => prev
  }

  /** The documents the files produce, in order; a file whose read fails adds nothing. */
  function CollectDocuments(files: seq<string>, cwd: string, read: string -> FileRead): seq<Document>
  {
    Successes(ReadAll(files, cwd, read))
  }

  /** `MarkdownVectorizer.process_markdown_files`. The walk listing of the
      input directory, the outcome of reading each file and whether the
      library steps raise are given. */
  method ProcessMarkdownFiles(walk: seq<WalkStep>, cwd: string, read: string -> FileRead, steps: LibrarySteps)
    returns (run: IndexRun)
    ensures run.SetupRaised? <==> steps.setupRaises
    ensures run.NoMarkdownFiles? <==> !steps.setupRaises && MarkdownPaths(walk) == []
    ensures run.IndexRaised? <==> !steps.setupRaises && MarkdownPaths(walk) != [] && steps.indexRaises
    ensures Raised(run) <==> ProcessRaises(walk, steps)
    ensures run.Indexed? || run.IndexRaised? ==> run.documents == CollectDocuments(MarkdownPaths(walk), cwd, read)
  {
    if steps.setupRaises {
      return SetupRaised;
    }
    var markdownFiles := GetMarkdownFiles(walk);
    if |markdownFiles| == 0 {
      return NoMarkdownFiles;
    }
    ghost var outcomes := ReadAll(markdownFiles, cwd, read);
    var documents := [];
    for i := 0 to |markdownFiles|
      invariant documents == Successes(outcomes[..i])
    {
      var filePath := markdownFiles[i];
      var r := ReadMarkdownFile(filePath, cwd, read(filePath));
      SuccessesStep(outcomes, i);
      assert outcomes[i] == r;
      if r.Ok? {
        var (text, metadata) := r.value;
        documents := documents + [Document(text, metadata)];
      }
    }
    assert outcomes[..|markdownFiles|] == outcomes;
    if steps.indexRaises {
      return IndexRaised(documents);
    }
    return Indexed(documents);
  }

  /** One more outcome adds its document when it is a success, and nothing otherwise. */
  lemma SuccessesStep(rs: seq<Result<(string, Metadata)>>, i: nat)
    requires i < |rs|
    ensures Successes(rs[..i + 1])
         == Successes(rs[..i]) + (if rs[i].Ok? then [Document(rs[i].value.0, rs[i].value.1)] else [])
  {
    assert rs[..i + 1][..i] == rs[..i];
    assert rs[..i + 1][i] == rs[i];
  }

  lemma {:induction false} SuccessesAppend(a: seq<Result<(string, Metadata)>>, b: seq<Result<(string, Metadata)>>)
    ensures Successes(a + b) == Successes(a) + Successes(b)
    decreases |b|
  {
    if b == [] {
      assert a + b == a;
    } else {
      var ab := a + b;
      assert ab[..|ab| - 1] == a + b[..|b| - 1];
      assert ab[|ab| - 1] == b[|b| - 1];
      SuccessesAppend(a, b[..|b| - 1]);
    }
  }

  lemma {:induction false} SuccessesBound(rs: seq<Result<(string, Metadata)>>)
    ensures |Successes(rs)| <= |rs|
    decreases |rs|
  {
    if rs != [] {
      SuccessesBound(rs[..|rs| - 1]);
    }
  }

  lemma {:induction false} SuccessesAllOk(rs: seq<Result<(string, Metadata)>>)
    requires forall i :: 0 <= i < |rs| ==> rs[i].Ok?
    ensures |Successes(rs)| == |rs|
    ensures forall i :: 0 <= i < |rs| ==> Successes(rs)[i] == Document(rs[i].value.0, rs[i].value.1)
    decreases |rs|
  {
    if rs != [] {
      var init := rs[..|rs| - 1];
      assert forall i :: 0 <= i < |init| ==> init[i] == rs[i];
      SuccessesAllOk(init);
    }
  }

  lemma ReadAllAppend(a: seq<string>, b: seq<string>, cwd: string, read: string -> FileRead)
    ensures ReadAll(a + b, cwd, read) == ReadAll(a, cwd, read) + ReadAll(b, cwd, read)
  {
    var ab := a + b;
    forall i | 0 <= i < |ab|
      ensures ReadAll(ab, cwd, read)[i] == (ReadAll(a, cwd, read) + ReadAll(b, cwd, read))[i]
    {
      if i >= |a| {
        assert ab[i] == b[i - |a|];
      }
    }
  }

  /** Collecting over two lists of files collects over each, in order: a
      failing file is skipped and the files after it are still read. */
  lemma CollectDocumentsAppend(a: seq<string>, b: seq<string>, cwd: string, read: string -> FileRead)
    ensures CollectDocuments(a + b, cwd, read) == CollectDocuments(a, cwd, read) + CollectDocuments(b, cwd, read)
  {
    ReadAllAppend(a, b, cwd, read);
    SuccessesAppend(ReadAll(a, cwd, read), ReadAll(b, cwd, read));
  }

  /** One file contributes its document when it reads, and nothing otherwise. */
  lemma CollectDocumentsSingle(path: string, cwd: string, read: string -> FileRead)
    ensures CollectDocuments([path], cwd, read) ==
            match ReadMarkdownFile(path, cwd, read(path))
            case Ok(v) => [Document(v.0, v.1)]
            case Err(_) => []
  {
    var rs := ReadAll([path], cwd, read);
    assert rs == [ReadMarkdownFile(path, cwd, read(path))];
    assert rs[..0] == [];
    assert Successes(rs) == Successes([]) + (match rs[0] case Ok(v) => [Document(v.0, v.1)] case Err(_) => []);
  }

  /** A file that cannot be read leaves the documents of the others as they were. */
  lemma FailedReadSkipped(a: seq<string>, path: string, b: seq<string>, cwd: string, read: string -> FileRead)
    requires read(path).Unreadable?
    ensures CollectDocuments(a + [path] + b, cwd, read) == CollectDocuments(a + b, cwd, read)
  {
    CollectDocumentsAppend(a + [path], b, cwd, read);
    CollectDocumentsAppend(a, [path], cwd, read);
    CollectDocumentsAppend(a, b, cwd, read);
    CollectDocumentsSingle(path, cwd, read);
  }

  /** No document is invented: at most one per file. */
  lemma CollectDocumentsBound(files: seq<string>, cwd: string, read: string -> FileRead)
    ensures |CollectDocuments(files, cwd, read)| <= |files|
  {
    SuccessesBound(ReadAll(files, cwd, read));
  }

  /** When every file reads, there is one document per file, in the same order,
      holding that file's converted text. */
  lemma CollectDocumentsAllRead(files: seq<string>, cwd: string, read: string -> FileRead)
    requires forall i :: 0 <= i < |files| ==> files[i] != [] && read(files[i]).Rendered?
    ensures |CollectDocuments(files, cwd, read)| == |files|
    ensures forall i :: 0 <= i < |files| ==>
              CollectDocuments(files, cwd, read)[i].text == HtmlToText(read(files[i]).html)
  {
    var rs := ReadAll(files, cwd, read);
    assert forall i :: 0 <= i < |files| ==> rs[i].Ok? && rs[i].value.0 == HtmlToText(read(files[i]).html);
    SuccessesAllOk(rs);
  }

  /** A joined path is never empty when the name is not. */
  lemma JoinNonEmpty(root: string, f: string)
    requires f != []
    ensures Join(root, f) != []
  {
  }

  /** The paths the walk selects are never empty, so each has a relative path. */
  lemma SelectedPathsNonEmpty(walk: seq<WalkStep>)
    ensures forall i :: 0 <= i < |MarkdownPaths(walk)| ==> MarkdownPaths(walk)[i] != []
  {
    forall i | 0 <= i < |MarkdownPaths(walk)| ensures MarkdownPaths(walk)[i] != [] {
      var p := MarkdownPaths(walk)[i];
      MarkdownPathsMembership(walk, p);
      var k :| 0 <= k < |walk| && Lists(walk[k].root, walk[k].files, p);
      var j :| 0 <= j < |walk[k].files| && IsMarkdownName(walk[k].files[j]) && p == Join(walk[k].root, walk[k].files[j]);
      assert walk[k].files[j] != [];
      JoinNonEmpty(walk[k].root, walk[k].files[j]);
    }
  }

  // ===========================================================================
  // Retrieval results

  /** A retrieved node as far as the code inspects it: `get_content()` when the
      object has that method, and `metadata` when it has that attribute. */
  datatype NodeView = NodeView(content: Option<string>, metadata: Option<Metadata>)

  /** A retrieved result object of whichever library version: its optional
      `node`, `source_node`, `text` and `metadata` attributes, what `str()` of it
      gives (`None` when that raises), and its score. */
  datatype RetrievedResult = RetrievedResult(
    node: Option<NodeView>,
    sourceNode: Option<NodeView>,
    text: Option<string>,
    metadata: Option<Metadata>,
    display: Option<string>,
    score: Score)

  /** The outcome of `retriever.retrieve(query)`. */
  datatype Retrieval = Retrieved(results: seq<RetrievedResult>) | RetrievalRaised(error: string)

  /** `{"score": ..., "content": ..., "metadata": ...}` */
  datatype ResultDict = ResultDict(score: Score, content: string, metadata: Metadata)

  const ContentNotExtracted: string := "Content could not be extracted"

  /** An attribute's metadata, or `{}` when there is none. */
  function MetadataOr(m: Option<Metadata>): Metadata
  {
    match m
    case Some(d) => d
    case None => map[]
  }

  /** The dictionary one result becomes, by the ladder of `query_index`. */
  function ExtractResult(r: RetrievedResult): (d: ResultDict)
    ensures d.score == r.score
  {
    if r.node.Some? && r.node.value.content.Some? then
      ResultDict(r.score, r.node.value.content.value, MetadataOr(r.node.value.metadata))
    else if r.sourceNode.Some? && r.sourceNode.value.content.Some? then
      ResultDict(r.score, r.sourceNode.value.content.value, MetadataOr(r.sourceNode.value.metadata))
    else if r.text.Some? then
      ResultDict(r.score, r.text.value, MetadataOr(r.metadata))
    else
      ResultDict(r.score, if r.display.Some? then r.display.value else ContentNotExtracted, map[])
  }

  /** The four ways to read a result, in the order they are tried. */
  datatype Source = FromNode | FromSourceNode | FromText | FromString

  function Rank(s: Source): nat
  {
    match s
    case FromNode => 0
    case FromSourceNode => 1
    case FromText => 2
    case FromString => 3
  }

  /** Whether a result offers what a way of reading needs. */
  predicate Offers(r: RetrievedResult, s: Source)
  {
    match s
    case FromNode => r.node.Some? && r.node.value.content.Some?
    case FromSourceNode => r.sourceNode.Some? && r.sourceNode.value.content.Some?
    case FromText => r.text.Some?
    case FromString => true
  }

  /** The dictionary read one way: content from that object, its metadata or `{}`. */
  function ReadVia(r: RetrievedResult, s: Source): ResultDict
    requires Offers(r, s)
  {
    match s
    case FromNode => ResultDict(r.score, r.node.value.content.value, MetadataOr(r.node.value.metadata))
    case FromSourceNode => ResultDict(r.score, r.sourceNode.value.content.value, MetadataOr(r.sourceNode.value.metadata))
    case FromText => ResultDict(r.score, r.text.value, MetadataOr(r.metadata))
    case FromString => ResultDict(r.score, if r.display.Some? then r.display.value else ContentNotExtracted, map[])
  }

  /** The first way, in the fixed order, that the result offers decides its dictionary. */
  lemma ExtractResultFirstOffered(r: RetrievedResult, s: Source)
    requires Offers(r, s)
    requires forall e: Source :: Rank(e) < Rank(s) ==> !Offers(r, e)
    ensures ExtractResult(r) == ReadVia(r, s)
  {
    assert Rank(FromNode) == 0 && Rank(FromSourceNode) == 1 && Rank(FromText) == 2;
  }

  /** The dictionaries of all results, one per result. */
  function ExtractAll(rs: seq<RetrievedResult>): (ds: seq<ResultDict>)
    ensures |ds| == |rs|
    ensures forall i :: 0 <= i < |rs| ==> ds[i].score == rs[i].score
  {
    seq(|rs|, i requires 0 <= i < |rs| => ExtractResult(rs[i]))
  }

  /** `MarkdownVectorizer.query_index`: retrieval is given; the extraction loop
      keeps the results' number and order. A failed retrieval is raised again. */
  method QueryIndex(queryText: Json, numResults: int, retrieve: (Json, int) -> Retrieval)
    returns (output: Result<seq<ResultDict>>)
    ensures retrieve(queryText, numResults).RetrievalRaised? ==> output == Err(retrieve(queryText, numResults).error)
    ensures retrieve(queryText, numResults).Retrieved? ==>
              output.Ok? && output.value == ExtractAll(retrieve(queryText, numResults).results)
  {
    var retrieval := retrieve(queryText, numResults);
    if retrieval.RetrievalRaised? {
      return Err(retrieval.error);
    }
    var results := retrieval.results;
    var out: seq<ResultDict> := [];
    for i := 0 to |results|
      invariant |out| == i
      invariant forall k :: 0 <= k < i ==> out[k] == ExtractResult(results[k])
    {
      var result := results[i];
      var content: string;
      var metadata: Metadata;
      if result.node.Some? && result.node.value.content.Some? {
        content := result.node.value.content.value;
        metadata := MetadataOr(result.node.value.metadata);
      } else if result.sourceNode.Some? && result.sourceNode.value.content.Some? {
        content := result.sourceNode.value.content.value;
        metadata := MetadataOr(result.sourceNode.value.metadata);
      } else if result.text.Some? {
        content := result.text.value;
        metadata := MetadataOr(result.metadata);
      } else {
        if result.display.Some? {
          content := result.display.value;
        } else {
          content := ContentNotExtracted;
        }
        metadata := map[];
      }
      out := out + [ResultDict(result.score, content, metadata)];
    }
    return Ok(out);
  }

  // ===========================================================================
  // Command line

  const DefaultResultCount: int := 5
  const SnippetLength: nat := 300

  /** What the argument list asks for. */
  datatype Command =
    | ShowUsage
    | Process
    | Query(text: string, numResults: int)
    | MissingQueryText
    | BadResultCount(arg: string)
    | UnknownCommand(command: string)

  /** The decision of the `__main__` block on `sys.argv` (the script name first). */
  function Dispatch(argv: seq<string>): Command
  {
    if |argv| < 2 then ShowUsage
    else if argv[1] == "process" then Process
    else if argv[1] == "query" then
      if |argv| < 3 then MissingQueryText
      else if |argv| > 3 then
        match ParseInt(argv[3])
        case Some(n) => Query(argv[2], n)
        case None => BadResultCount(argv[3])
      else Query(argv[2], DefaultResultCount)
    else UnknownCommand(argv[1])
  }

  /** The exit status of a command, given whether `process` raised. It is 1
      after the usage text, a missing query text, an unknown command, the
      `ValueError` of an unparsable count, or an exception out of `process`.
      Otherwise it is 0. */
  function ExitStatus(c: Command, processRaised: bool): int
  {
    match c
    case ShowUsage => 1
    case MissingQueryText => 1
    case BadResultCount(_) => 1
    case UnknownCommand(_) => 1
    case Process => if processRaised then 1 else 0
    case Query(_, _) => 0
  }

  /** The script fails exactly on a short argument list, an unknown command, a
      query without text, a count `int()` rejects, or a `process` that raises. */
  lemma ExitStatusOfDispatch(argv: seq<string>, processRaised: bool)
    ensures ExitStatus(Dispatch(argv), processRaised) == 1 <==>
              || |argv| < 2
              || (argv[1] != "process" && argv[1] != "query")
              || (argv[1] == "process" && processRaised)
              || (argv[1] == "query" && (|argv| < 3 || (|argv| > 3 && ParseInt(argv[3]).None?)))
    ensures ExitStatus(Dispatch(argv), processRaised) == 0 || ExitStatus(Dispatch(argv), processRaised) == 1
  {
  }

  /** Without a count the query asks for five results; a count printed by `str`
      is read back as itself. */
  lemma QueryResultCount(prog: string, text: string, n: int)
    requires Printable(n)
    ensures Dispatch([prog, "query", text]) == Query(text, 5)
    ensures Dispatch([prog, "query", text, IntToString(n)]) == Query(text, n)
  {
    assert "query" != "process" by {
      assert "query"[0] != "process"[0];
    }
    var argv := [prog, "query", text];
    assert Dispatch(argv) == Query(text, 5) by {
      assert argv[1] == "query" && |argv| == 3;
    }
    var argv' := [prog, "query", text, IntToString(n)];
    assert ParseInt(argv'[3]) == Some(n) by {
      assert argv'[3] == IntToString(n);
      ParseIntOfIntToString(n);
    }
    assert argv'[1] == "query" && argv'[2] == text && |argv'| == 4;
  }

  /** One printed result: its 1-based position, score, source and the snippet
      (`None` when the content is empty and "No content available" is printed). */
  datatype ReportEntry = ReportEntry(position: nat, score: Score, source: Json, snippet: Option<string>)

  /** What the query command prints. */
  datatype QueryReport = NoResultsFound | Listing(entries: seq<ReportEntry>) | QueryErrorPrinted(error: string)

  /** The first 300 characters of the content, or all of it when shorter. */
  function Snippet(content: string): (r: string)
    ensures r <= content
    ensures |r| == if |content| < SnippetLength then |content| else SnippetLength
  {
    if |content| <= SnippetLength then content else content[..SnippetLength]
  }

  function EntryFor(i: nat, d: ResultDict): ReportEntry
  {
    ReportEntry(i + 1, d.score, Get(d.metadata, "source", JStr("Unknown")),
                if d.content == "" then None else Some(Snippet(d.content)))
  }

  /** What the query command prints for the extracted results. */
  function ReportOf(results: seq<ResultDict>): QueryReport
  {
    if results == [] then NoResultsFound
    else Listing(seq(|results|, i requires 0 <= i < |results| => EntryFor(i, results[i])))
  }

  /** The printing loop of the query command. */
  method ReportResults(results: seq<ResultDict>) returns (report: QueryReport)
    ensures report == ReportOf(results)
    ensures report.QueryErrorPrinted? == false
    ensures report.NoResultsFound? <==> results == []
    ensures report.Listing? ==> |report.entries| == |results|
    ensures report.Listing? ==> forall i :: 0 <= i < |results| ==> report.entries[i] == EntryFor(i, results[i])
  {
    if |results| == 0 {
      return NoResultsFound;
    }
    var entries: seq<ReportEntry> := [];
    for i := 0 to |results|
      invariant |entries| == i
      invariant forall k :: 0 <= k < i ==> entries[k] == EntryFor(k, results[k])
    {
      var result := results[i];
      var source := Get(result.metadata, "source", JStr("Unknown"));
      var content := result.content;
      var snippet: Option<string>;
      if content != "" {
        snippet := Some(if |content| <= SnippetLength then content else content[..SnippetLength]);
      } else {
        snippet := None;
      }
      entries := entries + [ReportEntry(i + 1, result.score, source, snippet)];
    }
    return Listing(entries);
  }

  /** Each printed entry names the result's source, or "Unknown", and shows
      the start of a non-empty content. */
  lemma EntryShowsResult(i: nat, d: ResultDict)
    ensures EntryFor(i, d).position == i + 1 && EntryFor(i, d).score == d.score
    ensures "source" in d.metadata ==> EntryFor(i, d).source == d.metadata["source"]
    ensures "source" !in d.metadata ==> EntryFor(i, d).source == JStr("Unknown")
    ensures EntryFor(i, d).snippet.Some? <==> d.content != ""
    ensures EntryFor(i, d).snippet.Some? ==> EntryFor(i, d).snippet.value <= d.content
    ensures |d.content| <= SnippetLength && d.content != "" ==> EntryFor(i, d).snippet == Some(d.content)
  {
  }

  /** What running the script did. */
  datatype CliRun =
    | UsagePrinted
    | ProcessRan(run: IndexRun)
    | QueryTextRequired
    | CountRejected(arg: string)
    | QueryRan(report: QueryReport)
    | UnknownCommandPrinted(command: string)

  /** The `__main__` block: dispatch, run the chosen command, and exit with the status. */
  method RunScript(argv: seq<string>, walk: seq<WalkStep>, cwd: string, read: string -> FileRead,
              steps: LibrarySteps, retrieve: (Json, int) -> Retrieval)
    returns (outcome: CliRun, status: int)
    ensures status == ExitStatus(Dispatch(argv), ProcessRaises(walk, steps))
    ensures Dispatch(argv).ShowUsage? <==> outcome.UsagePrinted?
    ensures Dispatch(argv).Process? <==> outcome.ProcessRan?
    ensures Dispatch(argv).Query? <==> outcome.QueryRan?
    ensures Dispatch(argv).Query? ==>
              var q := retrieve(JStr(Dispatch(argv).text), Dispatch(argv).numResults);
              && (q.RetrievalRaised? ==> outcome.report == QueryErrorPrinted(q.error))
              && (q.Retrieved? ==> outcome.report == ReportOf(ExtractAll(q.results)))
    ensures outcome.ProcessRan? ==>
              && (outcome.run.NoMarkdownFiles? <==> !steps.setupRaises && MarkdownPaths(walk) == [])
              && (Raised(outcome.run) <==> ProcessRaises(walk, steps))
              && (outcome.run.Indexed? || outcome.run.IndexRaised? ==>
                    outcome.run.documents == CollectDocuments(MarkdownPaths(walk), cwd, read))
  {
    var command := Dispatch(argv);
    match command
    case ShowUsage =>
      outcome := UsagePrinted;
      status := 1;
    case Process =>
      var run := ProcessMarkdownFiles(walk, cwd, read, steps);
      outcome := ProcessRan(run);
      status := if Raised(run) then 1 else 0;
    case Query(text, n) =>
      var results := QueryIndex(JStr(text), n, retrieve);
      if results.Err? {
        outcome := QueryRan(QueryErrorPrinted(results.error));
      } else {
        var report := ReportResults(results.value);
        outcome := QueryRan(report);
      }
      status := 0;
    case MissingQueryText =>
      outcome := QueryTextRequired;
      status := 1;
    case BadResultCount(arg) =>
      outcome := CountRejected(arg);
      status := 1;
    case UnknownCommand(c) =>
      outcome := UnknownCommandPrinted(c);
      status := 1;
  }
}
