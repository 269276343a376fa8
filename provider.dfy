/**
  The `.env` provider: it holds the parsed `.env` and `.env.example`
  repositories, refreshes both before answering a request about env() calls,
  and publishes hover text, a definition location, completion items,
  diagnostics or quick-fix code actions as module EnvRules decides them.

  The file cache, the `.env` parse tree and the env() call query are inputs:
  a request receives the call sites the query found and a FileCache value.
 */
module EnvProvider {
  import opened Wrappers
  import opened EnvRules

  /**
    What the file cache yields for this request: for each path whose file
    opens and loads, the repository the load produces (a path that is absent
    fails to open or to load), and the end position of the `.env` parse tree.
   */
  datatype FileCache = FileCache(files: map<string, Repository>, envEnd: Position)

  /** The path of `.env` in the workspace root (path.Join without cleaning). */
  function EnvPath(rootPath: string): string
  {
    if rootPath == "" then ".env" else rootPath + "/.env"
  }

  function ExamplePath(rootPath: string): string
  {
    EnvPath(rootPath) + ".example"
  }

  /** The outcome of refreshing one repository: whether it loaded, and the repository now held. */
  datatype LoadOutcome = LoadOutcome(ok: bool, repo: Repository)

  /**
    Reload the repository `repo` from `filename`: on success the loaded
    repository replaces it; on failure it is kept and false is reported.
   */
  function UpdateRepoFile(cache: FileCache, filename: string, repo: Repository): (r: LoadOutcome)
    ensures r.ok <==> filename in cache.files
    ensures r.ok ==> r.repo == cache.files[filename]
    ensures !r.ok ==> r.repo == repo
  {
    if filename !in cache.files then LoadOutcome(false, repo)
    else LoadOutcome(true, cache.files[filename])
  }

  /**
    The publishing loop of the code-action request: for every call whose key
    is undefined, the quick fixes for it; an empty key ends the loop.
   */
  method PublishCodeActions(repo: Repository, example: Repository, uri: string, envEnd: Position,
                            calls: seq<EnvCall>) returns (published: seq<CodeAction>)
    ensures published == CodeActionsFor(repo, example, uri, envEnd, calls)
  {
    published := [];
    for i := 0 to |calls|
      invariant forall j | 0 <= j < i :: calls[j].key != ""
      invariant published == CodeActionsFor(repo, example, uri, envEnd, calls[..i])
    {
      var key := calls[i].key;
      if |key| < 1 {
        CodeActionsStopAtEmptyKey(repo, example, uri, envEnd, calls, i);
        return;
      }
      var before := published;
      if key !in repo {
        var row := envEnd.row;
        if envEnd.column != 0 {
          row := row + 1;
        }
        if key in example {
          var text := key + "=" + example[key].value;
          published := published + [CodeAction(CopyTitle, uri, row, text)];
        }
        published := published + [CodeAction(AddTitle, uri, row, key + "=")];
      }
      assert published == before + KeyActions(repo, example, uri, InsertionRow(envEnd), key);
      assert calls[..i + 1] == calls[..i] + [calls[i]];
      CodeActionsAppend(repo, example, uri, envEnd, calls[..i], [calls[i]]);
    }
    assert calls[..|calls|] == calls;
  }

  /**
    The publishing loop of the completion request: one item per key of
    `repo` that starts with `text`, taken from the set of matches in no
    particular order.
   */
  method CompletionItems(repo: Repository, text: string) returns (items: seq<CompletionItem>)
    ensures IsCompletionFor(repo, text, items)
  {
    var pending := set k | k in repo && text <= k;
    items := [];
    while pending != {}
      invariant forall k | k in pending :: k in repo && text <= k
      invariant forall i | 0 <= i < |items| ::
        && items[i].labelText in repo
        && text <= items[i].labelText
        && items[i].detail == repo[items[i].labelText].value
        && items[i].kind == Constant
        && items[i].labelText !in pending
      invariant forall k | k in repo && text <= k ::
        k in pending || exists i | 0 <= i < |items| :: items[i].labelText == k
      invariant forall i, j | 0 <= i < j < |items| :: items[i].labelText != items[j].labelText
      decreases pending
    {
      var key :| key in pending;
      ghost var before := items;
      items := items + [CompletionItem(key, repo[key].value, Constant)];
      pending := pending - {key};
      forall k | k in repo && text <= k && k !in pending
        ensures exists i | 0 <= i < |items| :: items[i].labelText == k
      {
        if k == key {
          assert items[|before|].labelText == k;
        } else {
          var i :| 0 <= i < |before| && before[i].labelText == k;
          assert items[i].labelText == k;
        }
      }
    }
  }

  /**
    The publishing loop of the diagnostic request: one error per call whose
    key is undefined and which gives no default, in call order.
   */
  method PublishDiagnostics(repo: Repository, calls: seq<EnvCall>) returns (published: seq<Diagnostic>)
    ensures published == DiagnosticsFor(repo, calls)
  {
    published := [];
    for i := 0 to |calls|
      invariant published == DiagnosticsFor(repo, calls[..i])
    {
      var call := calls[i];
      var before := published;
      if call.key !in repo && !call.hasDefault {
        published := published + [Diagnostic(call.range, Error, UndefinedMessage)];
      }
      assert published == before + DiagnosticsFor(repo, [call]);
      assert calls[..i + 1] == calls[..i] + [call];
      DiagnosticsAppend(repo, calls[..i], [call]);
    }
    assert calls[..|calls|] == calls;
  }

  class Provider {
    var rootPath: string

    /** The key/value pairs of `.env`. */
    var repo: Repository

    /** The key/value pairs of `.env.example`. */
    var exampleRepo: Repository

    constructor ()
      ensures rootPath == "" && repo == map[] && exampleRepo == map[]
    {
      rootPath := "";
      repo := map[];
      exampleRepo := map[];
    }

    method Init(root: string)
      modifies this`rootPath
      ensures rootPath == root
    {
      rootPath := root;
    }

    /**
      Both repositories were reloaded from `cache`, starting from
      `oldRepo` and `oldExample`.
     */
    ghost predicate Refreshed(cache: FileCache, oldRepo: Repository, oldExample: Repository)
      reads this
    {
      && repo == UpdateRepoFile(cache, EnvPath(rootPath), oldRepo).repo
      && exampleRepo == UpdateRepoFile(cache, ExamplePath(rootPath), oldExample).repo
    }

    /**
      Reload `.env.example` (optional) and then `.env`; the result is the
      outcome of the `.env` load alone.
     */
    method UpdateRepo(cache: FileCache) returns (ok: bool)
      modifies this`repo, this`exampleRepo
      ensures ok <==> EnvPath(rootPath) in cache.files
      ensures Refreshed(cache, old(repo), old(exampleRepo))
    {
      var filename := EnvPath(rootPath);
      var example := UpdateRepoFile(cache, filename + ".example", exampleRepo);
      exampleRepo := example.repo;
      var primary := UpdateRepoFile(cache, filename, repo);
      repo := primary.repo;
      ok := primary.ok;
    }

    /**
      Quick fixes for the env() calls in the requested range. Without calls
      nothing is refreshed; when `.env` fails to load nothing is published.
     */
    method ResolveCodeAction(cache: FileCache, calls: seq<EnvCall>) returns (published: seq<CodeAction>)
      modifies this`repo, this`exampleRepo
      ensures calls == [] ==> repo == old(repo) && exampleRepo == old(exampleRepo)
      ensures calls != [] ==> Refreshed(cache, old(repo), old(exampleRepo))
      ensures published ==
        if calls != [] && EnvPath(rootPath) in cache.files
        then CodeActionsFor(repo, exampleRepo, "file://" + EnvPath(rootPath), cache.envEnd, calls)
        else []
    {
      if |calls| > 0 {
        var ok := UpdateRepo(cache);
        if !ok {
          return [];
        }
      }
      var uri := "file://" + EnvPath(rootPath);
      published := PublishCodeActions(repo, exampleRepo, uri, cache.envEnd, calls);
    }

    /** Hover text for the env() call under the cursor, if there is one. */
    method Hover(cache: FileCache, call: Option<EnvCall>) returns (published: seq<HoverInfo>)
      modifies this`repo, this`exampleRepo
      ensures call.None? ==> repo == old(repo) && exampleRepo == old(exampleRepo)
      ensures call.Some? ==> Refreshed(cache, old(repo), old(exampleRepo))
      ensures published ==
        if call.Some? && EnvPath(rootPath) in cache.files && call.value.key != ""
        then [HoverInfo(HoverContent(repo, call.value.key))]
        else []
    {
      published := [];
      if call.Some? {
        var ok := UpdateRepo(cache);
        if !ok {
          return;
        }
        var key := call.value.key;
        if |key| < 1 {
          return;
        }
        var content := UndefinedContent;
        if key in repo {
          if |repo[key].value| < 1 {
            content := EmptyContent;
          } else {
            content := repo[key].value;
          }
        }
        published := [HoverInfo(content)];
      }
    }

    /** The definition of the key of the env() call under the cursor, if there is one. */
    method ResolveDefinition(cache: FileCache, call: Option<EnvCall>) returns (published: seq<Location>)
      modifies this`repo, this`exampleRepo
      ensures call.None? ==> repo == old(repo) && exampleRepo == old(exampleRepo)
      ensures call.Some? ==> Refreshed(cache, old(repo), old(exampleRepo))
      ensures published ==
        if call.Some? && EnvPath(rootPath) in cache.files
        then match DefinitionLocation(repo, EnvPath(rootPath), call.value.key)
          case Some(loc) => [loc]
          case None => []
        else []
    {
      published := [];
      if call.Some? {
        var ok := UpdateRepo(cache);
        if !ok {
          return;
        }
        var key := call.value.key;
        if key in repo {
          var meta := repo[key];
          published := [Location(EnvPath(rootPath), Range(Position(meta.line, meta.column), Position(0, 0)))];
        }
      }
    }

    /** Completion items for the partially typed key of the env() call under the cursor. */
    method ResolveCompletion(cache: FileCache, call: Option<EnvCall>) returns (published: seq<CompletionItem>)
      modifies this`repo, this`exampleRepo
      ensures call.None? ==> repo == old(repo) && exampleRepo == old(exampleRepo)
      ensures call.Some? ==> Refreshed(cache, old(repo), old(exampleRepo))
      ensures !(call.Some? && EnvPath(rootPath) in cache.files) ==> published == []
      ensures call.Some? && EnvPath(rootPath) in cache.files ==> IsCompletionFor(repo, call.value.key, published)
    {
      published := [];
      if call.Some? {
        var ok := UpdateRepo(cache);
        if !ok {
          return;
        }
        published := CompletionItems(repo, call.value.key);
      }
    }

    /** Diagnostics for all env() calls of a file. */
    method Diagnostic(cache: FileCache, calls: seq<EnvCall>) returns (published: seq<Diagnostic>)
      modifies this`repo, this`exampleRepo
      ensures calls == [] ==> repo == old(repo) && exampleRepo == old(exampleRepo)
      ensures calls != [] ==> Refreshed(cache, old(repo), old(exampleRepo))
      ensures published ==
        if calls != [] && EnvPath(rootPath) in cache.files
        then DiagnosticsFor(repo, calls)
        else []
    {
      published := [];
      if |calls| > 0 {
        var ok := UpdateRepo(cache);
        if !ok {
          return;
        }
        published := PublishDiagnostics(repo, calls);
      }
    }
  }
}
