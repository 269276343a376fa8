# `.env` provider of laravel-ls, modelled in Dafny

laravel-ls is a language server for Laravel projects. Its `env` provider
answers editor requests about `env('KEY', default)` calls in PHP files. It
holds two repositories, `repo` for the workspace's `.env` and `exampleRepo`
for `.env.example`. Before it answers a request it reloads both. A failed
`.env.example` load is ignored. A failed `.env` load makes the request
publish nothing. It answers five requests:

- hover: the value of the key, `[empty]` for an empty value, `[undefined]` for a missing key;
- go-to-definition: the line and column of the key in `.env`;
- completion: one constant item per key that starts with the typed text;
- diagnostics: an error at every call whose key is undefined and that has no default;
- quick fixes: for an undefined key, "Copy value from .env.example" (when the
  example defines it) and "Add value to .env file". Both insert `KEY=...` at
  the first free row of `.env`.

The model has three files:

- `wrappers.dfy`: the `Option` type.
- `env_rules.dfy`, module `EnvRules`: the entities as datatypes, and every
  decision rule as a function with the lemmas about it. These are hover
  content, definition location, completion lists, diagnostics, insertion row
  and quick fixes.
- `provider.dfy`, module `EnvProvider`: the file-cache input, `UpdateRepoFile`,
  the publishing loops as methods, and class `Provider`. Its `repo` and
  `exampleRepo` fields are reassigned by `UpdateRepo`, and each request method
  returns the sequence of items it publishes.

The collaborators are inputs. The env() query results are call-site records
(key text, has-default flag, range): a sequence for the range and file
queries, an `Option` for the call at the cursor. The file cache is a
`FileCache` value. It maps each path whose file opens and loads to the
repository the load yields, and it carries the end position of the `.env`
parse tree.

Details of the code that the model keeps:

- Only the hover and code-action requests stop on an empty key. Definition,
  completion and diagnostics look the empty key up like any other key.
  Completion with an empty text lists every key.
- The definition location's URI is the bare `.env` path. The code-action URI
  is `file://` followed by that path.
- The definition location's range end is the zero position, because the code
  sets only the start.
- Completion items come out in no particular order, because `Find`'s order
  is not part of this code. `CompletionUniqueUpToOrder` shows that any two
  lists allowed by the contract are permutations of each other.

## Model

| member | source | states |
|---|---|---|
| EnvRules.HoverContent | laravel/providers/env/provider.go:110-117 | a missing key shows `[undefined]`, a key with an empty value shows `[empty]`, otherwise exactly the stored value; the content is never empty |
| EnvRules.DefinitionLocation | laravel/providers/env/provider.go:133-144 | a location exists iff the key is defined; it points at the given `.env` URI, starts at the stored line and column, and its end is left at the zero position |
| EnvRules.CompletionUniqueUpToOrder | laravel/providers/env/provider.go:158-164 | two completion lists for the same repository and text hold the same items, so the result is fixed up to order |
| EnvRules.DiagnosticsAppend | laravel/providers/env/provider.go:177-189 | diagnostics follow call order: those of `a + b` are those of `a` followed by those of `b` |
| EnvRules.DiagnosticsMembership | laravel/providers/env/provider.go:177-189 | a diagnostic is published iff some call's key is undefined and the call has no default; it has that call's range, error severity and "Environment variable is not defined" |
| EnvRules.DiagnosticsCount | laravel/providers/env/provider.go:177-189 | exactly one diagnostic per flagged call: the count equals the number of undefined calls without a default |
| EnvRules.InsertionRow | laravel/providers/env/provider.go:80-86 | the insertion row is the first row whose start lies at or after the end of `.env`, which is the end row when the end column is 0 and the next row otherwise |
| EnvRules.KeyActions | laravel/providers/env/provider.go:77-93 | a defined key gets no action; an undefined key gets "Add value to .env file" with `KEY=` last, preceded by "Copy value from .env.example" with `KEY=<example value>` exactly when the example defines the key; all at the same row and URI |
| EnvRules.CodeActionsAppend | laravel/providers/env/provider.go:71-94 | actions follow call order: while no key is empty, those of `a + b` are those of `a` followed by those of `b` |
| EnvRules.CodeActionsPrefix | laravel/providers/env/provider.go:71-75 | actions published for the first calls are a prefix of the final list, so a later empty key never withdraws them |
| EnvRules.CodeActionsStopAtEmptyKey | laravel/providers/env/provider.go:72-75 | a call with an empty key ends the request: the list equals the actions of the calls before it |
| EnvRules.CodeActionOrigin | laravel/providers/env/provider.go:71-93 | every action comes from a call with a non-empty undefined key and no empty key before it; it targets the insertion row of the `.env` URI and inserts `KEY=` or `KEY=<example value>` |
| EnvRules.CodeActionCoverage | laravel/providers/env/provider.go:71-93 | conversely, every call with an undefined key and no empty key up to it gets the "Add value to .env file" action with `KEY=` at the insertion row, and the "Copy value from .env.example" action with `KEY=<example value>` when the example defines the key |
| EnvRules.InsertedLineDefinesKey | laravel/providers/env/provider.go:88-92 | a quick fix's line, read back as `KEY=VALUE` split at its first `=`, defines the missing key, with the example's value for the copy action and the empty value for the add action (for keys without `=`) |
| EnvProvider.UpdateRepoFile | laravel/providers/env/provider.go:38-53 | the load reports success iff the file opens and loads; on success the loaded repository replaces the old one, on failure the old one is kept |
| EnvProvider.PublishCodeActions | laravel/providers/env/provider.go:71-94 | the code-action loop publishes exactly `CodeActionsFor` of the calls |
| EnvProvider.CompletionItems | laravel/providers/env/provider.go:158-164 | the completion loop publishes one item per key starting with the text, with label = key, detail = value and kind constant, and no key twice |
| EnvProvider.PublishDiagnostics | laravel/providers/env/provider.go:177-189 | the diagnostic loop publishes exactly `DiagnosticsFor` of the calls |
| EnvProvider.Provider.constructor | laravel/providers/env/provider.go:26-28 | a new provider has an empty root path and two empty repositories |
| EnvProvider.Provider.Init | laravel/providers/env/provider.go:34-36 | initialisation sets the workspace root path |
| EnvProvider.Provider.UpdateRepo | laravel/providers/env/provider.go:55-62 | both repositories are reloaded; the result is true iff `.env` loads, whatever happens to `.env.example` |
| EnvProvider.Provider.ResolveCodeAction | laravel/providers/env/provider.go:64-95 | with no calls nothing is reloaded or published; otherwise both repositories are reloaded, nothing is published if `.env` fails, else exactly `CodeActionsFor` the calls with URI `file://` + `.env` path |
| EnvProvider.Provider.Hover | laravel/providers/env/provider.go:97-123 | with no call nothing is reloaded or published; otherwise a reload, then one hover with `HoverContent` when `.env` loads and the key is non-empty, else nothing |
| EnvProvider.Provider.ResolveDefinition | laravel/providers/env/provider.go:126-146 | with no call nothing is reloaded or published; otherwise a reload, then the `DefinitionLocation` in `.env` when `.env` loads and the key is defined, else nothing |
| EnvProvider.Provider.ResolveCompletion | laravel/providers/env/provider.go:148-166 | with no call nothing is reloaded or published; otherwise a reload, then, when `.env` loads, a completion list for the call's text, else nothing |
| EnvProvider.Provider.Diagnostic | laravel/providers/env/provider.go:168-191 | with no calls nothing is reloaded or published; otherwise a reload, then exactly `DiagnosticsFor` the calls when `.env` loads, else nothing |

## Left out

- Logging through logrus: it only writes to the log and does not affect any result.
- `Register`: it only wires the provider into the manager.
- Concurrency: the code takes no locks, and requests run one at a time in this model.
- `Repository.Load`, `Get`, `Exists`, `Find` and the `.env` line parser are not part of this model. A repository is a map from key to value, line and column. `Find(text)` is the set of keys with prefix `text`. The model assumes nothing about duplicate keys, quoting or the order of `Find`.
- EnvProvider.UpdateRepoFile: a failed load keeps the previous repository, because what `Repository.Load` leaves behind on a parse error is not part of this model.
- The `queries` package (`EnvCallsInRange`, `EnvCallAtPosition`, `EnvCalls`, `GetKey`, `HasDefault`) is not part of this model. Its results are given as call-site records.
- `cache.FileCache.Open`/`Get` and the tree-sitter end position are inputs (`FileCache`), not computed.
- `path.Join` cleaning: the `.env` path is `.env` for an empty root and `root + "/.env"` otherwise.
- EnvRules.InsertionRow: rows are unbounded naturals, so the 32-bit wrap-around of `Row += 1` at the largest row is not modelled.
- LSP protocol types are reduced to the fields the provider sets.
