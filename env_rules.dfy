/**
  The decision rules of the `.env` provider, over values: what a hover shows,
  where a definition points, which completion lists are acceptable, which
  env() calls are reported as undefined, and which quick fixes are offered.
  The provider class in module EnvProvider refreshes its repositories and then
  publishes exactly what these rules say.
 */
module EnvRules {
  import opened Wrappers

  /** One key of a parsed `.env` file: its value and where it is defined. */
  datatype Meta = Meta(value: string, line: nat, column: nat)

  /** A parsed `.env` (or `.env.example`) file: key to metadata. */
  type Repository = map<string, Meta>

  /** A (row, column) position, 0-indexed. */
  datatype Position = Position(row: nat, column: nat)

  datatype Range = Range(start: Position, end: Position)

  /**
    One env() call site as the query layer reports it: the key text,
    whether a default argument is given, and the call's source range.
   */
  datatype EnvCall = EnvCall(key: string, hasDefault: bool, range: Range)

  // The items a request can publish.
  datatype HoverInfo = HoverInfo(content: string)
  datatype Location = Location(uri: string, range: Range)
  datatype CompletionItemKind = Constant
  datatype CompletionItem = CompletionItem(labelText: string, detail: string, kind: CompletionItemKind)
  datatype Severity = Error | Warning | Information | Hint
  datatype Diagnostic = Diagnostic(range: Range, severity: Severity, message: string)
  datatype CodeAction = CodeAction(title: string, uri: string, row: nat, text: string)

  const UndefinedContent := "[undefined]"
  const EmptyContent := "[empty]"
  const CopyTitle := "Copy value from .env.example"
  const AddTitle := "Add value to .env file"
  const UndefinedMessage := "Environment variable is not defined"

  // ---------------------------------------------------------------------
  // Hover

  /** The text shown when hovering over env(key). */
  function HoverContent(repo: Repository, key: string): (content: string)
    ensures key !in repo ==> content == UndefinedContent
    ensures key in repo && repo[key].value == "" ==> content == EmptyContent
    ensures key in repo && repo[key].value != "" ==> content == repo[key].value
    ensures content != ""
  {
    if key !in repo then UndefinedContent
    else if |repo[key].value| < 1 then EmptyContent
    else repo[key].value
  }

  // ---------------------------------------------------------------------
  // Definition

  /**
    The location published for go-to-definition: the stored line and
    column of the key in the `.env` file at `uri`. The range end is left at
    the zero position.
   */
  function DefinitionLocation(repo: Repository, uri: string, key: string): (loc: Option<Location>)
    ensures loc.Some? <==> key in repo
    ensures loc.Some? ==> loc.value.uri == uri
    ensures loc.Some? ==> loc.value.range.start == Position(repo[key].line, repo[key].column)
    ensures loc.Some? ==> loc.value.range.end == Position(0, 0)
  {
    if key in repo then
      Some(Location(uri, Range(Position(repo[key].line, repo[key].column), Position(0, 0))))
    else
      None
  }

  // ---------------------------------------------------------------------
  // Completion

  /**
    `items` is a completion list for `text`: one item per key of `repo`
    that starts with `text`, labelled with the key, detailed with its value,
    of kind constant, in no particular order.
   */
  ghost predicate IsCompletionFor(repo: Repository, text: string, items: seq<CompletionItem>)
  {
    && (forall i | 0 <= i < |items| ::
          && items[i].labelText in repo
          && text <= items[i].labelText
          && items[i].detail == repo[items[i].labelText].value
          && items[i].kind == Constant)
    && (forall k | k in repo && text <= k :: exists i | 0 <= i < |items| :: items[i].labelText == k)
    && (forall i, j | 0 <= i < j < |items| :: items[i].labelText != items[j].labelText)
  }

  /** In a sequence without repetitions every element occurs once. */
  lemma {:induction false} DistinctMultiplicity<T>(s: seq<T>, x: T)
    requires forall i, j | 0 <= i < j < |s| :: s[i] != s[j]
    ensures multiset(s)[x] == if x in s then 1 else 0
  {
    if s != [] {
      assert s == [s[0]] + s[1..];
      DistinctMultiplicity(s[1..], x);
      assert s[0] !in s[1..] by {
        forall j | 0 <= j < |s[1..]| ensures s[1..][j] != s[0] {
          assert s[1..][j] == s[j + 1];
        }
      }
    }
  }

  /** Two completion lists for the same repository and text differ only in order. */
  lemma CompletionUniqueUpToOrder(repo: Repository, text: string, a: seq<CompletionItem>, b: seq<CompletionItem>)
    requires IsCompletionFor(repo, text, a) && IsCompletionFor(repo, text, b)
    ensures multiset(a) == multiset(b)
  {
    assert forall i, j | 0 <= i < j < |a| :: a[i] != a[j];
    assert forall i, j | 0 <= i < j < |b| :: b[i] != b[j];
    forall x ensures multiset(a)[x] == multiset(b)[x] {
      DistinctMultiplicity(a, x);
      DistinctMultiplicity(b, x);
      if x in a {
        var i :| 0 <= i < |a| && a[i] == x;
        var j :| 0 <= j < |b| && b[j].labelText == x.labelText;
        assert b[j] == x;
      }
      if x in b {
        var j :| 0 <= j < |b| && b[j] == x;
        var i :| 0 <= i < |a| && a[i].labelText == x.labelText;
        assert a[i] == x;
      }
    }
  }

  // ---------------------------------------------------------------------
  // Diagnostics

  /** A call is reported when its key is undefined and it has no default argument. */
  predicate Flagged(repo: Repository, call: EnvCall)
  {
    call.key !in repo && !call.hasDefault
  }

  function UndefinedDiagnostic(call: EnvCall): Diagnostic
  {
    Diagnostic(call.range, Error, UndefinedMessage)
  }

  /** The diagnostics published for the env() calls of a file, in call order. */
  function DiagnosticsFor(repo: Repository, calls: seq<EnvCall>): seq<Diagnostic>
  {
    if calls == [] then []
    else
      (if Flagged(repo, calls[0]) then [UndefinedDiagnostic(calls[0])] else [])
      + DiagnosticsFor(repo, calls[1..])
  }

  /** Diagnostics of consecutive call lists are published one list after the other. */
  lemma {:induction false} DiagnosticsAppend(repo: Repository, a: seq<EnvCall>, b: seq<EnvCall>)
    ensures DiagnosticsFor(repo, a + b) == DiagnosticsFor(repo, a) + DiagnosticsFor(repo, b)
  {
    if a == [] {
      assert a + b == b;
    } else {
      assert (a + b)[1..] == a[1..] + b;
      DiagnosticsAppend(repo, a[1..], b);
    }
  }

  /**
    A diagnostic is published exactly when some call is undefined and has no
    default; it carries that call's range, error severity and the fixed message.
   */
  lemma {:induction false} DiagnosticsMembership(repo: Repository, calls: seq<EnvCall>, d: Diagnostic)
    ensures d in DiagnosticsFor(repo, calls) <==>
      exists i | 0 <= i < |calls| ::
        calls[i].key !in repo && !calls[i].hasDefault
        && d == Diagnostic(calls[i].range, Error, UndefinedMessage)
  {
    if calls != [] {
      DiagnosticsMembership(repo, calls[1..], d);
      if d in DiagnosticsFor(repo, calls[1..]) {
        var i :| 0 <= i < |calls[1..]| && calls[1..][i].key !in repo && !calls[1..][i].hasDefault
          && d == Diagnostic(calls[1..][i].range, Error, UndefinedMessage);
        assert calls[i + 1] == calls[1..][i];
      }
      if exists i | 0 <= i < |calls| :: calls[i].key !in repo && !calls[i].hasDefault
          && d == Diagnostic(calls[i].range, Error, UndefinedMessage) {
        var i :| 0 <= i < |calls| && calls[i].key !in repo && !calls[i].hasDefault
          && d == Diagnostic(calls[i].range, Error, UndefinedMessage);
        if i > 0 {
          assert calls[1..][i - 1] == calls[i];
        }
      }
    }
  }

  /** The indexes of the calls that are reported. */
  ghost function FlaggedIndexes(repo: Repository, calls: seq<EnvCall>): set<nat>
  {
    set i: nat | i < |calls| && Flagged(repo, calls[i])
  }

  /** Exactly one diagnostic is published per reported call. */
  lemma {:induction false} DiagnosticsCount(repo: Repository, calls: seq<EnvCall>)
    ensures |DiagnosticsFor(repo, calls)| == |FlaggedIndexes(repo, calls)|
  {
    if calls != [] {
      var n := |calls| - 1;
      var init := calls[..n];
      assert calls == init + [calls[n]];
      DiagnosticsAppend(repo, init, [calls[n]]);
      DiagnosticsCount(repo, init);
      assert DiagnosticsFor(repo, [calls[n]])
        == (if Flagged(repo, calls[n]) then [UndefinedDiagnostic(calls[n])] else []);
      if Flagged(repo, calls[n]) {
        assert FlaggedIndexes(repo, calls) == FlaggedIndexes(repo, init) + {n};
      } else {
        assert FlaggedIndexes(repo, calls) == FlaggedIndexes(repo, init);
      }
    } else {
      assert FlaggedIndexes(repo, calls) == {};
    }
  }

  // ---------------------------------------------------------------------
  // Code actions

  /** `q` lies at or after `p`. */
  predicate AtOrAfter(p: Position, q: Position)
  {
    p.row < q.row || (p.row == q.row && p.column <= q.column)
  }

  /**
    The row at which a quick fix inserts a new line into `.env`, given the
    end position of the file's parse tree: the first row, at or after the end
    of the file, at whose start a line can be inserted without landing in the
    middle of existing text.
   */
  function InsertionRow(end: Position): (row: nat)
    ensures AtOrAfter(end, Position(row, 0))
    ensures forall r: nat :: AtOrAfter(end, Position(r, 0)) ==> row <= r
  {
    if end.column != 0 then end.row + 1 else end.row
  }

  /**
    The quick fixes for one env() call with key `key`: none when the key is
    defined; otherwise "copy from .env.example" (when the example defines it)
    followed by "add an empty value", both inserting at `row` of `uri`.
   */
  function KeyActions(repo: Repository, example: Repository, uri: string, row: nat, key: string): (actions: seq<CodeAction>)
    ensures |actions| > 0 <==> key !in repo
    ensures key !in repo ==> actions[|actions| - 1] == CodeAction(AddTitle, uri, row, key + "=")
    ensures key !in repo ==> |actions| == (if key in example then 2 else 1)
    ensures |actions| == 2 ==> actions[0] == CodeAction(CopyTitle, uri, row, key + "=" + example[key].value)
    ensures forall a | a in actions ::
      a.uri == uri && a.row == row
      && (a == CodeAction(AddTitle, uri, row, key + "=")
          || (key in example && a == CodeAction(CopyTitle, uri, row, key + "=" + example[key].value)))
  {
    if key in repo then []
    else
      (if key in example then [CodeAction(CopyTitle, uri, row, key + "=" + example[key].value)] else [])
      + [CodeAction(AddTitle, uri, row, key + "=")]
  }

  /**
    All quick fixes for the calls in range, in call order. An empty key stops
    the processing of the remaining calls.
   */
  function CodeActionsFor(repo: Repository, example: Repository, uri: string, end: Position, calls: seq<EnvCall>): seq<CodeAction>
  {
    if calls == [] || calls[0].key == "" then []
    else
      KeyActions(repo, example, uri, InsertionRow(end), calls[0].key)
      + CodeActionsFor(repo, example, uri, end, calls[1..])
  }

  /** Quick fixes of consecutive call lists are published one list after the other. */
  lemma {:induction false} CodeActionsAppend(repo: Repository, example: Repository, uri: string, end: Position,
                                             a: seq<EnvCall>, b: seq<EnvCall>)
    requires forall i | 0 <= i < |a| :: a[i].key != ""
    ensures CodeActionsFor(repo, example, uri, end, a + b)
         == CodeActionsFor(repo, example, uri, end, a) + CodeActionsFor(repo, example, uri, end, b)
  {
    if a == [] {
      assert a + b == b;
    } else {
      assert (a + b)[0] == a[0];
      assert (a + b)[1..] == a[1..] + b;
      CodeActionsAppend(repo, example, uri, end, a[1..], b);
    }
  }

  /** The actions published for the first calls are never withdrawn by later ones. */
  lemma {:induction false} CodeActionsPrefix(repo: Repository, example: Repository, uri: string, end: Position,
                                             calls: seq<EnvCall>, n: nat)
    requires n <= |calls|
    ensures CodeActionsFor(repo, example, uri, end, calls[..n]) <= CodeActionsFor(repo, example, uri, end, calls)
  {
    if n > 0 && calls[0].key != "" {
      assert calls[..n][0] == calls[0];
      assert calls[..n][1..] == calls[1..][..n - 1];
      CodeActionsPrefix(repo, example, uri, end, calls[1..], n - 1);
    } else if n > 0 {
      assert calls[..n][0] == calls[0];
    }
  }

  /**
    A call with an empty key ends the request: the actions published are
    those of the calls before it, and none of the calls after it.
   */
  lemma {:induction false} CodeActionsStopAtEmptyKey(repo: Repository, example: Repository, uri: string, end: Position,
                                                     calls: seq<EnvCall>, i: nat)
    requires i < |calls| && calls[i].key == ""
    ensures CodeActionsFor(repo, example, uri, end, calls)
         == CodeActionsFor(repo, example, uri, end, calls[..i])
  {
    if i > 0 {
      assert calls[..i][0] == calls[0];
      if calls[0].key != "" {
        assert calls[..i][1..] == calls[1..][..i - 1];
        CodeActionsStopAtEmptyKey(repo, example, uri, end, calls[1..], i - 1);
      }
    }
  }

  /**
    Every published action comes from a call whose key is non-empty and
    undefined, with no empty key before it; it inserts "KEY=" or
    "KEY=<example value>" at the insertion row of `uri`.
   */
  lemma {:induction false} CodeActionOrigin(repo: Repository, example: Repository, uri: string, end: Position,
                                            calls: seq<EnvCall>, a: CodeAction)
    requires a in CodeActionsFor(repo, example, uri, end, calls)
    ensures a.uri == uri && a.row == InsertionRow(end)
    ensures exists i | 0 <= i < |calls| ::
      && (forall j | 0 <= j <= i :: calls[j].key != "")
      && calls[i].key !in repo
      && (a.text == calls[i].key + "="
          || (calls[i].key in example && a.text == calls[i].key + "=" + example[calls[i].key].value))
  {
    var row := InsertionRow(end);
    var first := KeyActions(repo, example, uri, row, calls[0].key);
    if a in first {
      assert forall j | 0 <= j <= 0 :: calls[j].key != "";
    } else {
      CodeActionOrigin(repo, example, uri, end, calls[1..], a);
      var i :| 0 <= i < |calls[1..]|
        && (forall j | 0 <= j <= i :: calls[1..][j].key != "")
        && calls[1..][i].key !in repo
        && (a.text == calls[1..][i].key + "="
            || (calls[1..][i].key in example && a.text == calls[1..][i].key + "=" + example[calls[1..][i].key].value));
      assert calls[i + 1] == calls[1..][i];
      forall j | 0 <= j <= i + 1 ensures calls[j].key != "" {
        if j > 0 { assert calls[j] == calls[1..][j - 1]; }
      }
    }
  }

  /**
    Every call whose key is undefined, with no empty key up to it, gets its
    quick fixes: "add" always, and "copy" when the example defines the key.
   */
  lemma {:induction false} CodeActionCoverage(repo: Repository, example: Repository, uri: string, end: Position,
                                              calls: seq<EnvCall>, i: nat)
    requires i < |calls|
    requires forall j | 0 <= j <= i :: calls[j].key != ""
    requires calls[i].key !in repo
    ensures CodeAction(AddTitle, uri, InsertionRow(end), calls[i].key + "=")
            in CodeActionsFor(repo, example, uri, end, calls)
    ensures calls[i].key in example ==>
      CodeAction(CopyTitle, uri, InsertionRow(end), calls[i].key + "=" + example[calls[i].key].value)
        in CodeActionsFor(repo, example, uri, end, calls)
  {
    assert calls[0].key != "";
    if i > 0 {
      forall j | 0 <= j <= i - 1 ensures calls[1..][j].key != "" {
        assert calls[1..][j] == calls[j + 1];
      }
      assert calls[1..][i - 1] == calls[i];
      CodeActionCoverage(repo, example, uri, end, calls[1..], i - 1);
    }
  }

  /**
    A `.env` assignment line read back as key and value: the text before the
    first '=' and the text after it; None when the line has no '='.
   */
  function SplitAssignment(line: string): Option<(string, string)>
  {
    if line == [] then None
    else if line[0] == '=' then Some(([], line[1..]))
    else
      match SplitAssignment(line[1..])
      case None => None
      case Some(kv) => Some(([line[0]] + kv.0, kv.1))
  }

  /** A line "KEY=VALUE" built from a key without '=' reads back as that key and value. */
  lemma {:induction false} SplitAssignmentRoundTrip(key: string, value: string)
    requires '=' !in key
    ensures SplitAssignment(key + "=" + value) == Some((key, value))
  {
    if key != [] {
      var line := key + "=" + value;
      assert line[0] == key[0];
      assert line[1..] == key[1..] + "=" + value;
      SplitAssignmentRoundTrip(key[1..], value);
      assert [key[0]] + key[1..] == key;
    } else {
      assert key + "=" + value == ['='] + value;
    }
  }

  /**
    The line a quick fix inserts defines the missing key: with the example's
    value for the copy action, with the empty value for the add action.
   */
  lemma InsertedLineDefinesKey(repo: Repository, example: Repository, uri: string, row: nat, key: string, a: CodeAction)
    requires '=' !in key
    requires a in KeyActions(repo, example, uri, row, key)
    ensures a.title == AddTitle ==> SplitAssignment(a.text) == Some((key, ""))
    ensures a.title == CopyTitle ==> key in example && SplitAssignment(a.text) == Some((key, example[key].value))
  {
    if a.title == AddTitle {
      SplitAssignmentRoundTrip(key, "");
      assert a.text == key + "=" + "";
    } else if a.title == CopyTitle {
      SplitAssignmentRoundTrip(key, example[key].value);
    }
  }
}
