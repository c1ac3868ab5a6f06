/** The build step that injects the console-capture script into every exported
    HTML page, and the bounded log the injected script keeps in the page.

    The file system is modelled as a tree of `Entry` values: the step maps the
    tree of the output directory to the tree it leaves behind, and reports the
    paths of the files it writes. The injected script's browser side (console and
    history patching, event listeners, messages to the parent frame) is not part of
    this model, except for the log buffer and the message text of `captureLog`. */
module ConsoleCapture {
  import opened Wrappers
  import opened JsString
  import opened Js
  import opened Seqs

  // ---------------------------------------------------------------------------
  // The per-file step

  /** The text whose presence marks a page as already injected: the message type
      the script posts when it is ready. */
  const Marker := "console-capture-ready"

  const HeadClose := "</head>"

  /** The injected script. Its body is represented by the statement that carries
      the marker; the text that surrounds it in the real script contains neither a
      second marker nor `</head>`. */
  const ScriptOpen := "\n<script>\n" + "window.parent.postMessage({ type: '"
  const ScriptClose := "' }, '*');\n" + "</script>\n"
  const CaptureScript := ScriptOpen + Marker + ScriptClose

  /** The injected script carries the marker, so a page holds the marker once it is
      injected. */
  lemma ScriptCarriesMarker()
    ensures Contains(CaptureScript, Marker)
  {
    assert CaptureScript[|ScriptOpen|..|ScriptOpen| + |Marker|] == Marker;
    assert OccursAt(CaptureScript, Marker, |ScriptOpen|);
  }

  /** What happens to one HTML file: whether it is written, and its new content. */
  datatype FileStep = FileStep(written: bool, content: string)

  /** A page without the marker is rewritten with the script and a newline put in
      front of its first `</head>`; a page with the marker is left alone. A page
      without the marker and without `</head>` is written back unchanged. */
  function InjectFile(content: string): (r: FileStep)
    ensures r.written <==> !Contains(content, Marker)
    ensures !r.written ==> r.content == content
    ensures IndexOf(content, HeadClose).None? ==> r.content == content
  {
    if Contains(content, Marker) then FileStep(false, content)
    else FileStep(true, ReplaceFirst(content, HeadClose, CaptureScript + "\n" + HeadClose))
  }

  /** The step only inserts: the new content is the old content with the script
      and a newline placed right before the first `</head>`, and nothing else
      changes. */
  lemma InjectionInsertsBeforeFirstHead(content: string)
    requires !Contains(content, Marker) && IndexOf(content, HeadClose).Some?
    ensures var i := IndexOf(content, HeadClose).value;
            && InjectFile(content).content == content[..i] + CaptureScript + "\n" + content[i..]
            && forall k :: 0 <= k < i ==> !OccursAt(content, HeadClose, k)
  {
    var i := IndexOf(content, HeadClose).value;
    assert content[i..i + |HeadClose|] == HeadClose;
    assert content[i..] == HeadClose + content[i + |HeadClose|..];
  }

  /** Injection is idempotent: a second run writes nothing and changes nothing. */
  lemma InjectionIsIdempotent(content: string)
    ensures var once := InjectFile(content).content;
            InjectFile(once).content == once
    ensures InjectFile(content).written && IndexOf(content, HeadClose).Some? ==>
              !InjectFile(InjectFile(content).content).written
  {
    if !Contains(content, Marker) && IndexOf(content, HeadClose).Some? {
      var i := IndexOf(content, HeadClose).value;
      var pre, post := content[..i], content[i..];
      InjectionInsertsBeforeFirstHead(content);
      ConcatAssoc(pre + CaptureScript, "\n", post);
      ScriptCarriesMarker();
      ContainsInContext(pre, CaptureScript, "\n" + post, Marker);
    }
  }

  // ---------------------------------------------------------------------------
  // The directory walk

  /** A directory entry: a file with its content, or a directory with its
      entries in the order the directory lists them. */
  datatype Entry = File(name: string, content: string) | Dir(name: string, entries: seq<Entry>)

  /** `path.join(dir, name)` for the names a directory lists. */
  function JoinPath(dir: string, name: string): string {
    dir + "/" + name
  }

  predicate IsHtmlName(name: string) {
    EndsWith(name, ".html")
  }

  /** The entry after the walk: directories are walked, files named `*.html` go
      through `InjectFile`, other files are untouched. */
  function ProcessEntry(e: Entry): (r: Entry)
    ensures r.name == e.name && r.File? == e.File?
    ensures r.File? && !IsHtmlName(e.name) ==> r == e
    ensures r.Dir? ==> |r.entries| == |e.entries|
    decreases e, 1
  {
    match e
    case File(name, content) =>
      if IsHtmlName(name) then File(name, InjectFile(content).content) else e
    case Dir(name, entries) => Dir(name, ProcessEntries(entries))
  }

  /** The entries of a directory after the walk, in the same order. */
  function ProcessEntries(es: seq<Entry>): (r: seq<Entry>)
    ensures |r| == |es|
    decreases es, 0
  {
    if es == [] then []
    else [ProcessEntry(es[0])] + ProcessEntries(es[1..])
  }

  /** The paths of the files the walk writes below `dir`, in the order it writes
      them. */
  function WrittenBelow(dir: string, es: seq<Entry>): seq<string>
    decreases es, 0
  {
    if es == [] then []
    else WrittenBy(dir, es[0]) + WrittenBelow(dir, es[1..])
  }

  function WrittenBy(dir: string, e: Entry): seq<string>
    decreases e, 1
  {
    match e
    case File(name, content) =>
      if IsHtmlName(name) && InjectFile(content).written then [JoinPath(dir, name)] else []
    case Dir(name, entries) => WrittenBelow(JoinPath(dir, name), entries)
  }

  lemma {:induction false} ProcessEntriesConcat(a: seq<Entry>, b: seq<Entry>)
    ensures ProcessEntries(a + b) == ProcessEntries(a) + ProcessEntries(b)
  {
    if a == [] {
      assert a + b == b;
    } else {
      ProcessEntriesConcat(a[1..], b);
      var ab := a + b;
      assert ab[0] == a[0] && ab[1..] == a[1..] + b;
      calc {
        ProcessEntries(ab);
        [ProcessEntry(a[0])] + ProcessEntries(a[1..] + b);
        [ProcessEntry(a[0])] + (ProcessEntries(a[1..]) + ProcessEntries(b));
        { ConcatAssoc([ProcessEntry(a[0])], ProcessEntries(a[1..]), ProcessEntries(b)); }
        [ProcessEntry(a[0])] + ProcessEntries(a[1..]) + ProcessEntries(b);
      }
    }
  }

  lemma {:induction false} WrittenBelowConcat(dir: string, a: seq<Entry>, b: seq<Entry>)
    ensures WrittenBelow(dir, a + b) == WrittenBelow(dir, a) + WrittenBelow(dir, b)
  {
    if a == [] {
      assert a + b == b;
    } else {
      WrittenBelowConcat(dir, a[1..], b);
      var ab := a + b;
      assert ab[0] == a[0] && ab[1..] == a[1..] + b;
      calc {
        WrittenBelow(dir, ab);
        WrittenBy(dir, a[0]) + WrittenBelow(dir, a[1..] + b);
        WrittenBy(dir, a[0]) + (WrittenBelow(dir, a[1..]) + WrittenBelow(dir, b));
        { ConcatAssoc(WrittenBy(dir, a[0]), WrittenBelow(dir, a[1..]), WrittenBelow(dir, b)); }
        WrittenBy(dir, a[0]) + WrittenBelow(dir, a[1..]) + WrittenBelow(dir, b);
      }
    }
  }

  /** `processHTMLFiles(dir)`: walks the listing of `dir` in order, recursing into
      subdirectories; it returns the new listing and the paths it wrote. */
  method ProcessHtmlFiles(dir: string, es: seq<Entry>) returns (r: seq<Entry>, written: seq<string>)
    ensures r == ProcessEntries(es)
    ensures written == WrittenBelow(dir, es)
    decreases es
  {
    r := [];
    written := [];
    var i := 0;
    while i < |es|
      invariant 0 <= i <= |es|
      invariant r == ProcessEntries(es[..i])
      invariant written == WrittenBelow(dir, es[..i])
    {
      var e := es[i];
      var filePath := JoinPath(dir, e.name);
      var next: Entry;
      var wrote: seq<string>;
      match e {
        case Dir(name, entries) =>
          var sub, subWritten := ProcessHtmlFiles(filePath, entries);
          next, wrote := Dir(name, sub), subWritten;
        case File(name, content) =>
          if IsHtmlName(name) {
            var step := InjectFile(content);
            next := File(name, step.content);
            wrote := if step.written then [filePath] else [];
          } else {
            next, wrote := e, [];
          }
      }
      assert es[..i + 1] == es[..i] + [e];
      ProcessEntriesConcat(es[..i], [e]);
      WrittenBelowConcat(dir, es[..i], [e]);
      r := r + [next];
      written := written + wrote;
      i := i + 1;
    }
    assert es[..i] == es;
  }

  /** `injectConsoleCapture()`: with no `out` directory nothing is read or
      written; otherwise its whole tree is walked. */
  method InjectConsoleCapture(outDir: string, out: Option<seq<Entry>>) returns (r: Option<seq<Entry>>, written: seq<string>)
    ensures out.None? ==> r.None? && written == []
    ensures out.Some? ==> r == Some(ProcessEntries(out.value)) && written == WrittenBelow(outDir, out.value)
  {
    if out.None? {
      return None, [];
    }
    var entries, paths := ProcessHtmlFiles(outDir, out.value);
    r, written := Some(entries), paths;
  }

  /** The walk treats each entry of a listing in its place: the listing keeps its
      order and each entry is processed on its own. */
  lemma {:induction false} ProcessEntriesAt(es: seq<Entry>, k: int)
    requires 0 <= k < |es|
    ensures ProcessEntries(es)[k] == ProcessEntry(es[k])
  {
    if k > 0 {
      ProcessEntriesAt(es[1..], k - 1);
    }
  }

  /** A second walk over the tree the first walk left writes no file and changes
      nothing, for pages that have a `</head>`; a page without one is written again
      with the same content. */
  lemma {:induction false} WalkIsIdempotent(e: Entry)
    ensures ProcessEntry(ProcessEntry(e)) == ProcessEntry(e)
    decreases e, 1
  {
    match e
    case File(name, content) =>
      if IsHtmlName(name) {
        InjectionIsIdempotent(content);
      }
    case Dir(name, entries) =>
      WalkEntriesIsIdempotent(entries);
  }

  lemma {:induction false} WalkEntriesIsIdempotent(es: seq<Entry>)
    ensures ProcessEntries(ProcessEntries(es)) == ProcessEntries(es)
    decreases es, 0
  {
    if es != [] {
      WalkIsIdempotent(es[0]);
      WalkEntriesIsIdempotent(es[1..]);
      var once := ProcessEntries(es);
      assert once[0] == ProcessEntry(es[0]) && once[1..] == ProcessEntries(es[1..]);
    }
  }

  /** Every page below `e` that lacks the marker has a `</head>`. */
  predicate PagesHaveHead(e: Entry)
    decreases e
  {
    match e
    case File(name, content) =>
      IsHtmlName(name) ==> Contains(content, Marker) || IndexOf(content, HeadClose).Some?
    case Dir(_, entries) => forall k :: 0 <= k < |entries| ==> PagesHaveHead(entries[k])
  }

  /** When every unmarked page has a `</head>`, a second walk writes no file. */
  lemma {:induction false} SecondWalkWritesNothing(dir: string, e: Entry)
    requires PagesHaveHead(e)
    ensures WrittenBy(dir, ProcessEntry(e)) == []
    decreases e, 1
  {
    match e
    case File(name, content) =>
      if IsHtmlName(name) {
        InjectionIsIdempotent(content);
      }
    case Dir(name, entries) =>
      SecondWalkOfEntries(JoinPath(dir, name), entries);
  }

  lemma {:induction false} SecondWalkOfEntries(dir: string, es: seq<Entry>)
    requires forall k :: 0 <= k < |es| ==> PagesHaveHead(es[k])
    ensures WrittenBelow(dir, ProcessEntries(es)) == []
    decreases es, 0
  {
    if es != [] {
      SecondWalkWritesNothing(dir, es[0]);
      SecondWalkOfEntries(dir, es[1..]);
      var once := ProcessEntries(es);
      assert once[0] == ProcessEntry(es[0]) && once[1..] == ProcessEntries(es[1..]);
    }
  }

  // ---------------------------------------------------------------------------
  // The log buffer

  /** How many entries the page keeps. */
  const MaxLogs: nat := 500

  datatype Level = Log | Warn | Error | Info | Debug

  datatype LogEntry = LogEntry(timestamp: string, level: Level, message: string, url: string)

  /** `logs.push(entry)` followed by `logs.shift()` when the buffer has grown past
      `MAX_LOGS`. */
  function Push(logs: seq<LogEntry>, e: LogEntry): (r: seq<LogEntry>)
    requires |logs| <= MaxLogs
    ensures |r| <= MaxLogs && r != [] && r[|r| - 1] == e
  {
    var grown := logs + [e];
    if |grown| > MaxLogs then grown[1..] else grown
  }

  /** The newest `MaxLogs` entries of `history` (all of them while there are
      fewer). */
  function Newest(history: seq<LogEntry>): (r: seq<LogEntry>)
    ensures |r| <= MaxLogs
  {
    if |history| <= MaxLogs then history else history[|history| - MaxLogs..]
  }

  /** A buffer that holds the newest entries of everything captured so far keeps
      doing so: pushing an entry gives the newest entries of the longer history. */
  lemma PushKeepsNewest(history: seq<LogEntry>, e: LogEntry)
    ensures Push(Newest(history), e) == Newest(history + [e])
  {
    var h := history + [e];
    if |history| > MaxLogs {
      assert (history[|history| - MaxLogs..] + [e])[1..] == h[|h| - MaxLogs..];
    } else if |history| == MaxLogs {
      assert (history + [e])[1..] == h[|h| - MaxLogs..];
    }
  }

  /** The string form `String(arg)` of a value that is not a non-null object.
      Integral numbers below 10^21 in magnitude are printed in decimal; other
      numbers and functions are printed by `show`. */
  function StringOf(v: JsValue, show: JsValue -> string): string {
    match v
    case Undefined => "undefined"
    case Null => "null"
    case Bool(b) => if b then "true" else "false"
    case Str(s) => s
    case Num(n) =>
      if n == n.Floor as real && -1000000000000000000000.0 < n < 1000000000000000000000.0
      then IntToString(n.Floor) else show(v)
    case _ => show(v)
  }

  /** The text of one argument: a non-null object (arrays included) is serialized
      by `stringify`, standing for `JSON.stringify` with its replacer (`None` when it
      throws, which gives `[Object]`); anything else is `String(arg)`. */
  function ArgText(v: JsValue, stringify: JsValue -> Option<string>, show: JsValue -> string): (r: string)
    ensures v.Str? ==> r == v.s
    ensures (v.Arr? || v.Obj?) && stringify(v).None? ==> r == "[Object]"
  {
    if TypeOf(v) == "object" && v != Null then
      match stringify(v)
      case Some(t) => t
      case None => "[Object]"
    else StringOf(v, show)
  }

  /** `parts.join(' ')`. */
  function Join(parts: seq<string>): string {
    if parts == [] then ""
    else if |parts| == 1 then parts[0]
    else parts[0] + " " + Join(parts[1..])
  }

  /** The message of a captured call: the arguments' texts joined by single spaces. */
  function Message(args: seq<JsValue>, stringify: JsValue -> Option<string>, show: JsValue -> string): string {
    Join(seq(|args|, k requires 0 <= k < |args| => ArgText(args[k], stringify, show)))
  }

  /** Splitting at single spaces, the inverse of `Join` for space-free parts. */
  function SplitSpaces(s: string): (r: seq<string>)
    ensures r != []
  {
    if s == [] then [""]
    else
      var rest := SplitSpaces(s[1..]);
      if s[0] == ' ' then [""] + rest
      else [[s[0]] + rest[0]] + rest[1..]
  }

  predicate HasNoSpace(p: string) {
    forall k :: 0 <= k < |p| ==> p[k] != ' '
  }

  lemma {:induction false} SplitAfterWord(p: string, rest: string)
    requires HasNoSpace(p)
    ensures SplitSpaces(p + " " + rest) == [p] + SplitSpaces(rest)
    ensures SplitSpaces(p) == [p]
  {
    if p != [] {
      SplitAfterWord(p[1..], rest);
      assert (p + " " + rest)[1..] == p[1..] + " " + rest;
      assert [p[0]] + p[1..] == p;
    } else {
      assert p + " " + rest == " " + rest;
    }
  }

  /** Joining space-free parts and splitting the result at spaces gives the parts
      back: the message keeps every argument's text, in order. */
  lemma {:induction false} SplitJoin(parts: seq<string>)
    requires parts != []
    requires forall k :: 0 <= k < |parts| ==> HasNoSpace(parts[k])
    ensures SplitSpaces(Join(parts)) == parts
  {
    SplitAfterWord(parts[0], "");
    if |parts| > 1 {
      SplitJoin(parts[1..]);
      SplitAfterWord(parts[0], Join(parts[1..]));
      assert parts == [parts[0]] + parts[1..];
    }
  }

  /** String arguments without spaces can be read back from the message, one word
      each, in order. */
  lemma MessageKeepsStringArguments(args: seq<JsValue>, stringify: JsValue -> Option<string>, show: JsValue -> string)
    requires args != []
    requires forall k :: 0 <= k < |args| ==> args[k].Str? && HasNoSpace(args[k].s)
    ensures |SplitSpaces(Message(args, stringify, show))| == |args|
    ensures forall k :: 0 <= k < |args| ==> SplitSpaces(Message(args, stringify, show))[k] == args[k].s
  {
    var parts := seq(|args|, k requires 0 <= k < |args| => ArgText(args[k], stringify, show));
    SplitJoin(parts);
  }

  /** The in-page log. */
  class LogBuffer {
    var logs: seq<LogEntry>

    ghost predicate Valid()
      reads this
    {
      |logs| <= MaxLogs
    }

    constructor ()
      ensures logs == [] && Valid()
    {
      logs := [];
    }

    /** `captureLog(level, args)` as far as the buffer is concerned: the new entry
        is appended and, past `MAX_LOGS`, the oldest one dropped. The timestamp and
        the page URL are parameters. */
    method CaptureLog(level: Level, args: seq<JsValue>, timestamp: string, url: string,
                      stringify: JsValue -> Option<string>, show: JsValue -> string)
      requires Valid()
      modifies this
      ensures Valid()
      ensures logs == Push(old(logs), LogEntry(timestamp, level, Message(args, stringify, show), url))
    {
      var entry := LogEntry(timestamp, level, Message(args, stringify, show), url);
      logs := logs + [entry];
      if |logs| > MaxLogs {
        logs := logs[1..];
      }
    }
  }
}
