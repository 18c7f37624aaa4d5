/** The active-window collector (collector/src/modules/window_activity.rs): the backend
    setting, the order in which the window readers are tried, the parsing of what `xprop`
    prints, and the spans of focus that `run` turns into interval records. The external
    commands are parameters giving what each one printed or how it failed. */
module WindowActivity {
  import opened Wrappers
  import opened Text
  import opened Time
  import opened Errors
  import opened Sorting
  import Types

  datatype Backend = Auto | X11 | Hyprctl

  /** `Backend::parse`: trimmed and lower-cased (ASCII), "" and "auto" are Auto, "x11" and
      "hyprctl" name the others, and anything else is a validation error naming it. */
  function ParseBackend(s: string): (r: Result<Backend, LifelogError>)
    ensures var t := AsciiLower(Trim(s));
            (r == Ok(Auto) <==> t == "" || t == "auto") &&
            (r == Ok(X11) <==> t == "x11") &&
            (r == Ok(Hyprctl) <==> t == "hyprctl") &&
            (r.Err? ==> r.error == Validation("window_activity.backend",
                                              "unsupported backend: " + t + " (expected auto/x11/hyprctl)"))
  {
    var t := AsciiLower(Trim(s));
    if t == "" || t == "auto" then Ok(Auto)
    else if t == "x11" then Ok(X11)
    else if t == "hyprctl" then Ok(Hyprctl)
    else Err(Validation("window_activity.backend", "unsupported backend: " + t + " (expected auto/x11/hyprctl)"))
  }

  /** The configuration word of each backend. */
  function BackendName(b: Backend): string {
    match b
    case Auto => "auto"
    case X11 => "x11"
    case Hyprctl => "hyprctl"
  }

  /** A word with no ASCII capital is its own lower-case form. */
  lemma AsciiLowerFixed(s: string)
    requires forall i :: 0 <= i < |s| ==> !('A' <= s[i] <= 'Z')
    ensures AsciiLower(s) == s
  {
  }

  /** Each backend's own word parses back to it. */
  lemma ParseBackendNames(b: Backend)
    ensures ParseBackend(BackendName(b)) == Ok(b)
  {
    var n := BackendName(b);
    TrimNoEdges(n);
    AsciiLowerFixed(n);
  }

  /** A backend with a reader of its own: everything but Auto. */
  type Concrete = b: Backend | b != Auto witness X11

  /** `pick_backends`: Auto tries Hyprland's tool first and then X11; a named backend is
      tried alone. */
  function PickBackends(setting: string): (r: Result<seq<Concrete>, LifelogError>)
    ensures r.Err? <==> ParseBackend(setting).Err?
    ensures r.Err? ==> r.error == ParseBackend(setting).error
    ensures ParseBackend(setting) == Ok(Auto) ==> r == Ok([Hyprctl, X11])
    ensures ParseBackend(setting) == Ok(X11) ==> r == Ok([X11])
    ensures ParseBackend(setting) == Ok(Hyprctl) ==> r == Ok([Hyprctl])
  {
    match ParseBackend(setting)
    case Err(e) => Err(e)
    case Ok(Auto) => Ok([Hyprctl, X11])
    case Ok(X11) => Ok([X11])
    case Ok(Hyprctl) => Ok([Hyprctl])
  }

  datatype WindowInfo = WindowInfo(application: string, windowTitle: string)

  /** What each external command gave: the class and title `hyprctl activewindow -j`
      decoded to (or how running or decoding it failed), the two `xdotool` outputs, the
      output of `xprop -root _NET_ACTIVE_WINDOW`, and the output of `xprop -id` for each
      window id. */
  datatype Tools = Tools(hyprctl: Result<(string, string), LifelogError>,
                         xdotool: Result<(string, string), LifelogError>,
                         xpropRoot: Result<string, LifelogError>,
                         xpropProps: string -> Result<string, LifelogError>)

  /** No white space at either end. */
  predicate Trimmed(s: string) {
    s == [] || (!IsWhitespace(s[0]) && !IsWhitespace(s[|s| - 1]))
  }

  lemma TrimTrimmed(s: string)
    ensures Trimmed(Trim(s))
  {
    var t := TrimStart(s);
    var r := TrimEnd(t);
    if r != [] {
      assert r[0] == t[0];
    }
  }

  /** A window the readers accept: some name, and both names trimmed. */
  predicate Accepted(w: WindowInfo) {
    (w.application != [] || w.windowTitle != []) && Trimmed(w.application) && Trimmed(w.windowTitle)
  }

  /** The check every reader ends with: a window with neither an application nor a title
      is a validation error on the reader's field. */
  function NonEmptyWindow(application: string, title: string, field: string, reason: string)
    : (r: Result<WindowInfo, LifelogError>)
    ensures r.Ok? <==> application != [] || title != []
    ensures r.Ok? ==> r.value == WindowInfo(application, title)
    ensures r.Err? ==> r.error == Validation(field, reason)
  {
    if application == [] && title == [] then Err(Validation(field, reason))
    else Ok(WindowInfo(application, title))
  }

  /** `read_active_window_hyprctl`: the decoded class and title, trimmed. */
  function ReadHyprctl(tools: Tools): (r: Result<WindowInfo, LifelogError>)
    ensures r.Ok? ==> Accepted(r.value)
    ensures tools.hyprctl.Err? ==> r == Err(tools.hyprctl.error)
  {
    match tools.hyprctl
    case Err(e) => Err(e)
    case Ok((cls, title)) =>
      TrimTrimmed(cls);
      TrimTrimmed(title);
      NonEmptyWindow(Trim(cls), Trim(title), "window_activity.hyprctl", "hyprctl returned empty active window")
  }

  /** `read_active_window_xdotool`: the class name and the window name, trimmed. */
  function ReadXdotool(tools: Tools): (r: Result<WindowInfo, LifelogError>)
    ensures r.Ok? ==> Accepted(r.value)
    ensures tools.xdotool.Err? ==> r == Err(tools.xdotool.error)
  {
    match tools.xdotool
    case Err(e) => Err(e)
    case Ok((cls, title)) =>
      TrimTrimmed(cls);
      TrimTrimmed(title);
      NonEmptyWindow(Trim(cls), Trim(title), "window_activity.xdotool", "xdotool returned empty active window")
  }

  /** The length of the leading run of characters that are not white space. */
  function WordEnd(t: string): (n: nat)
    ensures n <= |t|
    ensures forall i :: 0 <= i < n ==> !IsWhitespace(t[i])
    ensures n == |t| || IsWhitespace(t[n])
  {
    if t == [] || IsWhitespace(t[0]) then 0 else 1 + WordEnd(t[1..])
  }

  /** `split_whitespace`: the maximal runs of characters that are not white space. */
  function Words(s: string): (ws: seq<string>)
    ensures forall k :: 0 <= k < |ws| ==> IsWord(ws[k])
    decreases |s|
  {
    var t := TrimStart(s);
    if t == [] then []
    else
      var n := WordEnd(t);
      FirstWord(s, t, n);
      var rest := Words(t[n..]);
      WordsCons(t[..n], rest);
      [t[..n]] + rest
  }

  lemma FirstWord(s: string, t: string, n: nat)
    requires t == TrimStart(s) && t != [] && n == WordEnd(t)
    ensures 0 < n <= |t| <= |s| && IsWord(t[..n])
  {
  }

  lemma WordsCons(w: string, ws: seq<string>)
    requires IsWord(w) && forall k :: 0 <= k < |ws| ==> IsWord(ws[k])
    ensures forall k :: 0 <= k < |[w] + ws| ==> IsWord(([w] + ws)[k])
  {
  }

  /** A non-empty run of characters none of which is white space. */
  predicate IsWord(w: string) {
    w != [] && forall i :: 0 <= i < |w| ==> !IsWhitespace(w[i])
  }

  /** `find(|tok| tok.starts_with("0x"))`. */
  function FirstHex(ws: seq<string>): (r: Option<string>)
    ensures r.Some? <==> exists k :: 0 <= k < |ws| && StartsWith(ws[k], "0x")
    ensures r.Some? ==> exists k :: 0 <= k < |ws| && ws[k] == r.value && StartsWith(ws[k], "0x") &&
                                    forall j :: 0 <= j < k ==> !StartsWith(ws[j], "0x")
  {
    if ws == [] then None
    else if StartsWith(ws[0], "0x") then Some(ws[0])
    else
      var r := FirstHex(ws[1..]);
      assert forall k :: 1 <= k < |ws| ==> ws[k] == ws[1..][k - 1];
      if r.Some? then
        var k :| 0 <= k < |ws[1..]| && ws[1..][k] == r.value && StartsWith(ws[1..][k], "0x") &&
                 forall j :: 0 <= j < k ==> !StartsWith(ws[1..][j], "0x");
        assert ws[k + 1] == r.value;
        r
      else r
  }

  /** `split('"').skip(1).step_by(2)`: every second piece, from the second. */
  function OddPieces(ps: seq<string>): (r: seq<string>)
    ensures |r| == |ps| / 2
    ensures forall k :: 0 <= k < |r| ==> r[k] == ps[2 * k + 1]
  {
    if |ps| < 2 then [] else [ps[1]] + OddPieces(ps[2..])
  }

  /** The quoted tokens of a line. */
  function Quoted(line: string): seq<string> {
    OddPieces(Split(line, '"'))
  }

  /** One line of `xprop -id` output: a `WM_CLASS` line sets the application to its second
      quoted token, or to its only one; otherwise a line mentioning `_NET_WM_NAME` sets the
      title to its first quoted token; each token trimmed. */
  function XpropLine(line: string, w: WindowInfo): WindowInfo {
    var q := Quoted(line);
    if StartsWith(line, "WM_CLASS") then
      if |q| >= 2 then w.(application := Trim(q[1]))
      else if |q| == 1 then w.(application := Trim(q[0]))
      else w
    else if Contains(line, "_NET_WM_NAME") then
      if |q| >= 1 then w.(windowTitle := Trim(q[0])) else w
    else w
  }

  /** The names left after the lines, from `w` on. */
  function XpropLines(lines: seq<string>, w: WindowInfo): WindowInfo
    decreases |lines|
  {
    if lines == [] then w else XpropLines(lines[1..], XpropLine(lines[0], w))
  }

  /** The line loop of `read_active_window_xprop`, from two empty names. */
  method ParseXpropProps(props: string) returns (w: WindowInfo)
    ensures w == XpropLines(StrLines(props), WindowInfo("", ""))
    ensures Trimmed(w.application) && Trimmed(w.windowTitle)
  {
    w := WindowInfo("", "");
    var rest := StrLines(props);
    while rest != []
      invariant XpropLines(rest, w) == XpropLines(StrLines(props), WindowInfo("", ""))
      invariant Trimmed(w.application) && Trimmed(w.windowTitle)
      decreases |rest|
    {
      XpropLineTrimmed(rest[0], w);
      w := XpropLine(rest[0], w);
      rest := rest[1..];
    }
  }

  /** The pieces of a `WM_CLASS` line whose two tokens hold no quote. */
  lemma QuotedClassLine(pre: string, instance: string, cls: string, post: string)
    requires '"' !in pre && '"' !in instance && '"' !in cls && '"' !in post
    ensures Quoted(pre + "\"" + instance + "\", \"" + cls + "\"" + post) == [instance, cls]
  {
    var t4 := cls + ['"'] + post;
    var t3 := ", " + ['"'] + t4;
    var t2 := instance + ['"'] + t3;
    assert pre + "\"" + instance + "\", \"" + cls + "\"" + post == pre + ['"'] + t2;
    SplitAtSep(pre, '"', t2);
    SplitAtSep(instance, '"', t3);
    SplitAtSep(", ", '"', t4);
    SplitAtSep(cls, '"', post);
    SplitNoSep(post, '"');
    var ps := Split(pre + ['"'] + t2, '"');
    assert ps == [pre] + ([instance] + ([", "] + ([cls] + [post])));
  }

  /** The pieces of a line with one quoted token. */
  lemma QuotedNameLine(pre: string, title: string, post: string)
    requires '"' !in pre && '"' !in title && '"' !in post
    ensures Quoted(pre + "\"" + title + "\"" + post) == [title]
  {
    var line := pre + "\"" + title + "\"" + post;
    assert line == pre + ['"'] + (title + ['"'] + post);
    SplitAtSep(pre, '"', title + ['"'] + post);
    SplitAtSep(title, '"', post);
    SplitNoSep(post, '"');
    assert Split(line, '"') == [pre, title, post];
  }

  /** A `WM_CLASS` line with two quoted tokens sets the application to the second. */
  lemma ClassLineSets(l1: string, pre1: string, instance: string, cls: string, w: WindowInfo)
    requires l1 == pre1 + "\"" + instance + "\", \"" + cls + "\""
    requires StartsWith(pre1, "WM_CLASS")
    requires '"' !in pre1 && '"' !in instance && '"' !in cls
    ensures XpropLine(l1, w) == w.(application := Trim(cls))
  {
    QuotedClassLine(pre1, instance, cls, "");
    assert l1 == pre1 + "\"" + instance + "\", \"" + cls + "\"" + "";
    assert l1[..8] == pre1[..8];
  }

  /** A line naming `_NET_WM_NAME` but not starting with `WM_CLASS`, with one quoted
      token, sets the title to it. */
  lemma {:induction false} NameLineSets(l2: string, pre2: string, title: string, w: WindowInfo)
    requires l2 == pre2 + "\"" + title + "\""
    requires |pre2| >= 8 && !StartsWith(pre2, "WM_CLASS") && Contains(pre2, "_NET_WM_NAME")
    requires '"' !in pre2 && '"' !in title
    ensures XpropLine(l2, w) == w.(windowTitle := Trim(title))
  {
    NameLineQuoted(l2, pre2, title);
    TitleLine(l2, pre2, "\"" + title + "\"", title, w);
  }

  /** A line whose first eight characters are not `WM_CLASS`, that names `_NET_WM_NAME`
      and has one quoted token, sets the title to it. */
  lemma TitleLine(line: string, pre: string, post: string, title: string, w: WindowInfo)
    requires line == pre + post && |pre| >= 8 && !StartsWith(pre, "WM_CLASS")
    requires Contains(pre, "_NET_WM_NAME") && Quoted(line) == [title]
    ensures XpropLine(line, w) == w.(windowTitle := Trim(title))
  {
    NotClassLine(line, pre, post);
    ContainsExtended(line, pre, post, "_NET_WM_NAME");
  }

  lemma NameLineQuoted(l2: string, pre2: string, title: string)
    requires l2 == pre2 + "\"" + title + "\""
    requires '"' !in pre2 && '"' !in title
    ensures Quoted(l2) == [title]
  {
    QuotedNameLine(pre2, title, "");
    assert l2 == pre2 + "\"" + title + "\"" + "";
  }

  /** A line is not a `WM_CLASS` line when its first eight characters already are not. */
  lemma NotClassLine(s: string, pre: string, post: string)
    requires s == pre + post && |pre| >= 8 && !StartsWith(pre, "WM_CLASS")
    ensures !StartsWith(s, "WM_CLASS")
  {
    assert s[..8] == pre[..8];
  }

  lemma ContainsExtended(s: string, pre: string, post: string, pat: string)
    requires s == pre + post && Contains(pre, pat)
    ensures Contains(s, pat)
  {
    ContainsBefore(pre, post, pat);
  }

  /** Two lines, each ending in a quote and followed by a line feed. */
  lemma TwoLines(l1: string, l2: string)
    requires '\n' !in l1 && '\n' !in l2
    requires l1 != [] && l1[|l1| - 1] == '"' && l2 != [] && l2[|l2| - 1] == '"'
    ensures StrLines(l1 + "\n" + l2 + "\n") == [l1, l2]
  {
    var rest := l2 + "\n";
    assert StrLines(l1 + "\n" + l2 + "\n") == [DropCr(l1)] + StrLines(rest) by {
      assert l1 + "\n" + l2 + "\n" == l1 + "\n" + rest;
      StrLinesCons(l1, rest);
    }
    assert StrLines(rest) == [l2] by {
      LastLine(l2);
    }
    assert DropCr(l1) == l1;
  }

  lemma LastLine(l: string)
    requires '\n' !in l && l != [] && l[|l| - 1] == '"'
    ensures StrLines(l + "\n") == [l]
  {
    assert l + "\n" == l + "\n" + "";
    StrLinesCons(l, "");
  }

  /** Output such as `WM_CLASS(STRING) = "Navigator", "firefox"` then
      `_NET_WM_NAME(UTF8_STRING) = "Some Title"`, for any quote-free instance, class and
      title: the application is the class (the second token) and the title the quoted
      name, both trimmed. */
  lemma XpropClassThenName(pre1: string, instance: string, cls: string, pre2: string, title: string)
    requires StartsWith(pre1, "WM_CLASS")
    requires |pre2| >= 8 && !StartsWith(pre2, "WM_CLASS") && Contains(pre2, "_NET_WM_NAME")
    requires '"' !in pre1 && '"' !in instance && '"' !in cls && '"' !in pre2 && '"' !in title
    requires '\n' !in pre1 && '\n' !in instance && '\n' !in cls && '\n' !in pre2 && '\n' !in title
    ensures XpropLines(StrLines(pre1 + "\"" + instance + "\", \"" + cls + "\"\n" +
                                pre2 + "\"" + title + "\"\n"),
                       WindowInfo("", "")) == WindowInfo(Trim(cls), Trim(title))
  {
    var l1 := pre1 + "\"" + instance + "\", \"" + cls + "\"";
    var l2 := pre2 + "\"" + title + "\"";
    ClassThenNameLines(pre1 + "\"" + instance + "\", \"" + cls, pre2, title);
    var w0 := WindowInfo("", "");
    ClassLineSets(l1, pre1, instance, cls, w0);
    var w1 := XpropLine(l1, w0);
    NameLineSets(l2, pre2, title, w1);
    XpropTwoLines(l1, l2, w0);
  }

  /** The two lines of that output, each without its line feed. */
  lemma ClassThenNameLines(x1: string, pre2: string, title: string)
    requires '\n' !in x1 && '\n' !in pre2 && '\n' !in title
    ensures StrLines(x1 + "\"\n" + pre2 + "\"" + title + "\"\n") == [x1 + "\"", pre2 + "\"" + title + "\""]
  {
    var l1, l2 := x1 + "\"", pre2 + "\"" + title + "\"";
    Regroup(x1, pre2, title);
    QuoteEnded(x1);
    QuoteEnded(pre2 + "\"" + title);
    assert '\n' !in l1 && '\n' !in l2;
    TwoLines(l1, l2);
  }

  /** The line feeds of two lines that each end in a quote. */
  lemma Regroup(x1: string, pre2: string, title: string)
    ensures x1 + "\"\n" + pre2 + "\"" + title + "\"\n" ==
            (x1 + "\"") + "\n" + (pre2 + "\"" + title + "\"") + "\n"
  {
  }

  lemma QuoteEnded(x: string)
    ensures x + "\"" != [] && (x + "\"")[|x + "\""| - 1] == '"'
  {
  }

  lemma XpropTwoLines(l1: string, l2: string, w: WindowInfo)
    ensures XpropLines([l1, l2], w) == XpropLine(l2, XpropLine(l1, w))
  {
    assert [l1, l2][1..] == [l2] && [l2][1..] == [];
    assert XpropLines([l2], XpropLine(l1, w)) == XpropLines([], XpropLine(l2, XpropLine(l1, w)));
  }

  /** `read_active_window_xprop`: the first token of the root window's output that starts
      with "0x" is the window id, whose `WM_CLASS` and `_NET_WM_NAME` lines give the names. */
  method ReadXprop(tools: Tools) returns (r: Result<WindowInfo, LifelogError>)
    ensures r == XpropResult(tools)
    ensures r.Ok? ==> Accepted(r.value)
  {
    if tools.xpropRoot.Err? {
      return Err(tools.xpropRoot.error);
    }
    var winId := FirstHex(Words(tools.xpropRoot.value));
    if winId.None? {
      return Err(Validation("window_activity.xprop", "failed to parse active window id"));
    }
    var props := tools.xpropProps(winId.value);
    if props.Err? {
      return Err(props.error);
    }
    var w := ParseXpropProps(props.value);
    r := NonEmptyWindow(w.application, w.windowTitle, "window_activity.xprop",
                        "xprop returned empty WM_CLASS/_NET_WM_NAME");
  }

  /** What `read_active_window_xprop` returns. */
  function XpropResult(tools: Tools): Result<WindowInfo, LifelogError> {
    match tools.xpropRoot
    case Err(e) => Err(e)
    case Ok(root) =>
      match FirstHex(Words(root))
      case None => Err(Validation("window_activity.xprop", "failed to parse active window id"))
      case Some(id) =>
        match tools.xpropProps(id)
        case Err(e) => Err(e)
        case Ok(props) =>
          var w := XpropLines(StrLines(props), WindowInfo("", ""));
          NonEmptyWindow(w.application, w.windowTitle, "window_activity.xprop",
                         "xprop returned empty WM_CLASS/_NET_WM_NAME")
  }

  /** `read_active_window_x11_best_effort`: `xdotool`, and `xprop` when that fails. */
  function ReadX11(tools: Tools): Result<WindowInfo, LifelogError> {
    if ReadXdotool(tools).Ok? then ReadXdotool(tools) else XpropResult(tools)
  }

  function ReadWith(b: Concrete, tools: Tools): Result<WindowInfo, LifelogError> {
    if b == Hyprctl then ReadHyprctl(tools) else ReadX11(tools)
  }

  /** The loop of `read_active_window` over the picked backends: the first success, else
      the last error; the fallback error only for an empty list. */
  function TryBackends(bs: seq<Concrete>, read: Concrete -> Result<WindowInfo, LifelogError>,
                       lastErr: Option<LifelogError>): Result<WindowInfo, LifelogError>
    decreases |bs|
  {
    if bs == [] then
      Err(lastErr.GetOr(Validation("window_activity", "failed to read active window")))
    else
      var res := read(bs[0]);
      if res.Ok? then res else TryBackends(bs[1..], read, Some(res.error))
  }

  /** The backends' readers are asked in order: the result is the first success, and when
      none succeeds the last backend's error. */
  lemma {:induction false} TryBackendsSpec(bs: seq<Concrete>, read: Concrete -> Result<WindowInfo, LifelogError>,
                                           lastErr: Option<LifelogError>)
    ensures var r := TryBackends(bs, read, lastErr);
            (bs != [] ==> (r.Ok? <==> exists i :: 0 <= i < |bs| && read(bs[i]).Ok?)) &&
            (r.Ok? ==> exists i :: 0 <= i < |bs| && r == read(bs[i]) &&
                                  forall j :: 0 <= j < i ==> read(bs[j]).Err?) &&
            (bs != [] && r.Err? ==> r == read(Last(bs)))
    decreases |bs|
  {
    if bs != [] {
      var res := read(bs[0]);
      if res.Err? {
        var tail := bs[1..];
        TryBackendsSpec(tail, read, Some(res.error));
        assert forall i :: 1 <= i < |bs| ==> bs[i] == tail[i - 1];
        var r := TryBackends(tail, read, Some(res.error));
        if r.Ok? {
          var i :| 0 <= i < |tail| && r == read(tail[i]) &&
                   forall j :: 0 <= j < i ==> read(tail[j]).Err?;
          assert r == read(bs[i + 1]);
        }
        if tail == [] {
          assert Last(bs) == bs[0];
        } else {
          assert Last(bs) == Last(tail);
        }
      }
    }
  }

  /** Each backend's reader over the commands' outputs. */
  function ReaderOf(tools: Tools): Concrete -> Result<WindowInfo, LifelogError> {
    (b: Concrete) => ReadWith(b, tools)
  }

  /** `read_active_window`. */
  function ReadActiveWindow(setting: string, tools: Tools): Result<WindowInfo, LifelogError> {
    match PickBackends(setting)
    case Err(e) => Err(e)
    case Ok(bs) => TryBackends(bs, ReaderOf(tools), None)
  }

  /** Under Auto, Hyprland's reader is asked first and X11's result stands when it fails;
      a named backend's reader alone decides. */
  lemma {:induction false} ReadActiveWindowSpec(setting: string, tools: Tools)
    ensures ParseBackend(setting).Err? ==> ReadActiveWindow(setting, tools) == Err(ParseBackend(setting).error)
    ensures ParseBackend(setting) == Ok(Auto) ==>
              ReadActiveWindow(setting, tools) ==
                (if ReadHyprctl(tools).Ok? then ReadHyprctl(tools) else ReadX11(tools))
    ensures ParseBackend(setting) == Ok(Hyprctl) ==> ReadActiveWindow(setting, tools) == ReadHyprctl(tools)
    ensures ParseBackend(setting) == Ok(X11) ==> ReadActiveWindow(setting, tools) == ReadX11(tools)
  {
    var read := ReaderOf(tools);
    assert read(Hyprctl) == ReadHyprctl(tools) && read(X11) == ReadX11(tools);
    TryOne(Hyprctl, read, None);
    TryOne(X11, read, None);
    TryTwo(Hyprctl, X11, read);
  }

  lemma TryOne(b: Concrete, read: Concrete -> Result<WindowInfo, LifelogError>, lastErr: Option<LifelogError>)
    ensures TryBackends([b], read, lastErr) == read(b)
  {
    assert [b][1..] == [];
  }

  lemma TryTwo(b: Concrete, c: Concrete, read: Concrete -> Result<WindowInfo, LifelogError>)
    ensures TryBackends([b, c], read, None) == if read(b).Ok? then read(b) else read(c)
  {
    assert [b, c][1..] == [c];
    if read(b).Err? {
      TryOne(c, read, Some(read(b).error));
    }
  }

  /** Whatever backend answers, a returned window has a name, and both names are
      trimmed. */
  lemma ReadActiveWindowAccepted(setting: string, tools: Tools)
    ensures ReadActiveWindow(setting, tools).Ok? ==> Accepted(ReadActiveWindow(setting, tools).value)
  {
    match PickBackends(setting)
    case Err(_) =>
    case Ok(bs) =>
      var read := ReaderOf(tools);
      TryBackendsSpec(bs, read, None);
      var r := ReadActiveWindow(setting, tools);
      if r.Ok? {
        var i :| 0 <= i < |bs| && r == read(bs[i]);
        ReadWithAccepted(bs[i], tools);
      }
  }

  /** Each reader returns only accepted windows. */
  lemma ReadWithAccepted(b: Concrete, tools: Tools)
    ensures ReadWith(b, tools).Ok? ==> Accepted(ReadWith(b, tools).value)
  {
    if b == X11 && !ReadXdotool(tools).Ok? && XpropResult(tools).Ok? {
      XpropTrimmed(StrLines(tools.xpropProps(FirstHex(Words(tools.xpropRoot.value)).value).value));
    }
  }

  /** The names the `xprop` lines leave are trimmed. */
  lemma {:induction false} XpropTrimmed(lines: seq<string>)
    ensures var w := XpropLines(lines, WindowInfo("", ""));
            Trimmed(w.application) && Trimmed(w.windowTitle)
  {
    XpropTrimmedFrom(lines, WindowInfo("", ""));
  }

  /** One line keeps both names trimmed. */
  lemma XpropLineTrimmed(line: string, w: WindowInfo)
    requires Trimmed(w.application) && Trimmed(w.windowTitle)
    ensures Trimmed(XpropLine(line, w).application) && Trimmed(XpropLine(line, w).windowTitle)
  {
    var q := Quoted(line);
    if |q| >= 2 {
      TrimTrimmed(q[1]);
    }
    if |q| >= 1 {
      TrimTrimmed(q[0]);
    }
  }

  lemma {:induction false} XpropTrimmedFrom(lines: seq<string>, w: WindowInfo)
    requires Trimmed(w.application) && Trimmed(w.windowTitle)
    ensures var v := XpropLines(lines, w);
            Trimmed(v.application) && Trimmed(v.windowTitle)
    decreases |lines|
  {
    if lines != [] {
      XpropLineTrimmed(lines[0], w);
      XpropTrimmedFrom(lines[1..], XpropLine(lines[0], w));
    }
  }

  /** `RecordType`. */
  datatype RecordType = Point | Interval

  /** `WindowActivityFrame`, as `emit_span` fills it; the duration is kept as the whole
      milliseconds it is computed from. */
  datatype WindowActivityFrame = WindowActivityFrame(
    uuid: string, timestamp: Option<ProtoTimestamp>, application: string, windowTitle: string,
    focused: bool, durationMillis: nat, tDevice: Option<ProtoTimestamp>,
    tCanonical: Option<ProtoTimestamp>, tEnd: Option<ProtoTimestamp>, recordType: RecordType)

  datatype ActiveSpan = ActiveSpan(info: WindowInfo, start: Instant)

  /** `emit_span`: an interval record of the span's window from its start to `end`, focused,
      its device and canonical times the start, its duration never negative. */
  function SpanFrame(span: ActiveSpan, end: Instant, uuid: string): (f: WindowActivityFrame)
    ensures f.application == span.info.application && f.windowTitle == span.info.windowTitle
    ensures f.timestamp == Types.ToPbTs(span.start) == f.tDevice == f.tCanonical
    ensures f.tEnd == Types.ToPbTs(end)
    ensures f.focused && f.recordType == Interval
    ensures span.start <= end ==> f.durationMillis == NumMilliseconds(end - span.start)
    ensures end < span.start ==> f.durationMillis == 0
  {
    var ms := NumMilliseconds(end - span.start);
    WindowActivityFrame(uuid, Types.ToPbTs(span.start), span.info.application, span.info.windowTitle,
                        true, if ms > 0 then ms else 0, Types.ToPbTs(span.start),
                        Types.ToPbTs(span.start), Types.ToPbTs(end), Interval)
  }

  /** The polling period: the configured one when positive, else one second. */
  function PollInterval(interval: real): (r: real)
    ensures r > 0.0
    ensures interval > 0.0 ==> r == interval
    ensures interval <= 0.0 ==> r == 1.0
  {
    if interval > 0.0 then interval else 1.0
  }

  /** The state of `run`: the window in focus since when, and the records appended to the
      disk buffer so far. */
  class SpanTracker {
    var current: Option<ActiveSpan>
    var emitted: seq<WindowActivityFrame>

    constructor ()
      ensures current == None && emitted == []
    {
      current := None;
      emitted := [];
    }

    /** One pass of the loop at `now`: a failed read changes nothing; a window different
        from the current one (or the first) closes the current span into a record, kept
        when the append succeeds, and starts a new span at now; the same window changes
        nothing. */
    method Observe(now: Instant, read: Result<WindowInfo, LifelogError>, uuid: string, appended: bool)
      modifies this
      ensures read.Err? ==> current == old(current) && emitted == old(emitted)
      ensures read.Ok? && old(current).Some? && old(current).value.info == read.value ==>
                current == old(current) && emitted == old(emitted)
      ensures read.Ok? && (old(current).None? || old(current).value.info != read.value) ==>
                current == Some(ActiveSpan(read.value, now)) &&
                emitted == old(emitted) + (if old(current).Some? && appended
                                           then [SpanFrame(old(current).value, now, uuid)] else [])
    {
      if read.Ok? {
        var info := read.value;
        var changed := current.None? || current.value.info != info;
        if changed {
          if current.Some? && appended {
            emitted := emitted + [SpanFrame(current.value, now, uuid)];
          }
          current := Some(ActiveSpan(info, now));
        }
      }
    }
  }

  /** A reading of the focused window at its instant. */
  type Reading = (Instant, WindowInfo)

  /** The open span and the records after the readings, one `Observe` after another from
      an empty tracker, every read and append succeeding. */
  function RunState(readings: seq<Reading>, uuids: nat -> string): (Option<ActiveSpan>, seq<WindowActivityFrame>)
    decreases |readings|
  {
    if readings == [] then (None, [])
    else
      var (current, emitted) := RunState(readings[..|readings| - 1], uuids);
      var (now, info) := Last(readings);
      if current.None? then (Some(ActiveSpan(info, now)), emitted)
      else if current.value.info == info then (current, emitted)
      else (Some(ActiveSpan(info, now)), emitted + [SpanFrame(current.value, now, uuids(|readings| - 1))])
  }

  function InfoOf(f: WindowActivityFrame): WindowInfo {
    WindowInfo(f.application, f.windowTitle)
  }

  function WindowOf(r: Reading): WindowInfo { r.1 }

  /** The windows of the records, then the window of the open span, are the windows read
      with repeats in a row collapsed: a record is written exactly when the window changes,
      and none is lost. */
  lemma {:induction false} RunStateWindows(readings: seq<Reading>, uuids: nat -> string)
    requires readings != []
    ensures RunState(readings, uuids).0.Some?
    ensures Map(RunState(readings, uuids).1, InfoOf) + [RunState(readings, uuids).0.value.info] ==
            Dedup(Map(readings, WindowOf))
    decreases |readings|
  {
    var init := readings[..|readings| - 1];
    assert readings == init + [Last(readings)];
    MapSnoc(init, Last(readings), WindowOf);
    if init == [] {
      assert Map(readings, WindowOf) == [Last(readings).1];
    } else {
      RunStateWindows(init, uuids);
      RunStateWindowsStep(readings, uuids);
    }
  }

  lemma RunStateWindowsStep(readings: seq<Reading>, uuids: nat -> string)
    requires |readings| >= 2
    requires var init := readings[..|readings| - 1];
             RunState(init, uuids).0.Some? &&
             Map(RunState(init, uuids).1, InfoOf) + [RunState(init, uuids).0.value.info] ==
             Dedup(Map(init, WindowOf))
    requires Map(readings, WindowOf) == Map(readings[..|readings| - 1], WindowOf) + [Last(readings).1]
    ensures RunState(readings, uuids).0.Some?
    ensures Map(RunState(readings, uuids).1, InfoOf) + [RunState(readings, uuids).0.value.info] ==
            Dedup(Map(readings, WindowOf))
  {
    var init := readings[..|readings| - 1];
    var (current, emitted) := RunState(init, uuids);
    var (now, info) := Last(readings);
    var ws := Map(init, WindowOf);
    var d := Map(emitted, InfoOf) + [current.value.info];
    assert ws[|ws| - 1] == current.value.info by {
      assert Dedup(ws)[|Dedup(ws)| - 1] == ws[|ws| - 1];
    }
    DedupSnoc(ws, info);
    if current.value.info != info {
      var f := SpanFrame(current.value, now, uuids(|readings| - 1));
      MapSnoc(emitted, f, InfoOf);
      assert InfoOf(f) == current.value.info;
    }
  }

  /** A run of the loop over observations that all succeed: the records and the open span
      are those `RunState` gives, so two consecutive records share their boundary, each
      record's window differs from the next span's, and the open span is the last window
      seen. The readings are given with their instants, the appends all succeed. */
  method Run(readings: seq<Reading>, uuids: nat -> string) returns (t: SpanTracker)
    ensures fresh(t)
    ensures (t.current, t.emitted) == RunState(readings, uuids)
    ensures readings == [] ==> t.current == None && t.emitted == []
    ensures readings != [] ==> t.current.Some? && t.current.value.info == Last(readings).1
    ensures forall k :: 0 <= k < |t.emitted| ==> t.emitted[k].recordType == Interval
    ensures forall k :: 0 <= k < |t.emitted| - 1 ==> t.emitted[k].tEnd == t.emitted[k + 1].timestamp
    ensures t.current.Some? && t.emitted != [] ==>
              Last(t.emitted).tEnd == Types.ToPbTs(t.current.value.start) &&
              (Last(t.emitted).application, Last(t.emitted).windowTitle) !=
                (t.current.value.info.application, t.current.value.info.windowTitle)
  {
    t := new SpanTracker();
    var i := 0;
    while i < |readings|
      invariant 0 <= i <= |readings|
      invariant i == 0 ==> t.current == None && t.emitted == []
      invariant i > 0 ==> t.current.Some? && t.current.value.info == readings[i - 1].1
      invariant forall k :: 0 <= k < |t.emitted| ==> t.emitted[k].recordType == Interval
      invariant forall k :: 0 <= k < |t.emitted| - 1 ==> t.emitted[k].tEnd == t.emitted[k + 1].timestamp
      invariant t.current.Some? && t.emitted != [] ==>
                  Last(t.emitted).tEnd == Types.ToPbTs(t.current.value.start) &&
                  (Last(t.emitted).application, Last(t.emitted).windowTitle) !=
                    (t.current.value.info.application, t.current.value.info.windowTitle)
      invariant (t.current, t.emitted) == RunState(readings[..i], uuids)
      modifies t
    {
      assert readings[..i + 1][..i] == readings[..i];
      t.Observe(readings[i].0, Ok(readings[i].1), uuids(i), true);
      i := i + 1;
    }
    assert readings[..|readings|] == readings;
  }
}
