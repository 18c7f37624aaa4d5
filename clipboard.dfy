/** The clipboard collector (collector/src/modules/clipboard.rs): which copy tool is asked,
    how the text it prints is normalised and cut to the configured size, and the change
    detection of `run` that keeps the disk buffer free of repeated texts. Each tool is a
    parameter giving how its process ended and what it printed (already decoded). */
module Clipboard {
  import opened Wrappers
  import opened Text
  import opened Time
  import opened Errors
  import opened Sorting
  import Types

  /** The line-ending characters that normalisation strips. */
  const LineEnds: set<char> := {'\n', '\r'}

  /** What the normalisation of `read_clipboard_text` makes of a tool's output: only when
      it ends with a line feed are all trailing line feeds and carriage returns removed. */
  function Normalized(s: string): (r: string)
    ensures StartsWith(s, r)
    ensures EndsWith(s, "\n") ==> (r == [] || r[|r| - 1] !in LineEnds) &&
                                  forall i :: |r| <= i < |s| ==> s[i] in LineEnds
    ensures !EndsWith(s, "\n") ==> r == s
  {
    if EndsWith(s, "\n") then TrimEndChars(s, LineEnds) else s
  }

  /** The `while` loop that pops the trailing line ends, one character at a time. */
  method NormalizeText(s: string) returns (r: string)
    ensures r == Normalized(s)
  {
    r := s;
    if EndsWith(s, "\n") {
      while r != [] && r[|r| - 1] in LineEnds
        invariant TrimEndChars(r, LineEnds) == TrimEndChars(s, LineEnds)
        decreases |r|
      {
        r := r[..|r| - 1];
      }
    }
  }

  /** Normalising twice is normalising once, so equal clipboard contents compare equal
      however often they pass through. */
  lemma NormalizedIdempotent(s: string)
    ensures Normalized(Normalized(s)) == Normalized(s)
  {
    var r := Normalized(s);
    if EndsWith(s, "\n") && r != [] {
      assert r[|r| - 1] != '\n';
      assert !EndsWith(r, "\n");
    }
  }

  /** A text copied with Windows line ends normalises like the same text with Unix ones,
      and a text that merely ends in a carriage return is kept whole. */
  lemma NormalizedLineEnds(t: string)
    ensures Normalized(t + "\r\n") == Normalized(t + "\n") == TrimEndChars(t, LineEnds)
    ensures Normalized(t + "\r") == t + "\r"
  {
    TrimEndCharsSnoc(t, '\r');
    TrimEndCharsSnoc(t + "\r", '\n');
    assert t + "\r" + "\n" == t + "\r\n";
    TrimEndCharsSnoc(t, '\n');
    var u := t + "\r";
    assert u[|u| - 1] == '\r';
  }

  /** A trailing line-end character is removed along with the ones before it. */
  lemma TrimEndCharsSnoc(t: string, c: char)
    requires c in LineEnds
    ensures TrimEndChars(t + [c], LineEnds) == TrimEndChars(t, LineEnds)
  {
    assert (t + [c])[..|t|] == t;
  }

  /** The number of bytes UTF-8 uses for a character. */
  function Utf8Width(c: char): (w: nat)
    ensures 1 <= w <= 4
    ensures w == 1 <==> c as int < 0x80
  {
    if c as int < 0x80 then 1 else if c as int < 0x800 then 2 else if c as int < 0x1_0000 then 3 else 4
  }

  /** `String::len`: the length of the text in UTF-8 bytes. */
  function ByteLen(s: string): (n: nat)
    ensures n >= |s|
  {
    if s == [] then 0 else Utf8Width(s[0]) + ByteLen(s[1..])
  }

  lemma {:induction false} ByteLenAppend(a: string, b: string)
    ensures ByteLen(a + b) == ByteLen(a) + ByteLen(b)
  {
    if a != [] {
      assert (a + b)[0] == a[0] && (a + b)[1..] == a[1..] + b;
      assert ByteLen(a + b) == Utf8Width(a[0]) + ByteLen(a[1..] + b);
      ByteLenAppend(a[1..], b);
    } else {
      assert a + b == b;
    }
  }

  /** A longer prefix has strictly more bytes. */
  lemma ByteLenPrefixLess(s: string, i: nat, j: nat)
    requires i < j <= |s|
    ensures ByteLen(s[..i]) < ByteLen(s[..j])
  {
    assert s[..j] == s[..i] + s[i..j];
    ByteLenAppend(s[..i], s[i..j]);
  }

  /** `str::is_char_boundary`: `n` bytes end after a whole character. */
  predicate IsCharBoundary(s: string, n: nat) {
    exists k :: 0 <= k <= |s| && ByteLen(s[..k]) == n
  }

  /** The longest prefix of whole characters that fits in `n` bytes. */
  function TruncateToBoundary(s: string, n: nat): (r: string)
    ensures StartsWith(s, r)
    ensures ByteLen(r) <= n
    ensures |r| < |s| ==> ByteLen(r) + Utf8Width(s[|r|]) > n
    ensures ByteLen(s) <= n ==> r == s
    decreases |s|
  {
    if s == [] then []
    else if Utf8Width(s[0]) <= n then
      var r := [s[0]] + TruncateToBoundary(s[1..], n - Utf8Width(s[0]));
      assert r[0] == s[0] && r[1..] == TruncateToBoundary(s[1..], n - Utf8Width(s[0]));
      r
    else []
  }

  /** `String::truncate(n)` as the collector calls it: a text of at most `n` bytes stays
      whole; otherwise it is cut at byte `n`, and the call panics (None here) when byte `n`
      falls inside a character. */
  function TruncateAsWritten(s: string, n: nat): (r: Option<string>)
    ensures r.Some? <==> ByteLen(s) <= n || IsCharBoundary(s, n)
    ensures r.Some? ==> StartsWith(s, r.value) && ByteLen(r.value) == Min(n, ByteLen(s))
  {
    if ByteLen(s) <= n then Some(s)
    else
      var t := TruncateToBoundary(s, n);
      TruncateBoundaryExact(s, n);
      if ByteLen(t) == n then Some(t) else None
  }

  function Min(a: nat, b: nat): nat { if a <= b then a else b }

  /** The cut reaches exactly `n` bytes precisely when `n` is a character boundary. */
  lemma TruncateBoundaryExact(s: string, n: nat)
    requires n < ByteLen(s)
    ensures ByteLen(TruncateToBoundary(s, n)) == n <==> IsCharBoundary(s, n)
  {
    var t := TruncateToBoundary(s, n);
    assert s[..|t|] == t;
    if IsCharBoundary(s, n) {
      var k :| 0 <= k <= |s| && ByteLen(s[..k]) == n;
      if |t| < k {
        assert s[..|t| + 1] == t + [s[|t|]];
        ByteLenAppend(t, [s[|t|]]);
        assert ByteLen([s[|t|]]) == Utf8Width(s[|t|]) + ByteLen([]);
        if |t| + 1 < k {
          ByteLenPrefixLess(s, |t| + 1, k);
        }
      } else if |t| > k {
        ByteLenPrefixLess(s, k, |t|);
      }
    }
  }

  /** Where the limit falls on a character boundary the cut is the same in both readings,
      and on ASCII text every limit does. */
  lemma TruncateAgrees(s: string, n: nat)
    requires IsCharBoundary(s, n) || (forall i :: 0 <= i < |s| ==> s[i] as int < 0x80)
    ensures TruncateAsWritten(s, n) == Some(TruncateToBoundary(s, n))
  {
    if !IsCharBoundary(s, n) {
      AsciiByteLen(s);
      if n < |s| {
        AsciiByteLen(s[..n]);
        assert ByteLen(s[..n]) == n;
      }
    }
  }

  lemma {:induction false} AsciiByteLen(s: string)
    requires forall i :: 0 <= i < |s| ==> s[i] as int < 0x80
    ensures ByteLen(s) == |s|
  {
    if s != [] {
      AsciiByteLen(s[1..]);
    }
  }

  /** A limit that falls inside the first character makes the collector's cut panic, where
      the whole-character cut leaves nothing. */
  lemma TruncateAsWrittenPanics(c: char, rest: string, n: nat)
    requires 0 < n < Utf8Width(c)
    ensures TruncateAsWritten([c] + rest, n) == None
    ensures TruncateToBoundary([c] + rest, n) == []
  {
    var s := [c] + rest;
    assert s[0] == c && s[..1] == [c];
    assert ByteLen([c]) == Utf8Width(c) + ByteLen([]);
    forall k | 0 <= k <= |s| ensures ByteLen(s[..k]) != n {
      if k > 1 {
        ByteLenPrefixLess(s, 1, k);
      }
    }
    ByteLenAppend([c], rest);
  }

  /** How a copy tool's process ended: it could not be started, or it exited (with or
      without success) having printed `stdout`. */
  datatype ToolRun = SpawnFailed | Exited(success: bool, stdout: string)

  type Command = (string, seq<string>)

  /** The tools `read_clipboard_text` tries, in order: Wayland's first, then X11's. */
  const Candidates: seq<Command> := [
    ("wl-paste", ["--no-newline"]),
    ("xclip", ["-o", "-selection", "clipboard"]),
    ("xsel", ["--clipboard", "--output"])
  ]

  const ReadFailure: LifelogError := Validation("clipboard", "failed to read clipboard via wl-paste/xclip/xsel")

  /** What one tool contributes: nothing when it failed or its normalised text is empty,
      otherwise that text, cut to `maxBytes` when the limit is set and exceeded. */
  function Accept(run: ToolRun, maxBytes: nat): (r: Option<string>)
    ensures r.Some? <==> run.Exited? && run.success && Normalized(run.stdout) != []
    ensures r.Some? ==> StartsWith(Normalized(run.stdout), r.value)
    ensures r.Some? && maxBytes > 0 ==> ByteLen(r.value) <= maxBytes
    ensures r.Some? && (maxBytes == 0 || ByteLen(Normalized(run.stdout)) <= maxBytes) ==>
              r.value == Normalized(run.stdout)
  {
    match run
    case SpawnFailed => None
    case Exited(ok, out) =>
      if !ok then None
      else
        var s := Normalized(out);
        if s == [] then None
        else if maxBytes > 0 && ByteLen(s) > maxBytes then
          var t := TruncateToBoundary(s, maxBytes);
          assert StartsWith(Normalized(run.stdout), t) by {
            assert s == Normalized(run.stdout);
          }
          Some(t)
        else Some(s)
  }

  /** `read_clipboard_text` over a list of tools, `contribute` giving each tool's contribution:
      the first contribution, else the validation error once every tool has been tried. */
  function FirstText(cands: seq<Command>, contribute: Command -> Option<string>): Result<string, LifelogError>
    decreases |cands|
  {
    if cands == [] then Err(ReadFailure)
    else
      match contribute(cands[0])
      case Some(t) => Ok(t)
      case None => FirstText(cands[1..], contribute)
  }

  /** The tools are asked in order and the first that yields text decides; when none does,
      the error is the validation error on the "clipboard" field. */
  lemma {:induction false} FirstTextSpec(cands: seq<Command>, contribute: Command -> Option<string>)
    ensures var r := FirstText(cands, contribute);
            (r.Ok? <==> exists i :: 0 <= i < |cands| && contribute(cands[i]).Some?) &&
            (r.Ok? ==> exists i :: 0 <= i < |cands| && contribute(cands[i]) == Some(r.value) &&
                                  forall j :: 0 <= j < i ==> contribute(cands[j]).None?) &&
            (r.Err? ==> r.error == ReadFailure)
    decreases |cands|
  {
    if cands != [] && contribute(cands[0]).None? {
      var tail := cands[1..];
      FirstTextSpec(tail, contribute);
      assert forall i :: 1 <= i < |cands| ==> cands[i] == tail[i - 1];
      var r := FirstText(tail, contribute);
      if r.Ok? {
        var i :| 0 <= i < |tail| && contribute(tail[i]) == Some(r.value) &&
                 forall j :: 0 <= j < i ==> contribute(tail[j]).None?;
        assert contribute(cands[i + 1]) == Some(r.value);
      }
    }
  }

  /** What the copy tools contribute when `run` says how each one ended. */
  function Contribution(run: Command -> ToolRun, maxBytes: nat): Command -> Option<string> {
    c => Accept(run(c), maxBytes)
  }

  /** `read_clipboard_text`: the tools tried in turn, the trailing line ends popped by a loop
      and the text cut at the last whole character within the limit. */
  method ReadClipboardText(run: Command -> ToolRun, maxBytes: nat) returns (r: Result<string, LifelogError>)
    ensures r == FirstText(Candidates, Contribution(run, maxBytes))
  {
    var i := 0;
    while i < |Candidates|
      invariant 0 <= i <= |Candidates|
      invariant FirstText(Candidates, Contribution(run, maxBytes)) ==
                FirstText(Candidates[i..], Contribution(run, maxBytes))
    {
      assert Candidates[i..][1..] == Candidates[i + 1..];
      var out := run(Candidates[i]);
      if out.Exited? && out.success {
        var s := NormalizeText(out.stdout);
        if s != [] {
          if maxBytes > 0 && ByteLen(s) > maxBytes {
            s := TruncateToBoundary(s, maxBytes);
          }
          return Ok(s);
        }
      }
      i := i + 1;
    }
    return Err(ReadFailure);
  }

  /** The three tools' order: Wayland's `wl-paste` decides whenever it yields text, and
      `xsel` is reached only when neither of the others does. */
  lemma ReadOrder(run: Command -> ToolRun, maxBytes: nat)
    ensures Accept(run(Candidates[0]), maxBytes).Some? ==>
              FirstText(Candidates, Contribution(run, maxBytes)) == Ok(Accept(run(Candidates[0]), maxBytes).value)
    ensures Accept(run(Candidates[0]), maxBytes).None? && Accept(run(Candidates[1]), maxBytes).None? ==>
              FirstText(Candidates, Contribution(run, maxBytes)) ==
                (match Accept(run(Candidates[2]), maxBytes)
                 case Some(t) => Ok(t)
                 case None => Err(ReadFailure))
  {
    assert Candidates[1..][1..] == [Candidates[2]];
    assert [Candidates[2]][1..] == [];
  }

  /** `ClipboardFrame`, as `run` fills it: every time field is the poll's instant. */
  datatype ClipboardFrame = ClipboardFrame(
    uuid: string, timestamp: Option<ProtoTimestamp>, text: string, mimeType: string,
    tDevice: Option<ProtoTimestamp>, tCanonical: Option<ProtoTimestamp>, tEnd: Option<ProtoTimestamp>)

  function FrameOf(text: string, now: Instant, uuid: string): (f: ClipboardFrame)
    ensures f.uuid == uuid && f.text == text && f.mimeType == "text/plain"
    ensures f.timestamp == Types.ToPbTs(now) && f.tDevice == f.timestamp &&
            f.tCanonical == f.timestamp && f.tEnd == f.timestamp
  {
    var ts := Types.ToPbTs(now);
    ClipboardFrame(uuid, ts, text, "text/plain", ts, ts, ts)
  }

  /** The polling period: the configured one when positive, else two seconds. */
  function PollInterval(interval: real): (r: real)
    ensures r > 0.0
    ensures interval > 0.0 ==> r == interval
    ensures interval <= 0.0 ==> r == 2.0
  {
    if interval > 0.0 then interval else 2.0
  }

  /** The state of `run`: the text last stored and the frames appended to the disk buffer. */
  class ClipboardWatcher {
    var lastText: Option<string>
    var stored: seq<ClipboardFrame>

    /** The last text is the last stored frame's, and no frame repeats the one before. */
    ghost predicate Valid()
      reads this
    {
      lastText == (if stored == [] then None else Some(Last(stored).text)) &&
      forall k :: 0 <= k < |stored| - 1 ==> stored[k].text != stored[k + 1].text
    }

    constructor ()
      ensures Valid() && lastText == None && stored == []
    {
      lastText := None;
      stored := [];
    }

    /** One pass of the loop: a failed read or the text already stored changes nothing; a
        new text becomes a frame, and only when encoding and appending it succeed is it
        remembered as the last text. */
    method Poll(read: Result<string, LifelogError>, now: Instant, uuid: string, appended: bool)
      requires Valid()
      modifies this
      ensures Valid()
      ensures read.Err? || old(lastText) == Some(read.value) || !appended ==>
                lastText == old(lastText) && stored == old(stored)
      ensures read.Ok? && old(lastText) != Some(read.value) && appended ==>
                lastText == Some(read.value) && stored == old(stored) + [FrameOf(read.value, now, uuid)]
    {
      if read.Ok? {
        var text := read.value;
        var changed := lastText != Some(text);
        if changed {
          var frame := FrameOf(text, now, uuid);
          if appended {
            stored := stored + [frame];
            lastText := Some(text);
          }
        }
      }
    }
  }

  /** A poll: its instant, what the tools yielded and whether the append succeeded. */
  type PollInput = (Instant, Result<string, LifelogError>, bool)

  function TextOf(f: ClipboardFrame): string { f.text }

  /** The last text and the stored frames after the polls, one `Poll` after another from
      an empty watcher. */
  function RunState(polls: seq<PollInput>, uuids: nat -> string): (Option<string>, seq<ClipboardFrame>)
    decreases |polls|
  {
    if polls == [] then (None, [])
    else
      var (last, stored) := RunState(polls[..|polls| - 1], uuids);
      var (now, read, appended) := Last(polls);
      if read.Ok? && last != Some(read.value) && appended then
        (Some(read.value), stored + [FrameOf(read.value, now, uuids(|polls| - 1))])
      else (last, stored)
  }

  /** The texts of the polls that read one and stored it, in order. */
  function AppendedTexts(polls: seq<PollInput>): seq<string>
    decreases |polls|
  {
    if polls == [] then []
    else
      var rest := AppendedTexts(polls[..|polls| - 1]);
      if Last(polls).1.Ok? && Last(polls).2 then rest + [Last(polls).1.value] else rest
  }

  /** What a run stores is the texts read and appended, with repeats in a row collapsed:
      a failed read or append leaves no trace, and the last text is the last one stored. */
  lemma {:induction false} RunStateDedup(polls: seq<PollInput>, uuids: nat -> string)
    ensures Map(RunState(polls, uuids).1, TextOf) == Dedup(AppendedTexts(polls))
    ensures RunState(polls, uuids).0 ==
            (if AppendedTexts(polls) == [] then None else Some(Last(AppendedTexts(polls))))
    decreases |polls|
  {
    if polls != [] {
      RunStateDedup(polls[..|polls| - 1], uuids);
      RunStateStep(polls, uuids);
    }
  }

  lemma RunStateStep(polls: seq<PollInput>, uuids: nat -> string)
    requires polls != []
    requires var init := polls[..|polls| - 1];
             Map(RunState(init, uuids).1, TextOf) == Dedup(AppendedTexts(init)) &&
             RunState(init, uuids).0 ==
             (if AppendedTexts(init) == [] then None else Some(Last(AppendedTexts(init))))
    ensures Map(RunState(polls, uuids).1, TextOf) == Dedup(AppendedTexts(polls))
    ensures RunState(polls, uuids).0 ==
            (if AppendedTexts(polls) == [] then None else Some(Last(AppendedTexts(polls))))
  {
    var init := polls[..|polls| - 1];
    var (last, stored) := RunState(init, uuids);
    var (now, read, appended) := Last(polls);
    var a := AppendedTexts(init);
    if read.Ok? && appended {
      var f := FrameOf(read.value, now, uuids(|polls| - 1));
      assert AppendedTexts(polls) == a + [read.value];
      assert last != Some(read.value) <==> !(a != [] && a[|a| - 1] == read.value);
      MapSnoc(stored, f, TextOf);
      DedupSnoc(a, read.value);
    }
  }

  /** A run of the loop over polls: the frames stored are those `RunState` gives, so no
      stored frame repeats the one before it and every stored text was read at some poll. */
  method Run(polls: seq<PollInput>, uuids: nat -> string)
    returns (w: ClipboardWatcher)
    ensures fresh(w) && w.Valid()
    ensures |w.stored| <= |polls|
    ensures forall k :: 0 <= k < |w.stored| ==> exists i :: 0 <= i < |polls| && polls[i].1 == Ok(w.stored[k].text)
    ensures (w.lastText, w.stored) == RunState(polls, uuids)
  {
    w := new ClipboardWatcher();
    var i := 0;
    while i < |polls|
      invariant 0 <= i <= |polls|
      invariant w.Valid() && |w.stored| <= i
      invariant forall k :: 0 <= k < |w.stored| ==> exists j :: 0 <= j < i && polls[j].1 == Ok(w.stored[k].text)
      invariant (w.lastText, w.stored) == RunState(polls[..i], uuids)
      modifies w
    {
      assert polls[..i + 1][..i] == polls[..i];
      w.Poll(polls[i].1, polls[i].0, uuids(i), polls[i].2);
      i := i + 1;
    }
    assert polls[..|polls|] == polls;
  }
}
