/**
 * The parsing half of `get_audio_state`: reading the device's playback state
 * out of the text `pactl list sinks short` prints, one sink per line with
 * whitespace-separated columns and the sink's state keyword in the last one.
 */
module Probe {
  import opened Wrappers
  import opened PyStr

  /** The two values `get_audio_state` reports besides `None`. */
  datatype State = Playing | Idle

  /** The string the program uses for each state ('playing', 'idle'). */
  function Name(s: State): (r: string)
    ensures r == "playing" || r == "idle"
    ensures r == "playing" <==> s == Playing
  {
    match s
    case Playing => "playing"
    case Idle => "idle"
  }

  /** A line only counts when it splits into at least this many columns. */
  const MinFields: nat := 6

  /** A line the loop over the listing acts on: it mentions the device and has enough columns. */
  predicate Qualifies(line: string, device: string) {
    Contains(line, device) && |Split(line)| >= MinFields
  }

  /** The last column of a line, the sink state keyword. */
  function LastField(line: string): (w: string)
    requires Split(line) != []
  {
    Split(line)[|Split(line)| - 1]
  }

  /** The state read from a qualifying line: RUNNING, and only RUNNING, is playing. */
  function LineState(line: string): (s: State)
    requires |Split(line)| >= MinFields
    ensures s == Playing <==> LastField(line) == "RUNNING"
    ensures s == Idle <==> LastField(line) != "RUNNING"
  {
    var state := LastField(line);
    if state == "RUNNING" then Playing
    else if state == "IDLE" then Idle
    else Idle
  }

  /**
   * The loop over the listing's lines: the first qualifying line decides;
   * a line that mentions the device but is too short is passed over.
   */
  function FindState(lines: seq<string>, device: string): Option<State> {
    if lines == [] then None
    else if Qualifies(lines[0], device) then Some(LineState(lines[0]))
    else FindState(lines[1..], device)
  }

  /**
   * The search yields `None` exactly when no line qualifies, and otherwise the
   * state of a qualifying line that has no qualifying line before it.
   */
  lemma {:induction false} FindStateIsFirstQualifying(lines: seq<string>, device: string)
    ensures FindState(lines, device).None? <==> forall i :: 0 <= i < |lines| ==> !Qualifies(lines[i], device)
    ensures FindState(lines, device).Some? ==>
              exists i :: 0 <= i < |lines| && Qualifies(lines[i], device)
                && (forall j :: 0 <= j < i ==> !Qualifies(lines[j], device))
                && FindState(lines, device).value == LineState(lines[i])
  {
    if lines != [] && !Qualifies(lines[0], device) {
      FindStateIsFirstQualifying(lines[1..], device);
      assert forall i :: 0 < i < |lines| ==> lines[i] == lines[1..][i - 1];
      if FindState(lines, device).Some? {
        var i :| 0 <= i < |lines[1..]| && Qualifies(lines[1..][i], device)
                 && (forall j :: 0 <= j < i ==> !Qualifies(lines[1..][j], device))
                 && FindState(lines, device).value == LineState(lines[1..][i]);
        assert Qualifies(lines[i + 1], device);
      }
    } else if lines != [] {
      assert Qualifies(lines[0], device);
    }
  }

  /** What `get_audio_state` makes of the standard output of `pactl list sinks short`. */
  function ParseListing(stdout: string, device: string): Option<State> {
    FindState(SplitLines(stdout), device)
  }

  /**
   * `get_audio_state`: `output` is `None` when running `pactl` raised (a
   * timeout, a missing binary, output that cannot be decoded), and its
   * standard output otherwise, whatever its exit status.
   */
  function GetAudioState(device: string, output: Option<string>): Option<State> {
    match output
    case None => None
    case Some(stdout) => ParseListing(stdout, device)
  }

  /** The value `get_audio_state` returns: `'playing'`, `'idle'` or `None`, and nothing else. */
  function AudioStateValue(device: string, output: Option<string>): (r: Option<string>)
    ensures r == None || r == Some("playing") || r == Some("idle")
    ensures r == None <==> GetAudioState(device, output) == None
    ensures r == Some("playing") <==> GetAudioState(device, output) == Some(Playing)
    ensures r == Some("idle") <==> GetAudioState(device, output) == Some(Idle)
  {
    match GetAudioState(device, output)
    case None => None
    case Some(s) => Some(Name(s))
  }

  // ---------------------------------------------------------------------------
  // Properties of the parser

  /** The listing's first qualifying line fixes the result, whatever the lines after it say. */
  lemma {:induction false} FirstQualifyingLineDecides(pre: seq<string>, line: string, post: seq<string>, device: string)
    requires AllNoBreak(pre) && NoBreak(line) && AllNoBreak(post)
    requires forall k :: 0 <= k < |pre| ==> !Qualifies(pre[k], device)
    requires Qualifies(line, device)
    ensures ParseListing(JoinLines(pre + [line] + post), device) == Some(LineState(line))
  {
    var lines := pre + [line] + post;
    AllNoBreakConcat(pre, [line]);
    AllNoBreakConcat(pre + [line], post);
    SplitJoinLines(lines);
    FindFirst(pre, line, post, device);
  }

  lemma {:induction false} FindFirst(pre: seq<string>, line: string, post: seq<string>, device: string)
    requires forall k :: 0 <= k < |pre| ==> !Qualifies(pre[k], device)
    requires Qualifies(line, device)
    ensures FindState(pre + [line] + post, device) == Some(LineState(line))
  {
    if pre == [] {
      assert pre + [line] + post == [line] + post;
    } else {
      assert (pre + [line] + post)[1..] == pre[1..] + [line] + post;
      FindFirst(pre[1..], line, post, device);
    }
  }

  /**
   * A sink line that names the device, has at least six whitespace-separated
   * columns and ends in RUNNING reads as playing, however its columns are separated.
   */
  lemma {:induction false} RunningIsPlaying(pre: seq<string>, line: string, post: seq<string>, device: string)
    requires AllNoBreak(pre) && NoBreak(line) && AllNoBreak(post)
    requires forall k :: 0 <= k < |pre| ==> !Qualifies(pre[k], device)
    requires Qualifies(line, device) && LastField(line) == "RUNNING"
    ensures ParseListing(JoinLines(pre + [line] + post), device) == Some(Playing)
  {
    FirstQualifyingLineDecides(pre, line, post, device);
  }

  /** Such a line with any other last column (IDLE, SUSPENDED, ...) reads as idle, not unknown. */
  lemma {:induction false} OtherStateIsIdle(pre: seq<string>, line: string, post: seq<string>, device: string)
    requires AllNoBreak(pre) && NoBreak(line) && AllNoBreak(post)
    requires forall k :: 0 <= k < |pre| ==> !Qualifies(pre[k], device)
    requires Qualifies(line, device) && LastField(line) != "RUNNING"
    ensures ParseListing(JoinLines(pre + [line] + post), device) == Some(Idle)
  {
    FirstQualifyingLineDecides(pre, line, post, device);
  }

  /**
   * A line that mentions the device but has fewer than six columns does not
   * end the search: the result is as if the line were absent.
   */
  lemma {:induction false} ShortMatchIsSkipped(pre: seq<string>, line: string, post: seq<string>, device: string)
    requires AllNoBreak(pre) && NoBreak(line) && AllNoBreak(post)
    requires Contains(line, device) && |Split(line)| < MinFields
    ensures ParseListing(JoinLines(pre + [line] + post), device)
         == ParseListing(JoinLines(pre + post), device)
  {
    AllNoBreakConcat(pre, [line]);
    AllNoBreakConcat(pre + [line], post);
    AllNoBreakConcat(pre, post);
    SplitJoinLines(pre + [line] + post);
    SplitJoinLines(pre + post);
    FindSkips(pre, line, post, device);
  }

  lemma {:induction false} FindSkips(pre: seq<string>, line: string, post: seq<string>, device: string)
    requires !Qualifies(line, device)
    ensures FindState(pre + [line] + post, device) == FindState(pre + post, device)
  {
    if pre == [] {
      assert pre + [line] + post == [line] + post;
      assert ([line] + post)[1..] == post;
      assert pre + post == post;
    } else {
      assert (pre + [line] + post)[1..] == pre[1..] + [line] + post;
      assert (pre + post)[1..] == pre[1..] + post;
      FindSkips(pre[1..], line, post, device);
    }
  }

  /** Once some line has qualified, no line appended after it changes the result. */
  lemma {:induction false} LaterLinesCannotOverride(lines: seq<string>, more: seq<string>, device: string)
    requires FindState(lines, device).Some?
    ensures FindState(lines + more, device) == FindState(lines, device)
  {
    assert lines != [];
    if !Qualifies(lines[0], device) {
      assert (lines + more)[1..] == lines[1..] + more;
      LaterLinesCannotOverride(lines[1..], more, device);
    }
  }

  /** A listing in which no line both mentions the device and has six columns gives None. */
  lemma {:induction false} NotFoundIsUnknown(lines: seq<string>, device: string)
    requires AllNoBreak(lines)
    requires forall k :: 0 <= k < |lines| ==> !Qualifies(lines[k], device)
    ensures ParseListing(JoinLines(lines), device) == None
  {
    SplitJoinLines(lines);
    FindStateIsFirstQualifying(lines, device);
  }

  /**
   * A listing reads as unknown exactly when none of its lines qualifies; in
   * particular an empty standard output (`pactl` printed nothing) is unknown.
   */
  lemma {:induction false} UnknownCases(device: string, stdout: string)
    ensures GetAudioState(device, Some("")) == None
    ensures GetAudioState(device, Some(stdout)) == None
        <==> forall l :: l in SplitLines(stdout) ==> !Qualifies(l, device)
  {
    FindStateIsFirstQualifying(SplitLines(stdout), device);
  }

  /** The separators of `pactl`'s short format: tabs between columns, spaces inside the sample specification. */
  const PactlGaps: seq<string> := ["\t", "\t", "\t", " ", " ", "\t"]

  /** A sink line in `pactl`'s short format: index, name, driver, the three words of the sample specification, state. */
  function PactlLine(index: string, name: string, driver: string, spec: seq<string>, state: string): string
    requires |spec| == 3
  {
    JoinFields([index, name, driver, spec[0], spec[1], spec[2], state], PactlGaps)
  }

  /** Such a line splits into its seven columns and holds no line boundary. */
  lemma {:induction false} PactlLineFields(index: string, name: string, driver: string, spec: seq<string>, state: string)
    requires IsField(index) && IsField(name) && IsField(driver) && IsField(state)
    requires |spec| == 3 && IsField(spec[0]) && IsField(spec[1]) && IsField(spec[2])
    ensures Split(PactlLine(index, name, driver, spec, state)) == [index, name, driver, spec[0], spec[1], spec[2], state]
    ensures NoBreak(PactlLine(index, name, driver, spec, state))
  {
    var ws := [index, name, driver, spec[0], spec[1], spec[2], state];
    assert forall k :: 0 <= k < |PactlGaps| ==> PactlGaps[k] == "\t" || PactlGaps[k] == " ";
    assert IsSpace('\t') && IsSpace(' ') && !IsLineBreak('\t') && !IsLineBreak(' ');
    SplitJoinFields(ws, PactlGaps);
    JoinFieldsNoBreak(ws, PactlGaps);
  }

  /**
   * As the only line of a listing, such a line qualifies for its sink name and
   * reads as playing when its state is RUNNING and as idle for any other state.
   */
  lemma {:induction false} PactlLineState(index: string, name: string, driver: string, spec: seq<string>, state: string)
    requires IsField(index) && IsField(name) && IsField(driver) && IsField(state)
    requires |spec| == 3 && IsField(spec[0]) && IsField(spec[1]) && IsField(spec[2])
    ensures ParseListing(PactlLine(index, name, driver, spec, state) + "\n", name)
         == Some(if state == "RUNNING" then Playing else Idle)
  {
    var ws := [index, name, driver, spec[0], spec[1], spec[2], state];
    var line := PactlLine(index, name, driver, spec, state);
    PactlLineFields(index, name, driver, spec, state);
    var rest := JoinFields(ws[2..], PactlGaps[2..]);
    assert JoinFields(ws[1..], PactlGaps[1..]) == name + "\t" + rest;
    assert line == index + "\t" + name + "\t" + rest;
    assert line[|index| + 1..|index| + 1 + |name|] == name;
    assert OccursAt(name, line, |index| + 1);
    ContainsIffOccurs(line, name);
    assert JoinLines([line]) == line + "\n";
    assert [] + [line] + [] == [line];
    FirstQualifyingLineDecides([], line, [], name);
  }
}
