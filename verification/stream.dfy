/** The line loop the TCP frame inputs share (`tcpinput2/tcpinput2.go`,
    `tcpinput3/tcpinput3.go`): every non-empty line is matched against the frame regex,
    the seven fields are copied out of the match map into one LogEvent, and that event is
    forwarded. After the loop the last match map is still in `fields`. */
module FrameStream {
  import opened Options
  import opened Strings
  import Frame

  /** The LogEvent built for one line: the parsed fields, or all "" when the line is not
      a frame (Go reads every field of a nil map as ""). */
  function EventOf(line: string, trailer: string): (ev: Frame.LogEvent)
    ensures ev == Frame.Parse(line, trailer).GetOr(Frame.Empty)
  {
    Frame.BuildMatch(line, trailer);
    Frame.Build(Frame.DoRegexMatch(line, trailer))
  }

  /** The events forwarded for a stream of lines: one per non-empty line, in order. */
  function Posted(lines: seq<string>, trailer: string): seq<Frame.LogEvent>
    decreases |lines|
  {
    if |lines| == 0 then []
    else
      var l := lines[|lines| - 1];
      if l == "" then Posted(lines[..|lines| - 1], trailer)
      else Posted(lines[..|lines| - 1], trailer) + [EventOf(l, trailer)]
  }

  /** The `fields` variable after the loop: the match map of the last non-empty line, nil
      when there was none. */
  function LastFields(lines: seq<string>, trailer: string): Option<map<string, string>>
    decreases |lines|
  {
    if |lines| == 0 then None
    else
      var l := lines[|lines| - 1];
      if l == "" then LastFields(lines[..|lines| - 1], trailer)
      else Frame.DoRegexMatch(l, trailer)
  }

  /** Forwarded events are exactly the parses of the non-empty lines, in order. */
  lemma {:induction false} PostedAreParsed(lines: seq<string>, trailer: string)
    ensures |Posted(lines, trailer)| == |NonEmpty(lines)|
    ensures forall i :: 0 <= i < |Posted(lines, trailer)| ==>
      Posted(lines, trailer)[i] == EventOf(NonEmpty(lines)[i], trailer)
    decreases |lines|
  {
    if |lines| > 0 {
      var init := lines[..|lines| - 1];
      var l := lines[|lines| - 1];
      assert lines == init + [l];
      PostedAreParsed(init, trailer);
      NonEmptySnoc(init, l);
    }
  }

  /** The event rebuilt from `fields` after the loop is the last one forwarded, or all ""
      if no line was forwarded. */
  lemma {:induction false} RebuiltIsLast(lines: seq<string>, trailer: string)
    ensures Frame.Build(LastFields(lines, trailer)) ==
      var p := Posted(lines, trailer);
      if |p| == 0 then Frame.Empty else p[|p| - 1]
    decreases |lines|
  {
    if |lines| > 0 {
      RebuiltIsLast(lines[..|lines| - 1], trailer);
    }
  }

  /** One more line extends the fold by at most one event. */
  lemma PostedSnoc(lines: seq<string>, i: nat, trailer: string)
    requires i < |lines|
    ensures Posted(lines[..i + 1], trailer) == if lines[i] == "" then Posted(lines[..i], trailer)
      else Posted(lines[..i], trailer) + [EventOf(lines[i], trailer)]
    ensures LastFields(lines[..i + 1], trailer) == if lines[i] == "" then LastFields(lines[..i], trailer)
      else Frame.DoRegexMatch(lines[i], trailer)
  {
    assert lines[..i + 1][..i] == lines[..i];
  }

  /** What the `for scanner.Scan()` loop leaves behind: one forwarded event per non-empty
      line, the parse of that line, and a `fields` map that rebuilds the last of them. */
  method ReadLines(lines: seq<string>, trailer: string)
    returns (posted: seq<Frame.LogEvent>, fields: Option<map<string, string>>)
    ensures |posted| == |NonEmpty(lines)|
    ensures forall i :: 0 <= i < |posted| ==>
      posted[i] == Frame.Parse(NonEmpty(lines)[i], trailer).GetOr(Frame.Empty)
    ensures Frame.Build(fields) == if |posted| == 0 then Frame.Empty else posted[|posted| - 1]
  {
    posted, fields := Loop(lines, trailer);
    PostedAreParsed(lines, trailer);
    RebuiltIsLast(lines, trailer);
  }

  /** The loop itself: skip empty lines, match every other one, copy the fields into a
      LogEvent and forward it, keeping the last match map in `fields`. */
  method Loop(lines: seq<string>, trailer: string)
    returns (posted: seq<Frame.LogEvent>, fields: Option<map<string, string>>)
    ensures posted == Posted(lines, trailer)
    ensures fields == LastFields(lines, trailer)
  {
    fields := None;
    posted := [];
    var i := 0;
    while i < |lines|
      invariant 0 <= i <= |lines|
      invariant posted == Posted(lines[..i], trailer)
      invariant fields == LastFields(lines[..i], trailer)
    {
      PostedSnoc(lines, i, trailer);
      var event := lines[i];
      if event != "" {
        fields := Frame.DoRegexMatch(event, trailer);
        var logEvent := Frame.Build(fields);
        posted := posted + [logEvent];
      }
      i := i + 1;
    }
    assert lines[..i] == lines;
  }
}
