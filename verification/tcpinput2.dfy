/** `tcpinput2/tcpinput2.go`: every non-empty line is matched against the frame regex
    ending in `###END###$`, turned into a LogEvent and posted as JSON to the field
    extractor. After end of stream the event of the last non-empty line is rebuilt from
    the last match map and encoded, but only the slice header of its encoding reaches
    the output (see module `Console`). The listener, the deadline and the HTTP post are
    left out; the posted bodies are the list of LogEvents, JSON encoding being left
    abstract. */
module TcpInput2 {
  import opened Options
  import opened Strings
  import Frame
  import FrameStream
  import Console

  /** The trailer that must end a frame line. */
  const EndMarker := "###END###"

  /** A line the regex accepts ends with the trailer: `doRegexMatch` on this program's
      regex returns a map only for lines whose last line ends with `###END###`. */
  lemma MatchEndsWithMarker(line: string)
    ensures Frame.Parse(line, EndMarker).Some? ==> EndsWith(LastLine(line), EndMarker)
  {
    if Frame.Parse(line, EndMarker).Some? {
      Frame.ParseShape(line, EndMarker);
      EndsWithFormat(LastLine(line), Frame.Parse(line, EndMarker).value);
    }
  }

  lemma EndsWithFormat(t: string, ev: Frame.LogEvent)
    requires EndsWith(t, Frame.Format(ev, EndMarker))
    ensures EndsWith(t, EndMarker)
  {
    var f := Frame.Format(ev, EndMarker);
    Frame.FormatWithJunk("", ev, EndMarker);
    LastPieceSuffix(Frame.Pieces("", ev, EndMarker), Frame.Delimiters);
    assert f[|f| - |EndMarker|..] == EndMarker;
    assert t[|t| - |EndMarker|..] == f[|f| - |EndMarker|..];
  }

  /** An interleaving ends with its last piece. */
  lemma {:induction false} LastPieceSuffix(ps: seq<string>, ds: seq<string>)
    requires |ps| == |ds| + 1
    ensures EndsWith(Interleave(ps, ds), ps[|ps| - 1])
    decreases |ds|
  {
    if |ds| > 0 {
      LastPieceSuffix(ps[1..], ds[1..]);
    }
  }

  /** A line without the trailer, or missing a delimiter, still produces a posted event,
      with every field "". */
  lemma NonFrameIsEmptyEvent(line: string)
    requires !EndsWith(LastLine(line), EndMarker) || SplitAll(LastLine(line), Frame.Delimiters).None?
    ensures Frame.Parse(line, EndMarker).None?
    ensures FrameStream.EventOf(line, EndMarker) == Frame.Empty
  {
    MatchEndsWithMarker(line);
    Frame.ParseUnfold(line, EndMarker);
  }

  /** Formatting seven fields into a frame and reading it back gives the same fields. */
  lemma FrameRoundTrip(junk: string, ev: Frame.LogEvent)
    requires Frame.WellFormed(ev)
    requires !Contains(LastLine(junk), "time=")
    ensures FrameStream.EventOf(junk + Frame.Format(ev, EndMarker), EndMarker) == ev
  {
    Frame.RoundTrip(junk, ev, EndMarker);
  }

  /** `handleConnection`: post the event of every non-empty line, then rebuild the event
      of the last one from `fields` and write its JSON (`encode`) after the label, as the
      final `print` evidently means to. */
  method HandleConnection(lines: seq<string>, encode: Frame.LogEvent -> string)
    returns (posted: seq<Frame.LogEvent>, rebuilt: Frame.LogEvent, shown: string)
    ensures |posted| == |NonEmpty(lines)|
    ensures forall i :: 0 <= i < |posted| ==>
      posted[i] == Frame.Parse(NonEmpty(lines)[i], EndMarker).GetOr(Frame.Empty)
    ensures rebuilt == if |posted| == 0 then Frame.Empty else posted[|posted| - 1]
    ensures |shown| == |Console.Label| + |encode(rebuilt)|
    ensures shown[..|Console.Label|] == Console.Label && shown[|Console.Label|..] == encode(rebuilt)
  {
    var fields;
    posted, fields := FrameStream.ReadLines(lines, EndMarker);
    rebuilt := Frame.Build(fields);
    shown := Console.EventLine(encode(rebuilt));
  }
}
