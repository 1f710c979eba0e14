/** The one-line frame grammar shared by `tcpinput2` and `tcpinput3`:

      time=<t>|meta=<m>|host=<h>|sourcetype=<st>|source=<s>|index=<i>|<event><trailer>

    Both programs match it with a regular expression built from lazy groups `(.*?)`
    ended by `$` (`###END###$` in tcpinput2, plain `$` in tcpinput3). Under Go's
    leftmost-first semantics such a group stops at the first occurrence of the text that
    follows it, `.` never crosses a line feed and `$` is the end of the text, so the match
    lies in the last line of the input, starts at the first `time=` of that line, and each
    field runs to the first occurrence of the next delimiter. That is what `Parse` computes. */
module Frame {
  import opened Options
  import opened Strings
  import Regex

  /** The seven fields both programs copy out of a match. */
  datatype LogEvent = LogEvent(
    time: string, meta: string, host: string, sourcetype: string,
    source: string, index: string, event: string)

  /** The event built from a nil map: every field is Go's zero string. */
  const Empty := LogEvent("", "", "", "", "", "", "")

  /** The fixed text in front of each field. */
  const Delimiters: seq<string> :=
    ["time=", "|meta=", "|host=", "|sourcetype=", "|source=", "|index=", "|"]

  /** `SubexpNames()` of the frame regex: the whole match, then the seven named groups. */
  const Names: seq<string> :=
    ["", "time", "meta", "host", "sourcetype", "source", "index", "event"]

  /** The frame regex applied to `line`, `trailer` being the fixed text before `$`. */
  function Parse(line: string, trailer: string): Option<LogEvent> {
    match SplitAll(LastLine(line), Delimiters)
    case None => None
    case Some(ps) => FromPieces(ps, trailer)
  }

  /** The fields read off the eight pieces of a split line: the piece before `time=` is
      dropped, and the last piece must end with the trailer, which is cut off. */
  function FromPieces(ps: seq<string>, trailer: string): Option<LogEvent>
    requires |ps| == 8
  {
    if EndsWith(ps[7], trailer) then
      Some(LogEvent(ps[1], ps[2], ps[3], ps[4], ps[5], ps[6], ps[7][..|ps[7]| - |trailer|]))
    else
      None
  }

  /** The pieces between the delimiters, `junk` being whatever precedes `time=`. */
  function Pieces(junk: string, ev: LogEvent, trailer: string): seq<string> {
    [junk, ev.time, ev.meta, ev.host, ev.sourcetype, ev.source, ev.index, ev.event + trailer]
  }

  /** The frame an upstream sender writes for `ev`. */
  function Format(ev: LogEvent, trailer: string): string {
    Interleave(Pieces("", ev, trailer), Delimiters)
  }

  /** A field list the frame can carry: no line feed anywhere and none of the first six
      fields holding the delimiter that ends it. The event may hold anything else,
      including the trailer itself. */
  predicate WellFormed(ev: LogEvent) {
    && '\n' !in ev.time && '\n' !in ev.meta && '\n' !in ev.host && '\n' !in ev.sourcetype
    && '\n' !in ev.source && '\n' !in ev.index && '\n' !in ev.event
    && !Contains(ev.time, "|meta=") && !Contains(ev.meta, "|host=")
    && !Contains(ev.host, "|sourcetype=") && !Contains(ev.sourcetype, "|source=")
    && !Contains(ev.source, "|index=") && !Contains(ev.index, "|")
  }

  /** `FindStringSubmatch`: the matched text (from the first `time=` to the end), then
      the seven group texts. */
  function Find(line: string, trailer: string): (r: Option<seq<string>>)
    ensures r.Some? ==> |r.value| == |Names|
  {
    match Parse(line, trailer)
    case None => None
    case Some(ev) =>
      Some([Format(ev, trailer), ev.time, ev.meta, ev.host, ev.sourcetype, ev.source, ev.index, ev.event])
  }

  /** `doRegexMatch` on the frame regex. */
  function DoRegexMatch(line: string, trailer: string): Option<map<string, string>> {
    Regex.MatchMap(Names, Find(line, trailer))
  }

  /** Reading key `k` from the map `doRegexMatch` returned; a nil map and a missing key
      both read as "". */
  function Field(fields: Option<map<string, string>>, k: string): string {
    match fields
    case Some(m) => if k in m then m[k] else ""
    case None => ""
  }

  /** The seven assignments `logEvent.Time = fields["time"]` ... `logEvent.Event = fields["event"]`. */
  function Build(fields: Option<map<string, string>>): LogEvent {
    LogEvent(Field(fields, "time"), Field(fields, "meta"), Field(fields, "host"),
             Field(fields, "sourcetype"), Field(fields, "source"), Field(fields, "index"),
             Field(fields, "event"))
  }

  // ---------------------------------------------------------------------------
  // Lemmas

  lemma DelimitersUniqueLead()
    ensures forall k :: 0 <= k < |Delimiters| ==> UniqueLead(Delimiters[k])
  {
  }

  lemma DelimitersNonEmpty()
    ensures forall k :: 0 <= k < |Delimiters| ==> |Delimiters[k]| > 0
  {
  }

  lemma {:induction false} InterleaveNoNewline(ps: seq<string>, ds: seq<string>)
    requires |ps| == |ds| + 1
    ensures '\n' !in Interleave(ps, ds) <==>
      (forall k :: 0 <= k < |ps| ==> '\n' !in ps[k]) && (forall k :: 0 <= k < |ds| ==> '\n' !in ds[k])
    decreases |ds|
  {
    if |ds| > 0 {
      InterleaveNoNewline(ps[1..], ds[1..]);
      assert forall k :: 1 <= k < |ps| ==> ps[k] == ps[1..][k - 1];
      assert forall k :: 1 <= k < |ds| ==> ds[k] == ds[1..][k - 1];
    }
  }

  lemma FormatWithJunk(junk: string, ev: LogEvent, trailer: string)
    ensures Interleave(Pieces(junk, ev, trailer), Delimiters) == junk + Format(ev, trailer)
  {
    var p := Pieces(junk, ev, trailer);
    var q := Pieces("", ev, trailer);
    assert p[1..] == q[1..];
    assert Interleave(q, Delimiters) == "" + Delimiters[0] + Interleave(q[1..], Delimiters[1..]);
  }

  lemma ParseUnfold(line: string, trailer: string)
    ensures SplitAll(LastLine(line), Delimiters).Some? ==>
      Parse(line, trailer) == FromPieces(SplitAll(LastLine(line), Delimiters).value, trailer)
    ensures SplitAll(LastLine(line), Delimiters).None? ==> Parse(line, trailer) == None
  {
  }

  lemma PiecesRoundTrip(junk: string, ev: LogEvent, trailer: string)
    ensures FromPieces(Pieces(junk, ev, trailer), trailer) == Some(ev)
  {
    var rest := ev.event + trailer;
    assert rest[..|rest| - |trailer|] == ev.event;
    assert rest[|rest| - |trailer|..] == trailer;
  }

  lemma FormatNoNewline(ev: LogEvent, trailer: string)
    requires WellFormed(ev) && '\n' !in trailer
    ensures '\n' !in Format(ev, trailer)
  {
    var q := Pieces("", ev, trailer);
    assert forall k :: 0 <= k < |q| ==> '\n' !in q[k];
    assert forall k :: 0 <= k < |Delimiters| ==> '\n' !in Delimiters[k];
    InterleaveNoNewline(q, Delimiters);
  }

  lemma WellFormedSeparated(junk: string, ev: LogEvent, trailer: string)
    requires WellFormed(ev) && !Contains(junk, "time=")
    ensures Separated(Pieces(junk, ev, trailer), Delimiters)
  {
    var ps := Pieces(junk, ev, trailer);
    assert ps[0] == junk && Delimiters[0] == "time=";
    assert ps[1] == ev.time && Delimiters[1] == "|meta=";
    assert ps[2] == ev.meta && Delimiters[2] == "|host=";
    assert ps[3] == ev.host && Delimiters[3] == "|sourcetype=";
    assert ps[4] == ev.sourcetype && Delimiters[4] == "|source=";
    assert ps[5] == ev.source && Delimiters[5] == "|index=";
    assert ps[6] == ev.index && Delimiters[6] == "|";
  }

  /** The last line of a formatted frame splits into the frame's pieces. */
  lemma SplitFormatted(junk: string, ev: LogEvent, trailer: string)
    requires WellFormed(ev) && '\n' !in trailer
    requires !Contains(LastLine(junk), "time=")
    ensures SplitAll(LastLine(junk + Format(ev, trailer)), Delimiters) == Some(Pieces(LastLine(junk), ev, trailer))
  {
    FormatNoNewline(ev, trailer);
    LastLineAppend(junk, Format(ev, trailer));
    FormatWithJunk(LastLine(junk), ev, trailer);
    DelimitersUniqueLead();
    WellFormedSeparated(LastLine(junk), ev, trailer);
    SplitInterleave(Pieces(LastLine(junk), ev, trailer), Delimiters);
  }

  /** Formatting then parsing gives the fields back, whatever precedes the frame as long
      as the last line of it holds no `time=`. */
  lemma RoundTrip(junk: string, ev: LogEvent, trailer: string)
    requires WellFormed(ev) && '\n' !in trailer
    requires !Contains(LastLine(junk), "time=")
    ensures Parse(junk + Format(ev, trailer), trailer) == Some(ev)
  {
    SplitFormatted(junk, ev, trailer);
    ParseUnfold(junk + Format(ev, trailer), trailer);
    PiecesRoundTrip(LastLine(junk), ev, trailer);
  }

  /** The condition of `RoundTrip` on the fields cannot be dropped: a formatted frame
      parses back to its own fields only when they are well formed. */
  lemma RoundTripNeedsWellFormed(junk: string, ev: LogEvent, trailer: string)
    requires Parse(junk + Format(ev, trailer), trailer) == Some(ev)
    ensures WellFormed(ev)
  {
    ParseShape(junk + Format(ev, trailer), trailer);
  }

  lemma SeparatedWellFormed(ps: seq<string>, trailer: string)
    requires |ps| == 8 && FromPieces(ps, trailer).Some?
    requires Separated(ps, Delimiters)
    requires forall k :: 0 <= k < |ps| ==> '\n' !in ps[k]
    ensures WellFormed(FromPieces(ps, trailer).value)
  {
    assert !Contains(ps[1], Delimiters[1]) && Delimiters[1] == "|meta=";
    assert !Contains(ps[2], Delimiters[2]) && Delimiters[2] == "|host=";
    assert !Contains(ps[3], Delimiters[3]) && Delimiters[3] == "|sourcetype=";
    assert !Contains(ps[4], Delimiters[4]) && Delimiters[4] == "|source=";
    assert !Contains(ps[5], Delimiters[5]) && Delimiters[5] == "|index=";
    assert !Contains(ps[6], Delimiters[6]) && Delimiters[6] == "|";
    var e := ps[7][..|ps[7]| - |trailer|];
    assert forall c :: c in e ==> c in ps[7];
  }

  /** The pieces of a split line rebuild it around the parsed fields. */
  lemma PiecesShape(t: string, trailer: string)
    requires SplitAll(t, Delimiters).Some?
    requires FromPieces(SplitAll(t, Delimiters).value, trailer).Some?
    ensures var ps := SplitAll(t, Delimiters).value;
      var ev := FromPieces(ps, trailer).value;
      && t == ps[0] + Format(ev, trailer)
      && !Contains(ps[0], "time=")
      && ('\n' !in t ==> WellFormed(ev))
  {
    var ps := SplitAll(t, Delimiters).value;
    DelimitersNonEmpty();
    InterleaveSplit(t, Delimiters);
    InterleavedShape(ps, t, trailer);
  }

  /** Accepted pieces are the pieces of the fields read off them. */
  lemma PiecesOfParsed(ps: seq<string>, trailer: string)
    requires |ps| == 8 && FromPieces(ps, trailer).Some?
    ensures ps == Pieces(ps[0], FromPieces(ps, trailer).value, trailer)
  {
    var ev := FromPieces(ps, trailer).value;
    assert ps[7][..|ps[7]| - |trailer|] + trailer == ps[7];
    var qs := Pieces(ps[0], ev, trailer);
    assert |qs| == 8;
    assert forall k :: 0 <= k < 8 ==> ps[k] == qs[k];
  }

  lemma InterleavedShape(ps: seq<string>, t: string, trailer: string)
    requires |ps| == 8 && FromPieces(ps, trailer).Some?
    requires Interleave(ps, Delimiters) == t && Separated(ps, Delimiters)
    ensures var ev := FromPieces(ps, trailer).value;
      && t == ps[0] + Format(ev, trailer)
      && !Contains(ps[0], "time=")
      && ('\n' !in t ==> WellFormed(ev))
  {
    var ev := FromPieces(ps, trailer).value;
    PiecesOfParsed(ps, trailer);
    FormatWithJunk(ps[0], ev, trailer);
    assert !Contains(ps[0], Delimiters[0]) && Delimiters[0] == "time=";
    if '\n' !in t {
      InterleaveNoNewline(ps, Delimiters);
      SeparatedWellFormed(ps, trailer);
    }
  }

  /** Conversely, whatever `Parse` accepts is a frame of well-formed fields at the end of
      the last line, with no `time=` in front of it on that line. */
  lemma ParseShape(line: string, trailer: string)
    requires Parse(line, trailer).Some?
    ensures var ev := Parse(line, trailer).value;
      var t := LastLine(line);
      var f := Format(ev, trailer);
      && WellFormed(ev)
      && EndsWith(t, f)
      && !Contains(t[..|t| - |f|], "time=")
  {
    var t := LastLine(line);
    ParseUnfold(line, trailer);
    var ps := SplitAll(t, Delimiters).value;
    PiecesShape(t, trailer);
    var f := Format(Parse(line, trailer).value, trailer);
    assert t[..|t| - |f|] == ps[0];
    assert t[|t| - |f|..] == f;
  }

  lemma NamesKeys()
    ensures (set i | 1 <= i < |Names| :: Names[i]) ==
      {"time", "meta", "host", "sourcetype", "source", "index", "event"}
  {
    assert Names[1] == "time" && Names[2] == "meta" && Names[3] == "host";
    assert Names[4] == "sourcetype" && Names[5] == "source" && Names[6] == "index";
    assert Names[7] == "event";
  }

  /** The frame's group names are distinct, so each key holds its own group's text. */
  lemma NamedGroups(g: seq<string>)
    requires |g| == |Names|
    ensures var m := Regex.SubMatchMap(Names, g);
      && "time" in m && m["time"] == g[1] && "meta" in m && m["meta"] == g[2]
      && "host" in m && m["host"] == g[3] && "sourcetype" in m && m["sourcetype"] == g[4]
      && "source" in m && m["source"] == g[5] && "index" in m && m["index"] == g[6]
      && "event" in m && m["event"] == g[7]
  {
    DistinctNames();
    NamesKeys();
    var m := Regex.SubMatchMap(Names, g);
    assert m[Names[1]] == g[1] && m[Names[2]] == g[2] && m[Names[3]] == g[3];
    assert m[Names[4]] == g[4] && m[Names[5]] == g[5] && m[Names[6]] == g[6];
    assert m[Names[7]] == g[7];
  }

  /** The group names after the whole match are pairwise different. */
  lemma DistinctNames()
    ensures forall i :: 1 <= i < |Names| ==> Regex.LastNamed(Names, i)
  {
    assert Names[1][0] == 't' && Names[2][0] == 'm' && Names[3][0] == 'h';
    assert Names[4][0] == 's' && Names[5][0] == 's' && Names[6][0] == 'i';
    assert Names[7][0] == 'e';
    assert |Names[4]| == 10 && |Names[5]| == 6;
  }

  /** On a match, `doRegexMatch` has exactly the seven field names as keys, and building the
      event from it gives the parsed fields; on no match it is nil and every field is "". */
  lemma BuildMatch(line: string, trailer: string)
    ensures DoRegexMatch(line, trailer).Some? <==> Parse(line, trailer).Some?
    ensures DoRegexMatch(line, trailer).Some? ==>
      DoRegexMatch(line, trailer).value.Keys == {"time", "meta", "host", "sourcetype", "source", "index", "event"}
    ensures Build(DoRegexMatch(line, trailer)) == Parse(line, trailer).GetOr(Empty)
  {
    NamesKeys();
    if Parse(line, trailer).Some? {
      NamedGroups(Find(line, trailer).value);
    }
  }

  lemma PiecesWithoutTrailer(ps: seq<string>, trailer: string)
    requires |ps| == 8 && FromPieces(ps, trailer).Some?
    ensures var ev := FromPieces(ps, trailer).value;
      FromPieces(ps, "") == Some(ev.(event := ev.event + trailer))
  {
    var rest := ps[7];
    assert rest[..|rest| - |trailer|] + trailer == rest;
    assert rest[..|rest| - 0] == rest;
  }

  /** The trailer-free grammar reads a trailer as part of the event. */
  lemma TrailerIntoEvent(line: string, trailer: string)
    requires Parse(line, trailer).Some?
    ensures var ev := Parse(line, trailer).value;
      Parse(line, "") == Some(ev.(event := ev.event + trailer))
  {
    ParseUnfold(line, trailer);
    ParseUnfold(line, "");
    PiecesWithoutTrailer(SplitAll(LastLine(line), Delimiters).value, trailer);
  }
}
