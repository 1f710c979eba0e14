/** `tcpinput3/tcpinput3.go`: every non-empty line is matched against the frame regex
    without a trailer and its LogEvent is forwarded to a stream as a PutRecords body: a
    StreamRecord named "eventinput" holding one Record whose Data is the event. After end
    of stream the event of the last non-empty line is rebuilt from `fields` and forwarded
    once more; that extra put is the only place the rebuilt event shows, since the final
    `print` shows only the slice header of its encoding (see module `Console`). The
    listener, the deadline, the HTTP post, JSON and base64 are left out: a Record carries
    the LogEvent itself where the program carries its encoding. */
module TcpInput3 {
  import opened Strings
  import Frame
  import FrameStream
  import TcpInput2
  import Console

  /** The regex of this program ends in `(?P<event>.*?)$`: no trailer. */
  const NoTrailer := ""

  /** The stream every record is put to. */
  const StreamName := "eventinput"

  /** One entry of a PutRecords body; `data` stands for `base64(json(event))`. */
  datatype Record = Record(clientInfo: string, data: Frame.LogEvent, partitionKey: string, shardId: int)

  /** A PutRecords body. */
  datatype StreamRecord = StreamRecord(streamName: string, records: seq<Record>)

  /** The body posted for one event: the single shared record with its Data replaced. */
  function Wrap(ev: Frame.LogEvent): StreamRecord {
    StreamRecord(StreamName, [Record("", ev, "", 0)])
  }

  /** The shape every posted body has. */
  predicate IsPutOf(body: StreamRecord, ev: Frame.LogEvent) {
    && body.streamName == "eventinput"
    && |body.records| == 1
    && body.records[0] == Record("", ev, "", 0)
  }

  /** `handleConnection`: one body per non-empty line, carrying that line's event, then
      one more body carrying the event rebuilt from the last match map, whose JSON
      (`encode`) is then written after the label. With no non-empty line the extra body
      carries an all-"" event. */
  method HandleConnection(lines: seq<string>, encode: Frame.LogEvent -> string)
    returns (forwarded: seq<StreamRecord>, rebuilt: Frame.LogEvent, shown: string)
    ensures |forwarded| == |NonEmpty(lines)| + 1
    ensures forall i :: 0 <= i < |NonEmpty(lines)| ==>
      IsPutOf(forwarded[i], FrameStream.EventOf(NonEmpty(lines)[i], NoTrailer))
    ensures IsPutOf(forwarded[|forwarded| - 1], rebuilt)
    ensures |NonEmpty(lines)| == 0 ==> rebuilt == Frame.Empty
    ensures |NonEmpty(lines)| > 0 ==> forwarded[|forwarded| - 1] == forwarded[|forwarded| - 2]
    ensures |shown| == |Console.Label| + |encode(rebuilt)|
    ensures shown[..|Console.Label|] == Console.Label && shown[|Console.Label|..] == encode(rebuilt)
  {
    var posted, fields := FrameStream.ReadLines(lines, NoTrailer);
    var bodies := WrapAll(posted);
    rebuilt := Frame.Build(fields);
    shown := Console.EventLine(encode(rebuilt));
    forwarded := bodies + [Wrap(rebuilt)];
    Forwarding(NonEmpty(lines), posted, bodies, rebuilt);
  }

  /** Wrapping the events of the non-empty lines, then the rebuilt one. */
  lemma Forwarding(ne: seq<string>, posted: seq<Frame.LogEvent>, bodies: seq<StreamRecord>, rebuilt: Frame.LogEvent)
    requires |posted| == |ne| && |bodies| == |posted|
    requires forall i :: 0 <= i < |posted| ==> posted[i] == Frame.Parse(ne[i], NoTrailer).GetOr(Frame.Empty)
    requires rebuilt == if |posted| == 0 then Frame.Empty else posted[|posted| - 1]
    requires forall j :: 0 <= j < |posted| ==> IsPutOf(bodies[j], posted[j])
    ensures var forwarded := bodies + [Wrap(rebuilt)];
      && |forwarded| == |ne| + 1
      && (forall i :: 0 <= i < |ne| ==> IsPutOf(forwarded[i], FrameStream.EventOf(ne[i], NoTrailer)))
      && IsPutOf(forwarded[|forwarded| - 1], rebuilt)
      && (|ne| == 0 ==> rebuilt == Frame.Empty)
      && (|ne| > 0 ==> forwarded[|forwarded| - 1] == forwarded[|forwarded| - 2])
  {
  }

  /** The bodies posted inside the loop, one per event, in order. */
  method WrapAll(events: seq<Frame.LogEvent>) returns (bodies: seq<StreamRecord>)
    ensures |bodies| == |events|
    ensures forall j :: 0 <= j < |events| ==> IsPutOf(bodies[j], events[j])
  {
    bodies := [];
    var i := 0;
    while i < |events|
      invariant 0 <= i <= |events|
      invariant |bodies| == i
      invariant forall j :: 0 <= j < i ==> bodies[j] == Wrap(events[j])
    {
      bodies := bodies + [Wrap(events[i])];
      i := i + 1;
    }
  }

  /** Formatting seven fields into a frame and reading it back gives the same fields. */
  lemma FrameRoundTrip(junk: string, ev: Frame.LogEvent)
    requires Frame.WellFormed(ev)
    requires !Contains(LastLine(junk), "time=")
    ensures FrameStream.EventOf(junk + Frame.Format(ev, NoTrailer), NoTrailer) == ev
  {
    Frame.RoundTrip(junk, ev, NoTrailer);
  }

  /** A line `tcpinput2` accepts is accepted here too, with the `###END###` marker kept at
      the end of the event field. */
  lemma KeepsEndMarker(line: string)
    requires Frame.Parse(line, TcpInput2.EndMarker).Some?
    ensures var ev := Frame.Parse(line, TcpInput2.EndMarker).value;
      FrameStream.EventOf(line, NoTrailer) == ev.(event := ev.event + TcpInput2.EndMarker)
  {
    Frame.TrailerIntoEvent(line, TcpInput2.EndMarker);
  }
}
