/** The multi-line event reassembler of `tcpinput/tcpinput.go`: lines arrive in order, a
    line that starts with a `YYYY-MM-DD` date begins a new event, any other line is glued
    onto the current event with a line feed. The connection, its read deadline and the
    `/tmp/event` file are left out: input is the finite list of lines read before end of
    stream, output the list of events written, in order. */
module TcpInput {
  import opened Decimal

  // ---------------------------------------------------------------------------
  // The boundary pattern `^\d{4}-\d{2}-\d{2}`

  /** One position of a fixed-width pattern: `\d` (ASCII digit, as in Go) or a literal. */
  datatype CharClass = AnyDigit | Literal(c: char)

  predicate ClassMatches(k: CharClass, c: char) {
    match k
    case AnyDigit => IsDigit(c)
    case Literal(l) => c == l
  }

  /** `^\d{4}-\d{2}-\d{2}` written out position by position. */
  const DatePrefix: seq<CharClass> :=
    [AnyDigit, AnyDigit, AnyDigit, AnyDigit, Literal('-'),
     AnyDigit, AnyDigit, Literal('-'), AnyDigit, AnyDigit]

  /** The anchored pattern matches at the start of `line` (the rest of the line is free). */
  predicate MatchesAtStart(pattern: seq<CharClass>, line: string) {
    |pattern| <= |line| && forall i :: 0 <= i < |pattern| ==> ClassMatches(pattern[i], line[i])
  }

  /** The line opens a new event. */
  predicate IsEventStart(line: string) {
    MatchesAtStart(DatePrefix, line)
  }

  /** The pattern holds exactly when positions 0-3, 5-6 and 8-9 are digits and 4 and 7
      are dashes; nothing after position 9 is looked at. */
  lemma EventStartShape(line: string)
    ensures IsEventStart(line) <==>
      && |line| >= 10
      && IsDigit(line[0]) && IsDigit(line[1]) && IsDigit(line[2]) && IsDigit(line[3])
      && line[4] == '-' && IsDigit(line[5]) && IsDigit(line[6])
      && line[7] == '-' && IsDigit(line[8]) && IsDigit(line[9])
  {
    if |line| >= 10
      && IsDigit(line[0]) && IsDigit(line[1]) && IsDigit(line[2]) && IsDigit(line[3])
      && line[4] == '-' && IsDigit(line[5]) && IsDigit(line[6])
      && line[7] == '-' && IsDigit(line[8]) && IsDigit(line[9])
    {
      forall i | 0 <= i < |DatePrefix| ensures ClassMatches(DatePrefix[i], line[i]) {
      }
    }
  }

  lemma EventStartNotEmpty(line: string)
    requires IsEventStart(line)
    ensures line != ""
  {
  }

  // ---------------------------------------------------------------------------
  // The line loop

  /** The state of the loop: the event being collected and the events already written. */
  datatype Assembly = Assembly(event: string, emitted: seq<string>)

  /** One turn of the loop for one line: nothing written is taken back, at most one event
      is written, and the pending event ends with the line just read. */
  function Step(a: Assembly, line: string): (r: Assembly)
    ensures |a.emitted| <= |r.emitted| <= |a.emitted| + 1
    ensures r.emitted[..|a.emitted|] == a.emitted
    ensures |line| <= |r.event| && r.event[|r.event| - |line|..] == line
  {
    if IsEventStart(line) then
      Assembly(line, if a.event != "" then a.emitted + [a.event] else a.emitted)
    else
      Assembly(a.event + "\n" + line, a.emitted)
  }

  /** The state after the loop has seen `lines`. */
  function Scan(lines: seq<string>): Assembly
    decreases |lines|
  {
    if |lines| == 0 then Assembly("", [])
    else Step(Scan(lines[..|lines| - 1]), lines[|lines| - 1])
  }

  /** Everything written for a stream: the mid-stream writes, then the final flush of the
      pending event, which happens once and even when that event is empty. */
  function Reassemble(lines: seq<string>): seq<string> {
    Scan(lines).emitted + [Scan(lines).event]
  }

  /** The pending event is empty exactly before the first line. */
  lemma {:induction false} PendingEmptyOnlyAtStart(lines: seq<string>)
    ensures Scan(lines).event == "" <==> |lines| == 0
  {
    if |lines| > 0 {
      var l := lines[|lines| - 1];
      if IsEventStart(l) {
        EventStartNotEmpty(l);
      } else {
        assert |Scan(lines).event| >= 1;
      }
    }
  }

  /** No mid-stream write is ever the empty string. */
  lemma {:induction false} MidStreamNeverEmpty(lines: seq<string>)
    ensures forall i :: 0 <= i < |Scan(lines).emitted| ==> Scan(lines).emitted[i] != ""
    decreases |lines|
  {
    if |lines| > 0 {
      MidStreamNeverEmpty(lines[..|lines| - 1]);
    }
  }

  /** Number of lines after the first that open an event. */
  function CountLaterStarts(lines: seq<string>): nat
    decreases |lines|
  {
    if |lines| <= 1 then 0
    else CountLaterStarts(lines[..|lines| - 1]) + (if IsEventStart(lines[|lines| - 1]) then 1 else 0)
  }

  /** One write per line that opens an event after the first line, plus the final flush. */
  lemma {:induction false} EventCount(lines: seq<string>)
    ensures |Reassemble(lines)| == CountLaterStarts(lines) + 1
    decreases |lines|
  {
    if |lines| > 0 {
      var init := lines[..|lines| - 1];
      EventCount(init);
      PendingEmptyOnlyAtStart(init);
    }
  }

  /** How the written events change when one more line arrives. */
  lemma ReassembleSnoc(lines: seq<string>, l: string)
    ensures |lines| == 0 ==> Reassemble([l]) == [if IsEventStart(l) then l else "\n" + l]
    ensures |lines| > 0 && IsEventStart(l) ==> Reassemble(lines + [l]) == Reassemble(lines) + [l]
    ensures |lines| > 0 && !IsEventStart(l) ==>
      var prev := Reassemble(lines);
      Reassemble(lines + [l]) == prev[..|prev| - 1] + [prev[|prev| - 1] + "\n" + l]
  {
    assert (lines + [l])[..|lines|] == lines;
    assert [l][..0] == [];
    assert Scan([l]) == Step(Assembly("", []), l);
    assert "" + "\n" + l == "\n" + l;
    PendingEmptyOnlyAtStart(lines);
  }

  // ---------------------------------------------------------------------------
  // Reference: the events are the runs of lines between boundary lines

  /** `g` joined with line feeds. */
  function JoinLines(g: seq<string>): string
    decreases |g|
  {
    if |g| == 0 then ""
    else if |g| == 1 then g[0]
    else JoinLines(g[..|g| - 1]) + "\n" + g[|g| - 1]
  }

  function Flatten(gs: seq<seq<string>>): seq<string>
    decreases |gs|
  {
    if |gs| == 0 then [] else Flatten(gs[..|gs| - 1]) + gs[|gs| - 1]
  }

  /** `gs` cuts `lines` into consecutive non-empty runs, each run after the first starting
      with a boundary line and no run holding a boundary line anywhere but at its head. */
  ghost predicate IsEventGrouping(lines: seq<string>, gs: seq<seq<string>>) {
    && Flatten(gs) == lines
    && (forall k :: 0 <= k < |gs| ==> |gs[k]| > 0)
    && (forall k :: 0 < k < |gs| ==> IsEventStart(gs[k][0]))
    && (forall k, j :: 0 <= k < |gs| && 0 < j < |gs[k]| ==> !IsEventStart(gs[k][j]))
  }

  /** The runs of `lines`. */
  function Groups(lines: seq<string>): (gs: seq<seq<string>>)
    ensures IsEventGrouping(lines, gs)
    ensures |gs| == 0 <==> |lines| == 0
    decreases |lines|
  {
    if |lines| == 0 then []
    else
      var init := lines[..|lines| - 1];
      var l := lines[|lines| - 1];
      var gs := Groups(init);
      assert lines == init + [l];
      if |gs| == 0 || IsEventStart(l) then
        OpenRun(init, l, gs);
        gs + [[l]]
      else
        ExtendRun(init, l, gs);
        gs[..|gs| - 1] + [gs[|gs| - 1] + [l]]
  }

  /** A boundary line, or the very first line, opens a new run. */
  lemma OpenRun(lines: seq<string>, l: string, gs: seq<seq<string>>)
    requires IsEventGrouping(lines, gs)
    requires |gs| == 0 || IsEventStart(l)
    ensures IsEventGrouping(lines + [l], gs + [[l]])
  {
    var r := gs + [[l]];
    assert r[..|r| - 1] == gs;
  }

  /** Any other line joins the last run. */
  lemma ExtendRun(lines: seq<string>, l: string, gs: seq<seq<string>>)
    requires IsEventGrouping(lines, gs)
    requires |gs| > 0 && !IsEventStart(l)
    ensures IsEventGrouping(lines + [l], gs[..|gs| - 1] + [gs[|gs| - 1] + [l]])
  {
    var last := gs[|gs| - 1];
    var r := gs[..|gs| - 1] + [last + [l]];
    assert r[..|r| - 1] == gs[..|gs| - 1];
    assert Flatten(gs) == Flatten(gs[..|gs| - 1]) + last;
    forall k, j | 0 <= k < |r| && 0 < j < |r[k]|
      ensures !IsEventStart(r[k][j])
    {
      if k < |r| - 1 {
        assert r[k] == gs[k];
      } else if j < |last| {
        assert r[k][j] == last[j];
      }
    }
  }

  /** What an event text looks like: the run's lines joined by line feeds, behind a
      leading line feed when the stream begins with a line that does not open an event
      (the empty pending event followed by "\n"). */
  function Lead(first: string): string {
    if IsEventStart(first) then "" else "\n"
  }

  /** How the runs change when one more line arrives. */
  lemma GroupsSnoc(lines: seq<string>, l: string)
    requires |lines| > 0
    ensures IsEventStart(l) ==> Groups(lines + [l]) == Groups(lines) + [[l]]
    ensures !IsEventStart(l) ==>
      var gs := Groups(lines);
      Groups(lines + [l]) == gs[..|gs| - 1] + [gs[|gs| - 1] + [l]]
  {
    assert (lines + [l])[..|lines|] == lines;
  }

  /** Every line lands in exactly one event, in arrival order: the k-th event is the k-th
      run of lines, joined. */
  lemma {:induction false} ReassembleIsGroups(lines: seq<string>)
    requires |lines| > 0
    ensures RendersRuns(Reassemble(lines), Groups(lines), Lead(lines[0]))
    decreases |lines|
  {
    var init := lines[..|lines| - 1];
    var l := lines[|lines| - 1];
    assert lines == init + [l];
    if |init| == 0 {
      ReassembleSnoc(init, l);
      assert l == lines[0];
    } else {
      ReassembleIsGroups(init);
      assert init[0] == lines[0];
      ReassembleSnoc(init, l);
      GroupsSnoc(init, l);
      var lead := Lead(lines[0]);
      if IsEventStart(l) {
        StartStep(Reassemble(init), Groups(init), lead, l);
      } else {
        ContinueStep(Reassemble(init), Groups(init), lead, l);
      }
    }
  }

  /** The k-th event is the k-th run, joined, behind `lead` for the first run. */
  predicate RendersRuns(events: seq<string>, gs: seq<seq<string>>, lead: string) {
    && |events| == |gs|
    && forall k :: 0 <= k < |gs| ==> events[k] == (if k == 0 then lead else "") + JoinLines(gs[k])
  }

  lemma StartStep(prev: seq<string>, gs: seq<seq<string>>, lead: string, l: string)
    requires |gs| > 0 && RendersRuns(prev, gs, lead)
    ensures RendersRuns(prev + [l], gs + [[l]], lead)
  {
  }

  lemma ContinueStep(prev: seq<string>, gs: seq<seq<string>>, lead: string, l: string)
    requires |gs| > 0 && RendersRuns(prev, gs, lead)
    requires forall k :: 0 <= k < |gs| ==> |gs[k]| > 0
    ensures RendersRuns(prev[..|prev| - 1] + [prev[|prev| - 1] + "\n" + l],
                        gs[..|gs| - 1] + [gs[|gs| - 1] + [l]], lead)
  {
    var last := gs[|gs| - 1];
    assert JoinLines(last + [l]) == JoinLines(last) + "\n" + l by {
      assert (last + [l])[..|last|] == last;
    }
  }

  /** Groupings are unique, so `Groups` is the only way to cut `lines` into runs. */
  lemma {:induction false} GroupingUnique(lines: seq<string>, gs1: seq<seq<string>>, gs2: seq<seq<string>>)
    requires IsEventGrouping(lines, gs1) && IsEventGrouping(lines, gs2)
    ensures gs1 == gs2
    decreases |lines|
  {
    if |gs1| == 0 || |gs2| == 0 {
      EmptyGrouping(lines, gs1);
      EmptyGrouping(lines, gs2);
    } else {
      var l1, l2 := gs1[|gs1| - 1], gs2[|gs2| - 1];
      var i1, i2 := gs1[..|gs1| - 1], gs2[..|gs2| - 1];
      assert lines == Flatten(i1) + l1 && lines == Flatten(i2) + l2;
      LastRunLength(lines, gs1, gs2);
      LastRunLength(lines, gs2, gs1);
      assert l1 == lines[|lines| - |l1|..] == l2;
      var rest := lines[..|lines| - |l1|];
      assert Flatten(i1) == rest && Flatten(i2) == rest;
      GroupingPrefix(lines, gs1);
      GroupingPrefix(lines, gs2);
      GroupingUnique(rest, i1, i2);
      assert gs1 == i1 + [l1] && gs2 == i2 + [l2];
    }
  }

  lemma EmptyGrouping(lines: seq<string>, gs: seq<seq<string>>)
    requires IsEventGrouping(lines, gs)
    ensures |gs| == 0 <==> |lines| == 0
  {
    if |gs| > 0 {
      assert Flatten(gs) == Flatten(gs[..|gs| - 1]) + gs[|gs| - 1];
    }
  }

  lemma GroupingPrefix(lines: seq<string>, gs: seq<seq<string>>)
    requires IsEventGrouping(lines, gs) && |gs| > 0
    ensures IsEventGrouping(Flatten(gs[..|gs| - 1]), gs[..|gs| - 1])
  {
  }

  /** The last run of one grouping is no longer than the last run of another. */
  lemma LastRunLength(lines: seq<string>, gs1: seq<seq<string>>, gs2: seq<seq<string>>)
    requires IsEventGrouping(lines, gs1) && IsEventGrouping(lines, gs2)
    requires |gs1| > 0 && |gs2| > 0
    ensures |gs1[|gs1| - 1]| <= |gs2[|gs2| - 1]|
  {
    var l1, l2 := gs1[|gs1| - 1], gs2[|gs2| - 1];
    assert lines == Flatten(gs1[..|gs1| - 1]) + l1;
    assert lines == Flatten(gs2[..|gs2| - 1]) + l2;
    if |l1| > |l2| {
      SuffixHead(lines, Flatten(gs1[..|gs1| - 1]), l1, Flatten(gs2[..|gs2| - 1]), l2);
      assert false;
    }
  }

  /** Of two ways to split `lines` into a prefix and a suffix, the shorter suffix's head
      sits strictly inside the longer suffix, and the shorter suffix leaves a prefix. */
  lemma SuffixHead(lines: seq<string>, p1: seq<string>, l1: seq<string>, p2: seq<string>, l2: seq<string>)
    requires lines == p1 + l1 && lines == p2 + l2
    requires |l1| > |l2| > 0
    ensures 0 < |l1| - |l2| && l1[|l1| - |l2|] == l2[0] && |p2| > 0
  {
    assert l1[|l1| - |l2|] == lines[|lines| - |l2|];
  }

  // ---------------------------------------------------------------------------
  // The handler

  /** `handleConnection`'s line loop followed by the final flush. */
  method HandleConnection(lines: seq<string>) returns (events: seq<string>)
    ensures events == Reassemble(lines)
    ensures |events| >= 1 && events[|events| - 1] == Scan(lines).event
  {
    var event := "";
    var written: seq<string> := [];
    var i := 0;
    while i < |lines|
      invariant 0 <= i <= |lines|
      invariant Assembly(event, written) == Scan(lines[..i])
    {
      var line := lines[i];
      assert lines[..i + 1][..i] == lines[..i];
      if IsEventStart(line) {
        if event != "" {
          written := written + [event];
        }
        event := line;
      } else {
        event := event + "\n" + line;
      }
      i := i + 1;
    }
    assert lines[..i] == lines;
    events := written + [event];
  }

  /** The two-event example: a dated line, a continuation line, a second dated line. */
  lemma Example()
    ensures Reassemble(["2024-01-01 start", "  continued", "2024-01-02 next"])
      == ["2024-01-01 start" + "\n" + "  continued", "2024-01-02 next"]
  {
    var a, b, c := "2024-01-01 start", "  continued", "2024-01-02 next";
    EventStartShape(a);
    EventStartShape(b);
    EventStartShape(c);
    StartContinueStart(a, b, c);
  }

  /** A boundary line, a continuation, and another boundary line make two events. */
  lemma StartContinueStart(a: string, b: string, c: string)
    requires IsEventStart(a) && !IsEventStart(b) && IsEventStart(c)
    ensures Reassemble([a, b, c]) == [a + "\n" + b, c]
  {
    ReassembleSnoc([], a);
    ReassembleSnoc([a], b);
    assert [a] + [b] == [a, b];
    ReassembleSnoc([a, b], c);
    assert [a, b] + [c] == [a, b, c];
    assert Reassemble([a]) == [a];
    assert Reassemble([a, b]) == [a + "\n" + b];
  }
}
