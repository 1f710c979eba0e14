/** `fieldextractor2/fieldextractor2.go`: an HTTP handler that receives one LogEvent as
    JSON, runs every stored extraction rule over its event text in order, merges every
    match map into the event's field map, and answers with the enriched event. Loading the
    rules (the paged GetItems loop) and JSON decoding are outside the model: the rules
    arrive as a list in retrieval order and the decoded event as a value. */
module FieldExtractor2 {
  import opened Options
  import opened Nuclio
  import Regex

  /** One stored extraction rule. */
  datatype RegexExtract = RegexExtract(className: string, regex: string)

  /** The event this handler reads and answers with. */
  datatype LogEvent = LogEvent(
    time: string, sourcetype: string, host: string, source: string, event: string,
    fields: map<string, string>)

  /** The match map `x` defines key `k`. */
  predicate Defines(x: Option<map<string, string>>, k: string) {
    x.Some? && k in x.value
  }

  /** No match map after position `j` defines `k`. */
  predicate LastDefiner(xs: seq<Option<map<string, string>>>, j: int, k: string)
    requires 0 <= j < |xs|
  {
    Defines(xs[j], k) && forall j' :: j < j' < |xs| ==> !Defines(xs[j'], k)
  }

  /** `r` is what copying the match maps `xs`, in order, into `f` leaves: the keys are
      those of `f` and of every map, and a key takes its value from the last map that
      defines it, or keeps its value in `f` when no map does. */
  ghost predicate IsMergeOf(f: map<string, string>, xs: seq<Option<map<string, string>>>, r: map<string, string>) {
    && (forall k :: k in r <==> k in f || exists j :: 0 <= j < |xs| && Defines(xs[j], k))
    && (forall k, j :: 0 <= j < |xs| && LastDefiner(xs, j, k) ==> k in r && r[k] == xs[j].value[k])
    && (forall k :: k in f && (forall j :: 0 <= j < |xs| ==> !Defines(xs[j], k)) ==> k in r && r[k] == f[k])
  }

  /** The merge loop of the handler: `logEvent.Fields[key] = value` for every key of every
      non-nil match map, map after map. */
  function MergeAll(f: map<string, string>, xs: seq<Option<map<string, string>>>): (r: map<string, string>)
    ensures IsMergeOf(f, xs, r)
    decreases |xs|
  {
    if |xs| == 0 then f
    else
      var n := |xs| - 1;
      var init := MergeAll(f, xs[..n]);
      MergeStep(f, xs, init);
      match xs[n]
      case None => init
      case Some(m) => init + m
  }

  /** Merging one more map keeps the merge property. */
  lemma MergeStep(f: map<string, string>, xs: seq<Option<map<string, string>>>, init: map<string, string>)
    requires |xs| > 0 && IsMergeOf(f, xs[..|xs| - 1], init)
    ensures IsMergeOf(f, xs, match xs[|xs| - 1] case None => init case Some(m) => init + m)
  {
    var r := match xs[|xs| - 1] case None => init case Some(m) => init + m;
    assert forall j :: 0 <= j < |xs| - 1 ==> xs[..|xs| - 1][j] == xs[j];
    MergeStepKeys(f, xs, init, r);
    MergeStepLast(f, xs, init, r);
    MergeStepKept(f, xs, init, r);
  }

  /** After one more map, the keys are the earlier keys and those of the new map. */
  lemma MergeStepKeys(f: map<string, string>, xs: seq<Option<map<string, string>>>, init: map<string, string>, r: map<string, string>)
    requires |xs| > 0 && IsMergeOf(f, xs[..|xs| - 1], init)
    requires forall j :: 0 <= j < |xs| - 1 ==> xs[..|xs| - 1][j] == xs[j]
    requires r == match xs[|xs| - 1] case None => init case Some(m) => init + m
    ensures forall k :: k in r <==> k in f || exists j :: 0 <= j < |xs| && Defines(xs[j], k)
  {
    var n := |xs| - 1;
    var ys := xs[..n];
    forall k
      ensures k in r <==> k in f || exists j :: 0 <= j < |xs| && Defines(xs[j], k)
    {
      if k in r && k !in f && !Defines(xs[n], k) {
        var j :| 0 <= j < |ys| && Defines(ys[j], k);
        assert Defines(xs[j], k);
      }
      if exists j :: 0 <= j < |xs| && Defines(xs[j], k) {
        var j :| 0 <= j < |xs| && Defines(xs[j], k);
        if j < n {
          assert Defines(ys[j], k);
        }
      }
    }
  }

  /** After one more map, a key takes its value from the last map that defines it. */
  lemma MergeStepLast(f: map<string, string>, xs: seq<Option<map<string, string>>>, init: map<string, string>, r: map<string, string>)
    requires |xs| > 0 && IsMergeOf(f, xs[..|xs| - 1], init)
    requires forall j :: 0 <= j < |xs| - 1 ==> xs[..|xs| - 1][j] == xs[j]
    requires r == match xs[|xs| - 1] case None => init case Some(m) => init + m
    ensures forall k, j :: 0 <= j < |xs| && LastDefiner(xs, j, k) ==> k in r && r[k] == xs[j].value[k]
  {
    var n := |xs| - 1;
    var ys := xs[..n];
    forall k, j | 0 <= j < |xs| && LastDefiner(xs, j, k)
      ensures k in r && r[k] == xs[j].value[k]
    {
      if j < n {
        assert !Defines(xs[n], k);
        assert LastDefiner(ys, j, k);
      }
    }
  }

  /** After one more map, a key no map defines keeps its starting value. */
  lemma MergeStepKept(f: map<string, string>, xs: seq<Option<map<string, string>>>, init: map<string, string>, r: map<string, string>)
    requires |xs| > 0 && IsMergeOf(f, xs[..|xs| - 1], init)
    requires forall j :: 0 <= j < |xs| - 1 ==> xs[..|xs| - 1][j] == xs[j]
    requires r == match xs[|xs| - 1] case None => init case Some(m) => init + m
    ensures forall k :: k in f && (forall j :: 0 <= j < |xs| ==> !Defines(xs[j], k)) ==> k in r && r[k] == f[k]
  {
    var n := |xs| - 1;
    forall k | k in f && (forall j :: 0 <= j < |xs| ==> !Defines(xs[j], k))
      ensures k in r && r[k] == f[k]
    {
      assert !Defines(xs[n], k);
    }
  }

  /** Every rule's pattern compiles. */
  predicate AllCompile(e: Regex.Engine, rules: seq<RegexExtract>) {
    forall i :: 0 <= i < |rules| ==> e.compiles(rules[i].regex)
  }

  /** The match maps of the rules over `text`, in rule order. */
  function Extractions(e: Regex.Engine, rules: seq<RegexExtract>, text: string): (xs: seq<Option<map<string, string>>>)
    requires Regex.Sound(e) && AllCompile(e, rules)
    ensures |xs| == |rules|
  {
    seq(|rules|, i requires 0 <= i < |rules| => Regex.ReSubMatchMap(e, rules[i].regex, text))
  }

  /** Some rule matches `text`. */
  predicate AnyMatch(e: Regex.Engine, rules: seq<RegexExtract>, text: string) {
    exists i :: 0 <= i < |rules| && e.compiles(rules[i].regex) && e.find(rules[i].regex, text).Some?
  }

  /** `Handler(context, event)` for request body `body`, decoded into `decoded`, and the
      stored rules `rules`. An empty body is answered 204 before anything else. The field
      map is then reset, whatever the body carried. The first rule whose pattern does not
      compile aborts with 500, even after earlier matches. Otherwise the answer is 200
      with the event and the merged fields when some rule matched, and 204 when none did. */
  method Handler(e: Regex.Engine, rules: seq<RegexExtract>, body: string, decoded: LogEvent)
    returns (r: Response<LogEvent>)
    requires Regex.Sound(e)
    ensures body == "" ==> r == BodyEmpty()
    ensures body != "" ==> (r.statusCode == 500 <==> !AllCompile(e, rules))
    ensures r.statusCode == 500 ==> r == RegexError(500)
    ensures r.statusCode == 200 <==> body != "" && AllCompile(e, rules) && AnyMatch(e, rules, decoded.event)
    ensures r.statusCode == 200 ==> r.contentType == "application/json"
    ensures r.statusCode == 200 ==>
      r.body == Json(decoded.(fields := MergeAll(map[], Extractions(e, rules, decoded.event))))
    ensures r.statusCode in {200, 204, 500}
    ensures r.statusCode == 204 ==> r == BodyEmpty()
  {
    if |body| == 0 {
      return BodyEmpty();
    }
    var logEvent := decoded.(fields := map[]);
    var out := RunRules(e, rules, logEvent);
    match out
    case RegexFailed =>
      return RegexError(500);
    case Finished(_, fieldsJSON) =>
      if fieldsJSON.Some? {
        return JsonOk(fieldsJSON.value);
      }
      return BodyEmpty();
  }

  /** How the rule loop ends: returning early on a pattern that does not compile, or
      running to the end with the event and the last event serialised after a match. */
  datatype Outcome = RegexFailed | Finished(logEvent: LogEvent, fieldsJSON: Option<LogEvent>)

  /** The rule loop: compile each rule's pattern, match it against the event text and copy
      the match map into the event's fields, remembering the event after the last match. */
  method RunRules(e: Regex.Engine, rules: seq<RegexExtract>, start: LogEvent) returns (out: Outcome)
    requires Regex.Sound(e)
    ensures out.RegexFailed? <==> !AllCompile(e, rules)
    ensures out.Finished? ==>
      out.logEvent == start.(fields := MergeAll(start.fields, Extractions(e, rules, start.event)))
    ensures out.Finished? ==> (out.fieldsJSON.Some? <==> AnyMatch(e, rules, start.event))
    ensures out.Finished? && out.fieldsJSON.Some? ==> out.fieldsJSON.value == out.logEvent
  {
    var logEvent := start;
    var fieldsJSON: Option<LogEvent> := None;
    for i := 0 to |rules|
      invariant AllCompile(e, rules[..i])
      invariant logEvent == start.(fields := MergeAll(start.fields, Extractions(e, rules[..i], start.event)))
      invariant fieldsJSON.Some? <==> AnyMatch(e, rules[..i], start.event)
      invariant fieldsJSON.Some? ==> fieldsJSON.value == logEvent
    {
      if !e.compiles(rules[i].regex) {
        assert !AllCompile(e, rules);
        return RegexFailed;
      }
      var fields := Regex.ReSubMatchMap(e, rules[i].regex, logEvent.event);
      RuleStep(e, rules, i, start.fields, start.event);
      if fields.Some? {
        logEvent := logEvent.(fields := logEvent.fields + fields.value);
        fieldsJSON := Some(logEvent);
      }
    }
    assert rules[..|rules|] == rules;
    return Finished(logEvent, fieldsJSON);
  }

  /** One more compiling rule: the merge takes its match map last, and some rule matches
      when an earlier one did or this one does. */
  lemma RuleStep(e: Regex.Engine, rules: seq<RegexExtract>, i: nat, f: map<string, string>, text: string)
    requires Regex.Sound(e) && i < |rules| && AllCompile(e, rules[..i]) && e.compiles(rules[i].regex)
    ensures AllCompile(e, rules[..i + 1])
    ensures var x := Regex.ReSubMatchMap(e, rules[i].regex, text);
      && MergeAll(f, Extractions(e, rules[..i + 1], text)) ==
        (match x case None => MergeAll(f, Extractions(e, rules[..i], text)) case Some(m) => MergeAll(f, Extractions(e, rules[..i], text)) + m)
      && (AnyMatch(e, rules[..i + 1], text) <==> AnyMatch(e, rules[..i], text) || x.Some?)
  {
    assert forall j :: 0 <= j < i ==> rules[..i][j] == rules[..i + 1][j];
    assert rules[..i + 1][i] == rules[i];
    ExtractionsSnoc(e, rules, i, text);
    MergeAllSnoc(f, Extractions(e, rules[..i], text), Regex.ReSubMatchMap(e, rules[i].regex, text));
  }

  /** Merging one more map: the merge of the earlier maps, overridden by it. */
  lemma MergeAllSnoc(f: map<string, string>, ys: seq<Option<map<string, string>>>, x: Option<map<string, string>>)
    ensures MergeAll(f, ys + [x]) == match x case None => MergeAll(f, ys) case Some(m) => MergeAll(f, ys) + m
  {
    assert (ys + [x])[..|ys|] == ys;
  }

  lemma ExtractionsSnoc(e: Regex.Engine, rules: seq<RegexExtract>, i: nat, text: string)
    requires Regex.Sound(e) && i < |rules| && AllCompile(e, rules[..i + 1])
    ensures AllCompile(e, rules[..i])
    ensures Extractions(e, rules[..i + 1], text) ==
      Extractions(e, rules[..i], text) + [Regex.ReSubMatchMap(e, rules[i].regex, text)]
  {
    assert forall j :: 0 <= j < i ==> rules[..i][j] == rules[..i + 1][j];
  }

  /** A key some map defines has a last map defining it. */
  lemma {:induction false} HasLastDefiner(xs: seq<Option<map<string, string>>>, j: int, k: string)
    requires 0 <= j < |xs| && Defines(xs[j], k)
    ensures exists j' :: j <= j' < |xs| && LastDefiner(xs, j', k)
    decreases |xs| - j
  {
    if !LastDefiner(xs, j, k) {
      var j' :| j < j' < |xs| && Defines(xs[j'], k);
      HasLastDefiner(xs, j', k);
    }
  }

  /** The merge property determines the merged map. */
  lemma MergeUnique(f: map<string, string>, xs: seq<Option<map<string, string>>>, r1: map<string, string>, r2: map<string, string>)
    requires IsMergeOf(f, xs, r1) && IsMergeOf(f, xs, r2)
    ensures r1 == r2
  {
    forall k | k in r1
      ensures k in r2 && r1[k] == r2[k]
    {
      if j :| 0 <= j < |xs| && Defines(xs[j], k) {
        HasLastDefiner(xs, j, k);
        var j' :| j <= j' < |xs| && LastDefiner(xs, j', k);
      }
    }
    assert r1.Keys == r2.Keys;
  }

  /** Merging a concatenation is merging one part after the other. */
  lemma {:induction false} MergeAppend(f: map<string, string>, a: seq<Option<map<string, string>>>, b: seq<Option<map<string, string>>>)
    ensures MergeAll(f, a + b) == MergeAll(MergeAll(f, a), b)
    decreases |b|
  {
    if |b| == 0 {
      assert a + b == a;
    } else {
      var n := |b| - 1;
      assert (a + b)[..|a + b| - 1] == a + b[..n];
      MergeAppend(f, a, b[..n]);
    }
  }

  /** A rule that does not match leaves the merged fields as they are: dropping it from the
      rule list changes nothing. */
  lemma SkipNonMatching(f: map<string, string>, a: seq<Option<map<string, string>>>, b: seq<Option<map<string, string>>>)
    ensures MergeAll(f, a + [None] + b) == MergeAll(f, a + b)
  {
    MergeAppend(f, a + [None], b);
    MergeAppend(f, a, b);
    assert (a + [None])[..|a|] == a;
  }

  /** The fields a body arrives with are overwritten by the rules but otherwise kept:
      merging into `f` is `f` updated with the merge into an empty map. */
  lemma {:induction false} MergeFactor(f: map<string, string>, xs: seq<Option<map<string, string>>>)
    ensures MergeAll(f, xs) == f + MergeAll(map[], xs)
    decreases |xs|
  {
    if |xs| > 0 {
      MergeFactor(f, xs[..|xs| - 1]);
    } else {
      assert f + map[] == f;
    }
  }

  /** Running the same rules over an already enriched field map changes nothing. */
  lemma MergeIdempotent(f: map<string, string>, xs: seq<Option<map<string, string>>>)
    ensures MergeAll(MergeAll(f, xs), xs) == MergeAll(f, xs)
  {
    var m := MergeAll(map[], xs);
    MergeFactor(f, xs);
    MergeFactor(f + m, xs);
    assert (f + m) + m == f + m;
  }
}
