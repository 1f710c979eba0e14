/** `fieldextractor/fieldextractor.go`: an HTTP handler that runs the pattern given in
    the `X-Regex` header over the request body and answers with the map from group name
    to captured text. */
module FieldExtractor {
  import opened Options
  import opened Nuclio
  import Regex

  /** The names of the groups after the whole match, i.e. the keys of every answer map. */
  function GroupNames(e: Regex.Engine, pattern: string): set<string> {
    set i | 1 <= i < |e.names(pattern)| :: e.names(pattern)[i]
  }

  /** `Handler(context, event)` for request body `body` and header value `pattern`.
      Empty body: 204. Pattern that does not compile: 400. Match: 200 with the group map.
      No match: 204. */
  function Handler(e: Regex.Engine, body: string, pattern: string): (r: Response<map<string, string>>)
    requires Regex.Sound(e)
    ensures r.statusCode in {200, 204, 400}
    ensures r.statusCode == 400 <==> body != "" && !e.compiles(pattern)
    ensures r.statusCode == 200 <==> body != "" && e.compiles(pattern) && e.find(pattern, body).Some?
    ensures r.statusCode == 200 ==> r.contentType == "application/json" && r.body.Json?
    ensures r.statusCode == 200 ==> r.body.value.Keys == GroupNames(e, pattern)
    ensures r.statusCode == 200 ==> forall i :: 1 <= i < |e.names(pattern)| && Regex.LastNamed(e.names(pattern), i) ==>
      r.body.value[e.names(pattern)[i]] == e.find(pattern, body).value[i]
    ensures r.statusCode != 200 ==> r.contentType == "application/text"
    ensures r.statusCode == 204 ==> r.body == Text("Body empty")
    ensures r.statusCode == 400 ==> r.body == Text("Regex error")
  {
    if |body| == 0 then BodyEmpty()
    else if !e.compiles(pattern) then RegexError(400)
    else
      var fields := Regex.ReSubMatchMap(e, pattern, body);
      if fields.Some? then JsonOk(fields.value)
      else BodyEmpty()
  }
}
