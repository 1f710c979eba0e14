/** `fieldextractor.go` (package `nuclio_etl`): the earlier copy of the field extractor,
    whose last step is an explicit if/else. */
module NuclioEtl {
  import opened Options
  import opened Nuclio
  import Regex
  import FieldExtractor

  /** `Handler(context, event)`; it answers every request exactly as the field extractor
      does. */
  function Handler(e: Regex.Engine, body: string, pattern: string): (r: Response<map<string, string>>)
    requires Regex.Sound(e)
    ensures r == FieldExtractor.Handler(e, body, pattern)
  {
    if |body| == 0 then
      Response(204, "application/text", Text("Body empty"))
    else if !e.compiles(pattern) then
      Response(400, "application/text", Text("Regex error"))
    else
      match Regex.ReSubMatchMap(e, pattern, body)
      case Some(fields) => Response(200, "application/json", Json(fields))
      case None => Response(204, "application/text", Text("Body empty"))
  }
}
