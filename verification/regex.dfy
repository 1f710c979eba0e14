/** Go's `regexp` package, kept abstract, and the helper that turns one match into a
    map from group name to captured text (`reSubMatchMap` in the field extractors,
    `doRegexMatch` in the TCP inputs). */
module Regex {
  import opened Options

  /** The regular-expression engine as an oracle.
      - `compiles(p)`: `regexp.Compile(p)` returns no error;
      - `names(p)`: `SubexpNames()`, one entry per group, index 0 being the whole
        match and unnamed groups being "";
      - `find(p, s)`: `FindStringSubmatch(s)`, the leftmost first match with one text per
        group ("" for a group that did not take part), or None when nothing matches. */
  datatype Engine = Engine(
    compiles: string -> bool,
    names: string -> seq<string>,
    find: (string, string) -> Option<seq<string>>)

  /** What Go guarantees of every compiled pattern: a match has one entry per group. */
  ghost predicate Sound(e: Engine) {
    forall p, s :: e.compiles(p) && e.find(p, s).Some? ==> |e.find(p, s).value| == |e.names(p)|
  }

  /** Group `i` is the last group called `names[i]`. */
  predicate LastNamed(names: seq<string>, i: int)
    requires 0 <= i < |names|
  {
    forall j :: i < j < |names| ==> names[j] != names[i]
  }

  /** The loop body of `reSubMatchMap`: every group but the whole match is stored under its
      name, so the key set is the set of names of groups 1..n and, when two groups share a
      name (in particular several unnamed groups, all called ""), the later one wins. */
  function SubMatchMap(names: seq<string>, groups: seq<string>): (m: map<string, string>)
    requires |groups| == |names|
    ensures m.Keys == set i | 1 <= i < |names| :: names[i]
    ensures forall i :: 1 <= i < |names| && LastNamed(names, i) ==> m[names[i]] == groups[i]
    decreases |names|
  {
    if |names| <= 1 then map[]
    else
      var n := |names| - 1;
      var init := SubMatchMap(names[..n], groups[..n]);
      StoreGroup(names, groups, init);
      init[names[n] := groups[n]]
  }

  /** Storing the last group on top of the map of the earlier ones. */
  lemma StoreGroup(names: seq<string>, groups: seq<string>, init: map<string, string>)
    requires |groups| == |names| > 1
    requires var n := |names| - 1;
      && init.Keys == (set i | 1 <= i < n :: names[..n][i])
      && forall i :: 1 <= i < n && LastNamed(names[..n], i) ==> init[names[..n][i]] == groups[..n][i]
    ensures var m := init[names[|names| - 1] := groups[|names| - 1]];
      && m.Keys == (set i | 1 <= i < |names| :: names[i])
      && forall i :: 1 <= i < |names| && LastNamed(names, i) ==> m[names[i]] == groups[i]
  {
    var n := |names| - 1;
    var m := init[names[n] := groups[n]];
    assert forall i :: 1 <= i < n ==> names[..n][i] == names[i] && groups[..n][i] == groups[i];
    assert forall i :: 1 <= i < n && LastNamed(names, i) ==> LastNamed(names[..n], i);
    assert (set i | 1 <= i < |names| :: names[i]) == (set i | 1 <= i < n :: names[i]) + {names[n]};
  }

  /** `reSubMatchMap` given the group names and the outcome of `FindStringSubmatch`:
      None (Go's nil map) when there is no match. */
  function MatchMap(names: seq<string>, found: Option<seq<string>>): (r: Option<map<string, string>>)
    requires found.Some? ==> |found.value| == |names|
    ensures r.Some? <==> found.Some?
    ensures r.Some? ==> r.value.Keys == set i | 1 <= i < |names| :: names[i]
  {
    match found
    case None => None
    case Some(groups) => Some(SubMatchMap(names, groups))
  }

  /** `reSubMatchMap(r, str)` for a compiled pattern `p`. */
  function ReSubMatchMap(e: Engine, p: string, s: string): (r: Option<map<string, string>>)
    requires Sound(e) && e.compiles(p)
    ensures r.Some? <==> e.find(p, s).Some?
    ensures r.Some? ==> r.value.Keys == set i | 1 <= i < |e.names(p)| :: e.names(p)[i]
    ensures r.Some? ==> forall i :: 1 <= i < |e.names(p)| && LastNamed(e.names(p), i) ==>
      r.value[e.names(p)[i]] == e.find(p, s).value[i]
  {
    MatchMap(e.names(p), e.find(p, s))
  }
}
