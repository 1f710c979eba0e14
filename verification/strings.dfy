/** Substring search and splitting on strings, as used by the frame grammar, plus the
    small sequence helpers the connection handlers share. */
module Strings {
  import opened Options

  /** `d` occurs in `s` starting at index `i`. */
  predicate OccursAt(s: string, d: string, i: int) {
    0 <= i && i + |d| <= |s| && s[i..i + |d|] == d
  }

  /** `d` occurs somewhere in `s`. */
  predicate Contains(s: string, d: string) {
    exists i | 0 <= i <= |s| - |d| :: OccursAt(s, d, i)
  }

  predicate EndsWith(s: string, t: string) {
    |t| <= |s| && s[|s| - |t|..] == t
  }

  /** A delimiter whose first character does not reappear in it: an occurrence of it can
      never start inside a text that is immediately followed by the delimiter itself. */
  predicate UniqueLead(d: string) {
    |d| > 0 && forall k :: 1 <= k < |d| ==> d[k] != d[0]
  }

  /** Index of the first occurrence of `d` in `s`. */
  function IndexOf(s: string, d: string): (r: Option<nat>)
    ensures r.Some? ==> OccursAt(s, d, r.value)
    ensures r.Some? ==> forall j :: 0 <= j < r.value ==> !OccursAt(s, d, j)
    ensures r.None? <==> !Contains(s, d)
    decreases |s|
  {
    if |d| > |s| then None
    else if s[..|d|] == d then Some(0)
    else
      match IndexOf(s[1..], d)
      case None =>
        assert forall j :: 1 <= j <= |s| - |d| ==> !OccursAt(s, d, j) by {
          forall j | 1 <= j <= |s| - |d| ensures !OccursAt(s, d, j) {
            OccursShift(s, d, j);
          }
        }
        assert !OccursAt(s, d, 0);
        None
      case Some(i) =>
        OccursShift(s, d, i + 1);
        assert forall j :: 1 <= j < i + 1 ==> !OccursAt(s, d, j) by {
          forall j | 1 <= j < i + 1 ensures !OccursAt(s, d, j) {
            OccursShift(s, d, j);
          }
        }
        Some(i + 1)
  }

  /** An occurrence at `j >= 1` is an occurrence at `j - 1` in the text without its first
      character. */
  lemma OccursShift(s: string, d: string, j: int)
    requires |s| > 0 && 1 <= j
    ensures OccursAt(s, d, j) <==> OccursAt(s[1..], d, j - 1)
  {
    if j + |d| <= |s| {
      assert s[1..][j - 1..j - 1 + |d|] == s[j..j + |d|];
    }
  }

  /** When `a` does not contain `d` and `d` has a unique lead character, the first
      occurrence of `d` in `a + d + b` is the one right after `a`. */
  lemma {:induction false} IndexOfAfter(a: string, d: string, b: string)
    requires UniqueLead(d)
    requires !Contains(a, d)
    ensures IndexOf(a + d + b, d) == Some(|a|)
  {
    var s := a + d + b;
    assert s[|a|..|a| + |d|] == d;
    assert OccursAt(s, d, |a|);
    forall j | 0 <= j < |a|
      ensures !OccursAt(s, d, j)
    {
      if j + |d| <= |a| {
        assert s[j..j + |d|] == a[j..j + |d|];
        assert !OccursAt(a, d, j);
      } else {
        var m := |a| - j;
        assert d[m] != d[0];
        assert s[|a|] == d[0];
        assert s[j..j + |d|][m] == s[|a|];
      }
    }
  }

  /** Splits `s` at the first occurrence of each delimiter in turn: piece k runs up to the
      first occurrence of `ds[k]` after the end of the previous delimiter. */
  function SplitAll(s: string, ds: seq<string>): (r: Option<seq<string>>)
    ensures r.Some? ==> |r.value| == |ds| + 1
    decreases |ds|
  {
    if |ds| == 0 then Some([s])
    else
      match IndexOf(s, ds[0])
      case None => None
      case Some(i) =>
        match SplitAll(s[i + |ds[0]|..], ds[1..])
        case None => None
        case Some(rest) => Some([s[..i]] + rest)
  }

  /** Joins `ps` with `ds[k]` between `ps[k]` and `ps[k + 1]`. */
  function Interleave(ps: seq<string>, ds: seq<string>): string
    requires |ps| == |ds| + 1
    decreases |ds|
  {
    if |ds| == 0 then ps[0] else ps[0] + ds[0] + Interleave(ps[1..], ds[1..])
  }

  /** No piece contains the delimiter that follows it. */
  predicate Separated(ps: seq<string>, ds: seq<string>)
    requires |ps| == |ds| + 1
  {
    forall k :: 0 <= k < |ds| ==> !Contains(ps[k], ds[k])
  }

  /** Splitting an interleaving gives back its pieces. */
  lemma {:induction false} SplitInterleave(ps: seq<string>, ds: seq<string>)
    requires |ps| == |ds| + 1
    requires forall k :: 0 <= k < |ds| ==> UniqueLead(ds[k])
    requires Separated(ps, ds)
    ensures SplitAll(Interleave(ps, ds), ds) == Some(ps)
    decreases |ds|
  {
    if |ds| > 0 {
      var tail := Interleave(ps[1..], ds[1..]);
      var s := ps[0] + ds[0] + tail;
      assert Interleave(ps, ds) == s;
      assert !Contains(ps[0], ds[0]);
      IndexOfAfter(ps[0], ds[0], tail);
      assert s[|ps[0]| + |ds[0]|..] == tail;
      assert s[..|ps[0]|] == ps[0];
      SeparatedTail(ps, ds);
      SplitInterleave(ps[1..], ds[1..]);
      assert SplitAll(tail, ds[1..]) == Some(ps[1..]);
      assert SplitAll(s, ds) == Some([ps[0]] + ps[1..]);
      assert [ps[0]] + ps[1..] == ps;
    } else {
      assert [ps[0]] == ps;
    }
  }

  lemma SeparatedTail(ps: seq<string>, ds: seq<string>)
    requires |ps| == |ds| + 1 && |ds| > 0
    requires Separated(ps, ds)
    ensures Separated(ps[1..], ds[1..])
  {
    forall k | 0 <= k < |ds[1..]| ensures !Contains(ps[1..][k], ds[1..][k]) {
      assert ps[1..][k] == ps[k + 1] && ds[1..][k] == ds[k + 1];
    }
  }

  /** A prefix that ends before the first occurrence of `d` does not contain `d`. */
  lemma PrefixBeforeFirst(s: string, d: string, i: nat)
    requires i <= |s| && |d| > 0
    requires forall j :: 0 <= j < i ==> !OccursAt(s, d, j)
    ensures !Contains(s[..i], d)
  {
    forall j | 0 <= j <= i - |d| ensures !OccursAt(s[..i], d, j) {
      assert !OccursAt(s, d, j);
      assert s[..i][j..j + |d|] == s[j..j + |d|];
    }
  }

  /** Whatever splitting accepts is an interleaving of separated pieces. */
  lemma {:induction false} InterleaveSplit(s: string, ds: seq<string>)
    requires forall k :: 0 <= k < |ds| ==> |ds[k]| > 0
    requires SplitAll(s, ds).Some?
    ensures Interleave(SplitAll(s, ds).value, ds) == s
    ensures Separated(SplitAll(s, ds).value, ds)
  {
    SplitJoins(s, ds);
    SplitSeparates(s, ds);
  }

  /** The pieces of a successful split, joined with the delimiters, give the text back. */
  lemma {:induction false} SplitJoins(s: string, ds: seq<string>)
    requires SplitAll(s, ds).Some?
    ensures Interleave(SplitAll(s, ds).value, ds) == s
    decreases |ds|
  {
    if |ds| > 0 {
      SplitAllStep(s, ds);
      var i := IndexOf(s, ds[0]).value;
      var tail := s[i + |ds[0]|..];
      ConsParts(s[..i], SplitAll(tail, ds[1..]).value);
      SplitJoins(tail, ds[1..]);
      var ps := SplitAll(s, ds).value;
      assert Interleave(ps, ds) == s[..i] + ds[0] + tail;
      SplitAround(s, ds[0], i);
    }
  }

  /** An occurrence of `d` at `i` cuts `s` into the text before, `d` and the text after. */
  lemma SplitAround(s: string, d: string, i: nat)
    requires OccursAt(s, d, i)
    ensures s == s[..i] + d + s[i + |d|..]
  {
    assert s == s[..i] + s[i..i + |d|] + s[i + |d|..];
  }

  /** No piece of a successful split contains the delimiter that follows it. */
  lemma {:induction false} SplitSeparates(s: string, ds: seq<string>)
    requires forall k :: 0 <= k < |ds| ==> |ds[k]| > 0
    requires SplitAll(s, ds).Some?
    ensures Separated(SplitAll(s, ds).value, ds)
    decreases |ds|
  {
    if |ds| > 0 {
      SplitAllStep(s, ds);
      var i := IndexOf(s, ds[0]).value;
      var tail := s[i + |ds[0]|..];
      ConsParts(s[..i], SplitAll(tail, ds[1..]).value);
      NonEmptyTail(ds);
      SplitSeparates(tail, ds[1..]);
      var ps := SplitAll(s, ds).value;
      ConsSeparated(s, ds, i, ps);
    }
  }

  lemma NonEmptyTail(ds: seq<string>)
    requires |ds| > 0 && forall k :: 0 <= k < |ds| ==> |ds[k]| > 0
    ensures forall k :: 0 <= k < |ds[1..]| ==> |ds[1..][k]| > 0
  {
  }

  /** The piece before the first occurrence of the first delimiter does not contain it, so
      it can lead a separated list of pieces. */
  lemma ConsSeparated(s: string, ds: seq<string>, i: nat, ps: seq<string>)
    requires |ds| > 0 && |ds[0]| > 0 && i <= |s|
    requires forall j :: 0 <= j < i ==> !OccursAt(s, ds[0], j)
    requires |ps| == |ds| + 1 && ps[0] == s[..i]
    requires Separated(ps[1..], ds[1..])
    ensures Separated(ps, ds)
  {
    PrefixBeforeFirst(s, ds[0], i);
    assert forall k :: 1 <= k < |ds| ==> ps[k] == ps[1..][k - 1] && ds[k] == ds[1..][k - 1];
  }

  /** A successful split found its first delimiter and split the rest. */
  lemma SplitAllStep(s: string, ds: seq<string>)
    requires |ds| > 0 && SplitAll(s, ds).Some?
    ensures IndexOf(s, ds[0]).Some?
    ensures var i := IndexOf(s, ds[0]).value;
      && SplitAll(s[i + |ds[0]|..], ds[1..]).Some?
      && SplitAll(s, ds).value == [s[..i]] + SplitAll(s[i + |ds[0]|..], ds[1..]).value
  {
  }

  lemma ConsParts<T>(x: T, rest: seq<T>)
    ensures ([x] + rest)[0] == x && ([x] + rest)[1..] == rest
  {
  }

  /** The text after the last line feed of `s` (all of `s` when it has none). */
  function LastLine(s: string): (r: string)
    ensures EndsWith(s, r)
    ensures '\n' !in r
    ensures |r| < |s| ==> s[|s| - |r| - 1] == '\n'
    decreases |s|
  {
    if |s| == 0 then ""
    else if s[|s| - 1] == '\n' then ""
    else
      var init := LastLine(s[..|s| - 1]);
      LastLineStep(s, init);
      init + [s[|s| - 1]]
  }

  /** The last line of `s` grows by its final character when that is not a line feed. */
  lemma LastLineStep(s: string, init: string)
    requires |s| > 0 && s[|s| - 1] != '\n'
    requires var t := s[..|s| - 1];
      EndsWith(t, init) && '\n' !in init && (|init| < |t| ==> t[|t| - |init| - 1] == '\n')
    ensures var r := init + [s[|s| - 1]];
      EndsWith(s, r) && '\n' !in r && (|r| < |s| ==> s[|s| - |r| - 1] == '\n')
  {
    var t := s[..|s| - 1];
    var r := init + [s[|s| - 1]];
    assert t[|t| - |init|..] == s[|t| - |init|..|t|];
    assert s[|s| - |r|..] == s[|t| - |init|..|t|] + [s[|s| - 1]];
  }

  /** Appending text without a line feed extends the last line. */
  lemma {:induction false} LastLineAppend(a: string, b: string)
    requires '\n' !in b
    ensures LastLine(a + b) == LastLine(a) + b
    decreases |b|
  {
    if |b| > 0 {
      var b' := b[..|b| - 1];
      assert (a + b)[..|a + b| - 1] == a + b';
      assert b[|b| - 1] in b;
      LastLineAppend(a, b');
      assert b' + [b[|b| - 1]] == b;
    } else {
      assert a + b == a;
    }
  }

  /** The lines of `lines` that are not empty, in their original order. */
  function NonEmpty(lines: seq<string>): (r: seq<string>)
    ensures |r| <= |lines|
    ensures forall i :: 0 <= i < |r| ==> r[i] != ""
    ensures forall l :: l in r <==> l in lines && l != ""
    decreases |lines|
  {
    if |lines| == 0 then []
    else
      var init := NonEmpty(lines[..|lines| - 1]);
      var l := lines[|lines| - 1];
      assert lines == lines[..|lines| - 1] + [l];
      if l == "" then init else init + [l]
  }

  /** One more line extends the non-empty lines by itself, unless it is empty. */
  lemma NonEmptySnoc(lines: seq<string>, l: string)
    ensures NonEmpty(lines + [l]) == if l == "" then NonEmpty(lines) else NonEmpty(lines) + [l]
  {
    assert (lines + [l])[..|lines|] == lines;
  }

  /** The positions of the non-empty lines, in increasing order: every non-empty line's
      position is listed exactly once, and no empty line's. */
  function NonEmptyIndices(lines: seq<string>): (idx: seq<nat>)
    ensures forall k :: 0 <= k < |idx| ==> idx[k] < |lines| && lines[idx[k]] != ""
    ensures forall a, b :: 0 <= a < b < |idx| ==> idx[a] < idx[b]
    ensures forall i :: 0 <= i < |lines| && lines[i] != "" ==> i in idx
    decreases |lines|
  {
    if |lines| == 0 then []
    else
      var n := |lines| - 1;
      var init := NonEmptyIndices(lines[..n]);
      assert forall i :: 0 <= i < n ==> lines[..n][i] == lines[i];
      if lines[n] == "" then init else init + [n]
  }

  /** `NonEmpty` selects exactly the lines at `NonEmptyIndices`, so it keeps their order
      and drops every empty line and nothing else. */
  lemma {:induction false} NonEmptySelects(lines: seq<string>)
    ensures |NonEmpty(lines)| == |NonEmptyIndices(lines)|
    ensures forall k :: 0 <= k < |NonEmpty(lines)| ==> NonEmpty(lines)[k] == lines[NonEmptyIndices(lines)[k]]
    decreases |lines|
  {
    if |lines| > 0 {
      var init := lines[..|lines| - 1];
      NonEmptySelects(init);
      NonEmptyUnfold(lines);
      SelectStep(lines, NonEmpty(init), NonEmptyIndices(init));
    }
  }

  /** The last line's step of `NonEmpty` and `NonEmptyIndices`. */
  lemma NonEmptyUnfold(lines: seq<string>)
    requires |lines| > 0
    ensures var n := |lines| - 1;
      && NonEmpty(lines) == (if lines[n] == "" then NonEmpty(lines[..n]) else NonEmpty(lines[..n]) + [lines[n]])
      && NonEmptyIndices(lines) == (if lines[n] == "" then NonEmptyIndices(lines[..n]) else NonEmptyIndices(lines[..n]) + [n])
  {
  }

  /** One more line keeps the selection of the earlier lines and adds itself unless it is
      empty. */
  lemma SelectStep(lines: seq<string>, r: seq<string>, idx: seq<nat>)
    requires |lines| > 0 && |r| == |idx|
    requires forall k :: 0 <= k < |idx| ==> idx[k] < |lines| - 1 && r[k] == lines[..|lines| - 1][idx[k]]
    ensures var n := |lines| - 1;
      var r' := if lines[n] == "" then r else r + [lines[n]];
      var idx' := if lines[n] == "" then idx else idx + [n];
      |r'| == |idx'| && forall k :: 0 <= k < |r'| ==> r'[k] == lines[idx'[k]]
  {
  }

  /** `NonEmpty` keeps every non-empty line as often as it occurs and no empty one. */
  lemma {:induction false} NonEmptyCounts(lines: seq<string>)
    ensures multiset(NonEmpty(lines)) == multiset(lines)["" := 0]
    decreases |lines|
  {
    if |lines| > 0 {
      var n := |lines| - 1;
      var init := lines[..n];
      NonEmptyCounts(init);
      assert lines == init + [lines[n]];
      NonEmptySnoc(init, lines[n]);
      assert multiset(lines) == multiset(init) + multiset{lines[n]};
    }
  }
}
