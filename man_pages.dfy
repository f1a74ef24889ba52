/** `parse_man` in generate.py: a single pass over the lines of a man page
    that collects the headers named by `#include <...>` lines of the
    synopsis and pairs every function the synopsis declares with the headers
    seen so far. */
module ManPages {
  import opened Text

  const IncludeOpen: string := "#include <"

  // ---------------------------------------------------------------------
  // The include pattern `#include <(.*?)>`

  /** `#include <h>` occurs at `p`, with `h` free of `>` (the lazy group
      stops at the first one) and of newlines (`.` does not match them). */
  predicate MatchAt(line: string, p: nat, h: string)
  {
    OccursAt(line, IncludeOpen + h + ">", p) && '>' !in h && '\n' !in h
  }

  /** The first index at or after `i` holding `>` or a newline, or the end
      of the line. */
  function StopAt(line: string, i: nat): (k: nat)
    requires i <= |line|
    ensures i <= k <= |line|
    ensures forall j | i <= j < k :: line[j] != '>' && line[j] != '\n'
    ensures k < |line| ==> line[k] == '>' || line[k] == '\n'
    decreases |line| - i
  {
    if i == |line| || line[i] == '>' || line[i] == '\n' then i else StopAt(line, i + 1)
  }

  /** The pattern can match at `p` exactly when the opener is there and the
      first `>` or newline after it is a `>`. */
  predicate MatchableAt(line: string, p: nat)
  {
    && p + |IncludeOpen| <= |line|
    && line[p..p + |IncludeOpen|] == IncludeOpen
    && StopAt(line, p + |IncludeOpen|) < |line|
    && line[StopAt(line, p + |IncludeOpen|)] == '>'
  }

  /** A match at `p` always captures the text up to the first `>`. */
  lemma MatchAtCapturesToStop(line: string, p: nat, h: string)
    requires MatchAt(line, p, h)
    ensures MatchableAt(line, p)
    ensures StopAt(line, p + |IncludeOpen|) == p + |IncludeOpen| + |h|
    ensures h == line[p + |IncludeOpen|..p + |IncludeOpen| + |h|]
  {
    var start := p + |IncludeOpen|;
    var m := IncludeOpen + h + ">";
    assert line[p..p + |m|] == m;
    SliceWithin(line, p, m, 0, |IncludeOpen|);
    assert m[..|IncludeOpen|] == IncludeOpen;
    SliceWithin(line, p, m, |IncludeOpen|, |IncludeOpen| + |h|);
    assert m[|IncludeOpen|..|IncludeOpen| + |h|] == h;
    SliceWithin(line, p, m, |IncludeOpen| + |h|, |m|);
    assert m[|IncludeOpen| + |h|..] == ">";
    assert line[start + |h|] == line[start + |h|..p + |m|][0];
    forall j | start <= j < start + |h| ensures line[j] != '>' && line[j] != '\n' {
      assert line[j] == line[start..start + |h|][j - start];
    }
    StopAtFirst(line, start, start + |h|);
  }

  lemma {:induction false} StopAtFirst(line: string, i: nat, k: nat)
    requires i <= k < |line|
    requires forall j | i <= j < k :: line[j] != '>' && line[j] != '\n'
    requires line[k] == '>' || line[k] == '\n'
    ensures StopAt(line, i) == k
    decreases k - i
  {
    if i < k {
      StopAtFirst(line, i + 1, k);
    }
  }

  lemma NoMatchAt(line: string, p: nat)
    requires !MatchableAt(line, p)
    ensures forall h :: !MatchAt(line, p, h)
  {
    forall h | MatchAt(line, p, h) ensures false {
      MatchAtCapturesToStop(line, p, h);
    }
  }

  /** The leftmost match at or after `from`, as `re.search` finds it. */
  function SearchFrom(line: string, from: nat): Option<(nat, string)>
    requires from <= |line|
    decreases |line| - from
  {
    if MatchableAt(line, from) then
      var start := from + |IncludeOpen|;
      Some((from, line[start..StopAt(line, start)]))
    else if from == |line| then None
    else SearchFrom(line, from + 1)
  }

  /** `SearchFrom` finds a match, and no match lies before it; when it
      finds none there is none. */
  lemma {:induction false} SearchFromSpec(line: string, from: nat)
    requires from <= |line|
    ensures var r := SearchFrom(line, from);
      && (r.Some? ==> from <= r.value.0 && MatchAt(line, r.value.0, r.value.1))
      && (r.Some? ==> forall p: nat, h | from <= p < r.value.0 :: !MatchAt(line, p, h))
      && (r.None? ==> forall p: nat, h | from <= p :: !MatchAt(line, p, h))
    decreases |line| - from
  {
    if MatchableAt(line, from) {
      var start := from + |IncludeOpen|;
      var stop := StopAt(line, start);
      var h := line[start..stop];
      assert line[from..stop + 1] == IncludeOpen + h + ">";
    } else {
      NoMatchAt(line, from);
      if from < |line| {
        SearchFromSpec(line, from + 1);
      }
    }
  }

  /** `re.search('#include <(.*?)>', line)` and its group 1. */
  function IncludeTarget(line: string): (r: Option<string>)
    ensures r.Some? ==> exists p: nat :: MatchAt(line, p, r.value)
  {
    SearchFromSpec(line, 0);
    match SearchFrom(line, 0)
    case None => None
    case Some((_, h)) => Some(h)
  }

  /** The header is the text between the leftmost `#include <` that has a
      closing `>` on the line and the first `>` after it; with no such
      text on the line there is no header. */
  lemma IncludeTargetSpec(line: string)
    ensures IncludeTarget(line).Some? ==>
      exists p: nat :: MatchAt(line, p, IncludeTarget(line).value) && forall q: nat, h | q < p :: !MatchAt(line, q, h)
    ensures IncludeTarget(line).None? ==> forall p: nat, h :: !MatchAt(line, p, h)
  {
    SearchFromSpec(line, 0);
  }

  /** Two matches at one position capture the same text. */
  lemma MatchAtUnique(line: string, p: nat, h1: string, h2: string)
    requires MatchAt(line, p, h1) && MatchAt(line, p, h2)
    ensures h1 == h2
  {
    MatchAtCapturesToStop(line, p, h1);
    MatchAtCapturesToStop(line, p, h2);
  }

  // ---------------------------------------------------------------------
  // The scan

  /** The function-name pattern of the synopsis, left abstract. */
  type Extractor = string -> Option<string>

  /** One function of the synopsis with the headers seen up to it. */
  datatype Found = Found(func: string, includes: set<string>)

  /** The header a line adds to the include set: lines starting `.B ` or
      `.BR "#inc` that carry a match. */
  function LineIncludes(line: string, target: Extractor): set<string>
  {
    if (StartsWith(line, ".B ") || StartsWith(line, ".BR \"#inc")) && target(line).Some? then
      {target(line).value}
    else {}
  }

  /** A synopsis line that names a function. */
  predicate NamesFunction(line: string, extract: Extractor)
  {
    StartsWith(line, ".B") && extract(line).Some?
  }

  /** A line that names a function while no include has been seen: it is
      skipped with `continue`, which also skips its DESCRIPTION test. */
  predicate Skipped(line: string, includes: set<string>, extract: Extractor)
  {
    NamesFunction(line, extract) && includes == {}
  }

  /** The scan from line `i` on with include set `includes`. */
  function Scan(lines: seq<string>, i: nat, includes: set<string>, target: Extractor, extract: Extractor): seq<Found>
    requires i <= |lines|
    decreases |lines| - i
  {
    if i == |lines| then []
    else
      var line := lines[i];
      var now := includes + LineIncludes(line, target);
      if Skipped(line, now, extract) then Scan(lines, i + 1, now, target, extract)
      else
        var out := if NamesFunction(line, extract) then [Found(extract(line).value, now)] else [];
        if Contains(line, "DESCRIPTION") then out
        else out + Scan(lines, i + 1, now, target, extract)
  }

  /** The loop of `parse_man`, over any include matcher. */
  method ScanLines(lines: seq<string>, target: Extractor, extract: Extractor) returns (found: seq<Found>)
    ensures found == Scan(lines, 0, {}, target, extract)
    ensures forall k | 0 <= k < |found| :: found[k].includes != {}
  {
    var includes: set<string> := {};
    found := [];
    var i := 0;
    while i < |lines|
      invariant i <= |lines|
      invariant found + Scan(lines, i, includes, target, extract) == Scan(lines, 0, {}, target, extract)
    {
      var line := lines[i];
      ghost var before := includes;
      ghost var old_found := found;
      if StartsWith(line, ".B ") || StartsWith(line, ".BR \"#inc") {
        var m := target(line);
        if m.Some? {
          includes := includes + {m.value};
        }
      }
      if StartsWith(line, ".BR \"#inc") {
        var m := target(line);
        if m.Some? {
          includes := includes + {m.value};
        }
      }
      assert includes == before + LineIncludes(line, target);
      ghost var rest := Scan(lines, i + 1, includes, target, extract);
      if StartsWith(line, ".B") {
        var m := extract(line);
        if m.Some? {
          if includes == {} {
            assert Scan(lines, i, before, target, extract) == rest;
            i := i + 1;
            continue;
          }
          found := found + [Found(m.value, includes)];
        }
      }
      ghost var head := if NamesFunction(line, extract) then [Found(extract(line).value, includes)] else [];
      assert found == old_found + head;
      if Contains(line, "DESCRIPTION") {
        assert Scan(lines, i, before, target, extract) == head;
        break;
      }
      assert Scan(lines, i, before, target, extract) == head + rest;
      ConcatAssoc(old_found, head, rest);
      i := i + 1;
    }
    ScanReportsNonEmpty(lines, target, extract);
  }

  /** The line each report of `Scan(lines, i, includes, ...)` comes from,
      following the same steps as `Scan`. */
  function ReportLines(lines: seq<string>, i: nat, includes: set<string>, target: Extractor, extract: Extractor): seq<nat>
    requires i <= |lines|
    decreases |lines| - i
  {
    if i == |lines| then []
    else
      var line := lines[i];
      var now := includes + LineIncludes(line, target);
      if Skipped(line, now, extract) then ReportLines(lines, i + 1, now, target, extract)
      else
        var out := if NamesFunction(line, extract) then [i] else [];
        if Contains(line, "DESCRIPTION") then out
        else out + ReportLines(lines, i + 1, now, target, extract)
  }

  /** Each line yields at most one report: the `k`-th report names the
      function of a line from `i` on, and the lines of successive reports
      strictly increase. Hence there are no more reports than lines. */
  lemma {:induction false} ScanAtMostOnePerLine(lines: seq<string>, i: nat, includes: set<string>, target: Extractor, extract: Extractor)
    requires i <= |lines|
    ensures |Scan(lines, i, includes, target, extract)| <= |lines| - i
    ensures |ReportLines(lines, i, includes, target, extract)| == |Scan(lines, i, includes, target, extract)|
    ensures forall k | 0 <= k < |ReportLines(lines, i, includes, target, extract)| ::
      var j := ReportLines(lines, i, includes, target, extract)[k];
      i <= j < |lines| && extract(lines[j]) == Some(Scan(lines, i, includes, target, extract)[k].func)
    ensures forall k, l | 0 <= k < l < |ReportLines(lines, i, includes, target, extract)| ::
      ReportLines(lines, i, includes, target, extract)[k] < ReportLines(lines, i, includes, target, extract)[l]
    decreases |lines| - i
  {
    if i < |lines| {
      var line := lines[i];
      var now := includes + LineIncludes(line, target);
      ScanAtMostOnePerLine(lines, i + 1, now, target, extract);
      var rest := Scan(lines, i + 1, now, target, extract);
      var at := ReportLines(lines, i + 1, now, target, extract);
      if !Skipped(line, now, extract) && NamesFunction(line, extract) && !Contains(line, "DESCRIPTION") {
        var s := [Found(extract(line).value, now)] + rest;
        var a := [i] + at;
        assert Scan(lines, i, includes, target, extract) == s;
        assert ReportLines(lines, i, includes, target, extract) == a;
        forall k | 1 <= k < |a| ensures a[k] == at[k - 1] && s[k] == rest[k - 1] {
        }
      }
    }
  }

  /** `parse_man(path, text)`: the generator's output as a list, with the
      include pattern of the source. */
  method ParseMan(lines: seq<string>, extract: Extractor) returns (found: seq<Found>)
    ensures found == Scan(lines, 0, {}, IncludeTarget, extract)
    ensures forall k | 0 <= k < |found| :: found[k].includes != {}
  {
    found := ScanLines(lines, IncludeTarget, extract);
  }

  /** No function is reported with an empty include set. */
  lemma ScanReportsNonEmpty(lines: seq<string>, target: Extractor, extract: Extractor)
    ensures forall k | 0 <= k < |Scan(lines, 0, {}, target, extract)| :: Scan(lines, 0, {}, target, extract)[k].includes != {}
  {
    var found := Scan(lines, 0, {}, target, extract);
    assert IncludesUpTo(lines[..0], target) == {} by { assert lines[..0] == []; }
    ScanYieldsFromLines(lines, 0, target, extract);
    forall k | 0 <= k < |found| ensures found[k].includes != {} {
      assert FoundFrom(lines, 0, target, extract, found[k]);
      var j :| 0 <= j < |lines| && FoundAt(lines, j, target, extract, found[k]);
    }
  }

  /** The include set after the first `n` lines, if none of them stops the
      scan. */
  function IncludesUpTo(lines: seq<string>, target: Extractor): set<string>
  {
    if |lines| == 0 then {} else IncludesUpTo(lines[..|lines| - 1], target) + LineIncludes(lines[|lines| - 1], target)
  }

  lemma IncludesUpToStep(lines: seq<string>, i: nat, target: Extractor)
    requires i < |lines|
    ensures IncludesUpTo(lines[..i + 1], target) == IncludesUpTo(lines[..i], target) + LineIncludes(lines[i], target)
  {
    assert lines[..i + 1][..i] == lines[..i];
  }

  /** A function reported at line `j`: the line names it and it is paired
      with every header of lines `0..j`, which are not empty. */
  predicate FoundAt(lines: seq<string>, j: nat, target: Extractor, extract: Extractor, f: Found)
    requires j < |lines|
  {
    && NamesFunction(lines[j], extract)
    && extract(lines[j]) == Some(f.func)
    && f.includes == IncludesUpTo(lines[..j + 1], target)
    && f.includes != {}
  }

  /** `f` was reported at some line from `i` on. */
  predicate FoundFrom(lines: seq<string>, i: nat, target: Extractor, extract: Extractor, f: Found)
  {
    exists j | i <= j < |lines| :: FoundAt(lines, j, target, extract, f)
  }

  /** Every reported function comes from a synopsis line and carries a
      non-empty copy of the include set as it stood at that line. */
  lemma ScanYieldsFromLines(lines: seq<string>, i: nat, target: Extractor, extract: Extractor)
    requires i <= |lines|
    ensures forall k | 0 <= k < |Scan(lines, i, IncludesUpTo(lines[..i], target), target, extract)| ::
      FoundFrom(lines, i, target, extract, Scan(lines, i, IncludesUpTo(lines[..i], target), target, extract)[k])
  {
    forall k | 0 <= k < |Scan(lines, i, IncludesUpTo(lines[..i], target), target, extract)|
      ensures FoundFrom(lines, i, target, extract, Scan(lines, i, IncludesUpTo(lines[..i], target), target, extract)[k])
    {
      ReportFromLine(lines, i, target, extract, k);
    }
  }

  lemma {:induction false} ReportFromLine(lines: seq<string>, i: nat, target: Extractor, extract: Extractor, k: nat)
    requires i <= |lines|
    requires k < |Scan(lines, i, IncludesUpTo(lines[..i], target), target, extract)|
    ensures FoundFrom(lines, i, target, extract, Scan(lines, i, IncludesUpTo(lines[..i], target), target, extract)[k])
    decreases |lines| - i
  {
    var line := lines[i];
    var now := IncludesUpTo(lines[..i], target) + LineIncludes(line, target);
    IncludesUpToStep(lines, i, target);
    var out := Scan(lines, i, IncludesUpTo(lines[..i], target), target, extract);
    var rest := Scan(lines, i + 1, now, target, extract);
    var head := if NamesFunction(line, extract) then [Found(extract(line).value, now)] else [];
    if !Skipped(line, now, extract) && NamesFunction(line, extract) && k == 0 {
      assert out[0] == head[0];
      assert FoundAt(lines, i, target, extract, out[k]);
    } else {
      var d := 0;
      if Skipped(line, now, extract) {
        assert out == rest;
      } else {
        assert !Contains(line, "DESCRIPTION");
        assert out == head + rest;
        d := |head|;
      }
      assert out[k] == rest[k - d];
      ReportFromLine(lines, i + 1, target, extract, k - d);
      var j :| i + 1 <= j < |lines| && FoundAt(lines, j, target, extract, rest[k - d]);
      assert FoundAt(lines, j, target, extract, out[k]);
    }
  }

  /** The include set only grows: every snapshot contains the set the scan
      started with and each snapshot contains the ones before it. */
  lemma {:induction false} ScanSnapshotsGrow(lines: seq<string>, i: nat, includes: set<string>, target: Extractor, extract: Extractor)
    requires i <= |lines|
    ensures forall k | 0 <= k < |Scan(lines, i, includes, target, extract)| ::
      includes <= Scan(lines, i, includes, target, extract)[k].includes
    ensures forall k1, k2 | 0 <= k1 < k2 < |Scan(lines, i, includes, target, extract)| ::
      Scan(lines, i, includes, target, extract)[k1].includes <= Scan(lines, i, includes, target, extract)[k2].includes
    decreases |lines| - i
  {
    if i < |lines| {
      var line := lines[i];
      var now := includes + LineIncludes(line, target);
      ScanSnapshotsGrow(lines, i + 1, now, target, extract);
      var out := Scan(lines, i, includes, target, extract);
      var rest := Scan(lines, i + 1, now, target, extract);
      var head := if NamesFunction(line, extract) then [Found(extract(line).value, now)] else [];
      if Skipped(line, now, extract) {
        assert out == rest;
      } else if Contains(line, "DESCRIPTION") {
        assert out == head;
      } else {
        assert out == head + rest;
        forall k | |head| <= k < |out| ensures out[k] == rest[k - |head|] {
        }
      }
    }
  }

  /** The scan does not look past the first line that contains DESCRIPTION
      and is not a skipped function line: dropping every later line changes
      nothing. */
  lemma ScanStopsAtDescription(lines: seq<string>, k: nat, target: Extractor, extract: Extractor)
    requires k < |lines|
    requires Contains(lines[k], "DESCRIPTION")
    requires !Skipped(lines[k], IncludesUpTo(lines[..k + 1], target), extract)
    ensures Scan(lines, 0, {}, target, extract) == Scan(lines[..k + 1], 0, {}, target, extract)
  {
    ScanStopsFrom(lines, k, 0, target, extract);
  }

  lemma {:induction false} ScanStopsFrom(lines: seq<string>, k: nat, i: nat, target: Extractor, extract: Extractor)
    requires i <= k < |lines|
    requires Contains(lines[k], "DESCRIPTION")
    requires !Skipped(lines[k], IncludesUpTo(lines[..k + 1], target), extract)
    ensures Scan(lines, i, IncludesUpTo(lines[..i], target), target, extract)
         == Scan(lines[..k + 1], i, IncludesUpTo(lines[..i], target), target, extract)
    decreases k - i
  {
    var prefix := lines[..k + 1];
    assert prefix[i] == lines[i];
    IncludesUpToStep(lines, i, target);
    if i < k {
      ScanStopsFrom(lines, k, i + 1, target, extract);
    }
  }
}
