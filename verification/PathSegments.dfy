/** Splitting a request path or a rule's path prefix into segments. */
module PathSegments {

  /** The index of the first `c` at or after `start`, or the length of the text if there is none. */
  function FindFrom(text: string, c: char, start: nat): (end: nat)
    requires start <= |text|
    ensures start <= end <= |text|
    ensures forall i | start <= i < end :: text[i] != c
    ensures end < |text| ==> text[end] == c
    decreases |text| - start
  {
    if start == |text| || text[start] == c then start else FindFrom(text, c, start + 1)
  }

  /** The runs of characters between slashes, in order; empty runs do not count. */
  function Runs(text: string): seq<string>
    decreases |text|
  {
    if text == "" then []
    else if text[0] == '/' then Runs(text[1..])
    else
      var end := FindFrom(text, '/', 0);
      assert end > 0;
      [text[..end]] + Runs(text[end..])
  }

  /** The segments of a path. A path that does not begin with a slash has none. */
  function Segments(path: string): seq<string> {
    if path == "" || path[0] != '/' then [] else Runs(path)
  }

  lemma {:induction false} FindShifts(text: string, c: char, start: nat, i: nat)
    requires start <= i <= |text|
    ensures FindFrom(text, c, i) == start + FindFrom(text[start..], c, i - start)
    decreases |text| - i
  {
    if i < |text| && text[i] != c {
      FindShifts(text, c, start, i + 1);
    }
  }

  method SplitPath(path: string) returns (segments: seq<string>)
    ensures segments == Segments(path)
  {
    segments := [];
    var start := 0;
    if path == "" || path[0] != '/' {
      return;
    }
    assert path[0..] == path;
    while start < |path|
      invariant start <= |path|
      invariant segments + Runs(path[start..]) == Segments(path)
    {
      if path[start] == '/' {
        assert path[start..][1..] == path[start + 1..];
        start := start + 1;
        continue;
      }
      var end := FindFrom(path, '/', start);
      FindShifts(path, '/', start, start);
      assert path[start..][..end - start] == path[start..end];
      assert path[start..][end - start..] == path[end..];
      segments := segments + [path[start..end]];
      start := end;
    }
    assert path[start..] == "";
  }

  // ----- what the segments are --------------------------------------------------------------

  predicate IsSegment(s: string) {
    s != "" && '/' !in s
  }

  predicate AreSegments(segments: seq<string>) {
    forall s | s in segments :: IsSegment(s)
  }

  /** Each segment behind a slash of its own. */
  function Join(segments: seq<string>): string {
    if segments == [] then "" else "/" + segments[0] + Join(segments[1..])
  }

  function Canonical(path: string): string {
    Join(Segments(path))
  }

  lemma {:induction false} RunsAreSegments(text: string)
    ensures AreSegments(Runs(text))
    decreases |text|
  {
    if text != "" {
      if text[0] == '/' {
        RunsAreSegments(text[1..]);
      } else {
        RunsAreSegments(text[FindFrom(text, '/', 0)..]);
      }
    }
  }

  lemma {:induction false} FindAfter(run: string, rest: string, i: nat)
    requires '/' !in run && (rest == "" || rest[0] == '/') && i <= |run|
    ensures FindFrom(run + rest, '/', i) == |run|
    decreases |run| - i
  {
    if i < |run| {
      FindAfter(run, rest, i + 1);
    }
  }

  lemma RunsOfSegment(run: string, rest: string)
    requires IsSegment(run) && (rest == "" || rest[0] == '/')
    ensures Runs(run + rest) == [run] + Runs(rest)
  {
    var text := run + rest;
    assert text[0] == run[0] && run[0] in run;
    FindAfter(run, rest, 0);
    assert text[..|run|] == run && text[|run|..] == rest;
  }

  /** Splitting joined segments gives them back. */
  lemma {:induction false} SplitOfJoin(segments: seq<string>)
    requires AreSegments(segments)
    ensures Segments(Join(segments)) == segments
    ensures Runs(Join(segments)) == segments
    decreases |segments|
  {
    if segments != [] {
      var rest := Join(segments[1..]);
      var text := Join(segments);
      SplitOfJoin(segments[1..]);
      RunsOfSegment(segments[0], rest);
      assert text[1..] == segments[0] + rest;
      assert segments == [segments[0]] + segments[1..];
    }
  }

  /** Canonicalising loses nothing that splitting sees, and doing it twice changes nothing. */
  lemma CanonicalKeepsSegments(path: string)
    ensures AreSegments(Segments(path))
    ensures Segments(Canonical(path)) == Segments(path)
    ensures Canonical(Canonical(path)) == Canonical(path)
  {
    RunsAreSegments(path);
    SplitOfJoin(Segments(path));
  }

  /** A slash between two texts is a boundary between their segments; extra slashes add none. */
  lemma {:induction false} RunsSplitAtSlash(a: string, b: string)
    ensures Runs(a + "/" + b) == Runs(a) + Runs(b)
    decreases |a|
  {
    var text := a + "/" + b;
    if a == "" {
      assert text[1..] == b;
    } else if a[0] == '/' {
      RunsSplitAtSlash(a[1..], b);
      assert text[1..] == a[1..] + "/" + b;
    } else {
      var end := FindFrom(a, '/', 0);
      var run := a[..end];
      assert '/' !in run;
      RunsOfSegment(run, a[end..]);
      assert a == run + a[end..];
      assert text == run + (a[end..] + "/" + b);
      RunsOfSegment(run, a[end..] + "/" + b);
      RunsSplitAtSlash(a[end..], b);
      assert [run] + (Runs(a[end..]) + Runs(b)) == ([run] + Runs(a[end..])) + Runs(b);
    }
  }

  lemma SegmentsSplitAtSlash(a: string, b: string)
    requires a != "" && a[0] == '/'
    ensures Segments(a + "/" + b) == Segments(a) + Segments("/" + b)
  {
    RunsSplitAtSlash(a, b);
    assert ("/" + b)[1..] == b;
  }

  // ----- prefixes -----------------------------------------------------------------------------

  lemma {:induction false} JoinOfConcat(a: seq<string>, b: seq<string>)
    ensures Join(a + b) == Join(a) + Join(b)
    decreases |a|
  {
    if a == [] {
      assert a + b == b;
    } else {
      JoinOfConcat(a[1..], b);
      assert (a + b)[1..] == a[1..] + b;
    }
  }

  /** Text `p` ends in `q` at a slash boundary. */
  ghost predicate TextPrefix(p: string, q: string) {
    q == p || p + "/" <= q
  }

  /** A list of segments is a prefix of another exactly when its text is, at a slash boundary. */
  lemma {:induction false} PrefixOfJoin(a: seq<string>, b: seq<string>)
    requires AreSegments(a) && AreSegments(b)
    ensures a <= b <==> TextPrefix(Join(a), Join(b))
  {
    if a <= b {
      assert b == a + b[|a|..];
      JoinOfConcat(a, b[|a|..]);
      if |a| < |b| {
        assert Join(b[|a|..])[0] == '/';
        assert Join(a) + "/" <= Join(b);
      }
    }
    if TextPrefix(Join(a), Join(b)) {
      SplitOfJoin(a);
      SplitOfJoin(b);
      if Join(b) != Join(a) {
        var rest := Join(b)[|Join(a)| + 1..];
        assert Join(b) == Join(a) + "/" + rest;
        RunsSplitAtSlash(Join(a), rest);
        assert b == a + Runs(rest);
      }
    }
  }

  /** The segments of `p` are a prefix of those of `q` exactly when the canonical text of `q`
      is that of `p`, or continues it with a slash. */
  lemma SegmentPrefixIsTextPrefix(p: string, q: string)
    ensures Segments(p) <= Segments(q) <==> TextPrefix(Canonical(p), Canonical(q))
  {
    CanonicalKeepsSegments(p);
    CanonicalKeepsSegments(q);
    PrefixOfJoin(Segments(p), Segments(q));
  }
}
