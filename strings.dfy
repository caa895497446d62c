/**
 * The .NET string operations the directory tree code relies on, modelled as
 * functions on `seq<char>`: String.Split, the cumulative "/" join the builder
 * performs, ToLower (ASCII letters only), String.Contains and
 * Path.GetExtension.
 */
module Strings {
  import opened Wrappers

  const LINE_BREAKS: set<char> := {'\r', '\n'}
  const SLASH: char := '/'
  /** The characters Path.GetExtension treats as directory separators on Windows. */
  const DIRECTORY_SEPARATORS: set<char> := {'\\', '/'}

  /** No character of `s` is in `seps`. */
  predicate Free(s: string, seps: set<char>)
  {
    forall k :: 0 <= k < |s| ==> s[k] !in seps
  }

  // ---------------------------------------------------------------------------
  // Splitting and joining
  // ---------------------------------------------------------------------------

  /** String.Split(separators) without options: the fields between separators,
      empty fields kept, so "a//b" gives ["a", "", "b"] and "" gives [""]. */
  function SplitOn(s: string, seps: set<char>): (fields: seq<string>)
    ensures |fields| >= 1
    ensures forall k :: 0 <= k < |fields| ==> Free(fields[k], seps)
  {
    if s == [] then [""]
    else
      var rest := SplitOn(s[1..], seps);
      if s[0] in seps then [""] + rest
      else [[s[0]] + rest[0]] + rest[1..]
  }

  /** The parts separated by `sep`; [] joins to "", [x] to x. */
  function Join(parts: seq<string>, sep: char): string
  {
    if |parts| == 0 then ""
    else if |parts| == 1 then parts[0]
    else parts[0] + [sep] + Join(parts[1..], sep)
  }

  /** Line.Split('/') in the builder. */
  function Segments(line: string): (parts: seq<string>)
    ensures |parts| >= 1
    ensures forall k :: 0 <= k < |parts| ==> Free(parts[k], {SLASH})
  {
    SplitOn(line, {SLASH})
  }

  /** Joining the fields of a split gives the text back. */
  lemma {:induction false} JoinSplit(s: string, sep: char)
    ensures Join(SplitOn(s, {sep}), sep) == s
  {
    if s != [] {
      var rest := SplitOn(s[1..], {sep});
      var fields := SplitOn(s, {sep});
      JoinSplit(s[1..], sep);
      if s[0] == sep {
        assert fields == [""] + rest && fields[1..] == rest;
        assert Join(fields, sep) == [sep] + Join(rest, sep);
      } else if |rest| == 1 {
        assert fields == [[s[0]] + rest[0]];
        assert Join(rest, sep) == rest[0];
      } else {
        assert fields == [[s[0]] + rest[0]] + rest[1..] && fields[1..] == rest[1..];
        assert Join(fields, sep) == [s[0]] + (rest[0] + [sep] + Join(rest[1..], sep));
        assert Join(rest, sep) == rest[0] + [sep] + Join(rest[1..], sep);
      }
      assert s == [s[0]] + s[1..];
    }
  }

  /** A text without separators is one field. */
  lemma {:induction false} SplitOnFree(a: string, seps: set<char>)
    requires Free(a, seps)
    ensures SplitOn(a, seps) == [a]
  {
    if a != [] {
      SplitOnFree(a[1..], seps);
      assert [a[0]] + a[1..] == a;
    }
  }

  /** A separator ends the first field. */
  lemma {:induction false} SplitOnSeparator(a: string, c: char, b: string, seps: set<char>)
    requires Free(a, seps) && c in seps
    ensures SplitOn(a + [c] + b, seps) == [a] + SplitOn(b, seps)
  {
    if a == [] {
      assert a + [c] + b == [c] + b;
      assert ([c] + b)[1..] == b;
    } else {
      var s := a + [c] + b;
      assert s[1..] == a[1..] + [c] + b;
      SplitOnSeparator(a[1..], c, b, seps);
      assert [a[0]] + a[1..] == a;
    }
  }

  /** Splitting the join of separator-free parts gives the parts back. */
  lemma {:induction false} SplitJoin(parts: seq<string>, sep: char, seps: set<char>)
    requires sep in seps && |parts| >= 1
    requires forall k :: 0 <= k < |parts| ==> Free(parts[k], seps)
    ensures SplitOn(Join(parts, sep), seps) == parts
  {
    if |parts| == 1 {
      SplitOnFree(parts[0], seps);
    } else {
      SplitJoin(parts[1..], sep, seps);
      SplitOnSeparator(parts[0], sep, Join(parts[1..], sep), seps);
      assert [parts[0]] + parts[1..] == parts;
    }
  }

  /** The builder's update `currentPath = j == 0 ? part : currentPath + "/" + part`
      computes the join of the parts seen so far. */
  lemma {:induction false} JoinSnoc(parts: seq<string>, x: string, sep: char)
    ensures Join(parts + [x], sep) == if parts == [] then x else Join(parts, sep) + [sep] + x
  {
    if |parts| > 1 {
      JoinSnoc(parts[1..], x, sep);
      assert (parts + [x])[1..] == parts[1..] + [x];
    } else if |parts| == 1 {
      assert (parts + [x])[1..] == [x];
    }
  }

  // ---------------------------------------------------------------------------
  // Lines of the manifest
  // ---------------------------------------------------------------------------

  /** StringSplitOptions.RemoveEmptyEntries: the non-empty fields, in order. */
  function RemoveEmpty(fields: seq<string>): (kept: seq<string>)
    ensures forall x :: x in kept <==> x in fields && x != ""
  {
    if fields == [] then []
    else (if fields[0] == "" then [] else [fields[0]]) + RemoveEmpty(fields[1..])
  }

  /** fileContent.Split(new[] { '\r', '\n' }, StringSplitOptions.RemoveEmptyEntries). */
  function SplitLines(text: string): (lines: seq<string>)
    ensures forall k :: 0 <= k < |lines| ==> lines[k] != "" && Free(lines[k], LINE_BREAKS)
  {
    var fields := SplitOn(text, LINE_BREAKS);
    var lines := RemoveEmpty(fields);
    assert forall k :: 0 <= k < |lines| ==> lines[k] in fields;
    lines
  }

  lemma {:induction false} RemoveEmptyKeepsNonEmpty(fields: seq<string>)
    requires forall k :: 0 <= k < |fields| ==> fields[k] != ""
    ensures RemoveEmpty(fields) == fields
  {
    if fields != [] {
      RemoveEmptyKeepsNonEmpty(fields[1..]);
      assert [fields[0]] + fields[1..] == fields;
    }
  }

  /** Non-empty lines without line breaks, joined by "\n", are split back into
      exactly those lines. */
  lemma {:induction false} LinesRoundTrip(lines: seq<string>)
    requires forall k :: 0 <= k < |lines| ==> lines[k] != "" && Free(lines[k], LINE_BREAKS)
    ensures SplitLines(Join(lines, '\n')) == lines
  {
    if lines != [] {
      assert '\n' in LINE_BREAKS;
      SplitJoin(lines, '\n', LINE_BREAKS);
      assert SplitOn(Join(lines, '\n'), LINE_BREAKS) == lines;
      RemoveEmptyKeepsNonEmpty(lines);
      assert SplitLines(Join(lines, '\n')) == RemoveEmpty(SplitOn(Join(lines, '\n'), LINE_BREAKS));
    } else {
      assert SplitOn("", LINE_BREAKS) == [""];
      assert RemoveEmpty([""]) == [];
    }
  }

  lemma {:induction false} SplitAllSeparators(s: string, seps: set<char>)
    requires forall k :: 0 <= k < |s| ==> s[k] in seps
    ensures forall k :: 0 <= k < |SplitOn(s, seps)| ==> SplitOn(s, seps)[k] == ""
  {
    if s != [] {
      SplitAllSeparators(s[1..], seps);
    }
  }

  /** Empty text, or text made only of CR and LF, has no lines. */
  lemma BlankTextHasNoLines(text: string)
    requires forall k :: 0 <= k < |text| ==> text[k] in LINE_BREAKS
    ensures SplitLines(text) == []
  {
    SplitAllSeparators(text, LINE_BREAKS);
    RemoveEmptyOfEmpties(SplitOn(text, LINE_BREAKS));
    assert SplitLines(text) == RemoveEmpty(SplitOn(text, LINE_BREAKS));
  }

  lemma {:induction false} RemoveEmptyOfEmpties(fields: seq<string>)
    requires forall k :: 0 <= k < |fields| ==> fields[k] == ""
    ensures RemoveEmpty(fields) == []
  {
    if fields != [] {
      RemoveEmptyOfEmpties(fields[1..]);
    }
  }

  // ---------------------------------------------------------------------------
  // Case folding and substring search
  // ---------------------------------------------------------------------------

  /** ToLower on one character, restricted to the ASCII letters. */
  function LowerChar(c: char): char
  {
    if 'A' <= c <= 'Z' then (c as int - 'A' as int + 'a' as int) as char else c
  }

  /** String.ToLower, restricted to the ASCII letters. */
  function Lower(s: string): (r: string)
    ensures |r| == |s|
    ensures forall k :: 0 <= k < |s| ==> r[k] == LowerChar(s[k])
  {
    if s == [] then [] else [LowerChar(s[0])] + Lower(s[1..])
  }

  /** Lower-casing twice is lower-casing once, so the query that
      SearchDirectoryTree lower-cases matches names lower-cased the same way. */
  lemma LowerIdempotent(s: string)
    ensures Lower(Lower(s)) == Lower(s)
  {
    forall k | 0 <= k < |s|
      ensures Lower(Lower(s))[k] == Lower(s)[k]
    {
      assert LowerChar(LowerChar(s[k])) == LowerChar(s[k]);
    }
  }

  /** Lower-casing changes only the letters 'A' to 'Z', each into its
      lower-case letter. */
  lemma LowerChangesOnlyCapitals(s: string, k: nat)
    requires k < |s|
    ensures Lower(s)[k] != s[k] <==> 'A' <= s[k] <= 'Z'
    ensures 'A' <= s[k] <= 'Z' ==> Lower(s)[k] as int == s[k] as int + 32
  {
  }

  /** `sub` occurs in `s` starting at position `k`. */
  predicate OccursAt(s: string, sub: string, k: nat)
  {
    k + |sub| <= |s| && s[k..k + |sub|] == sub
  }

  /** String.Contains(string), ordinal: `sub` occurs in `s` at some offset. */
  function Contains(s: string, sub: string): (b: bool)
    ensures b <==> exists k: nat :: OccursAt(s, sub, k)
    decreases |s|
  {
    if |s| < |sub| then false
    else if s[..|sub|] == sub then assert OccursAt(s, sub, 0); true
    else
      var b := Contains(s[1..], sub);
      assert !OccursAt(s, sub, 0);
      assert (exists k: nat :: OccursAt(s, sub, k)) ==> exists k: nat :: OccursAt(s[1..], sub, k) by {
        if exists k: nat :: OccursAt(s, sub, k) {
          var k: nat :| OccursAt(s, sub, k);
          OccursShift(s, sub, k - 1);
        }
      }
      assert (exists k: nat :: OccursAt(s[1..], sub, k)) ==> exists k: nat :: OccursAt(s, sub, k) by {
        if exists k: nat :: OccursAt(s[1..], sub, k) {
          var k: nat :| OccursAt(s[1..], sub, k);
          OccursShift(s, sub, k);
        }
      }
      b
  }

  lemma OccursShift(s: string, sub: string, k: nat)
    requires |s| >= 1
    ensures OccursAt(s, sub, k + 1) <==> OccursAt(s[1..], sub, k)
  {
    if k + 1 + |sub| <= |s| {
      var here, there := s[k + 1..k + 1 + |sub|], s[1..][k..k + |sub|];
      assert forall i :: 0 <= i < |sub| ==> here[i] == there[i];
      assert here == there;
    }
  }

  // ---------------------------------------------------------------------------
  // File name extension
  // ---------------------------------------------------------------------------

  /** The position of the last '.' before position `i` that is not followed,
      before `i`, by a directory separator. */
  function LastDot(path: string, i: nat): (r: Option<nat>)
    requires i <= |path|
    ensures r.Some? ==> r.value < i && path[r.value] == '.'
    ensures r.Some? ==> forall k :: r.value < k < i ==> path[k] != '.' && path[k] !in DIRECTORY_SEPARATORS
    ensures r.None? ==> forall k :: 0 <= k < i && path[k] == '.' ==>
                          exists m :: k < m < i && path[m] in DIRECTORY_SEPARATORS
  {
    if i == 0 then None
    else if path[i - 1] == '.' then Some(i - 1)
    else if path[i - 1] in DIRECTORY_SEPARATORS then None
    else LastDot(path, i - 1)
  }

  /** Path.GetExtension: from the last '.' of the last path component to the
      end, or "" when there is no such '.' or it is the final character. */
  function GetExtension(path: string): (ext: string)
    ensures ext != "" ==> |ext| >= 2 && |ext| <= |path| && ext[0] == '.' && ext == path[|path| - |ext|..]
  {
    match LastDot(path, |path|)
    case None => ""
    case Some(d) => if d == |path| - 1 then "" else path[d..]
  }

  /** A final component ".x", with `x` non-empty and free of dots and
      separators, is the extension. */
  lemma ExtensionOfSuffix(path: string, x: string)
    requires |x| >= 1 && Free(x, {'.'} + DIRECTORY_SEPARATORS)
    requires |path| > |x| && path[|path| - |x| - 1..] == "." + x
    ensures GetExtension(path) == "." + x
  {
    var d := |path| - |x| - 1;
    assert path[d] == '.';
    forall k | d < k < |path|
      ensures path[k] != '.' && path[k] !in DIRECTORY_SEPARATORS
    {
      assert path[k] == x[k - d - 1];
    }
    var r := LastDot(path, |path|);
    assert r.value == d;
  }
}
