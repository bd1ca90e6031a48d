/** Rewriting of one exported patch (`replace_file_prefix` and
    `cleanup_patch`): path prefixes are translated, the subject line is
    normalised, and file sections whose `diff --git a/` path does not start
    with the accepted prefix bytes are dropped (there is no path-boundary
    check: with prefix "src" a section under "srcfoo/" is kept). */
module Patches {
  import opened ByteStrings
  import opened Subjects
  import opened Sequences

  /** Marker which begins a new file in the patch set. */
  const FileSectionMarker: Bytes := "diff --git"

  /** Marker of the end of the patch set. */
  const PatchsetEndMarker: Bytes := "-- "

  /** Old-file and new-file header markers of a file section. */
  const OldFileMarker: Bytes := "---"
  const NewFileMarker: Bytes := "+++"

  /** The two path sides git uses in file-section headers, in the order
      `replace_file_prefix` tries them. */
  const SidePrefixes: seq<Bytes> := ["a/", "b/"]

  /** The value `tokens[i]` holds after the inner loop has tried the first
      `j` sides: the last side that matches the ORIGINAL token wins. */
  function RewriteTokenUpTo(t: Bytes, prefix: Bytes, replace: Bytes, j: nat): Bytes
    requires j <= |SidePrefixes|
  {
    if j == 0 then t
    else if SidePrefixes[j - 1] + prefix <= t then SidePrefixes[j - 1] + replace + t[|prefix| + 2..]
    else RewriteTokenUpTo(t, prefix, replace, j - 1)
  }

  /** One space-separated token after `replace_file_prefix`. */
  function RewriteToken(t: Bytes, prefix: Bytes, replace: Bytes): Bytes {
    RewriteTokenUpTo(t, prefix, replace, |SidePrefixes|)
  }

  /** A token `a/<prefix><rest>` becomes `a/<replace><rest>`, likewise for
      `b/`, and any other token is left byte for byte. No path-boundary
      check is made: `prefix` need not be followed by "/". */
  lemma RewriteTokenCases(t: Bytes, prefix: Bytes, replace: Bytes)
    ensures "a/" + prefix <= t ==>
      RewriteToken(t, prefix, replace) == "a/" + replace + t[|prefix| + 2..]
    ensures "b/" + prefix <= t ==>
      RewriteToken(t, prefix, replace) == "b/" + replace + t[|prefix| + 2..]
    ensures !("a/" + prefix <= t) && !("b/" + prefix <= t) ==> RewriteToken(t, prefix, replace) == t
  {
    assert SidePrefixes[0] == "a/" && SidePrefixes[1] == "b/";
    assert RewriteToken(t, prefix, replace) ==
      if "b/" + prefix <= t then "b/" + replace + t[|prefix| + 2..]
      else RewriteTokenUpTo(t, prefix, replace, 1);
    assert RewriteTokenUpTo(t, prefix, replace, 1) ==
      if "a/" + prefix <= t then "a/" + replace + t[|prefix| + 2..] else t;
    if "a/" + prefix <= t {
      assert !("b/" + prefix <= t) by { assert ("a/" + prefix)[0] == 'a' && ("b/" + prefix)[0] == 'b'; }
    }
  }

  /** The missing boundary check: with prefix "src", the token "a/srcfoo"
      (a sibling directory "srcfoo") is rewritten as well. */
  lemma RewriteTokenNoBoundary()
    ensures RewriteToken("a/srcfoo", "src", "intern/cycles") == "a/" + "intern/cycles" + "foo"
  {
    var t: Bytes := "a/srcfoo";
    assert "a/" + "src" <= t;
    RewriteTokenCases(t, "src", "intern/cycles");
    assert t[5..] == "foo";
  }

  /** The two transfer directions undo each other on every token they rewrite. */
  lemma RewriteTokenRoundTrip(t: Bytes, p: Bytes, q: Bytes)
    requires "a/" + p <= t || "b/" + p <= t
    ensures RewriteToken(RewriteToken(t, p, q), q, p) == t
  {
    var side: Bytes := if "a/" + p <= t then "a/" else "b/";
    var rest := t[|p| + 2..];
    assert t == side + p + rest;
    RewriteTokenCases(t, p, q);
    var u := side + q + rest;
    assert RewriteToken(t, p, q) == u;
    assert side + q <= u && u[|q| + 2..] == rest;
    RewriteTokenCases(u, q, p);
  }

  function RewriteTokens(ts: seq<Bytes>, prefix: Bytes, replace: Bytes): (r: seq<Bytes>)
    ensures |r| == |ts|
    ensures forall i :: 0 <= i < |ts| ==> r[i] == RewriteToken(ts[i], prefix, replace)
  {
    seq(|ts|, i requires 0 <= i < |ts| => RewriteToken(ts[i], prefix, replace))
  }

  /** The value `replace_file_prefix(path, prefix, replace)` returns. */
  function RewritePath(path: Bytes, prefix: Bytes, replace: Bytes): Bytes {
    Join(RewriteTokens(Split(path, Space), prefix, replace), Space)
  }

  lemma {:induction false} RewriteTokenSpaceFree(t: Bytes, prefix: Bytes, replace: Bytes, j: nat)
    requires j <= |SidePrefixes|
    requires Space !in t && Space !in replace
    ensures Space !in RewriteTokenUpTo(t, prefix, replace, j)
  {
    if j > 0 && !(SidePrefixes[j - 1] + prefix <= t) {
      RewriteTokenSpaceFree(t, prefix, replace, j - 1);
    }
  }

  /** When the replacement has no space, the rewrite keeps the number of
      space-separated tokens, rewrites each one by itself, and leaves every
      token that starts with neither `a/<prefix>` nor `b/<prefix>` as it was. */
  lemma RewritePathTokens(path: Bytes, prefix: Bytes, replace: Bytes)
    requires Space !in replace
    ensures |Split(RewritePath(path, prefix, replace), Space)| == |Split(path, Space)|
    ensures forall i :: 0 <= i < |Split(path, Space)| ==>
      Split(RewritePath(path, prefix, replace), Space)[i] == RewriteToken(Split(path, Space)[i], prefix, replace)
    ensures forall i :: (0 <= i < |Split(path, Space)| &&
                         !("a/" + prefix <= Split(path, Space)[i]) && !("b/" + prefix <= Split(path, Space)[i])) ==>
      Split(RewritePath(path, prefix, replace), Space)[i] == Split(path, Space)[i]
  {
    var ts := Split(path, Space);
    var rs := RewriteTokens(ts, prefix, replace);
    forall i | 0 <= i < |rs| ensures Space !in rs[i] {
      RewriteTokenSpaceFree(ts[i], prefix, replace, |SidePrefixes|);
    }
    SplitJoin(rs, Space);
    forall i | 0 <= i < |ts| ensures
      !("a/" + prefix <= ts[i]) && !("b/" + prefix <= ts[i]) ==> rs[i] == ts[i]
    {
      RewriteTokenCases(ts[i], prefix, replace);
    }
  }

  /** A path none of whose tokens carries the prefix comes back byte for byte. */
  lemma RewritePathIdentity(path: Bytes, prefix: Bytes, replace: Bytes)
    requires forall i :: 0 <= i < |Split(path, Space)| ==>
      !("a/" + prefix <= Split(path, Space)[i]) && !("b/" + prefix <= Split(path, Space)[i])
    ensures RewritePath(path, prefix, replace) == path
  {
    var ts := Split(path, Space);
    forall i | 0 <= i < |ts| ensures RewriteToken(ts[i], prefix, replace) == ts[i] {
      RewriteTokenCases(ts[i], prefix, replace);
    }
    assert RewriteTokens(ts, prefix, replace) == ts;
    JoinSplit(path, Space);
  }

  /** `replace_file_prefix`: split at spaces, overwrite matching tokens in
      place, join again. */
  method ReplaceFilePrefix(path: Bytes, prefix: Bytes, replace: Bytes) returns (r: Bytes)
    ensures r == RewritePath(path, prefix, replace)
  {
    var tokens := Split(path, Space);
    ghost var original := tokens;
    var prefixLen := |prefix|;
    for i := 0 to |tokens|
      invariant |tokens| == |original|
      invariant forall k :: 0 <= k < i ==> tokens[k] == RewriteToken(original[k], prefix, replace)
      invariant forall k :: i <= k < |tokens| ==> tokens[k] == original[k]
    {
      var t := tokens[i];
      for j := 0 to |SidePrefixes|
        invariant |tokens| == |original|
        invariant tokens[i] == RewriteTokenUpTo(t, prefix, replace, j)
        invariant forall k :: 0 <= k < i ==> tokens[k] == RewriteToken(original[k], prefix, replace)
        invariant forall k :: i < k < |tokens| ==> tokens[k] == original[k]
      {
        var x := SidePrefixes[j];
        if x + prefix <= t {
          tokens := tokens[i := x + replace + t[prefixLen + 2..]];
        }
      }
    }
    assert tokens == RewriteTokens(original, prefix, replace);
    r := Join(tokens, Space);
  }

  /** The header of an accepted file section: `diff --git a/<accept>`. */
  function FullAcceptPrefix(accept: Bytes): Bytes {
    FileSectionMarker + " a/" + accept
  }

  /** The subject line: topic stripped, then ".\n" replaced by "\n". */
  function RewriteSubjectLine(line: Bytes): Bytes {
    ReplaceDotNewline(StripTopic(SubjectCommonPrefix, line))
  }

  /** How one line is rewritten by `cleanup_patch`, whatever `do_skip` is. */
  function RewriteLine(line: Bytes, accept: Bytes, replace: Bytes): Bytes {
    if SubjectCommonPrefix <= line then RewriteSubjectLine(line)
    else if FileSectionMarker <= line then
      if FullAcceptPrefix(accept) <= line then RewritePath(line, accept, replace) else line
    else if PatchsetEndMarker <= line then line
    else if OldFileMarker <= line || NewFileMarker <= line then RewritePath(line, accept, replace)
    else line
  }

  /** The transition of the two-state machine: the new `do_skip`. File
      sections set it (rejected) or clear it (accepted), the end marker
      clears it, every other line leaves it. */
  function NextSkip(skip: bool, line: Bytes, accept: Bytes): bool {
    if SubjectCommonPrefix <= line then skip
    else if FileSectionMarker <= line then !(FullAcceptPrefix(accept) <= line)
    else if PatchsetEndMarker <= line then false
    else skip
  }

  /** `do_skip` and `clean_content` once the loop has consumed `lines`:
      a line is kept exactly when `do_skip` is false after it. */
  function Run(lines: seq<Bytes>, accept: Bytes, replace: Bytes): (bool, seq<Bytes>) {
    if lines == [] then (false, [])
    else
      var last := lines[|lines| - 1];
      var (skip, out) := Run(lines[..|lines| - 1], accept, replace);
      var skip' := NextSkip(skip, last, accept);
      (skip', if skip' then out else out + [RewriteLine(last, accept, replace)])
  }

  /** The new contents of the patch file. */
  function Cleanup(lines: seq<Bytes>, accept: Bytes, replace: Bytes): seq<Bytes> {
    Run(lines, accept, replace).1
  }

  lemma RunStep(lines: seq<Bytes>, i: nat, accept: Bytes, replace: Bytes)
    requires i < |lines|
    ensures Run(lines[..i + 1], accept, replace) ==
      var (skip, out) := Run(lines[..i], accept, replace);
      var skip' := NextSkip(skip, lines[i], accept);
      (skip', if skip' then out else out + [RewriteLine(lines[i], accept, replace)])
  {
    assert lines[..i + 1][..i] == lines[..i];
  }

  /** A line after which `do_skip` is set adds nothing to the output. */
  lemma RunSkips(lines: seq<Bytes>, i: nat, accept: Bytes, replace: Bytes)
    requires i < |lines| && NextSkip(Run(lines[..i], accept, replace).0, lines[i], accept)
    ensures Run(lines[..i + 1], accept, replace) == (true, Run(lines[..i], accept, replace).1)
  {
    RunStep(lines, i, accept, replace);
  }

  /** `do_skip` just after line `k` has been processed. */
  predicate SkipAfter(lines: seq<Bytes>, k: nat, accept: Bytes, replace: Bytes)
    requires k < |lines|
  {
    Run(lines[..k + 1], accept, replace).0
  }

  /** For every line, whether `do_skip` is false just after it. */
  function Keeps(lines: seq<Bytes>, accept: Bytes, replace: Bytes): (r: seq<bool>)
    ensures |r| == |lines|
  {
    if lines == [] then []
    else Keeps(lines[..|lines| - 1], accept, replace) + [!Run(lines, accept, replace).0]
  }

  lemma {:induction false} KeepsAt(lines: seq<Bytes>, k: nat, accept: Bytes, replace: Bytes)
    requires k < |lines|
    ensures Keeps(lines, accept, replace)[k] == !SkipAfter(lines, k, accept, replace)
  {
    var n := |lines| - 1;
    if k < n {
      KeepsAt(lines[..n], k, accept, replace);
      assert lines[..n][..k + 1] == lines[..k + 1];
    } else {
      assert lines[..k + 1] == lines;
    }
  }

  lemma {:induction false} RewriteEachAt(lines: seq<Bytes>, k: nat, accept: Bytes, replace: Bytes)
    requires k < |lines|
    ensures RewriteEach(lines, accept, replace)[k] == RewriteLine(lines[k], accept, replace)
  {
    var n := |lines| - 1;
    if k < n {
      RewriteEachAt(lines[..n], k, accept, replace);
      RewriteEachPrefix(lines, k, accept, replace);
    } else {
      RewriteEachLast(lines, accept, replace);
    }
  }

  lemma RewriteEachLast(lines: seq<Bytes>, accept: Bytes, replace: Bytes)
    requires |lines| > 0
    ensures RewriteEach(lines, accept, replace)[|lines| - 1] == RewriteLine(lines[|lines| - 1], accept, replace)
  {
  }

  lemma RewriteEachPrefix(lines: seq<Bytes>, k: nat, accept: Bytes, replace: Bytes)
    requires k < |lines| - 1
    ensures lines[..|lines| - 1][k] == lines[k]
    ensures RewriteEach(lines, accept, replace)[k] == RewriteEach(lines[..|lines| - 1], accept, replace)[k]
  {
  }

  /** The cleaned patch is the rewritten input filtered by `Keeps`. */
  lemma {:induction false} CleanupSelects(lines: seq<Bytes>, accept: Bytes, replace: Bytes)
    ensures Cleanup(lines, accept, replace) ==
      Select(RewriteEach(lines, accept, replace), Keeps(lines, accept, replace))
  {
    if lines != [] {
      var n := |lines| - 1;
      CleanupSelects(lines[..n], accept, replace);
      assert RewriteEach(lines, accept, replace)[..n] == RewriteEach(lines[..n], accept, replace);
      assert Keeps(lines, accept, replace)[..n] == Keeps(lines[..n], accept, replace);
    }
  }

  /** The cleaned patch is the in-order subsequence of the rewritten input
      lines taken at exactly the positions where `do_skip` is false after
      the line: `pos` lists those positions, increasing. */
  lemma CleanupKeeps(lines: seq<Bytes>, accept: Bytes, replace: Bytes) returns (pos: seq<nat>)
    ensures Increasing(pos) && |pos| == |Cleanup(lines, accept, replace)|
    ensures forall m :: 0 <= m < |pos| ==>
      pos[m] < |lines| && Cleanup(lines, accept, replace)[m] == RewriteLine(lines[pos[m]], accept, replace)
    ensures forall k :: 0 <= k < |lines| ==> (k in pos <==> !SkipAfter(lines, k, accept, replace))
  {
    CleanupSelects(lines, accept, replace);
    pos := SelectPositions(RewriteEach(lines, accept, replace), Keeps(lines, accept, replace));
    forall m | 0 <= m < |pos|
      ensures Cleanup(lines, accept, replace)[m] == RewriteLine(lines[pos[m]], accept, replace)
    {
      RewriteEachAt(lines, pos[m], accept, replace);
    }
    forall k | 0 <= k < |lines| ensures k in pos <==> !SkipAfter(lines, k, accept, replace) {
      KeepsAt(lines, k, accept, replace);
    }
  }

  /** A line that ends a skipped stretch: an accepted file-section header,
      or a line starting with "-- " (the end marker, but also any hunk line
      that removes a line starting with "- "). */
  predicate Reopens(line: Bytes, accept: Bytes) {
    && !(SubjectCommonPrefix <= line)
    && if FileSectionMarker <= line then FullAcceptPrefix(accept) <= line else PatchsetEndMarker <= line
  }

  /** Two prefixes that differ in their first byte cannot both start a line. */
  lemma PrefixesExclusive(p: Bytes, q: Bytes, line: Bytes)
    requires |p| > 0 && |q| > 0 && p[0] != q[0] && p <= line
    ensures !(q <= line)
  {
    assert line[0] == p[0];
  }

  /** A rejected file section is dropped: its `diff --git` line and every
      line after it up to (not including) the next line that reopens. */
  lemma {:induction false} RejectedSectionDropped(lines: seq<Bytes>, i: nat, j: nat, accept: Bytes, replace: Bytes)
    requires i <= j < |lines|
    requires FileSectionMarker <= lines[i] && !(FullAcceptPrefix(accept) <= lines[i])
    requires forall k :: i < k <= j ==> !Reopens(lines[k], accept)
    ensures Run(lines[..j + 1], accept, replace).0
    ensures Cleanup(lines[..j + 1], accept, replace) == Cleanup(lines[..i], accept, replace)
  {
    if j == i {
      PrefixesExclusive(FileSectionMarker, SubjectCommonPrefix, lines[i]);
    } else {
      RejectedSectionDropped(lines, i, j - 1, accept, replace);
      assert !Reopens(lines[j], accept);
    }
    RunSkips(lines, j, accept, replace);
  }

  /** An accepted file-section header is always emitted, rewritten, and
      makes the machine keep the lines that follow. */
  lemma AcceptedSectionEmitted(lines: seq<Bytes>, i: nat, accept: Bytes, replace: Bytes)
    requires i < |lines| && FullAcceptPrefix(accept) <= lines[i]
    ensures Run(lines[..i + 1], accept, replace) ==
      (false, Cleanup(lines[..i], accept, replace) + [RewritePath(lines[i], accept, replace)])
  {
    RunStep(lines, i, accept, replace);
    assert FileSectionMarker <= lines[i] by { assert FileSectionMarker <= FullAcceptPrefix(accept); }
    assert !(SubjectCommonPrefix <= lines[i]) by {
      assert SubjectCommonPrefix[0] == 'S' && FileSectionMarker[0] == 'd';
    }
  }

  /** The missing boundary check on file sections: with accept prefix
      "src", a section of the sibling directory "srcfoo" is kept and its
      header rewritten. */
  lemma SectionNoBoundary()
    ensures var header: Bytes := "diff --git a/srcfoo/x.c b/srcfoo/x.c\n";
      Cleanup([header], "src", "intern/cycles") == [RewritePath(header, "src", "intern/cycles")]
  {
    var header: Bytes := "diff --git a/srcfoo/x.c b/srcfoo/x.c\n";
    SrcfooHeaderAccepted(header);
    LoneAcceptedHeader(header, "src", "intern/cycles");
  }

  lemma SrcfooHeaderAccepted(header: Bytes)
    requires header == "diff --git a/srcfoo/x.c b/srcfoo/x.c\n"
    ensures FullAcceptPrefix("src") <= header
  {
  }

  /** A patch that is one accepted header is that header, rewritten. */
  lemma LoneAcceptedHeader(header: Bytes, accept: Bytes, replace: Bytes)
    requires FullAcceptPrefix(accept) <= header
    ensures Cleanup([header], accept, replace) == [RewritePath(header, accept, replace)]
  {
    AcceptedSectionEmitted([header], 0, accept, replace);
    assert [header][..1] == [header];
  }

  /** A line starting with "-- " is always emitted unchanged and switches
      skipping off, even when it is a hunk line inside a rejected section. */
  lemma EndMarkerEmitted(lines: seq<Bytes>, i: nat, accept: Bytes, replace: Bytes)
    requires i < |lines| && PatchsetEndMarker <= lines[i]
    ensures Run(lines[..i + 1], accept, replace) == (false, Cleanup(lines[..i], accept, replace) + [lines[i]])
  {
    RunStep(lines, i, accept, replace);
    assert !(SubjectCommonPrefix <= lines[i]) by {
      assert SubjectCommonPrefix[0] == 'S' && PatchsetEndMarker[0] == '-';
    }
    assert !(FileSectionMarker <= lines[i]) by {
      assert FileSectionMarker[0] == 'd' && PatchsetEndMarker[0] == '-';
    }
  }

  /** The hazard of the "-- " test: in this patch the second file lies
      outside "src", yet its removed line "- item" (hunk line "-- item")
      is emitted. */
  lemma HunkLineLeaksFromRejectedSection()
    ensures Cleanup(["diff --git a/doc/list.txt b/doc/list.txt\n", "-- item\n"], "src", "intern/cycles")
      == ["-- item\n"]
  {
    var lines: seq<Bytes> := ["diff --git a/doc/list.txt b/doc/list.txt\n", "-- item\n"];
    assert FileSectionMarker <= lines[0];
    assert !(FullAcceptPrefix("src") <= lines[0]) by {
      assert FullAcceptPrefix("src")[13] == 's' && lines[0][13] == 'd';
    }
    RejectedSectionDropped(lines, 0, 0, "src", "intern/cycles");
    assert lines[..0] == [];
    assert PatchsetEndMarker <= lines[1];
    EndMarkerEmitted(lines, 1, "src", "intern/cycles");
    assert lines[..2] == lines;
  }

  /** Capitalising keeps the newline positions, so a line whose only
      newline is its last byte keeps that shape through `StripTopic`. */
  lemma StripTopicKeepsNewlines(common: Bytes, line: Bytes)
    requires forall k :: 0 <= k < |line| - 1 ==> line[k] != Newline
    requires Newline !in common
    ensures var s := StripTopic(common, line);
      forall k :: 0 <= k < |s| - 1 ==> s[k] != Newline
  {
    match FirstTopic(common, line, 0)
    case None =>
    case Some(i) =>
      var start := |common| + |SubjectSkipPrefixes[i]|;
      var rest := line[start..];
      var c := Capitalize(rest);
      var s := common + c;
      assert StripTopic(common, line) == s;
      forall k | 0 <= k < |s| - 1 ensures s[k] != Newline {
        if k >= |common| {
          var m := k - |common|;
          assert s[k] == c[m] && rest[m] == line[start + m];
          assert c[m] == if m == 0 then ToUpper(rest[m]) else ToLower(rest[m]);
        }
      }
  }

  /** On the subject line at most one dot is removed: the one right before
      the final newline. */
  lemma SubjectLineRewrite(line: Bytes)
    requires forall k :: 0 <= k < |line| - 1 ==> line[k] != Newline
    ensures var s := StripTopic(SubjectCommonPrefix, line);
      RewriteSubjectLine(line) ==
        if |s| >= 2 && s[|s| - 2] == Dot && s[|s| - 1] == Newline then s[..|s| - 2] + [Newline] else s
  {
    StripTopicKeepsNewlines(SubjectCommonPrefix, line);
    ReplaceDotNewlineOnLine(StripTopic(SubjectCommonPrefix, line));
  }

  /** The normalisation of a patch subject: "Cycles: Fix foo." loses its
      topic and its final dot. */
  lemma SubjectLineExample()
    ensures RewriteSubjectLine(SubjectCommonPrefix + "Cycles: " + "Fix foo.\n") == SubjectCommonPrefix + "Fix foo" + [Newline]
  {
    SubjectExampleTopic();
    SubjectExampleDot();
  }

  lemma SubjectExampleTopic()
    ensures StripTopic(SubjectCommonPrefix, SubjectCommonPrefix + "Cycles: " + "Fix foo.\n") == SubjectCommonPrefix + "Fix foo.\n"
  {
    var rest: Bytes := "Fix foo.\n";
    var head := SubjectCommonPrefix + SubjectSkipPrefixes[0];
    var line := head + rest;
    assert line == SubjectCommonPrefix + "Cycles: " + rest;
    assert TopicMatches(SubjectCommonPrefix, line, 0);
    StripTopicCases(SubjectCommonPrefix, line, 0);
    assert line[|head|..] == rest;
    assert Capitalize(rest) == rest by {
      forall k | 0 <= k < |rest| ensures Capitalize(rest)[k] == rest[k] {
        assert k == 0 ==> IsAsciiUpper(rest[k]);
        assert k > 0 ==> !IsAsciiUpper(rest[k]);
      }
    }
  }

  lemma SubjectExampleDot()
    ensures ReplaceDotNewline(SubjectCommonPrefix + "Fix foo.\n") == SubjectCommonPrefix + "Fix foo" + [Newline]
  {
    var rest: Bytes := "Fix foo.\n";
    var s := SubjectCommonPrefix + rest;
    assert forall k :: 0 <= k < |SubjectCommonPrefix| ==> SubjectCommonPrefix[k] != Newline;
    assert forall k :: 0 <= k < |s| - 1 ==> s[k] != Newline;
    ReplaceDotNewlineOnLine(s);
    assert s[..|s| - 2] == SubjectCommonPrefix + rest[..7];
  }

  /** A patch without any `diff --git` line stays in the keeping state:
      every line is emitted, each rewritten by itself. */
  lemma {:induction false} NoFileSectionKeepsAll(lines: seq<Bytes>, accept: Bytes, replace: Bytes)
    requires forall k :: 0 <= k < |lines| ==> !(FileSectionMarker <= lines[k])
    ensures Run(lines, accept, replace) == (false, RewriteEach(lines, accept, replace))
  {
    if lines != [] {
      var n := |lines| - 1;
      var init := lines[..n];
      assert forall k :: 0 <= k < n ==> init[k] == lines[k];
      NoFileSectionKeepsAll(init, accept, replace);
      assert !NextSkip(false, lines[n], accept);
    }
  }

  /** Every line rewritten by itself, as `RewriteLine` does. */
  function RewriteEach(lines: seq<Bytes>, accept: Bytes, replace: Bytes): (r: seq<Bytes>)
    ensures |r| == |lines|
  {
    if lines == [] then []
    else RewriteEach(lines[..|lines| - 1], accept, replace) + [RewriteLine(lines[|lines| - 1], accept, replace)]
  }

  /** The output never has more lines than the input. */
  lemma {:induction false} CleanupShorter(lines: seq<Bytes>, accept: Bytes, replace: Bytes)
    ensures |Cleanup(lines, accept, replace)| <= |lines|
  {
    if lines != [] {
      CleanupShorter(lines[..|lines| - 1], accept, replace);
    }
  }

  /** The opening `assert(prefix[0] != b'/')` of `cleanup_patch` as
      written: `prefix[0]` is an `int`, never equal to the `bytes` b'/', so
      the assertion only fails (by `IndexError`) on an empty prefix. */
  predicate SlashCheckAsWritten(prefix: Bytes) {
    |prefix| > 0 && PyInt(prefix[0] as int) != PyBytes("/")
  }

  /** The check the assertion evidently intends: a non-empty prefix that
      is relative, i.e. does not start with '/'. */
  predicate RelativePrefix(prefix: Bytes) {
    |prefix| > 0 && prefix[0] != '/'
  }

  /** As written, the check accepts every non-empty prefix, absolute ones
      included; the intended check rejects "/src". */
  lemma SlashCheckInert(prefix: Bytes)
    ensures SlashCheckAsWritten(prefix) <==> |prefix| > 0
    ensures SlashCheckAsWritten("/src") && !RelativePrefix("/src")
  {
  }

  /** With a relative accept prefix, an accepted header names a path
      directly under "a/", never "a//". */
  lemma RelativePrefixHeader(accept: Bytes, line: Bytes)
    requires RelativePrefix(accept) && FullAcceptPrefix(accept) <= line
    ensures line[..|FileSectionMarker| + 3] == "diff --git a/"
    ensures line[|FileSectionMarker| + 3] != '/'
  {
    assert line[|FileSectionMarker| + 3] == FullAcceptPrefix(accept)[|FileSectionMarker| + 3] == accept[0];
  }

  /** `cleanup_patch` on the lines of the file, giving the lines written
      back. The opening asserts, as written, demand only that both
      prefixes be non-empty (`SlashCheckAsWritten`). */
  method CleanupPatch(lines: seq<Bytes>, accept: Bytes, replace: Bytes) returns (clean: seq<Bytes>)
    requires SlashCheckAsWritten(accept) && SlashCheckAsWritten(replace)
    ensures clean == Cleanup(lines, accept, replace)
  {
    var fullAccept := FileSectionMarker + " a/" + accept;
    clean := [];
    var doSkip := false;
    for i := 0 to |lines|
      invariant (doSkip, clean) == Run(lines[..i], accept, replace)
    {
      var line := lines[i];
      if SubjectCommonPrefix <= line {
        line := SubjectStrip(SubjectCommonPrefix, line);
        line := ReplaceDotNewline(line);
      } else if FileSectionMarker <= line {
        if !(fullAccept <= line) {
          doSkip := true;
        } else {
          doSkip := false;
          line := ReplaceFilePrefix(line, accept, replace);
        }
      } else if PatchsetEndMarker <= line {
        doSkip := false;
      } else if OldFileMarker <= line || NewFileMarker <= line {
        line := ReplaceFilePrefix(line, accept, replace);
      }
      if !doSkip {
        clean := clean + [line];
      }
      RunStep(lines, i, accept, replace);
    }
    assert lines[..|lines|] == lines;
  }
}
