/** Matching commits across the two repositories (`commit_map_get` and
    `commits_get_difference`): each history becomes an insertion-ordered
    map from a fingerprint "<stamp> <normalised subject>" to the commit
    hash, and the two maps are compared key by key. */
module CommitMaps {
  import opened ByteStrings
  import opened Subjects
  import opened Sequences

  /** `collections.OrderedDict` from bytes to bytes: the keys in insertion
      order, and the current value of each key. */
  datatype OrderedDict = OrderedDict(keys: seq<Bytes>, values: map<Bytes, Bytes>)

  predicate ValidDict(d: OrderedDict) {
    && (forall i, j :: 0 <= i < j < |d.keys| ==> d.keys[i] != d.keys[j])
    && (forall k :: k in d.values ==> k in d.keys)
    && (forall i :: 0 <= i < |d.keys| ==> d.keys[i] in d.values)
  }

  type CommitMap = d: OrderedDict | ValidDict(d) witness OrderedDict([], map[])

  const EmptyMap: CommitMap := OrderedDict([], map[])

  /** `d[k] = v`. Last write wins: an existing key keeps its position and
      takes the new value; a new key goes to the end. */
  function Put(d: CommitMap, k: Bytes, v: Bytes): (r: CommitMap)
    ensures r.values == d.values[k := v]
    ensures k in d.values ==> r.keys == d.keys
    ensures k !in d.values ==> r.keys == d.keys + [k]
  {
    if k in d.values then OrderedDict(d.keys, d.values[k := v])
    else OrderedDict(d.keys + [k], d.values[k := v])
  }

  /** The eight commits `IGNORE_HASHES` names, in its order. */
  const IgnoredCommit1: Bytes := "7e690198b16c21158e428d3324e6e7f3b102f674"
  const IgnoredCommit2: Bytes := "e1ec85876e809b1bb23be45ed91f3766de10ee66"
  const IgnoredCommit3: Bytes := "38f08c1cecb2dd6ac32c5b705de065474b15dfc2"
  const IgnoredCommit4: Bytes := "e2a5251d35b10bdbc67f227765664984d6504722"
  const IgnoredCommit5: Bytes := "cdc1ddf20bcf6b0a3783039a3828847afd3fd633"
  const IgnoredCommit6: Bytes := "3e472d87a8d13aee078e156d584cf2171ed2d8a3"
  const IgnoredCommit7: Bytes := "0456223cde98712c16cb9b584b5c66c58ec915c3"
  const IgnoredCommit8: Bytes := "c07c7957c6b4780b643e0e056a78a56b3e08f51b"

  /** `IGNORE_HASHES` as the script writes it: a set of `str`. */
  const IgnoreHashesAsWritten: set<PyValue> := {
    PyStr(IgnoredCommit1),
    PyStr(IgnoredCommit2),
    PyStr(IgnoredCommit3),
    PyStr(IgnoredCommit4),
    PyStr(IgnoredCommit5),
    PyStr(IgnoredCommit6),
    PyStr(IgnoredCommit7),
    PyStr(IgnoredCommit8)
  }

  /** The hashes the script means to ignore, as the `bytes` that `git log`
      yields; this is the set the model uses. */
  const IgnoreHashes: set<Bytes> := {
    IgnoredCommit1,
    IgnoredCommit2,
    IgnoredCommit3,
    IgnoredCommit4,
    IgnoredCommit5,
    IgnoredCommit6,
    IgnoredCommit7,
    IgnoredCommit8
  }

  /** Both sets name the same eight commits: the written one as `str`, the
      corrected one as `bytes`. */
  lemma IgnoreHashesSameCommits()
    ensures IgnoreHashesAsWritten == set h | h in IgnoreHashes :: PyStr(h)
  {
  }

  /** The hashes `commit_sha in IGNORE_HASHES` actually skips, where
      `commit_sha` is `bytes`. */
  function EffectiveIgnoreAsWritten(): set<Bytes> {
    set v | v in IgnoreHashesAsWritten && v.PyBytes? :: v.b
  }

  /** As written, the ignore set skips nothing: no `bytes` hash is a member
      of a set of `str`. */
  lemma IgnoreSetIsInert(sha: Bytes)
    ensures PyBytes(sha) !in IgnoreHashesAsWritten
    ensures EffectiveIgnoreAsWritten() == {}
  {
    assert forall v :: v in IgnoreHashesAsWritten ==> v.PyStr?;
  }

  /** One line of `git log --format="%H %at %s"`. */
  datatype LogLine = LogLine(sha: Bytes, stamp: Bytes, subject: Bytes)

  /** `commit_sha, stamped_subject = line.split(b' ', 1)` and
      `stamp, subject = stamped_subject.split(b' ', 1)`; `None` where either
      unpacking raises because a space is missing. */
  function ParseLogLine(line: Bytes): Option<LogLine> {
    match SplitOnce(line, Space)
    case None => None
    case Some((sha, stampedSubject)) =>
      match SplitOnce(stampedSubject, Space)
      case None => None
      case Some((stamp, subject)) => Some(LogLine(sha, stamp, subject))
  }

  /** A parsed line is the hash, the stamp and the subject joined by
      single spaces, and neither the hash nor the stamp holds a space. */
  lemma ParseLogLineSound(line: Bytes)
    requires ParseLogLine(line).Some?
    ensures var c := ParseLogLine(line).value;
      && line == c.sha + [Space] + c.stamp + [Space] + c.subject
      && Space !in c.sha && Space !in c.stamp
  {
    SplitOnceJoins(line, Space);
    var (sha, rest) := SplitOnce(line, Space).value;
    SplitOnceJoins(rest, Space);
  }

  lemma SplitOnceOf(a: Bytes, b: Bytes)
    requires Space !in a
    ensures SplitOnce(a + [Space] + b, Space) == Some((a, b))
  {
    var s := a + [Space] + b;
    assert s[..|a|] == a;
    assert s[|a|] == Space;
    IndexOfUnique(s, Space, |a|);
    assert s[|a| + 1..] == b;
  }

  /** Parsing inverts the `%H %at %s` format for a hash and a stamp
      without spaces (the subject may hold any bytes but a newline). */
  lemma ParseFormatRoundTrip(sha: Bytes, stamp: Bytes, subject: Bytes)
    requires Space !in sha && Space !in stamp
    ensures ParseLogLine(sha + [Space] + stamp + [Space] + subject) == Some(LogLine(sha, stamp, subject))
  {
    assert sha + [Space] + stamp + [Space] + subject == sha + [Space] + (stamp + [Space] + subject);
    SplitOnceOf(sha, stamp + [Space] + subject);
    SplitOnceOf(stamp, subject);
  }

  /** The fingerprint "<stamp> <subject>": the subject loses its topic and
      then EVERY trailing dot (`rstrip(b".")`). */
  function Fingerprint(stamp: Bytes, subject: Bytes): Bytes {
    stamp + [Space] + RStrip(StripTopic([], subject), Dot)
  }

  /** The fingerprint starts with the stamp and a space, and never ends
      in a dot. */
  lemma FingerprintShape(stamp: Bytes, subject: Bytes)
    ensures var key := Fingerprint(stamp, subject);
      |key| > |stamp| && key[..|stamp| + 1] == stamp + [Space] && key[|key| - 1] != Dot
  {
    var tail := RStrip(StripTopic([], subject), Dot);
    var key := stamp + [Space] + tail;
    assert key[..|stamp| + 1] == stamp + [Space];
  }

  /** Two commits of the same second whose subjects differ only in a
      final dot get the same fingerprint, so they match across histories. */
  lemma FingerprintExample()
    ensures Fingerprint("200", "Fix memory leak.") == Fingerprint("200", "Fix memory leak")
    ensures Fingerprint("200", "Fix memory leak") == "200" + [Space] + "Fix memory leak"
  {
    var dotted: Bytes := "Fix memory leak.";
    var plain: Bytes := "Fix memory leak";
    NoTopicOnF(dotted);
    NoTopicOnF(plain);
    DropsOneDot(dotted, plain);
  }

  lemma DropsOneDot(dotted: Bytes, plain: Bytes)
    requires dotted == plain + [Dot] && |plain| > 0 && plain[|plain| - 1] != Dot
    ensures RStrip(dotted, Dot) == plain && RStrip(plain, Dot) == plain
  {
    assert dotted[..|dotted| - 1] == plain;
  }

  /** No topic starts with "F", so a subject starting with it keeps its
      text, case included. */
  lemma NoTopicOnF(subject: Bytes)
    requires |subject| > 0 && subject[0] == 'F'
    ensures StripTopic([], subject) == subject
  {
    forall j | 0 <= j < |SubjectSkipPrefixes| ensures !TopicMatches([], subject, j) {
      var p := SubjectSkipPrefixes[j];
      assert p[0] == 'C' || p[0] == 'c';
      assert ([] + p)[0] == p[0];
    }
    StripTopicNoMatch([], subject);
  }

  /** What the loop of `commit_map_get` does with one line of the log. */
  datatype LineKind =
    | Blank                           // empty line: skipped
    | Bad(line: Bytes)                // a space is missing: Python raises
    | Ignored                         // hash in the ignore set: skipped
    | Insert(key: Bytes, sha: Bytes)  // `commit_map[stamped_subject] = commit_sha`

  function Classify(line: Bytes, ignore: set<Bytes>): (k: LineKind)
    ensures k.Bad? ==> k.line == line
    ensures k.Insert? ==> k.sha !in ignore
  {
    if line == [] then Blank
    else match ParseLogLine(line)
      case None => Bad(line)
      case Some(c) => if c.sha in ignore then Ignored else Insert(Fingerprint(c.stamp, c.subject), c.sha)
  }

  /** A non-empty line that `git log` could not have written: Python raises
      on it and the run stops. */
  predicate Malformed(line: Bytes) {
    line != [] && ParseLogLine(line).None?
  }

  function ClassifyAll(lines: seq<Bytes>, ignore: set<Bytes>): (ks: seq<LineKind>)
    ensures |ks| == |lines| && forall i :: 0 <= i < |lines| ==> ks[i] == Classify(lines[i], ignore)
  {
    seq(|lines|, i requires 0 <= i < |lines| => Classify(lines[i], ignore))
  }

  lemma ClassifyAllPrefix(lines: seq<Bytes>, i: nat, ignore: set<Bytes>)
    requires i < |lines|
    ensures ClassifyAll(lines[..i + 1], ignore) == ClassifyAll(lines[..i], ignore) + [Classify(lines[i], ignore)]
  {
  }

  /** One pass of the loop: an error stays, a bad line becomes the error,
      an entry is inserted with last write winning. */
  function Step(acc: Result<CommitMap, Bytes>, k: LineKind): Result<CommitMap, Bytes> {
    match acc
    case Err(e) => Err(e)
    case Ok(d) =>
      match k
      case Bad(line) => Err(line)
      case Insert(key, sha) => Ok(Put(d, key, sha))
      case _ => Ok(d)
  }

  /** The loop over already classified lines. */
  function Fold(ks: seq<LineKind>): (r: Result<CommitMap, Bytes>)
    ensures r.Err? ==> Bad(r.error) in ks
    ensures r.Ok? ==> forall key :: key in r.value.values ==> Insert(key, r.value.values[key]) in ks
  {
    if ks == [] then Ok(EmptyMap)
    else
      var n := |ks| - 1;
      var acc := Fold(ks[..n]);
      assert forall x :: x in ks[..n] ==> x in ks;
      assert ks[n] in ks;
      Step(acc, ks[n])
  }

  /** The map the loop of `commit_map_get` builds from the lines of the
      log, or the first malformed line it stops at. */
  function BuildMap(lines: seq<Bytes>, ignore: set<Bytes>): (r: Result<CommitMap, Bytes>)
    ensures r.Ok? ==> forall k :: k in r.value.values ==> r.value.values[k] !in ignore
    ensures r.Err? ==> r.error in lines && Malformed(r.error)
  {
    var ks := ClassifyAll(lines, ignore);
    var r := Fold(ks);
    assert r.Ok? ==> forall k :: k in r.value.values ==> Insert(k, r.value.values[k]) in ks;
    r
  }

  lemma BuildMapStep(lines: seq<Bytes>, i: nat, ignore: set<Bytes>)
    requires i < |lines|
    ensures BuildMap(lines[..i + 1], ignore) == Step(BuildMap(lines[..i], ignore), Classify(lines[i], ignore))
  {
    ClassifyAllPrefix(lines, i, ignore);
    var ks := ClassifyAll(lines[..i + 1], ignore);
    assert ks[..i] == ClassifyAll(lines[..i], ignore);
  }

  lemma {:induction false} FoldErrors(ks: seq<LineKind>)
    ensures Fold(ks).Err? <==> exists i :: 0 <= i < |ks| && ks[i].Bad?
  {
    if ks != [] {
      var n := |ks| - 1;
      FoldErrors(ks[..n]);
      FoldErrStep(ks);
      if Fold(ks[..n]).Err? {
        var i :| 0 <= i < n && ks[..n][i].Bad?;
        assert ks[i] == ks[..n][i];
      } else if !ks[n].Bad? {
        forall i | 0 <= i < |ks| ensures !ks[i].Bad? {
          if i < n {
            assert ks[i] == ks[..n][i];
          }
        }
      }
    }
  }

  lemma FoldErrStep(ks: seq<LineKind>)
    requires ks != []
    ensures Fold(ks).Err? <==> Fold(ks[..|ks| - 1]).Err? || ks[|ks| - 1].Bad?
  {
  }

  /** The log is rejected exactly when one of its lines is malformed. */
  lemma BuildMapErrors(lines: seq<Bytes>, ignore: set<Bytes>)
    ensures BuildMap(lines, ignore).Err? <==> exists i :: 0 <= i < |lines| && Malformed(lines[i])
  {
    var ks := ClassifyAll(lines, ignore);
    FoldErrors(ks);
    assert forall i :: 0 <= i < |lines| ==> (ks[i].Bad? <==> Malformed(lines[i]));
  }

  lemma {:induction false} FoldLastWriteWins(ks: seq<LineKind>, i: nat)
    requires Fold(ks).Ok?
    requires i < |ks| && ks[i].Insert?
    requires forall j :: i < j < |ks| && ks[j].Insert? ==> ks[j].key != ks[i].key
    ensures ks[i].key in Fold(ks).value.values && Fold(ks).value.values[ks[i].key] == ks[i].sha
  {
    var n := |ks| - 1;
    if i < n {
      assert forall j :: 0 <= j < n ==> ks[..n][j] == ks[j];
      FoldLastWriteWins(ks[..n], i);
    }
  }

  /** Last write wins: a fingerprint maps to the hash of the LAST commit
      that produced it; an earlier commit with the same fingerprint is
      silently overwritten. */
  lemma LastWriteWins(lines: seq<Bytes>, ignore: set<Bytes>, i: nat)
    requires BuildMap(lines, ignore).Ok?
    requires i < |lines| && Classify(lines[i], ignore).Insert?
    requires forall j :: i < j < |lines| && Classify(lines[j], ignore).Insert? ==>
      Classify(lines[j], ignore).key != Classify(lines[i], ignore).key
    ensures var k := Classify(lines[i], ignore);
      k.key in BuildMap(lines, ignore).value.values && BuildMap(lines, ignore).value.values[k.key] == k.sha
  {
    FoldLastWriteWins(ClassifyAll(lines, ignore), i);
  }

  /** Every key of the map is the fingerprint of some non-ignored commit
      of the log, and maps to that commit's hash. */
  lemma KeysFromLog(lines: seq<Bytes>, ignore: set<Bytes>, key: Bytes)
    requires BuildMap(lines, ignore).Ok?
    requires key in BuildMap(lines, ignore).value.values
    ensures exists i :: 0 <= i < |lines| && Classify(lines[i], ignore) == Insert(key, BuildMap(lines, ignore).value.values[key])
  {
    var ks := ClassifyAll(lines, ignore);
    var sha := BuildMap(lines, ignore).value.values[key];
    assert Insert(key, sha) in ks;
    var i :| 0 <= i < |ks| && ks[i] == Insert(key, sha);
    assert Classify(lines[i], ignore) == Insert(key, sha);
  }

  /** A well-formed line of the log inserts its fingerprint and hash,
      unless the hash is ignored. */
  lemma ClassifyLogLine(sha: Bytes, stamp: Bytes, subject: Bytes, ignore: set<Bytes>)
    requires Space !in sha && Space !in stamp
    ensures Classify(sha + [Space] + stamp + [Space] + subject, ignore) ==
      if sha in ignore then Ignored else Insert(Fingerprint(stamp, subject), sha)
  {
    var line := sha + [Space] + stamp + [Space] + subject;
    ParseFormatRoundTrip(sha, stamp, subject);
    assert |line| > 0;
  }

  /** Two different commits made in the same second with the same subject
      up to topic, case and trailing dots collapse into one entry, holding
      the later hash. */
  lemma CollidingCommitsCollapse(sha1: Bytes, sha2: Bytes, stamp: Bytes, subject1: Bytes, subject2: Bytes)
    requires Space !in sha1 && Space !in sha2 && Space !in stamp
    requires sha1 !in IgnoreHashes && sha2 !in IgnoreHashes
    requires Fingerprint(stamp, subject1) == Fingerprint(stamp, subject2)
    ensures var key := Fingerprint(stamp, subject1);
      var r := BuildMap([sha1 + [Space] + stamp + [Space] + subject1, sha2 + [Space] + stamp + [Space] + subject2], IgnoreHashes);
      r.Ok? && r.value.keys == [key] && r.value.values == map[key := sha2]
  {
    var key := Fingerprint(stamp, subject1);
    var l1 := sha1 + [Space] + stamp + [Space] + subject1;
    var l2 := sha2 + [Space] + stamp + [Space] + subject2;
    ClassifyLogLine(sha1, stamp, subject1, IgnoreHashes);
    ClassifyLogLine(sha2, stamp, subject2, IgnoreHashes);
    var ks := ClassifyAll([l1, l2], IgnoreHashes);
    FoldTwoInserts(ks, key, sha1, sha2);
  }

  lemma FoldTwoInserts(ks: seq<LineKind>, key: Bytes, sha1: Bytes, sha2: Bytes)
    requires |ks| == 2 && ks[0] == Insert(key, sha1) && ks[1] == Insert(key, sha2)
    ensures Fold(ks).Ok? && Fold(ks).value.keys == [key] && Fold(ks).value.values == map[key := sha2]
  {
    assert |ks[..1][..0]| == 0 && ks[..1][0] == ks[0];
    var first := Put(EmptyMap, key, sha1);
    assert Fold(ks[..1]) == Ok(first);
    var second := Put(first, key, sha2);
    assert Fold(ks) == Step(Fold(ks[..1]), ks[1]) == Ok(second);
    assert second.values == map[key := sha2];
  }

  /** The finding about the ignore set: as written, a commit whose hash is
      listed is still mapped; with the set held as `bytes` it is skipped. */
  lemma IgnoredCommitStillMapped(sha: Bytes, stamp: Bytes, subject: Bytes)
    requires sha in IgnoreHashes && Space !in sha && Space !in stamp
    ensures var line := sha + [Space] + stamp + [Space] + subject;
      var key := Fingerprint(stamp, subject);
      var asWritten := BuildMap([line], EffectiveIgnoreAsWritten());
      && asWritten.Ok? && asWritten.value.keys == [key] && asWritten.value.values == map[key := sha]
      && BuildMap([line], IgnoreHashes) == Ok(EmptyMap)
  {
    IgnoreSetIsInert(sha);
    var line := sha + [Space] + stamp + [Space] + subject;
    ClassifyLogLine(sha, stamp, subject, EffectiveIgnoreAsWritten());
    ClassifyLogLine(sha, stamp, subject, IgnoreHashes);
    var asWritten := ClassifyAll([line], EffectiveIgnoreAsWritten());
    assert asWritten[0] == Insert(Fingerprint(stamp, subject), sha);
    assert |asWritten[..0]| == 0;
    assert Fold(asWritten) == Ok(Put(EmptyMap, Fingerprint(stamp, subject), sha));
    assert BuildMap([line], EffectiveIgnoreAsWritten()) == Fold(asWritten);
    var corrected := ClassifyAll([line], IgnoreHashes);
    assert corrected[0] == Ignored;
    assert |corrected[..0]| == 0;
    assert BuildMap([line], IgnoreHashes) == Fold(corrected) == Ok(EmptyMap);
  }

  /** `commit_map_get` on the output of `git log`: split at newlines, skip
      empty lines, parse, normalise the subject, skip ignored hashes and
      insert with last write winning. */
  method CommitMapGet(log: Bytes, ignore: set<Bytes>) returns (r: Result<CommitMap, Bytes>)
    ensures r == BuildMap(Split(log, Newline), ignore)
  {
    var lines := Split(log, Newline);
    var commitMap := EmptyMap;
    for i := 0 to |lines|
      invariant BuildMap(lines[..i], ignore) == Ok(commitMap)
    {
      BuildMapStep(lines, i, ignore);
      var line := lines[i];
      if line != [] {
        var first := SplitOnce(line, Space);
        if first.None? {
          r := Err(line);
          ErrorPersists(lines, i + 1, ignore);
          return;
        }
        var commitSha, stampedSubject := first.value.0, first.value.1;
        var second := SplitOnce(stampedSubject, Space);
        if second.None? {
          r := Err(line);
          ErrorPersists(lines, i + 1, ignore);
          return;
        }
        var stamp, subject := second.value.0, second.value.1;
        subject := SubjectStrip([], subject);
        subject := RStrip(subject, Dot);
        stampedSubject := stamp + [Space] + subject;
        if commitSha in ignore {
          continue;
        }
        commitMap := Put(commitMap, stampedSubject, commitSha);
      }
    }
    assert lines[..|lines|] == lines;
    r := Ok(commitMap);
  }

  /** Once the loop has stopped at a malformed line, the rest of the log
      does not matter. */
  lemma {:induction false} ErrorPersists(lines: seq<Bytes>, i: nat, ignore: set<Bytes>)
    requires i <= |lines| && BuildMap(lines[..i], ignore).Err?
    ensures BuildMap(lines, ignore) == BuildMap(lines[..i], ignore)
    decreases |lines| - i
  {
    if i < |lines| {
      BuildMapStep(lines, i, ignore);
      ErrorPersists(lines, i + 1, ignore);
    } else {
      assert lines[..i] == lines;
    }
  }

  /** The keys of `keys` that `other` lacks, in the order of `keys`. */
  function MissingKeys(keys: seq<Bytes>, other: map<Bytes, Bytes>): (r: seq<Bytes>)
    ensures forall k :: k in r <==> k in keys && k !in other
  {
    if keys == [] then []
    else
      var last := keys[|keys| - 1];
      MissingKeys(keys[..|keys| - 1], other) + (if last in other then [] else [last])
  }

  /** The hashes that `a` holds for the fingerprints `ks`, in that order. */
  function HashesOf(a: CommitMap, ks: seq<Bytes>): (r: seq<Bytes>)
    requires forall k :: k in ks ==> k in a.values
    ensures |r| == |ks| && forall i :: 0 <= i < |r| ==> r[i] == a.values[ks[i]]
  {
    seq(|ks|, i requires 0 <= i < |ks| => a.values[ks[i]])
  }

  lemma HashesOfAppend(a: CommitMap, ks: seq<Bytes>, k: Bytes)
    requires forall x :: x in ks ==> x in a.values
    requires k in a.values
    ensures HashesOf(a, ks + [k]) == HashesOf(a, ks) + [a.values[k]]
  {
  }

  /** The hashes of the fingerprints of `a` absent from `b`, in the order of `a`. */
  function OnlyIn(a: CommitMap, b: CommitMap): seq<Bytes> {
    HashesOf(a, MissingKeys(a.keys, b.values))
  }

  /** For each key, whether `other` lacks it. */
  function Absent(keys: seq<Bytes>, other: map<Bytes, Bytes>): (r: seq<bool>)
    ensures |r| == |keys|
  {
    seq(|keys|, k requires 0 <= k < |keys| => keys[k] !in other)
  }

  lemma {:induction false} MissingKeysSelects(keys: seq<Bytes>, other: map<Bytes, Bytes>)
    ensures MissingKeys(keys, other) == Select(keys, Absent(keys, other))
  {
    if keys != [] {
      var n := |keys| - 1;
      MissingKeysSelects(keys[..n], other);
      AbsentPrefix(keys, other);
    }
  }

  lemma AbsentPrefix(keys: seq<Bytes>, other: map<Bytes, Bytes>)
    requires |keys| > 0
    ensures Absent(keys, other)[..|keys| - 1] == Absent(keys[..|keys| - 1], other)
  {
  }

  /** The missing keys are a subsequence of `keys`, in their order: `pos`
      lists, increasing, exactly the positions whose key `other` lacks. */
  lemma MissingKeysInOrder(keys: seq<Bytes>, other: map<Bytes, Bytes>) returns (pos: seq<nat>)
    ensures Increasing(pos) && |pos| == |MissingKeys(keys, other)|
    ensures forall m :: 0 <= m < |pos| ==> pos[m] < |keys| && MissingKeys(keys, other)[m] == keys[pos[m]]
    ensures forall k :: 0 <= k < |keys| ==> (k in pos <==> keys[k] !in other)
  {
    MissingKeysSelects(keys, other);
    pos := SelectPositions(keys, Absent(keys, other));
  }

  /** `OnlyIn(a, b)` lists the hashes of the keys of `a` that `b` lacks,
      in the insertion order of `a`. */
  lemma OnlyInOrder(a: CommitMap, b: CommitMap) returns (pos: seq<nat>)
    ensures Increasing(pos) && |pos| == |OnlyIn(a, b)|
    ensures forall m :: 0 <= m < |pos| ==> pos[m] < |a.keys| && OnlyIn(a, b)[m] == a.values[a.keys[pos[m]]]
    ensures forall k :: 0 <= k < |a.keys| ==> (k in pos <==> a.keys[k] !in b.values)
  {
    pos := MissingKeysInOrder(a.keys, b.values);
  }

  /** Each fingerprint of `a` that `b` lacks appears once in the difference. */
  lemma {:induction false} MissingKeysDistinct(keys: seq<Bytes>, other: map<Bytes, Bytes>)
    requires forall i, j :: 0 <= i < j < |keys| ==> keys[i] != keys[j]
    ensures var r := MissingKeys(keys, other);
      forall i, j :: 0 <= i < j < |r| ==> r[i] != r[j]
  {
    if keys != [] {
      var n := |keys| - 1;
      assert forall i :: 0 <= i < n ==> keys[..n][i] == keys[i];
      MissingKeysDistinct(keys[..n], other);
      assert keys[n] !in keys[..n];
      assert keys[n] !in MissingKeys(keys[..n], other);
    }
  }

  /** The difference partitions the fingerprints: each key of either map
      is in both, or in exactly one of the two one-way lists, once. */
  lemma DifferencePartition(a: CommitMap, b: CommitMap, key: Bytes)
    requires key in a.values || key in b.values
    ensures var ab := MissingKeys(a.keys, b.values);
      var ba := MissingKeys(b.keys, a.values);
      && (key in a.values && key in b.values ==> key !in ab && key !in ba)
      && (key in a.values && key !in b.values ==> key in ab && key !in ba)
      && (key !in a.values && key in b.values ==> key !in ab && key in ba)
      && (forall i, j :: 0 <= i < j < |ab| ==> ab[i] != ab[j])
      && (forall i, j :: 0 <= i < j < |ba| ==> ba[i] != ba[j])
  {
    MissingKeysDistinct(a.keys, b.values);
    MissingKeysDistinct(b.keys, a.values);
  }

  lemma {:induction false} MissingNone(keys: seq<Bytes>, other: map<Bytes, Bytes>)
    requires forall i :: 0 <= i < |keys| ==> keys[i] in other
    ensures MissingKeys(keys, other) == []
  {
    if keys != [] {
      var n := |keys| - 1;
      assert forall i :: 0 <= i < n ==> keys[..n][i] == keys[i];
      MissingNone(keys[..n], other);
      assert keys[n] in other;
    }
  }

  /** A map compared with itself has nothing to transfer; in particular two
      maps built from the same log and ignore set. */
  lemma SameMapNoDifference(a: CommitMap)
    ensures OnlyIn(a, a) == []
  {
    MissingNone(a.keys, a.values);
  }

  /** An ignored hash never reaches either difference list of maps built
      with that ignore set. */
  lemma IgnoredNeverTransferred(la: seq<Bytes>, lb: seq<Bytes>, ignore: set<Bytes>)
    requires BuildMap(la, ignore).Ok? && BuildMap(lb, ignore).Ok?
    ensures var a := BuildMap(la, ignore).value;
      var b := BuildMap(lb, ignore).value;
      forall h :: h in OnlyIn(a, b) || h in OnlyIn(b, a) ==> h !in ignore
  {
    var a := BuildMap(la, ignore).value;
    var b := BuildMap(lb, ignore).value;
    forall h | h in OnlyIn(a, b) ensures h !in ignore {
      var i :| 0 <= i < |OnlyIn(a, b)| && OnlyIn(a, b)[i] == h;
      assert MissingKeys(a.keys, b.values)[i] in MissingKeys(a.keys, b.values);
    }
    forall h | h in OnlyIn(b, a) ensures h !in ignore {
      var i :| 0 <= i < |OnlyIn(b, a)| && OnlyIn(b, a)[i] == h;
      assert MissingKeys(b.keys, a.values)[i] in MissingKeys(b.keys, a.values);
    }
  }

  /** `commits_get_difference`: two loops that collect, in each map's
      order, the hashes of its fingerprints the other map lacks. */
  method CommitsGetDifference(cyclesMap: CommitMap, blenderMap: CommitMap) returns (cyclesToBlender: seq<Bytes>, blenderToCycles: seq<Bytes>)
    ensures cyclesToBlender == OnlyIn(cyclesMap, blenderMap)
    ensures blenderToCycles == OnlyIn(blenderMap, cyclesMap)
  {
    cyclesToBlender := CollectMissing(cyclesMap, blenderMap);
    blenderToCycles := CollectMissing(blenderMap, cyclesMap);
  }

  /** One loop of `commits_get_difference`. */
  method CollectMissing(a: CommitMap, b: CommitMap) returns (r: seq<Bytes>)
    ensures r == OnlyIn(a, b)
  {
    r := [];
    for i := 0 to |a.keys|
      invariant forall k :: k in a.keys[..i] ==> k in a.values
      invariant r == HashesOf(a, MissingKeys(a.keys[..i], b.values))
    {
      var stampedSubject := a.keys[i];
      assert a.keys[..i + 1][..i] == a.keys[..i];
      if stampedSubject !in b.values {
        HashesOfAppend(a, MissingKeys(a.keys[..i], b.values), stampedSubject);
        r := r + [a.values[stampedSubject]];
      }
    }
    assert a.keys[..|a.keys|] == a.keys;
  }
}
