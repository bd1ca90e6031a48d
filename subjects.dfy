/** Normalisation of commit subjects (`subject_strip`): the first topic
    prefix such as "Cycles: " that follows a common prefix is dropped and
    the rest of the subject is capitalised. */
module Subjects {
  import opened ByteStrings

  /** Prefix of the subject line in a patch exported by `git format-patch`. */
  const SubjectCommonPrefix: Bytes := "Subject: [PATCH] "

  /** Topic prefixes to be omitted, tried in this order. */
  const SubjectSkipPrefixes: seq<Bytes> := [
    "Cycles: ",
    "cycles: ",
    "Cycles Standalone: ",
    "Cycles standalone: ",
    "cycles standalone: "
  ]

  /** `common + SubjectSkipPrefixes[j]` is a prefix of `subject`. */
  predicate TopicMatches(common: Bytes, subject: Bytes, j: nat)
    requires j < |SubjectSkipPrefixes|
  {
    common + SubjectSkipPrefixes[j] <= subject
  }

  /** The first topic, at index `from` or later, that matches. */
  function FirstTopic(common: Bytes, subject: Bytes, from: nat): (r: Option<nat>)
    requires from <= |SubjectSkipPrefixes|
    ensures r.Some? ==> from <= r.value < |SubjectSkipPrefixes| && TopicMatches(common, subject, r.value)
    ensures forall j :: from <= j < |SubjectSkipPrefixes| && (r.None? || j < r.value) ==>
      !TopicMatches(common, subject, j)
    decreases |SubjectSkipPrefixes| - from
  {
    if from == |SubjectSkipPrefixes| then None
    else if TopicMatches(common, subject, from) then Some(from)
    else FirstTopic(common, subject, from + 1)
  }

  /** The value `subject_strip(common, subject)` returns. */
  function StripTopic(common: Bytes, subject: Bytes): Bytes {
    match FirstTopic(common, subject, 0)
    case None => subject
    case Some(i) => common + Capitalize(subject[|common| + |SubjectSkipPrefixes[i]|..])
  }

  /** Topics are tried in order and the first match wins; its whole
      `common + topic` is removed, the remainder capitalised and `common`
      put back. Without a match, even when `subject` starts with `common`,
      the subject comes back unchanged. */
  lemma {:induction false} StripTopicCases(common: Bytes, subject: Bytes, i: nat)
    requires i < |SubjectSkipPrefixes|
    requires TopicMatches(common, subject, i)
    requires forall j :: 0 <= j < i ==> !TopicMatches(common, subject, j)
    ensures StripTopic(common, subject) ==
      common + Capitalize(subject[|common| + |SubjectSkipPrefixes[i]|..])
  {
  }

  lemma StripTopicNoMatch(common: Bytes, subject: Bytes)
    requires forall j :: 0 <= j < |SubjectSkipPrefixes| ==> !TopicMatches(common, subject, j)
    ensures StripTopic(common, subject) == subject
  {
  }

  /** Stripping is NOT idempotent: a subject carrying two topics loses one
      per application ("Cycles: cycles: x" -> "Cycles: x" -> "X"). */
  lemma StripTopicNotIdempotent()
    ensures StripTopic([], "Cycles: cycles: x") == "Cycles: x"
    ensures StripTopic([], StripTopic([], "Cycles: cycles: x")) == "X"
  {
    var s: Bytes := "Cycles: cycles: x";
    assert TopicMatches([], s, 0);
    StripTopicCases([], s, 0);
    assert s[8..] == "cycles: x";
    assert Capitalize("cycles: x") == "Cycles: x";
    var t: Bytes := "Cycles: x";
    assert TopicMatches([], t, 0);
    StripTopicCases([], t, 0);
    assert t[8..] == "x";
    assert Capitalize("x") == "X";
  }

  /** `subject_strip`: a loop over the topics that rebinds the subject and
      stops at the first match. */
  method SubjectStrip(common: Bytes, subject: Bytes) returns (r: Bytes)
    ensures r == StripTopic(common, subject)
  {
    r := subject;
    for i := 0 to |SubjectSkipPrefixes|
      invariant r == subject
      invariant forall j :: 0 <= j < i ==> !TopicMatches(common, subject, j)
    {
      var fullPrefix := common + SubjectSkipPrefixes[i];
      if fullPrefix <= r {
        r := r[|fullPrefix|..];
        r := common + Capitalize(r);
        StripTopicCases(common, subject, i);
        return;
      }
    }
  }
}
