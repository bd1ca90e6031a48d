/** Python `bytes` values and the handful of `bytes` methods the sync script
    relies on (`startswith`, `split`, `join`, `capitalize`, `rstrip`,
    `replace`). Each byte is written as the character with that code, so
    that byte literals can be written as string literals. */
module ByteStrings {

  /** One byte: a character whose code is below 256. */
  type Byte = c: char | c as int < 256 witness 'a'

  /** A Python `bytes` value. `p <= s` is `s.startswith(p)`. */
  type Bytes = seq<Byte>

  datatype Option<T> = None | Some(value: T)

  datatype Result<T, E> = Ok(value: T) | Err(error: E)

  /** The kinds of Python value that the script compares with each other.
      In Python 3 values of different kinds are never equal: indexing a
      `bytes` value gives an `int`, and a `str` never equals a `bytes`. */
  datatype PyValue = PyInt(i: int) | PyBytes(b: Bytes) | PyStr(s: string)

  const Space: Byte := ' '
  const Newline: Byte := '\n'
  const Dot: Byte := '.'

  predicate IsAsciiLower(b: Byte) { 'a' <= b <= 'z' }

  predicate IsAsciiUpper(b: Byte) { 'A' <= b <= 'Z' }

  /** `bytes.upper` on one byte: only ASCII letters change. */
  function ToUpper(b: Byte): (r: Byte)
    ensures IsAsciiLower(b) ==> IsAsciiUpper(r) && r as int == b as int - 32
    ensures !IsAsciiLower(b) ==> r == b
  {
    if IsAsciiLower(b) then (b as int - 32) as char else b
  }

  /** `bytes.lower` on one byte: only ASCII letters change. */
  function ToLower(b: Byte): (r: Byte)
    ensures IsAsciiUpper(b) ==> IsAsciiLower(r) && r as int == b as int + 32
    ensures !IsAsciiUpper(b) ==> r == b
  {
    if IsAsciiUpper(b) then (b as int + 32) as char else b
  }

  /** `bytes.capitalize`: the first byte upper-cased, every other byte
      lower-cased, so acronyms inside the text are flattened too. */
  function Capitalize(s: Bytes): Bytes {
    seq(|s|, k requires 0 <= k < |s| => if k == 0 then ToUpper(s[k]) else ToLower(s[k]))
  }

  /** `s.split(sep)` for a one-byte separator: every occurrence splits, so
      adjacent separators give empty tokens, and there is always a token. */
  function Split(s: Bytes, sep: Byte): (r: seq<Bytes>)
    ensures |r| >= 1
    ensures forall k :: 0 <= k < |r| ==> sep !in r[k]
  {
    if s == [] then [[]]
    else
      var rest := Split(s[1..], sep);
      if s[0] == sep then [[]] + rest else [[s[0]] + rest[0]] + rest[1..]
  }

  /** `sep.join(ts)`. */
  function Join(ts: seq<Bytes>, sep: Byte): Bytes {
    if |ts| == 0 then []
    else if |ts| == 1 then ts[0]
    else ts[0] + [sep] + Join(ts[1..], sep)
  }

  /** Joining the tokens of a split gives back the original bytes. */
  lemma {:induction false} JoinSplit(s: Bytes, sep: Byte)
    ensures Join(Split(s, sep), sep) == s
  {
    if s != [] {
      var rest := Split(s[1..], sep);
      JoinSplit(s[1..], sep);
      if s[0] == sep {
        assert Split(s, sep) == [[]] + rest;
        assert ([[]] + rest)[1..] == rest;
        assert Join([[]] + rest, sep) == [] + [sep] + Join(rest, sep);
        assert s == [s[0]] + s[1..];
      } else if |rest| == 1 {
        assert Split(s, sep) == [[s[0]] + rest[0]];
        assert s == [s[0]] + s[1..];
      } else {
        var r := [[s[0]] + rest[0]] + rest[1..];
        assert Split(s, sep) == r;
        assert r[1..] == rest[1..];
        assert Join(r, sep) == [s[0]] + rest[0] + [sep] + Join(rest[1..], sep);
        assert Join(rest, sep) == rest[0] + [sep] + Join(rest[1..], sep);
        assert s == [s[0]] + s[1..];
      }
    }
  }

  lemma {:induction false} SplitWithoutSeparator(a: Bytes, sep: Byte)
    requires sep !in a
    ensures Split(a, sep) == [a]
  {
    if a != [] {
      SplitWithoutSeparator(a[1..], sep);
      assert [a[0]] + a[1..] == a;
    }
  }

  lemma {:induction false} SplitAtSeparator(a: Bytes, b: Bytes, sep: Byte)
    requires sep !in a
    ensures Split(a + [sep] + b, sep) == [a] + Split(b, sep)
  {
    if a == [] {
      assert a + [sep] + b == [sep] + b;
      assert ([sep] + b)[1..] == b;
    } else {
      var s := a + [sep] + b;
      assert s[0] == a[0];
      assert s[1..] == a[1..] + [sep] + b;
      SplitAtSeparator(a[1..], b, sep);
      assert [a[0]] + a[1..] == a;
    }
  }

  /** Splitting a join of separator-free tokens gives back the tokens. */
  lemma {:induction false} SplitJoin(ts: seq<Bytes>, sep: Byte)
    requires |ts| >= 1
    requires forall k :: 0 <= k < |ts| ==> sep !in ts[k]
    ensures Split(Join(ts, sep), sep) == ts
  {
    if |ts| == 1 {
      SplitWithoutSeparator(ts[0], sep);
    } else {
      SplitJoin(ts[1..], sep);
      SplitAtSeparator(ts[0], Join(ts[1..], sep), sep);
      assert [ts[0]] + ts[1..] == ts;
    }
  }

  /** Index of the first `sep` in `s`. */
  function IndexOf(s: Bytes, sep: Byte): (i: nat)
    requires sep in s
    ensures i < |s| && s[i] == sep && sep !in s[..i]
  {
    if s[0] == sep then 0 else 1 + IndexOf(s[1..], sep)
  }

  /** The first occurrence is unique. */
  lemma IndexOfUnique(s: Bytes, sep: Byte, i: nat)
    requires i < |s| && s[i] == sep && sep !in s[..i]
    ensures IndexOf(s, sep) == i
  {
    var k := IndexOf(s, sep);
    assert forall j :: 0 <= j < i ==> s[..i][j] == s[j];
    assert forall j :: 0 <= j < k ==> s[..k][j] == s[j];
  }

  /** `s.split(sep, 1)` unpacked into two names: `None` where Python's
      unpacking raises because `sep` does not occur. */
  function SplitOnce(s: Bytes, sep: Byte): (r: Option<(Bytes, Bytes)>)
    ensures r.None? <==> sep !in s
  {
    if sep !in s then None
    else
      var i := IndexOf(s, sep);
      Some((s[..i], s[i + 1..]))
  }

  /** The two parts, joined again at the separator, give back the input;
      the first part holds no separator. */
  lemma SplitOnceJoins(s: Bytes, sep: Byte)
    requires sep in s
    ensures var (a, b) := SplitOnce(s, sep).value; a + [sep] + b == s && sep !in a
  {
    var i := IndexOf(s, sep);
    assert s[..i] + [sep] + s[i + 1..] == s;
  }

  /** `s.rstrip(bytes([c]))`: removes EVERY trailing `c`. */
  function RStrip(s: Bytes, c: Byte): (r: Bytes)
    ensures r <= s
    ensures r == [] || r[|r| - 1] != c
    ensures forall k :: |r| <= k < |s| ==> s[k] == c
  {
    if |s| > 0 && s[|s| - 1] == c then RStrip(s[..|s| - 1], c) else s
  }

  /** `s.replace(b".\n", b"\n")`: every ".\n" (they cannot overlap) becomes "\n". */
  function ReplaceDotNewline(s: Bytes): Bytes {
    if |s| < 2 then s
    else if s[0] == Dot && s[1] == Newline then [Newline] + ReplaceDotNewline(s[2..])
    else [s[0]] + ReplaceDotNewline(s[1..])
  }

  /** On a line whose only newline is its last byte (as `readlines` yields
      them), the replacement removes at most ONE dot: the one right before
      the newline. Contrast `RStrip`, which removes them all. */
  lemma {:induction false} ReplaceDotNewlineOnLine(s: Bytes)
    requires forall k :: 0 <= k < |s| - 1 ==> s[k] != Newline
    ensures ReplaceDotNewline(s) ==
      if |s| >= 2 && s[|s| - 2] == Dot && s[|s| - 1] == Newline then s[..|s| - 2] + [Newline] else s
  {
    if |s| >= 2 {
      if s[0] == Dot && s[1] == Newline {
        assert |s| == 2;
        assert s[2..] == [];
      } else {
        ReplaceDotNewlineOnLine(s[1..]);
        assert [s[0]] + s[1..] == s;
        if |s| >= 3 && s[|s| - 2] == Dot && s[|s| - 1] == Newline {
          assert [s[0]] + s[1..][..|s| - 3] == s[..|s| - 2];
        }
      }
    }
  }
}
