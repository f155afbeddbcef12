/**
 * Vault secret references ("symlinks"): recognising a field value that points at
 * another secret, and decoding it with the fixed pattern
 *
 *     vault://(?P<Path>.*)#(?P<Secret>\w+)(@(?P<Version>\d+)?)?
 *
 * The pattern is modelled as a hand-written scan that follows Go's regexp
 * semantics for this one pattern: the match is unanchored and leftmost, `.` does
 * not match a newline, and `.*`, `\w+` and the optional version group are greedy
 * (leftmost-first, as a backtracking matcher would choose).
 */
module Symlink {

  /** A dynamically typed field value (Go's `any` in a decoded secret). `Other`
      stands for every kind the resolver never looks into (nested maps, lists, ...). */
  datatype Value = Str(s: string) | Num(n: int) | Bool(b: bool) | Nil | Other

  /** Every reference starts with this prefix. */
  const Prefix: string := "vault://"

  /** Go's strings.HasPrefix. */
  predicate HasPrefix(s: string, p: string)
  {
    |p| <= |s| && s[..|p|] == p
  }

  /** isSymlink: a type test (only strings) followed by a prefix test. */
  predicate IsSymlink(v: Value)
  {
    v.Str? && HasPrefix(v.s, Prefix)
  }

  lemma SymlinkIsPrefixedString(v: Value)
    ensures IsSymlink(v) <==> exists rest :: v == Str(Prefix + rest)
  {
    if IsSymlink(v) {
      assert v == Str(Prefix + v.s[|Prefix|..]);
    }
    if exists rest :: v == Str(Prefix + rest) {
      var rest :| v == Str(Prefix + rest);
      assert v.s[..|Prefix|] == Prefix;
    }
  }

  lemma IsSymlinkExamples()
    ensures IsSymlink(Str("vault://test"))
    ensures !IsSymlink(Str("test"))
    ensures !IsSymlink(Nil) && !IsSymlink(Num(0)) && !IsSymlink(Bool(true)) && !IsSymlink(Other)
  {
    SymlinkIsPrefixedString(Str("vault://test"));
    assert Str("vault://test") == Str(Prefix + "test");
  }

  // ---------------------------------------------------------------------------
  // Character classes and positions (Go's \w and \d are ASCII-only)

  predicate IsWordChar(c: char)
  {
    ('0' <= c <= '9') || ('A' <= c <= 'Z') || ('a' <= c <= 'z') || c == '_'
  }

  predicate IsDigit(c: char)
  {
    '0' <= c <= '9'
  }

  predicate IsWord(w: string)
  {
    forall i :: 0 <= i < |w| ==> IsWordChar(w[i])
  }

  predicate IsDigits(d: string)
  {
    forall i :: 0 <= i < |d| ==> IsDigit(d[i])
  }

  predicate NoNewline(s: string)
  {
    forall i :: 0 <= i < |s| ==> s[i] != '\n'
  }

  /** The prefix `vault://` occurs at index i. */
  predicate PrefixAt(s: string, i: nat)
  {
    i + |Prefix| <= |s| && s[i..i + |Prefix|] == Prefix
  }

  /** A `#` at k followed by a word character: where `#(?P<Secret>\w+)` can match. */
  predicate SeparatorAt(s: string, k: int)
  {
    0 <= k && k + 1 < |s| && s[k] == '#' && IsWordChar(s[k + 1])
  }

  // ---------------------------------------------------------------------------
  // The scan

  /** The first newline at or after i (or |s|): `.*` cannot run past it. */
  function LineEnd(s: string, i: nat): (n: nat)
    requires i <= |s|
    ensures i <= n <= |s|
    ensures n < |s| ==> s[n] == '\n'
    ensures forall j :: i <= j < n ==> s[j] != '\n'
    decreases |s| - i
  {
    if i == |s| || s[i] == '\n' then i else LineEnd(s, i + 1)
  }

  /** The last separator k with lo <= k and k + 1 < hi, or -1 if there is none. */
  function LastSeparator(s: string, lo: nat, hi: nat): (k: int)
    requires lo <= hi <= |s|
    ensures k == -1 || (lo <= k && k + 1 < hi && SeparatorAt(s, k))
    ensures forall j :: lo <= j && k < j && j + 1 < hi ==> !SeparatorAt(s, j)
    decreases hi - lo
  {
    if hi < lo + 2 then -1
    else if SeparatorAt(s, hi - 2) then hi - 2
    else LastSeparator(s, lo, hi - 1)
  }

  /** The end of the longest run of word characters starting at j. */
  function WordEnd(s: string, j: nat): (e: nat)
    requires j <= |s|
    ensures j <= e <= |s|
    ensures IsWord(s[j..e])
    ensures e == |s| || !IsWordChar(s[e])
    decreases |s| - j
  {
    if j == |s| || !IsWordChar(s[j]) then j
    else
      var e := WordEnd(s, j + 1);
      assert s[j..e] == [s[j]] + s[j + 1..e];
      e
  }

  /** The end of the longest run of digits starting at j. */
  function DigitEnd(s: string, j: nat): (e: nat)
    requires j <= |s|
    ensures j <= e <= |s|
    ensures IsDigits(s[j..e])
    ensures e == |s| || !IsDigit(s[e])
    decreases |s| - j
  {
    if j == |s| || !IsDigit(s[j]) then j
    else
      var e := DigitEnd(s, j + 1);
      assert s[j..e] == [s[j]] + s[j + 1..e];
      e
  }

  /** The scan finds a match starting at i: the prefix, then a separator later on the same line. */
  predicate MatchesAt(s: string, i: nat)
  {
    PrefixAt(s, i) && LastSeparator(s, i + |Prefix|, LineEnd(s, i + |Prefix|)) >= 0
  }

  /** The leftmost index at or after `from` where the pattern matches, or -1. */
  function FirstMatch(s: string, from: nat): (i: int)
    requires from <= |s|
    ensures i == -1 || (from <= i && MatchesAt(s, i))
    ensures forall j :: from <= j && (i == -1 || j < i) ==> !MatchesAt(s, j)
    decreases |s| - from
  {
    if from == |s| then -1
    else if MatchesAt(s, from) then from
    else FirstMatch(s, from + 1)
  }

  /** The three named captures; a missing capture reads as "" (a lookup in a Go map). */
  datatype Parts = Parts(path: string, secret: string, version: string)

  /** The version capture for a secret name ending at e: the digits after an `@`, if one follows. */
  function VersionAfter(s: string, e: nat): (version: string)
    requires e <= |s|
  {
    if e < |s| && s[e] == '@' then s[e + 1..DigitEnd(s, e + 1)] else ""
  }

  /** The captures of the match that starts at i: the path up to the last separator
      on the line, the word characters after its `#`, and the version after them. */
  function CapturesAt(s: string, i: nat): (r: Parts)
    requires MatchesAt(s, i)
    ensures r.secret != "" && IsWord(r.secret) && IsDigits(r.version)
  {
    var lo := i + |Prefix|;
    var k := LastSeparator(s, lo, LineEnd(s, lo));
    var e := WordEnd(s, k + 1);
    Parts(s[lo..k], s[k + 1..e], VersionAfter(s, e))
  }

  /** extractSymlinkParts: the captures of the leftmost match, or all "" when nothing matches. */
  function Extract(s: string): (r: Parts)
    ensures IsWord(r.secret) && IsDigits(r.version)
    ensures r.secret == "" ==> r == Parts("", "", "")
  {
    var i := FirstMatch(s, 0);
    if i == -1 then Parts("", "", "") else CapturesAt(s, i)
  }

  // ---------------------------------------------------------------------------
  // Reference definition: what a leftmost-first match of the pattern is

  /** Some match of the pattern starts at i: the prefix, then a separator with no newline in between. */
  ghost predicate CanMatchAt(s: string, i: nat)
  {
    PrefixAt(s, i) &&
    exists k :: i + |Prefix| <= k && SeparatorAt(s, k) && NoNewline(s[i + |Prefix|..k])
  }

  ghost predicate Matches(s: string)
  {
    exists i: nat :: CanMatchAt(s, i)
  }

  /** `(?P<Path>.*)#` captured path, starting at lo: no newline in it, a `#` after it,
      and (`.*` being greedy) every later separator beyond the end of the line. */
  ghost predicate PathCaptured(s: string, lo: nat, path: string)
  {
    var k := lo + |path|;
    k < |s| && s[lo..k] == path && NoNewline(path) && s[k] == '#' &&
    forall j :: k < j && SeparatorAt(s, j) ==> '\n' in s[k..j]
  }

  /** `(?P<Secret>\w+)` captured secret, right after the `#` at k, as long as it can be. */
  ghost predicate SecretCaptured(s: string, k: nat, secret: string)
  {
    var e := k + 1 + |secret|;
    e <= |s| && s[k + 1..e] == secret && secret != "" && IsWord(secret) &&
    (e == |s| || !IsWordChar(s[e]))
  }

  /** `(@(?P<Version>\d+)?)?` after the secret name ending at e: taken whenever an `@`
      follows, with every digit after it; otherwise the version is "". */
  ghost predicate VersionCaptured(s: string, e: nat, version: string)
  {
    if e < |s| && s[e] == '@' then
      var d := e + 1 + |version|;
      d <= |s| && s[e + 1..d] == version && IsDigits(version) && (d == |s| || !IsDigit(s[d]))
    else version == ""
  }

  /** r holds the captures of the match starting at i in which `.*`, `\w+`, the
      optional `@` group and `\d+` each take as much as they can. */
  ghost predicate GreedyMatchAt(s: string, i: nat, r: Parts)
  {
    var k := i + |Prefix| + |r.path|;
    PrefixAt(s, i) && PathCaptured(s, i + |Prefix|, r.path) &&
    SecretCaptured(s, k, r.secret) && VersionCaptured(s, k + 1 + |r.secret|, r.version)
  }

  /** The match FindStringSubmatch reports: the greedy match at the leftmost possible start. */
  ghost predicate LeftmostMatch(s: string, i: nat, r: Parts)
  {
    GreedyMatchAt(s, i, r) && forall j :: 0 <= j < i ==> !CanMatchAt(s, j)
  }

  /** No part of a line holds a newline. */
  lemma NoNewlineWithinLine(s: string, lo: nat, a: nat, b: nat)
    requires lo <= |s| && lo <= a <= b <= LineEnd(s, lo)
    ensures NoNewline(s[a..b])
  {
    forall t | 0 <= t < b - a
      ensures s[a..b][t] != '\n'
    {
      assert s[a..b][t] == s[a + t];
    }
  }

  /** A separator on the line that starts at lo ends before the line does. */
  lemma SeparatorWithinLine(s: string, lo: nat, k: nat)
    requires lo <= k && SeparatorAt(s, k) && NoNewline(s[lo..k])
    ensures k + 1 < LineEnd(s, lo)
  {
    var seg := s[lo..k];
    assert forall t :: lo <= t < k ==> s[t] == seg[t - lo];
  }

  lemma MatchesAtIff(s: string, i: nat)
    ensures MatchesAt(s, i) <==> CanMatchAt(s, i)
  {
    if MatchesAt(s, i) {
      var lo := i + |Prefix|;
      var k := LastSeparator(s, lo, LineEnd(s, lo));
      NoNewlineWithinLine(s, lo, lo, k);
    }
    if CanMatchAt(s, i) {
      var k :| i + |Prefix| <= k && SeparatorAt(s, k) && NoNewline(s[i + |Prefix|..k]);
      SeparatorWithinLine(s, i + |Prefix|, k);
    }
  }

  /** The scan's path ends at a `#` that `.*` would choose. */
  lemma LastSeparatorCaptures(s: string, lo: nat)
    requires lo <= |s| && LastSeparator(s, lo, LineEnd(s, lo)) >= 0
    ensures PathCaptured(s, lo, s[lo..LastSeparator(s, lo, LineEnd(s, lo))])
  {
    var n := LineEnd(s, lo);
    var k := LastSeparator(s, lo, n);
    NoNewlineWithinLine(s, lo, lo, k);
    forall j | k < j && SeparatorAt(s, j)
      ensures '\n' in s[k..j]
    {
      assert n < j;
      assert s[k..j][n - k] == s[n];
    }
  }

  /** A captured path ends at the separator the scan chooses. */
  lemma PathCapturedIsLastSeparator(s: string, lo: nat, path: string)
    requires PathCaptured(s, lo, path) && SeparatorAt(s, lo + |path|)
    ensures lo <= |s| && LastSeparator(s, lo, LineEnd(s, lo)) == lo + |path|
  {
    var k := lo + |path|;
    SeparatorWithinLine(s, lo, k);
    var n := LineEnd(s, lo);
    var q := LastSeparator(s, lo, n);
    assert k <= q;
    NoNewlineWithinLine(s, lo, k, q);
  }

  /** A run of word characters from j that cannot be extended ends where WordEnd says. */
  lemma {:induction false} WordEndUnique(s: string, j: nat, e: nat)
    requires j <= e <= |s| && IsWord(s[j..e]) && (e == |s| || !IsWordChar(s[e]))
    ensures WordEnd(s, j) == e
    decreases e - j
  {
    if j < e {
      assert s[j] == s[j..e][0];
      assert s[j + 1..e] == s[j..e][1..];
      WordEndUnique(s, j + 1, e);
    }
  }

  /** A run of digits from j that cannot be extended ends where DigitEnd says. */
  lemma {:induction false} DigitEndUnique(s: string, j: nat, e: nat)
    requires j <= e <= |s| && IsDigits(s[j..e]) && (e == |s| || !IsDigit(s[e]))
    ensures DigitEnd(s, j) == e
    decreases e - j
  {
    if j < e {
      assert s[j] == s[j..e][0];
      assert s[j + 1..e] == s[j..e][1..];
      DigitEndUnique(s, j + 1, e);
    }
  }

  lemma WordEndCaptures(s: string, k: nat)
    requires SeparatorAt(s, k)
    ensures SecretCaptured(s, k, s[k + 1..WordEnd(s, k + 1)])
  {
    var e := WordEnd(s, k + 1);
    assert e != k + 1;
  }

  lemma SecretCapturedIsWordEnd(s: string, k: nat, secret: string)
    requires SecretCaptured(s, k, secret)
    ensures k + 1 <= |s| && WordEnd(s, k + 1) == k + 1 + |secret|
  {
    WordEndUnique(s, k + 1, k + 1 + |secret|);
  }

  lemma VersionCapturedIff(s: string, e: nat, version: string)
    requires e <= |s|
    ensures VersionCaptured(s, e, version) <==> version == VersionAfter(s, e)
  {
    if e < |s| && s[e] == '@' && VersionCaptured(s, e, version) {
      DigitEndUnique(s, e + 1, e + 1 + |version|);
    }
  }

  /** The captures at a match start are those of the greedy match there. */
  lemma CapturesAreGreedy(s: string, i: nat)
    requires MatchesAt(s, i)
    ensures GreedyMatchAt(s, i, CapturesAt(s, i))
  {
    var lo := i + |Prefix|;
    var k := LastSeparator(s, lo, LineEnd(s, lo));
    var e := WordEnd(s, k + 1);
    var r := CapturesAt(s, i);
    CapturesAtPositions(s, i, k, e);
    LastSeparatorCaptures(s, lo);
    assert r.path == s[lo..k] && lo + |r.path| == k;
    WordEndCaptures(s, k);
    assert r.secret == s[k + 1..e] && k + 1 + |r.secret| == e;
    VersionCapturedIff(s, e, r.version);
    GreedyAtPositions(s, i, r, k, e);
  }

  /** The conditions of a greedy match, given where the separator and the end of the secret name lie. */
  lemma GreedyAtPositions(s: string, i: nat, r: Parts, k: nat, e: nat)
    requires PrefixAt(s, i) && PathCaptured(s, i + |Prefix|, r.path) && k == i + |Prefix| + |r.path|
    requires SecretCaptured(s, k, r.secret) && e == k + 1 + |r.secret|
    requires VersionCaptured(s, e, r.version)
    ensures GreedyMatchAt(s, i, r)
  {
  }

  /** A greedy match determines its captures: they are the scan's. */
  lemma GreedyMatchIsCaptures(s: string, i: nat, r: Parts)
    requires GreedyMatchAt(s, i, r)
    ensures MatchesAt(s, i) && CapturesAt(s, i) == r
  {
    var lo := i + |Prefix|;
    var k := lo + |r.path|;
    var e := k + 1 + |r.secret|;
    GreedyMatchIsMatch(s, i, r);
    SecretCapturedIsWordEnd(s, k, r.secret);
    VersionCapturedIff(s, e, r.version);
    CapturesAtPositions(s, i, k, e);
  }

  /** At the start of a greedy match the scan finds a match, with the separator where
      the captured path ends. */
  lemma GreedyMatchIsMatch(s: string, i: nat, r: Parts)
    requires GreedyMatchAt(s, i, r)
    ensures MatchesAt(s, i)
    ensures LastSeparator(s, i + |Prefix|, LineEnd(s, i + |Prefix|)) == i + |Prefix| + |r.path|
  {
    SeparatorAfterPath(s, i + |Prefix|, r.path, r.secret);
    PathCapturedIsLastSeparator(s, i + |Prefix|, r.path);
  }

  /** A captured secret name starts with a word character, so the `#` that ends the
      path is a separator. */
  lemma SeparatorAfterPath(s: string, lo: nat, path: string, secret: string)
    requires PathCaptured(s, lo, path) && SecretCaptured(s, lo + |path|, secret)
    ensures SeparatorAt(s, lo + |path|)
  {
    var k := lo + |path|;
    assert s[k + 1] == s[k + 1..k + 1 + |secret|][0];
  }

  /** The captures at i, given where the scan puts the separator and the end of the secret name. */
  lemma CapturesAtPositions(s: string, i: nat, k: nat, e: nat)
    requires MatchesAt(s, i)
    requires k == LastSeparator(s, i + |Prefix|, LineEnd(s, i + |Prefix|)) && e == WordEnd(s, k + 1)
    ensures CapturesAt(s, i) == Parts(s[i + |Prefix|..k], s[k + 1..e], VersionAfter(s, e))
  {
  }

  /** The pattern matches somewhere exactly when Extract finds a secret name. */
  lemma ExtractFindsMatch(s: string)
    ensures Extract(s).secret != "" <==> Matches(s)
  {
    var i := FirstMatch(s, 0);
    if Matches(s) {
      var j: nat :| CanMatchAt(s, j);
      MatchesAtIff(s, j);
    }
    if i != -1 {
      MatchesAtIff(s, i);
    }
  }

  lemma ExtractIsGreedyMatch(s: string)
    requires Extract(s).secret != ""
    ensures FirstMatch(s, 0) >= 0 && GreedyMatchAt(s, FirstMatch(s, 0), Extract(s))
  {
    CapturesAreGreedy(s, FirstMatch(s, 0));
  }

  /** Extract reports the leftmost-first match. */
  lemma ExtractIsLeftmostMatch(s: string)
    requires Extract(s).secret != ""
    ensures FirstMatch(s, 0) >= 0 && LeftmostMatch(s, FirstMatch(s, 0), Extract(s))
  {
    ExtractIsGreedyMatch(s);
    var i := FirstMatch(s, 0);
    forall j | 0 <= j < i
      ensures !CanMatchAt(s, j)
    {
      MatchesAtIff(s, j);
    }
  }

  /** A leftmost-first match determines the captures: it is the one Extract reports. */
  lemma LeftmostMatchIsExtract(s: string, i: nat, r: Parts)
    requires LeftmostMatch(s, i, r)
    ensures Extract(s) == r
  {
    GreedyMatchIsCaptures(s, i, r);
    forall j | 0 <= j < i
      ensures !MatchesAt(s, j)
    {
      MatchesAtIff(s, j);
    }
    assert FirstMatch(s, 0) == i;
  }

  // ---------------------------------------------------------------------------
  // Consequences

  /** With the prefix in front and no newline, the match starts at index 0, so the
      path is the substring of the input from index 8 up to the separator. */
  lemma PathFollowsPrefix(s: string)
    requires HasPrefix(s, Prefix) && NoNewline(s) && Extract(s).secret != ""
    ensures FirstMatch(s, 0) == 0
    ensures var r := Extract(s);
      |Prefix| + |r.path| < |s| &&
      s[|Prefix|..|Prefix| + |r.path|] == r.path && s[|Prefix| + |r.path|] == '#'
  {
    var i := FirstMatch(s, 0);
    MatchesAtIff(s, i);
    var k :| i + |Prefix| <= k && SeparatorAt(s, k) && NoNewline(s[i + |Prefix|..k]);
    assert NoNewline(s[|Prefix|..k]) by {
      forall t | 0 <= t < k - |Prefix| ensures s[|Prefix|..k][t] != '\n' {
        assert s[|Prefix|..k][t] == s[|Prefix| + t];
      }
    }
    assert s[0..|Prefix|] == s[..|Prefix|];
    assert CanMatchAt(s, 0);
    MatchesAtIff(s, 0);
    ExtractIsLeftmostMatch(s);
  }

  /** Without a `#` followed by a word character after the prefix, nothing matches. */
  lemma NoSeparatorNoMatch(s: string)
    requires forall k :: |Prefix| <= k ==> !SeparatorAt(s, k)
    ensures Extract(s) == Parts("", "", "")
  {
    ExtractFindsMatch(s);
  }

  /** "vault://test" counts as a reference, yet the pattern does not match it. */
  lemma ExtractPrefixOnly()
    ensures Extract("vault://test") == Parts("", "", "")
  {
    var s := "vault://test";
    assert s[|Prefix|..] == "test";
    forall k | |Prefix| <= k
      ensures !SeparatorAt(s, k)
    {
      if k + 1 < |s| {
        assert s[k] == s[|Prefix|..][k - |Prefix|];
      }
    }
    NoSeparatorNoMatch(s);
  }

  /** Decoding an encoded reference: the tail is "" or `@` followed by digits. */
  lemma ExtractEncoded(path: string, secret: string, tail: string)
    requires NoNewline(path) && secret != "" && IsWord(secret)
    requires tail == "" || (tail[0] == '@' && IsDigits(tail[1..]))
    ensures Extract(Prefix + path + "#" + secret + tail)
         == Parts(path, secret, if tail == "" then "" else tail[1..])
  {
    var s := Prefix + path + "#" + secret + tail;
    EncodedPieces(path, secret, tail);
    LayoutIsGreedyMatch(s, path, secret, tail);
    LeftmostMatchIsExtract(s, 0, Parts(path, secret, if tail == "" then "" else tail[1..]));
  }

  /** Where the pieces of `vault://` + path + `#` + secret + tail lie. */
  lemma EncodedPieces(path: string, secret: string, tail: string)
    ensures var s := Prefix + path + "#" + secret + tail;
      var k := |Prefix| + |path|;
      |s| == k + 1 + |secret| + |tail| && s[..|Prefix|] == Prefix && s[|Prefix|..k] == path &&
      s[k] == '#' && s[k + 1..k + 1 + |secret|] == secret && s[k + 1 + |secret|..] == tail
  {
    var s := Prefix + path + "#" + secret + tail;
    var k := |Prefix| + |path|;
    assert s[..|Prefix|] == Prefix;
    assert s[|Prefix|..k] == path;
    assert s[k + 1..k + 1 + |secret|] == secret;
    assert s[k + 1 + |secret|..] == tail;
  }

  /** A string laid out as the prefix, a path, `#`, a secret name and an optional
      version is matched greedily at its start, with those captures. */
  lemma LayoutIsGreedyMatch(s: string, path: string, secret: string, tail: string)
    requires NoNewline(path) && secret != "" && IsWord(secret)
    requires tail == "" || (tail[0] == '@' && IsDigits(tail[1..]))
    requires var k := |Prefix| + |path|;
      |s| == k + 1 + |secret| + |tail| && s[..|Prefix|] == Prefix && s[|Prefix|..k] == path &&
      s[k] == '#' && s[k + 1..k + 1 + |secret|] == secret && s[k + 1 + |secret|..] == tail
    ensures GreedyMatchAt(s, 0, Parts(path, secret, if tail == "" then "" else tail[1..]))
  {
    var k := |Prefix| + |path|;
    var e := k + 1 + |secret|;
    var r := Parts(path, secret, if tail == "" then "" else tail[1..]);
    assert s[0..|Prefix|] == s[..|Prefix|];
    NoHashAfter(s, k, secret, tail);
    assert PathCaptured(s, |Prefix|, r.path);
    if e < |s| {
      assert s[e] == s[e..][0];
    }
    assert SecretCaptured(s, k, r.secret);
    if tail != "" {
      assert s[e + 1..] == s[e..][1..];
      assert s[e + 1..e + 1 + |tail[1..]|] == tail[1..];
    }
    assert VersionCaptured(s, e, r.version);
    GreedyAtPositions(s, 0, r, k, e);
  }

  /** After the `#` at k, the secret name and the optional version hold no `#`. */
  lemma NoHashAfter(s: string, k: nat, secret: string, tail: string)
    requires IsWord(secret)
    requires tail == "" || (tail[0] == '@' && IsDigits(tail[1..]))
    requires |s| == k + 1 + |secret| + |tail|
    requires s[k + 1..k + 1 + |secret|] == secret && s[k + 1 + |secret|..] == tail
    ensures forall j :: k < j < |s| ==> s[j] != '#'
  {
    var e := k + 1 + |secret|;
    forall j | k < j < |s|
      ensures s[j] != '#'
    {
      if j < e {
        assert s[j] == s[k + 1..e][j - k - 1];
      } else if j == e {
        assert s[j] == s[e..][0];
      } else {
        assert s[j] == s[e..][j - e] == tail[1..][j - e - 1];
      }
    }
  }

  /** Round trip without a version: `vault://` + path + `#` + secret. */
  lemma ExtractWithoutVersion(path: string, secret: string)
    requires NoNewline(path) && secret != "" && IsWord(secret)
    ensures Extract(Prefix + path + "#" + secret) == Parts(path, secret, "")
  {
    ExtractEncoded(path, secret, "");
    assert Prefix + path + "#" + secret + "" == Prefix + path + "#" + secret;
  }

  /** Round trip with a version: `vault://` + path + `#` + secret + `@` + digits
      (an `@` with no digits after it gives the version ""). */
  lemma ExtractWithVersion(path: string, secret: string, version: string)
    requires NoNewline(path) && secret != "" && IsWord(secret) && IsDigits(version)
    ensures Extract(Prefix + path + "#" + secret + "@" + version) == Parts(path, secret, version)
  {
    ExtractEncoded(path, secret, "@" + version);
    assert ("@" + version)[1..] == version;
    assert Prefix + path + "#" + secret + ("@" + version) == Prefix + path + "#" + secret + "@" + version;
  }

  /** The decoding examples of the unit tests, and the last-`#` and bare-`@` cases. */
  lemma ExtractPathAndSecret()
    ensures Extract("vault://test#KEY") == Parts("test", "KEY", "")
  {
    var s := "vault://test#KEY";
    assert s[..|Prefix|] == Prefix && s[|Prefix|..12] == "test" && s[13..16] == "KEY" && s[16..] == "";
    LayoutIsGreedyMatch(s, "test", "KEY", "");
    LeftmostMatchIsExtract(s, 0, Parts("test", "KEY", ""));
  }

  lemma ExtractPathSecretAndVersion()
    ensures Extract("vault://test#KEY@21") == Parts("test", "KEY", "21")
  {
    var s := "vault://test#KEY@21";
    assert s[..|Prefix|] == Prefix && s[|Prefix|..12] == "test" && s[13..16] == "KEY" && s[16..] == "@21";
    assert "@21"[1..] == "21";
    LayoutIsGreedyMatch(s, "test", "KEY", "@21");
    LeftmostMatchIsExtract(s, 0, Parts("test", "KEY", "21"));
  }

  lemma ExtractLastSeparatorWins()
    ensures Extract("vault://a#b#KEY") == Parts("a#b", "KEY", "")
  {
    var s := "vault://a#b#KEY";
    assert s[..|Prefix|] == Prefix && s[|Prefix|..11] == "a#b" && s[12..15] == "KEY" && s[15..] == "";
    LayoutIsGreedyMatch(s, "a#b", "KEY", "");
    LeftmostMatchIsExtract(s, 0, Parts("a#b", "KEY", ""));
  }

  lemma ExtractBareAt()
    ensures Extract("vault://test#KEY@") == Parts("test", "KEY", "")
  {
    var s := "vault://test#KEY@";
    assert s[..|Prefix|] == Prefix && s[|Prefix|..12] == "test" && s[13..16] == "KEY" && s[16..] == "@";
    assert "@"[1..] == "";
    LayoutIsGreedyMatch(s, "test", "KEY", "@");
    LeftmostMatchIsExtract(s, 0, Parts("test", "KEY", ""));
  }
}
