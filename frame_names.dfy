/** Entry names of the frame archive: the pattern `/(\d+)-frame-(\d+)\.png$/`
    that recovers (video index, frame number) from a name, the comparator that
    orders the recovered keys, and the service's naming convention. */
module FrameNames {

  /** The key the reassembly sorts by: the submitted video's position and the
      frame's ordinal within that video. */
  datatype FrameKey = FrameKey(index: int, frameNumber: int)

  /** The key of a name that does not match the pattern: both parts are -1. */
  const UNORDERED: FrameKey := FrameKey(-1, -1)

  const FRAME_INFIX: string := "-frame-"
  const PNG_SUFFIX: string := ".png"

  /** `\d` of a JavaScript regular expression without the `u` flag: ASCII digits only. */
  predicate IsDigit(c: char) {
    '0' <= c <= '9'
  }

  predicate IsDigits(s: string) {
    forall i :: 0 <= i < |s| ==> IsDigit(s[i])
  }

  predicate EndsInDigit(s: string) {
    |s| > 0 && IsDigit(s[|s| - 1])
  }

  predicate EndsWith(s: string, suffix: string) {
    |suffix| <= |s| && s[|s| - |suffix|..] == suffix
  }

  /** The value of a decimal digit; the parse applies it to digits only, and
      any other character is given 0. */
  function DigitValue(c: char): nat {
    if IsDigit(c) then c as int - '0' as int else 0
  }

  /** `parseInt(d, 10)` of a non-empty digit string, as an unbounded natural. */
  function DecimalValue(d: string): nat {
    if d == [] then 0 else 10 * DecimalValue(d[..|d| - 1]) + DigitValue(d[|d| - 1])
  }

  function DigitChar(n: nat): (c: char)
    requires n < 10
    ensures IsDigit(c) && DigitValue(c) == n
  {
    ('0' as int + n) as char
  }

  /** The unpadded decimal rendering of `n`. */
  function DecimalDigits(n: nat): (d: string)
    ensures d != [] && IsDigits(d)
  {
    if n < 10 then [DigitChar(n)] else DecimalDigits(n / 10) + [DigitChar(n % 10)]
  }

  /** Reading back the decimal rendering of a number gives the number. */
  lemma {:induction false} DecimalRoundTrip(n: nat)
    ensures DecimalValue(DecimalDigits(n)) == n
  {
    if n >= 10 {
      var d := DecimalDigits(n / 10);
      var c := DigitChar(n % 10);
      assert (d + [c])[..|d + [c]| - 1] == d;
      DecimalRoundTrip(n / 10);
    }
  }

  /** Zero padding does not change the value a digit group is read as. */
  lemma {:induction false} LeadingZeroIgnored(d: string)
    requires IsDigits(d)
    ensures IsDigits(['0'] + d) && DecimalValue(['0'] + d) == DecimalValue(d)
  {
    var z := ['0'] + d;
    if d != [] {
      assert z[..|z| - 1] == ['0'] + d[..|d| - 1];
      LeadingZeroIgnored(d[..|d| - 1]);
    }
  }

  /** The length of the longest run of digits that ends `s`. */
  function TrailingDigitCount(s: string): (n: nat)
    ensures n <= |s|
  {
    if s == [] || !IsDigit(s[|s| - 1]) then 0 else TrailingDigitCount(s[..|s| - 1]) + 1
  }

  /** The trailing run is all digits, and whatever precedes it is not a digit. */
  lemma {:induction false} TrailingDigits(s: string)
    ensures forall i :: |s| - TrailingDigitCount(s) <= i < |s| ==> IsDigit(s[i])
    ensures TrailingDigitCount(s) < |s| ==> !IsDigit(s[|s| - TrailingDigitCount(s) - 1])
  {
    if s != [] && IsDigit(s[|s| - 1]) {
      var s' := s[..|s| - 1];
      TrailingDigits(s');
      forall i | |s| - TrailingDigitCount(s) <= i < |s| - 1 ensures IsDigit(s[i]) {
        assert s[i] == s'[i];
      }
      if TrailingDigitCount(s) < |s| {
        assert s[|s| - TrailingDigitCount(s) - 1] == s'[|s'| - TrailingDigitCount(s') - 1];
      }
    }
  }

  /** Appending a run of digits lengthens the trailing run by exactly that many. */
  lemma {:induction false} TrailingDigitsOf(a: string, b: string)
    requires IsDigits(b)
    ensures TrailingDigitCount(a + b) == TrailingDigitCount(a) + |b|
  {
    if b == [] {
      assert a + b == a;
    } else {
      var b' := b[..|b| - 1];
      assert (a + b)[..|a + b| - 1] == a + b';
      TrailingDigitsOf(a, b');
    }
  }

  /** `fileName.match(/(\d+)-frame-(\d+)\.png$/)` followed by the two
      `parseInt` calls, with (-1, -1) for a name that does not match. */
  function ParseEntryName(name: string): (k: FrameKey)
    ensures k == UNORDERED || (k.index >= 0 && k.frameNumber >= 0)
  {
    if EndsWith(name, PNG_SUFFIX) then ParseStem(name[..|name| - |PNG_SUFFIX|]) else UNORDERED
  }

  /** The name without `.png`: the second group is its trailing digits, and
      `-frame-` must come right before them. */
  function ParseStem(t: string): FrameKey {
    var n2 := TrailingDigitCount(t);
    if n2 > 0 && EndsWith(t[..|t| - n2], FRAME_INFIX) then
      ParseGroups(t[..|t| - n2 - |FRAME_INFIX|], t[|t| - n2..])
    else UNORDERED
  }

  /** What precedes `-frame-`: the first group is its trailing digits, taken
      whole, since `\d+` extends as far left as the digits go. */
  function ParseGroups(v: string, g2: string): FrameKey {
    var n1 := TrailingDigitCount(v);
    if n1 > 0 then FrameKey(DecimalValue(v[|v| - n1..]), DecimalValue(g2)) else UNORDERED
  }

  /** The pattern matches `name` at the position where `pre` ends: `d1` and
      `d2` are the texts of its two capture groups. */
  ghost predicate FrameNameMatch(name: string, pre: string, d1: string, d2: string) {
    && name == pre + d1 + FRAME_INFIX + d2 + PNG_SUFFIX
    && d1 != [] && IsDigits(d1)
    && d2 != [] && IsDigits(d2)
  }

  /** Every match of the pattern has the same second group, and the match whose
      prefix does not end in a digit starts leftmost: it is the one the
      regular-expression engine reports. */
  lemma {:induction false} LeftmostMatch(name: string, pre: string, d1: string, d2: string, pre': string, d1': string, d2': string)
    requires FrameNameMatch(name, pre, d1, d2) && !EndsInDigit(pre)
    requires FrameNameMatch(name, pre', d1', d2')
    ensures d2' == d2
    ensures |pre| <= |pre'|
    ensures pre + d1 == pre' + d1'
  {
    var t := name[..|name| - 4];
    assert t == pre + d1 + FRAME_INFIX + d2;
    assert t == pre' + d1' + FRAME_INFIX + d2';
    TrailingDigitsOf(pre + d1 + FRAME_INFIX, d2);
    TrailingDigitsOf(pre' + d1' + FRAME_INFIX, d2');
    assert |d2| == |d2'|;
    assert d2 == t[|t| - |d2|..] == d2';
    var v := t[..|t| - |d2| - 7];
    assert v == pre + d1;
    assert v == pre' + d1';
    TrailingDigitsOf(pre, d1);
    TrailingDigitsOf(pre', d1');
  }

  /** A name that matches the pattern is never given the sentinel key, and when
      the match is the leftmost one its groups are what the parse returns. */
  lemma {:induction false} ParseMatch(name: string, pre: string, d1: string, d2: string)
    requires FrameNameMatch(name, pre, d1, d2)
    ensures ParseEntryName(name) != UNORDERED
    ensures !EndsInDigit(pre) ==> ParseEntryName(name) == FrameKey(DecimalValue(d1), DecimalValue(d2))
  {
    var v := pre + d1;
    var u := v + FRAME_INFIX;
    var t := u + d2;
    NameReads(name, t);
    InfixEnds(v);
    TrailingDigitsOf(u, d2);
    Cut(v, FRAME_INFIX);
    StemReads(t, u, d2);
    TrailingDigitsOf(pre, d1);
    if !EndsInDigit(pre) {
      GroupsRead(v, pre, d1, d2);
    }
  }

  lemma {:induction false} Cut(x: string, y: string)
    ensures (x + y)[..|x|] == x && (x + y)[|x|..] == y
  {
  }

  /** The three layers of the parse, each read off a name cut into its parts. */
  lemma {:induction false} NameReads(name: string, t: string)
    requires name == t + PNG_SUFFIX
    ensures ParseEntryName(name) == ParseStem(t)
  {
    Cut(t, PNG_SUFFIX);
  }

  lemma {:induction false} StemReads(t: string, u: string, d2: string)
    requires t == u + d2 && TrailingDigitCount(t) == |d2| > 0 && EndsWith(u, FRAME_INFIX)
    ensures ParseStem(t) == ParseGroups(u[..|u| - |FRAME_INFIX|], d2)
  {
    Cut(u, d2);
    assert t[..|u| - |FRAME_INFIX|] == u[..|u| - |FRAME_INFIX|];
  }

  lemma {:induction false} GroupsRead(v: string, pre: string, d1: string, d2: string)
    requires v == pre + d1 && TrailingDigitCount(v) == |d1| > 0
    ensures ParseGroups(v, d2) == FrameKey(DecimalValue(d1), DecimalValue(d2))
  {
    Cut(pre, d1);
  }

  /** Text ending in `-frame-` ends in that infix and in no digit. */
  lemma {:induction false} InfixEnds(x: string)
    ensures EndsWith(x + FRAME_INFIX, FRAME_INFIX)
    ensures TrailingDigitCount(x + FRAME_INFIX) == 0
  {
    Cut(x, FRAME_INFIX);
    assert (x + FRAME_INFIX)[|x| + 6] == '-';
  }

  /** The pattern matches `name` leftmost with groups that read as `k`. */
  ghost predicate LeftmostMatchReads(name: string, pre: string, d1: string, d2: string, k: FrameKey) {
    && FrameNameMatch(name, pre, d1, d2)
    && !EndsInDigit(pre)
    && k == FrameKey(DecimalValue(d1), DecimalValue(d2))
  }

  lemma {:induction false} MatchWitness(name: string, p: string, g1: string, g2: string, k: FrameKey)
    requires LeftmostMatchReads(name, p, g1, g2, k)
    ensures exists pre, d1, d2 :: LeftmostMatchReads(name, pre, d1, d2, k)
  {
  }

  /** A name that parses to a key holds a leftmost match whose groups read as that key. */
  lemma {:induction false} ParseFound(name: string)
    requires ParseEntryName(name) != UNORDERED
    ensures exists pre, d1, d2 :: LeftmostMatchReads(name, pre, d1, d2, ParseEntryName(name))
  {
    NameParses(name);
    var t := name[..|name| - |PNG_SUFFIX|];
    var pre, d1, d2 := StemParts(t);
    assert name == t + PNG_SUFFIX;
    assert FrameNameMatch(name, pre, d1, d2);
    MatchWitness(name, pre, d1, d2, ParseEntryName(name));
  }

  /** A name that parses ends in `.png`, and what precedes it parses. */
  lemma {:induction false} NameParses(name: string)
    requires ParseEntryName(name) != UNORDERED
    ensures EndsWith(name, PNG_SUFFIX)
    ensures ParseEntryName(name) == ParseStem(name[..|name| - |PNG_SUFFIX|])
  {
  }

  lemma {:induction false} StemParses(t: string)
    requires ParseStem(t) != UNORDERED
    ensures TrailingDigitCount(t) > 0
    ensures EndsWith(t[..|t| - TrailingDigitCount(t)], FRAME_INFIX)
    ensures ParseStem(t) == ParseGroups(t[..|t| - TrailingDigitCount(t) - |FRAME_INFIX|], t[|t| - TrailingDigitCount(t)..])
  {
  }

  /** A stem that parses is cut into the text before the first group, the two
      groups and the infix between them. */
  lemma {:induction false} StemParts(t: string) returns (pre: string, d1: string, d2: string)
    requires ParseStem(t) != UNORDERED
    ensures t == pre + d1 + FRAME_INFIX + d2
    ensures d1 != [] && IsDigits(d1)
    ensures d2 != [] && IsDigits(d2)
    ensures !EndsInDigit(pre)
    ensures ParseStem(t) == FrameKey(DecimalValue(d1), DecimalValue(d2))
  {
    StemParses(t);
    var n2 := TrailingDigitCount(t);
    var u := t[..|t| - n2];
    d2 := t[|t| - n2..];
    TrailingDigits(t);
    var v := u[..|u| - |FRAME_INFIX|];
    assert t[..|t| - n2 - |FRAME_INFIX|] == v;
    assert ParseGroups(v, d2) != UNORDERED;
    pre, d1 := GroupParts(v, d2);
    assert u == v + FRAME_INFIX;
    assert t == u + d2;
  }

  /** Text before `-frame-` that parses ends in its first group. */
  lemma {:induction false} GroupParts(v: string, g2: string) returns (pre: string, d1: string)
    requires ParseGroups(v, g2) != UNORDERED
    ensures v == pre + d1
    ensures d1 != [] && IsDigits(d1)
    ensures !EndsInDigit(pre)
    ensures ParseGroups(v, g2) == FrameKey(DecimalValue(d1), DecimalValue(g2))
  {
    var n1 := TrailingDigitCount(v);
    TrailingDigits(v);
    pre, d1 := v[..|v| - n1], v[|v| - n1..];
    assert v == pre + d1;
    if pre != [] {
      assert pre[|pre| - 1] == v[|v| - n1 - 1];
    }
  }

  /** The sentinel key is given exactly to the names the pattern does not match. */
  lemma {:induction false} ParseUnorderedIff(name: string)
    ensures ParseEntryName(name) == UNORDERED <==> !exists pre, d1, d2 :: FrameNameMatch(name, pre, d1, d2)
  {
    if exists pre, d1, d2 :: FrameNameMatch(name, pre, d1, d2) {
      var pre, d1, d2 :| FrameNameMatch(name, pre, d1, d2);
      ParseMatch(name, pre, d1, d2);
    } else if ParseEntryName(name) != UNORDERED {
      ParseFound(name);
    }
  }

  /** The name the extraction service gives frame `frameNumber` of video `index`. */
  function FrameName(index: nat, frameNumber: nat): string {
    DecimalDigits(index) + FRAME_INFIX + DecimalDigits(frameNumber) + PNG_SUFFIX
  }

  /** Names that follow the service's convention, under any directory or prefix
      that does not end in a digit, parse back to the key they were made from. */
  lemma {:induction false} FrameNameRoundTrip(dir: string, index: nat, frameNumber: nat)
    requires !EndsInDigit(dir)
    ensures ParseEntryName(dir + FrameName(index, frameNumber)) == FrameKey(index, frameNumber)
  {
    var d1, d2 := DecimalDigits(index), DecimalDigits(frameNumber);
    assert dir + FrameName(index, frameNumber) == dir + d1 + FRAME_INFIX + d2 + PNG_SUFFIX;
    ParseMatch(dir + FrameName(index, frameNumber), dir, d1, d2);
    DecimalRoundTrip(index);
    DecimalRoundTrip(frameNumber);
  }

  /** The lexicographic order on keys: by index, then by frame number. */
  predicate KeyLess(a: FrameKey, b: FrameKey) {
    a.index < b.index || (a.index == b.index && a.frameNumber < b.frameNumber)
  }

  predicate KeyLeq(a: FrameKey, b: FrameKey) {
    !KeyLess(b, a)
  }

  /** The sort comparator: the frame-number difference when the indices are
      equal, the index difference otherwise. Its sign is the lexicographic order,
      so it is a consistent comparator. */
  function Compare(a: FrameKey, b: FrameKey): (c: int)
    ensures c < 0 <==> KeyLess(a, b)
    ensures c > 0 <==> KeyLess(b, a)
    ensures c == 0 <==> a == b
  {
    if a.index == b.index then a.frameNumber - b.frameNumber else a.index - b.index
  }

  /** The sentinel key sorts before the key of every name that parses. */
  lemma {:induction false} UnorderedIsLeast(name: string)
    ensures KeyLeq(UNORDERED, ParseEntryName(name))
    ensures ParseEntryName(name) != UNORDERED ==> KeyLess(UNORDERED, ParseEntryName(name))
  {
  }
}
