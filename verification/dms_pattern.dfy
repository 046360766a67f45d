/** The degree/minute/second text pattern of the raw GPS path,
    `/(\d+)°?\s*(\d+)'?\s*(\d+(?:\.\d+)?)?"?/`, with the semantics of
    `String.prototype.match` without the global flag: the leftmost position
    where the pattern matches, greedy quantifiers, and backtracking only
    when the rest of the pattern fails. The matcher scans by position. */
module DmsPattern {
  import opened Wrappers
  import opened JsStrings

  const DegreeSign: char := '\U{00B0}'

  /** The capture groups of a match; the third one may not take part. */
  datatype DmsGroups = DmsGroups(degrees: string, minutes: string, seconds: Option<string>)

  /** The shape every match has: groups 1 and 2 are non-empty digit runs,
      group 3 is digits with an optional '.' and digits. */
  predicate WellFormed(g: DmsGroups) {
    && g.degrees != [] && AllDigits(g.degrees)
    && g.minutes != [] && AllDigits(g.minutes)
    && (g.seconds.Some? ==> IsSecondsText(g.seconds.value))
  }

  predicate IsSecondsText(t: string) {
    var i := DigitRun(t);
    0 < i && (i == |t| || (t[i] == '.' && i + 1 < |t| && DigitRun(t[i + 1..]) == |t| - i - 1))
  }

  /** How many digits `\d+` takes from position `i`. */
  function DigitsFrom(s: string, i: nat): (n: nat)
    requires i <= |s|
    ensures i + n <= |s|
    decreases |s| - i
  {
    if i < |s| && IsDigit(s[i]) then 1 + DigitsFrom(s, i + 1) else 0
  }

  /** Every character `DigitsFrom` takes is a digit, and the next one is
      not. */
  lemma {:induction false} DigitsFromDigits(s: string, i: nat)
    requires i <= |s|
    ensures forall k :: i <= k < i + DigitsFrom(s, i) ==> IsDigit(s[k])
    ensures i + DigitsFrom(s, i) < |s| ==> !IsDigit(s[i + DigitsFrom(s, i)])
    decreases |s| - i
  {
    if i < |s| && IsDigit(s[i]) {
      DigitsFromDigits(s, i + 1);
    }
  }

  /** Inside a digit run, the run from a later position is what is left
      of it. */
  lemma {:induction false} DigitsFromLater(s: string, i: nat, j: nat)
    requires i <= |s| && i <= j <= i + DigitsFrom(s, i)
    ensures DigitsFrom(s, j) == DigitsFrom(s, i) - (j - i)
    decreases j - i
  {
    if i < j {
      DigitsFromLater(s, i + 1, j);
    }
  }

  /** How many characters `\s*` takes from position `i`. */
  function SpacesFrom(s: string, i: nat): (n: nat)
    requires i <= |s|
    ensures i + n <= |s|
    decreases |s| - i
  {
    if i < |s| && IsWhitespace(s[i]) then 1 + SpacesFrom(s, i + 1) else 0
  }

  /** A run of `n` digits at `i`, ended by a non-digit or the end of the
      text, is what `DigitsFrom` takes. */
  lemma {:induction false} DigitsFromRun(s: string, i: nat, n: nat)
    requires i + n <= |s|
    requires forall k :: i <= k < i + n ==> IsDigit(s[k])
    requires i + n == |s| || !IsDigit(s[i + n])
    ensures DigitsFrom(s, i) == n
    decreases n
  {
    if n > 0 {
      DigitsFromRun(s, i + 1, n - 1);
    }
  }

  /** The digit run of a slice is the digit run at its start, cut at its
      end. */
  lemma {:induction false} DigitRunOfSlice(s: string, a: nat, b: nat)
    requires a <= b <= |s|
    ensures DigitRun(s[a..b]) == if DigitsFrom(s, a) < b - a then DigitsFrom(s, a) else b - a
    decreases b - a
  {
    if a < b && IsDigit(s[a]) {
      assert s[a..b][1..] == s[a + 1..b];
      DigitRunOfSlice(s, a + 1, b);
    }
  }

  /** The end of `\d+(?:\.\d+)?` from position `k` (`k` itself when no
      digit is there). */
  function SecondsEnd(s: string, k: nat): (e: nat)
    requires k <= |s|
    ensures k <= e <= |s|
    ensures e > k <==> DigitsFrom(s, k) > 0
  {
    var d := DigitsFrom(s, k);
    if d == 0 then k
    else if k + d + 1 < |s| && s[k + d] == '.' && IsDigit(s[k + d + 1]) then
      k + d + 1 + DigitsFrom(s, k + d + 1)
    else k + d
  }

  /** What `SecondsEnd` spans is seconds text. */
  lemma SecondsTextAt(s: string, k: nat)
    requires k <= |s| && SecondsEnd(s, k) > k
    ensures IsSecondsText(s[k..SecondsEnd(s, k)])
  {
    var e := SecondsEnd(s, k);
    var d := DigitsFrom(s, k);
    var t := s[k..e];
    DigitRunOfSlice(s, k, e);
    if e == k + d {
      assert DigitRun(t) == |t|;
    } else {
      var f := DigitsFrom(s, k + d + 1);
      assert e == k + d + 1 + f && f > 0;
      assert DigitRun(t) == d;
      assert t[d] == '.';
      assert t[d + 1..] == s[k + d + 1..e];
      DigitRunOfSlice(s, k + d + 1, e);
      assert DigitRun(t[d + 1..]) == f;
    }
  }

  /** `'?\s*` from position `i`: where group 3 may start. */
  function SecondsStart(s: string, i: nat): (k: nat)
    requires i <= |s|
    ensures i <= k <= |s|
  {
    var j := if i < |s| && s[i] == '\'' then i + 1 else i;
    j + SpacesFrom(s, j)
  }

  /** `'?\s*(\d+(?:\.\d+)?)?` from position `i`: the text of group 3, if
      it takes part. */
  function SecondsGroup(s: string, i: nat): Option<string>
    requires i <= |s|
  {
    var k := SecondsStart(s, i);
    var e := SecondsEnd(s, k);
    if e == k then None else Some(s[k..e])
  }

  /** Group 3, when it takes part, is seconds text. */
  lemma SecondsGroupIsSecondsText(s: string, i: nat)
    requires i <= |s|
    ensures SecondsGroup(s, i).Some? ==> IsSecondsText(SecondsGroup(s, i).value)
  {
    var k := SecondsStart(s, i);
    if SecondsEnd(s, k) > k {
      SecondsTextAt(s, k);
    }
  }

  /** `°?\s*` from position `q`: where group 2 may start. */
  function MinutesStart(s: string, q: nat): (r: nat)
    requires q <= |s|
    ensures q <= r <= |s|
  {
    var q1 := if q < |s| && s[q] == DegreeSign then q + 1 else q;
    q1 + SpacesFrom(s, q1)
  }

  /** The groups of a match whose group 1 is the digits `s[p..q]` and
      group 2 the digits `s[a..b]`; group 3 is looked for after `b`. */
  function Captured(s: string, p: nat, q: nat, a: nat, b: nat): DmsGroups
    requires p < q <= a < b <= |s|
  {
    DmsGroups(s[p..q], s[a..b], SecondsGroup(s, b))
  }

  /** Groups cut from digit runs have the shape of a match. */
  lemma CapturedWellFormed(s: string, p: nat, q: nat, a: nat, b: nat)
    requires p < q <= a < b <= |s|
    requires q - p <= DigitsFrom(s, p) && b - a <= DigitsFrom(s, a)
    ensures WellFormed(Captured(s, p, q, a, b))
  {
    DigitsFromDigits(s, p);
    DigitsFromDigits(s, a);
    assert forall i :: 0 <= i < q - p ==> s[p..q][i] == s[p + i];
    assert forall i :: 0 <= i < b - a ==> s[a..b][i] == s[a + i];
    SecondsGroupIsSecondsText(s, b);
  }

  /** The attempt to match at position `p`. Group 1 first takes the whole
      digit run; if no digit follows after an optional degree sign and
      whitespace, group 1 gives back its last digit to group 2. */
  function MatchAt(s: string, p: nat): Option<DmsGroups>
    requires p < |s|
  {
    if !IsDigit(s[p]) then None
    else MatchAfterDegrees(s, p, p + DigitsFrom(s, p))
  }

  /** The rest of the attempt at `p` once group 1 has taken `s[p..q]`,
      the whole digit run at `p`. */
  function MatchAfterDegrees(s: string, p: nat, q: nat): Option<DmsGroups>
    requires p < q <= |s|
  {
    var q2 := MinutesStart(s, q);
    var m := DigitsFrom(s, q2);
    if m > 0 then Some(Captured(s, p, q, q2, q2 + m))
    else if q - p >= 2 then Some(Captured(s, p, q - 1, q - 1, q))
    else None
  }

  /** A match attempt succeeds only at a digit, and then with groups of
      the shape of a match. */
  lemma MatchAtWellFormed(s: string, p: nat)
    requires p < |s|
    ensures MatchAt(s, p).Some? ==> IsDigit(s[p]) && WellFormed(MatchAt(s, p).value)
  {
    if IsDigit(s[p]) {
      MatchAtDigit(s, p, p + DigitsFrom(s, p));
      AfterDegreesWellFormed(s, p, p + DigitsFrom(s, p));
    }
  }

  /** At a digit, the attempt continues after the whole digit run. */
  lemma MatchAtDigit(s: string, p: nat, q: nat)
    requires p < |s| && IsDigit(s[p]) && q == p + DigitsFrom(s, p)
    ensures p < q <= |s|
    ensures MatchAt(s, p) == MatchAfterDegrees(s, p, q)
  {
  }

  lemma AfterDegreesWellFormed(s: string, p: nat, q: nat)
    requires p < q <= |s| && q - p == DigitsFrom(s, p)
    ensures MatchAfterDegrees(s, p, q).Some? ==> WellFormed(MatchAfterDegrees(s, p, q).value)
  {
    var q2 := MinutesStart(s, q);
    var m := DigitsFrom(s, q2);
    if m > 0 {
      CapturedWellFormed(s, p, q, q2, q2 + m);
    } else if q - p >= 2 {
      DigitsFromLater(s, p, q - 1);
      CapturedWellFormed(s, p, q - 1, q - 1, q);
    }
  }

  /** The first match at or after position `p`. */
  function MatchFrom(s: string, p: nat): Option<DmsGroups>
    requires p <= |s|
    decreases |s| - p
  {
    if p == |s| then None
    else
      match MatchAt(s, p)
      case Some(g) => Some(g)
      case None => MatchFrom(s, p + 1)
  }

  /** Every match found from `p` on has the shape of a match. */
  lemma {:induction false} MatchFromWellFormed(s: string, p: nat)
    requires p <= |s|
    ensures MatchFrom(s, p).Some? ==> WellFormed(MatchFrom(s, p).value)
    decreases |s| - p
  {
    if p < |s| {
      MatchAtWellFormed(s, p);
      MatchFromWellFormed(s, p + 1);
    }
  }

  /** `s.match(pattern)`: `None` is a `null` result. */
  function Match(s: string): Option<DmsGroups> {
    MatchFrom(s, 0)
  }

  /** Every match of the pattern has the shape of a match. */
  lemma MatchWellFormed(s: string)
    ensures Match(s).Some? ==> WellFormed(Match(s).value)
  {
    MatchFromWellFormed(s, 0);
  }

  /** Text without any ASCII digit never matches. */
  lemma {:induction false} NoDigitNoMatch(s: string, p: nat)
    requires p <= |s|
    requires forall i :: p <= i < |s| ==> !IsDigit(s[i])
    ensures MatchFrom(s, p).None?
    decreases |s| - p
  {
    if p < |s| {
      NoDigitNoMatch(s, p + 1);
    }
  }

  /** Groups 1 and 2 separated by a degree sign and no whitespace. */
  lemma MatchAtWithDegreeSign(s: string, p: nat, q: nat, m: nat)
    requires p < q < |s| && IsDigit(s[p]) && DigitsFrom(s, p) == q - p
    requires s[q] == DegreeSign && SpacesFrom(s, q + 1) == 0
    requires DigitsFrom(s, q + 1) == m > 0
    ensures MatchAt(s, p) == Some(Captured(s, p, q, q + 1, q + 1 + m))
  {
    MatchAtDigit(s, p, q);
    MinutesAfterDegreeSign(s, q);
    AfterDegreesWithMinutes(s, p, q, q + 1, m);
  }

  lemma MinutesAfterDegreeSign(s: string, q: nat)
    requires q < |s| && s[q] == DegreeSign && SpacesFrom(s, q + 1) == 0
    ensures MinutesStart(s, q) == q + 1
  {
  }

  lemma AfterDegreesWithMinutes(s: string, p: nat, q: nat, q2: nat, m: nat)
    requires p < q <= q2 <= |s| && MinutesStart(s, q) == q2 && DigitsFrom(s, q2) == m > 0
    ensures MatchAfterDegrees(s, p, q) == Some(Captured(s, p, q, q2, q2 + m))
  {
  }

  /** After minutes, `'S"` yields `S` as the seconds group. */
  lemma SecondsOfCanonical(s: string, i: nat, S: string)
    requires i + 1 + |S| < |s| && S != [] && AllDigits(S)
    requires s[i] == '\'' && s[i + 1..i + 1 + |S|] == S && s[i + 1 + |S|] == '"'
    ensures SecondsGroup(s, i) == Some(S)
  {
    var k := i + 1;
    assert forall j :: k <= j < k + |S| ==> s[j] == S[j - k];
    assert !IsWhitespace(s[k]);
    assert SecondsStart(s, i) == k;
    DigitsFromRun(s, k, |S|);
    assert SecondsEnd(s, k) == k + |S|;
  }

  /** Where the parts of `D°M'S"` sit in the text. */
  lemma CanonicalLayout(D: string, M: string, S: string)
    requires D != [] && AllDigits(D) && M != [] && AllDigits(M) && S != [] && AllDigits(S)
    ensures var text := D + [DegreeSign] + M + "'" + S + "\"";
      var q := |D|;
      var e := q + 1 + |M|;
      && e + 1 + |S| < |text|
      && text[0..q] == D && text[q] == DegreeSign && text[q + 1..e] == M
      && text[e] == '\'' && text[e + 1..e + 1 + |S|] == S && text[e + 1 + |S|] == '"'
      && (forall k :: 0 <= k < q ==> text[k] == D[k])
      && (forall k :: q + 1 <= k < e ==> text[k] == M[k - q - 1])
  {
  }

  /** Digits, a degree sign, digits, and `'S"`: the attempt at position 0
      takes the two digit runs and `S` as its groups. */
  lemma MatchesAtStart(s: string, q: nat, e: nat, S: string)
    requires 0 < q && q + 1 < e && e + 1 + |S| < |s| && S != [] && AllDigits(S)
    requires forall k :: 0 <= k < q ==> IsDigit(s[k])
    requires forall k :: q + 1 <= k < e ==> IsDigit(s[k])
    requires s[q] == DegreeSign && s[e] == '\''
    requires s[e + 1..e + 1 + |S|] == S && s[e + 1 + |S|] == '"'
    ensures Match(s) == Some(DmsGroups(s[0..q], s[q + 1..e], Some(S)))
  {
    DigitsFromRun(s, 0, q);
    DigitsFromRun(s, q + 1, e - q - 1);
    assert !IsWhitespace(s[q + 1]);
    SecondsOfCanonical(s, e, S);
    MatchAtWithDegreeSign(s, 0, q, e - q - 1);
    assert Match(s) == MatchAt(s, 0);
    assert Captured(s, 0, q, q + 1, e) == DmsGroups(s[0..q], s[q + 1..e], Some(S));
  }

  /** `D°M'S"` for non-empty digit strings is matched at its start with
      the three strings as the groups. */
  lemma {:induction false} DigitTextMatches(D: string, M: string, S: string)
    requires D != [] && AllDigits(D) && M != [] && AllDigits(M) && S != [] && AllDigits(S)
    ensures Match(D + [DegreeSign] + M + "'" + S + "\"") == Some(DmsGroups(D, M, Some(S)))
  {
    var text := D + [DegreeSign] + M + "'" + S + "\"";
    var q := |D|;
    var e := q + 1 + |M|;
    assert e + 1 + |S| < |text| && text[0..q] == D && text[q + 1..e] == M
      && (forall k :: 0 <= k < q ==> IsDigit(text[k]))
      && (forall k :: q + 1 <= k < e ==> IsDigit(text[k]))
      && text[q] == DegreeSign && text[e] == '\''
      && text[e + 1..e + 1 + |S|] == S && text[e + 1 + |S|] == '"' by {
      CanonicalLayout(D, M, S);
    }
    MatchesAtStart(text, q, e, S);
  }

  /** The canonical rendering `D°M'S"` of three whole numbers is matched
      with all three groups, which are exactly the three digit strings. */
  lemma CanonicalDmsMatches(d: nat, m: nat, sec: nat)
    ensures var text := NatToString(d) + [DegreeSign] + NatToString(m) + "'" + NatToString(sec) + "\"";
      Match(text) == Some(DmsGroups(NatToString(d), NatToString(m), Some(NatToString(sec))))
  {
    DigitTextMatches(NatToString(d), NatToString(m), NatToString(sec));
  }
  /** Digits, a space, and digits to the end: the attempt at position 0
      takes the two digit runs, and group 3 does not take part. */
  lemma MatchesWithoutSeconds(s: string, q: nat)
    requires 0 < q && q + 1 < |s| && s[q] == ' '
    requires forall k :: 0 <= k < q ==> IsDigit(s[k])
    requires forall k :: q + 1 <= k < |s| ==> IsDigit(s[k])
    ensures Match(s) == Some(DmsGroups(s[0..q], s[q + 1..], None))
  {
    DigitsFromRun(s, 0, q);
    DigitsFromRun(s, q + 1, |s| - q - 1);
    assert MinutesStart(s, q) == q + 1 by {
      assert s[q] != DegreeSign && IsWhitespace(s[q]);
      assert !IsWhitespace(s[q + 1]);
      assert SpacesFrom(s, q + 1) == 0;
    }
    MatchAtDigit(s, 0, q);
    AfterDegreesWithMinutes(s, 0, q, q + 1, |s| - q - 1);
    assert SecondsGroup(s, |s|) == None;
    assert s[q + 1..|s|] == s[q + 1..];
    assert Captured(s, 0, q, q + 1, |s|) == DmsGroups(s[0..q], s[q + 1..], None);
    assert Match(s) == MatchAt(s, 0);
  }

  /** Degrees and minutes separated by whitespace, with nothing after: the
      pattern matches, but group 3 does not take part. */
  lemma DegreesMinutesTextMatches(D: string, M: string)
    requires D != [] && AllDigits(D) && M != [] && AllDigits(M)
    ensures Match(D + " " + M) == Some(DmsGroups(D, M, None))
  {
    var s := D + " " + M;
    var q := |D|;
    assert s[0..q] == D && s[q + 1..] == M && s[q] == ' ';
    assert forall k :: 0 <= k < q ==> IsDigit(s[k]) by {
      assert forall k :: 0 <= k < q ==> s[k] == D[k];
    }
    assert forall k :: q + 1 <= k < |s| ==> IsDigit(s[k]) by {
      assert forall k :: q + 1 <= k < |s| ==> s[k] == M[k - q - 1];
    }
    MatchesWithoutSeconds(s, q);
  }

  /** Whole degrees and minutes written `D M` match without seconds. */
  lemma WholeDegreesMinutesMatch(d: nat, m: nat)
    ensures Match(NatToString(d) + " " + NatToString(m)) == Some(DmsGroups(NatToString(d), NatToString(m), None))
  {
    DegreesMinutesTextMatches(NatToString(d), NatToString(m));
  }
}
