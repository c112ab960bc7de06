/** The email mask `email.replace(/(.{2})(.*)(@.*)/, '$1***$3')` used by the
    account search and the user directory, with JavaScript's regular-expression
    semantics: no `g` flag, so only the leftmost match is replaced; `.` matches
    one UTF-16 code unit that is not a line terminator; both `.*` are greedy. */
module EmailMask {
  import opened Wrappers
  import opened Types

  /** The characters that `.` does not match when the `s` flag is absent. */
  predicate IsLineTerminator(c: char) {
    c == '\n' || c == '\r' || c == '\U{2028}' || c == '\U{2029}'
  }

  /** The pattern matches s[p..e] with group 1 = s[p..p+2], group 2 = s[p+2..a]
      and group 3 = s[a..e]: one line's worth of characters, '@' at a. */
  ghost predicate PatternMatches(s: Text, p: int, a: int, e: int) {
    && 0 <= p && p + 2 <= a < e <= |s|
    && s[a] == '@'
    && forall k :: p <= k < e ==> !IsLineTerminator(s[k])
  }

  /** The end of the line through position i: the first line terminator at or after i, or |s|. */
  function LineEnd(s: Text, i: nat): (e: nat)
    requires i <= |s|
    ensures i <= e <= |s|
    ensures forall k :: i <= k < e ==> !IsLineTerminator(s[k])
    ensures e == |s| || IsLineTerminator(s[e])
    decreases |s| - i
  {
    if i == |s| || IsLineTerminator(s[i]) then i else LineEnd(s, i + 1)
  }

  /** The position of the last '@' in s[lo..hi], if any. */
  function LastAt(s: Text, lo: nat, hi: nat): (r: Option<nat>)
    requires lo <= hi <= |s|
    ensures r.None? <==> forall k :: lo <= k < hi ==> s[k] != '@'
    ensures r.Some? ==> lo <= r.value < hi && s[r.value] == '@'
    ensures r.Some? ==> forall k :: r.value < k < hi ==> s[k] != '@'
    decreases hi - lo
  {
    if lo == hi then None
    else if s[hi - 1] == '@' then Some(hi - 1)
    else LastAt(s, lo, hi - 1)
  }

  /** A match that starts at `start`, whose group 3 runs from `at` to `end`. */
  datatype Match = Match(start: nat, at: nat, end: nat)

  /** The match the engine finds when it tries position p. Backtracking tries the
      longest group 2 first and group 3 takes the rest of the line, so the chosen
      split is the one with the last possible '@' and the furthest possible end. */
  function MatchAt(s: Text, p: nat): (r: Option<Match>)
    requires p <= |s|
    ensures r.None? <==> forall a, e :: !PatternMatches(s, p, a, e)
    ensures r.Some? ==> r.value.start == p && PatternMatches(s, p, r.value.at, r.value.end)
    ensures r.Some? ==> forall a, e :: PatternMatches(s, p, a, e) ==> a <= r.value.at && e <= r.value.end
    ensures r.Some? ==> r.value.end == |s| || IsLineTerminator(s[r.value.end])
    ensures r.Some? ==> forall k :: r.value.at < k < r.value.end ==> s[k] != '@'
  {
    var e := LineEnd(s, p);
    assert forall a, e' :: PatternMatches(s, p, a, e') ==> e' <= e by {
      forall a, e' | PatternMatches(s, p, a, e') ensures e' <= e {
      }
    }
    if p + 2 <= e then
      match LastAt(s, p + 2, e)
      case Some(a) =>
        assert PatternMatches(s, p, a, e);
        Some(Match(p, a, e))
      case None => None
    else None
  }

  /** The leftmost match at or after position p. */
  function FirstMatch(s: Text, p: nat): (r: Option<Match>)
    requires p <= |s|
    ensures r.None? ==> forall q :: p <= q <= |s| ==> MatchAt(s, q).None?
    ensures r.Some? ==> p <= r.value.start <= |s| && MatchAt(s, r.value.start) == r
    ensures r.Some? ==> forall q :: p <= q < r.value.start ==> MatchAt(s, q).None?
    decreases |s| - p
  {
    if MatchAt(s, p).Some? then MatchAt(s, p)
    else if p == |s| then None
    else FirstMatch(s, p + 1)
  }

  /** The masked email: the leftmost match is replaced by group 1, "***" and group 3. */
  function MaskEmail(s: Text): (r: Text)
  {
    match FirstMatch(s, 0)
    case None => s
    case Some(m) => s[..m.start] + s[m.start..m.start + 2] + "***" + s[m.at..m.end] + s[m.end..]
  }

  lemma MatchAtIs(s: Text, p: nat, a: nat, e: nat)
    requires p <= |s| && PatternMatches(s, p, a, e)
    requires forall a', e' :: PatternMatches(s, p, a', e') ==> a' <= a && e' <= e
    ensures MatchAt(s, p) == Some(Match(p, a, e))
  {
    var m := MatchAt(s, p).value;
    assert m.at <= a && m.end <= e;
  }

  lemma FirstMatchIs(s: Text, p: nat, m: Match)
    requires p <= m.start <= |s| && MatchAt(s, m.start) == Some(m)
    requires forall q :: p <= q < m.start ==> MatchAt(s, q).None?
    ensures FirstMatch(s, p) == Some(m)
  {
  }

  /** An address on one line with an '@' at index 2 or later keeps its first two
      characters, then "***", then everything from its last '@' on. */
  lemma MaskSingleLine(s: Text, k: nat)
    requires forall i :: 0 <= i < |s| ==> !IsLineTerminator(s[i])
    requires 2 <= k < |s| && s[k] == '@'
    requires forall i :: k < i < |s| ==> s[i] != '@'
    ensures MaskEmail(s) == s[..2] + "***" + s[k..]
  {
    MatchAtIs(s, 0, k, |s|);
    FirstMatchIs(s, 0, Match(0, k, |s|));
    assert s[..0] + s[0..2] == s[..2];
    assert s[k..|s|] + s[|s|..] == s[k..];
  }

  /** An address with no '@' at index 2 or later is left unchanged. */
  lemma MaskUnmatched(s: Text)
    requires forall i :: 2 <= i < |s| ==> s[i] != '@'
    ensures MaskEmail(s) == s
  {
    forall q | 0 <= q <= |s| ensures MatchAt(s, q).None? {
      forall a, e ensures !PatternMatches(s, q, a, e) {
      }
    }
  }

  /** The documented example: john.doe@example.com is shown as jo***@example.com. */
  lemma MaskExample()
    ensures MaskEmail("john.doe@example.com") == "jo***@example.com"
  {
    var s: Text := "john.doe@example.com";
    ExampleShape(s);
    MaskSingleLine(s, 8);
  }

  /** The facts about the example address that MaskSingleLine needs, stated
      on a variable bound to it so that the solver unfolds the literal once. */
  lemma ExampleShape(s: Text)
    requires s == "john.doe@example.com"
    ensures forall i :: 0 <= i < |s| ==> !IsLineTerminator(s[i])
    ensures |s| == 20 && s[8] == '@' && forall i :: 8 < i < |s| ==> s[i] != '@'
    ensures s[..2] + "***" + s[8..] == "jo***@example.com"
  {
  }

  /** The replacement keeps everything before group 3's '@' up to the end of
      group 1, writes "***", and keeps everything from that '@' on. */
  lemma MaskedForm(s: Text, m: Match)
    requires FirstMatch(s, 0) == Some(m)
    ensures MaskEmail(s) == s[..m.start + 2] + "***" + s[m.at..]
  {
    assert s[..m.start] + s[m.start..m.start + 2] == s[..m.start + 2];
    assert s[m.at..m.end] + s[m.end..] == s[m.at..];
  }

  /** Masking an already masked address changes nothing. */
  lemma MaskIdempotent(s: Text)
    ensures MaskEmail(MaskEmail(s)) == MaskEmail(s)
  {
    var r := FirstMatch(s, 0);
    if r.Some? {
      RemaskMatched(s, r.value);
    }
  }

  lemma RemaskMatched(s: Text, m: Match)
    requires FirstMatch(s, 0) == Some(m)
    ensures MaskEmail(MaskEmail(s)) == MaskEmail(s)
  {
    var p, a, e := m.start, m.at, m.end;
    MaskedForm(s, m);
    var t := s[..p + 2] + "***" + s[a..];
    var e2 := e - a + p + 5;
    forall q | 0 <= q < p ensures MatchAt(t, q).None? {
      EarlierStaysUnmatched(s, t, p, a, e, q);
    }
    SplicedMatch(s, t, p, a, e);
    FirstMatchIs(t, 0, Match(p, p + 5, e2));
    MaskedForm(t, Match(p, p + 5, e2));
    StarsInPlace(t, p);
  }

  lemma StarsInPlace(t: Text, p: nat)
    requires p + 5 <= |t| && t[p + 2..p + 5] == "***"
    ensures t[..p + 2] + "***" + t[p + 5..] == t
  {
    assert t == t[..p + 2] + t[p + 2..p + 5] + t[p + 5..];
  }

  lemma LineEndIs(s: Text, i: nat, e: nat)
    requires i <= e <= |s|
    requires forall k :: i <= k < e ==> !IsLineTerminator(s[k])
    requires e == |s| || IsLineTerminator(s[e])
    ensures LineEnd(s, i) == e
  {
  }

  /** A position before the first match of s cannot start a match once the
      masked text is spliced in at that first match. */
  lemma EarlierStaysUnmatched(s: Text, t: Text, p: nat, a: nat, e: nat, q: nat)
    requires p <= |s| && MatchAt(s, p) == Some(Match(p, a, e))
    requires q < p && MatchAt(s, q).None?
    requires t == s[..p + 2] + "***" + s[a..]
    ensures MatchAt(t, q).None?
  {
    var le := LineEnd(s, q);
    if le >= p + 2 {
      assert false;
    }
    assert forall k :: 0 <= k <= le ==> t[k] == s[k];
    LineEndIs(t, q, le);
  }

  /** At the first match of s, the masked text matches again, with group 3
      starting right after the "***". */
  lemma SplicedMatch(s: Text, t: Text, p: nat, a: nat, e: nat)
    requires p <= |s| && MatchAt(s, p) == Some(Match(p, a, e))
    requires t == s[..p + 2] + "***" + s[a..]
    ensures MatchAt(t, p) == Some(Match(p, p + 5, e - a + p + 5))
  {
    var e2 := e - a + p + 5;
    assert |t| == p + 5 + |s| - a;
    assert forall i :: 0 <= i < p + 2 ==> t[i] == s[i];
    assert forall i :: p + 5 <= i < |t| ==> t[i] == s[i - p - 5 + a];
    assert forall k :: p <= k < e2 ==> !IsLineTerminator(t[k]) by {
      forall k | p <= k < e2 ensures !IsLineTerminator(t[k]) {
        if k < p + 2 {
        } else if k < p + 5 {
          assert t[k] == '*';
        } else {
          assert t[k] == s[k - p - 5 + a];
        }
      }
    }
    assert e2 == |t| || IsLineTerminator(t[e2]);
    assert forall k :: p + 5 < k < e2 ==> t[k] != '@';
    assert PatternMatches(t, p, p + 5, e2);
    MatchAtIs(t, p, p + 5, e2);
  }
}
