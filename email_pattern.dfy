/** The email test of the handler: Python's
      re.match('^[_a-z0-9-]+(\.[_a-z0-9-]+)*@[a-z0-9-]+(\.[a-z0-9-]+)*(\.[a-z]{2,4})$', s)
    stated twice: once as a character-level recogniser (a finite automaton run over
    the string, `Accepts`), once as the structure the pattern describes
    (`IsAddress`), and proved to agree. No IGNORECASE flag is passed, so the test is
    case-sensitive. */
module EmailPattern {
  import opened Strings

  predicate IsLower(c: char) { 'a' <= c <= 'z' }

  predicate IsDigit(c: char) { '0' <= c <= '9' }

  /** `[_a-z0-9-]`: a character of a local-part segment. */
  predicate IsLocalChar(c: char) { IsLower(c) || IsDigit(c) || c == '_' || c == '-' }

  /** `[a-z0-9-]`: a character of a domain label. */
  predicate IsLabelChar(c: char) { IsLower(c) || IsDigit(c) || c == '-' }

  predicate SegmentChar(c: char, domain: bool)
  {
    if domain then IsLabelChar(c) else IsLocalChar(c)
  }

  predicate AllLower(w: string)
  {
    forall i :: 0 <= i < |w| ==> IsLower(w[i])
  }

  /** A prefix of a dot-separated word: segment characters and single dots, not
      starting with a dot and with no two dots in a row (it may end in a dot). */
  predicate DottedPrefix(w: string, domain: bool)
  {
    && (forall i :: 0 <= i < |w| ==> w[i] == '.' || SegmentChar(w[i], domain))
    && (|w| > 0 ==> w[0] != '.')
    && (forall i :: 0 <= i < |w| - 1 && w[i] == '.' ==> w[i + 1] != '.')
  }

  /** `[C]+(\.[C]+)*` for the segment class C: non-empty segments joined by dots. */
  predicate DottedWord(w: string, domain: bool)
  {
    DottedPrefix(w, domain) && |w| > 0 && w[|w| - 1] != '.'
  }

  /** `[a-z]{2,4}`. */
  predicate TopLevelDomain(t: string)
  {
    2 <= |t| <= 4 && AllLower(t)
  }

  /** `s` reads local-part, `@` at index `at`, domain labels, `.` at index `dot`,
      top-level domain. */
  ghost predicate AddressSplitAt(s: string, at: nat, dot: nat)
  {
    && at < dot < |s|
    && s[at] == '@' && s[dot] == '.'
    && DottedWord(s[..at], false)
    && DottedWord(s[at + 1..dot], true)
    && TopLevelDomain(s[dot + 1..])
  }

  /** The language of the pattern, without the anchors' newline allowance. */
  ghost predicate IsAddress(s: string)
  {
    exists at: nat, dot: nat :: AddressSplitAt(s, at, dot)
  }

  /** States of the recogniser. `Local(inSegment)`: in the local part, `inSegment` when the
      current segment is non-empty. `Domain(dotted, labelLen, alpha)`: after the `@`;
      `dotted` once a dot has been read there, `labelLen` the length of the current
      label (5 standing for "5 or more"), `alpha` when that label is all letters. */
  datatype Scan = Local(inSegment: bool) | Domain(dotted: bool, labelLen: nat, alpha: bool) | Dead

  function Cap(n: nat): nat { if n < 5 then n else 5 }

  function Step(st: Scan, c: char): Scan
  {
    match st
    case Local(inSegment) =>
      if IsLocalChar(c) then Local(true)
      else if c == '.' && inSegment then Local(false)
      else if c == '@' && inSegment then Domain(false, 0, true)
      else Dead
    case Domain(dotted, labelLen, alpha) =>
      if IsLabelChar(c) then Domain(dotted, Cap(labelLen + 1), alpha && IsLower(c))
      else if c == '.' && labelLen > 0 then Domain(true, 0, true)
      else Dead
    case Dead => Dead
  }

  /** The state after reading `s` from the start state `Local(false)`. */
  function Run(s: string): Scan
    decreases |s|
  {
    if s == [] then Local(false) else Step(Run(s[..|s| - 1]), s[|s| - 1])
  }

  predicate Accepting(st: Scan)
  {
    st.Domain? && st.dotted && st.alpha && 2 <= st.labelLen <= 4
  }

  predicate Accepts(s: string)
  {
    Accepting(Run(s))
  }

  /** `re.match(pattern, s) is not None`: without MULTILINE, `$` matches at the end
      of the string and also just before a final newline. */
  predicate MatchesEmailPattern(s: string)
  {
    Accepts(s) || (|s| > 0 && s[|s| - 1] == '\n' && Accepts(s[..|s| - 1]))
  }

  // ---------------------------------------------------------------------------
  // Correctness of the recogniser

  /** What each state means: the state the recogniser should be in after `s`. */
  ghost function Expected(s: string): Scan
  {
    if '@' !in s then
      if DottedPrefix(s, false) then Local(|s| > 0 && s[|s| - 1] != '.') else Dead
    else
      var at := IndexOf(s, '@');
      var host := s[at + 1..];
      if DottedWord(s[..at], false) && DottedPrefix(host, true) then
        var last := LastField(host, '.');
        Domain('.' in host, Cap(|last|), AllLower(last))
      else Dead
  }

  lemma DottedPrefixSnoc(w: string, c: char, domain: bool)
    ensures DottedPrefix(w + [c], domain) <==>
      DottedPrefix(w, domain) &&
      (if c == '.' then |w| > 0 && w[|w| - 1] != '.' else SegmentChar(c, domain))
  {
    var v := w + [c];
    assert forall i :: 0 <= i < |w| ==> v[i] == w[i];
    if DottedPrefix(v, domain) {
      assert v[|w|] == c;
      if |w| > 0 {
        assert v[|w| - 1] == w[|w| - 1];
      }
    }
  }

  lemma ExpectedStepLocal(p: string, c: char)
    requires '@' !in p
    ensures Expected(p + [c]) == Step(Expected(p), c)
  {
    var s := p + [c];
    DottedPrefixSnoc(p, c, false);
    if c == '@' {
      assert s[..|p|] == p;
      IndexOfUnique(s, '@', |p|);
      assert s[|p| + 1..] == [];
      assert LastField([], '.') == [];
    } else {
      assert '@' !in s;
    }
  }

  lemma ExpectedStepDomain(p: string, c: char)
    requires '@' in p
    ensures Expected(p + [c]) == Step(Expected(p), c)
  {
    var s := p + [c];
    var at := IndexOf(p, '@');
    assert s[..at] == p[..at];
    IndexOfUnique(s, '@', at);
    var host := p[at + 1..];
    assert s[at + 1..] == host + [c];
    DottedPrefixSnoc(host, c, true);
    if DottedWord(p[..at], false) && DottedPrefix(host, true) {
      HostStep(host, c);
    }
  }

  /** One more character of a well-formed domain prefix moves the recogniser's
      domain state as `Step` does. */
  lemma HostStep(host: string, c: char)
    requires DottedPrefix(host, true)
    ensures var last, last' := LastField(host, '.'), LastField(host + [c], '.');
      Step(Domain('.' in host, Cap(|last|), AllLower(last)), c) ==
        if DottedPrefix(host + [c], true)
        then Domain('.' in host + [c], Cap(|last'|), AllLower(last'))
        else Dead
  {
    DottedPrefixSnoc(host, c, true);
    LastFieldSnoc(host, c, '.');
    LastFieldEmpty(host, '.');
    var last := LastField(host, '.');
    if IsLabelChar(c) {
      assert AllLower(last + [c]) == (AllLower(last) && IsLower(c)) by {
        var v := last + [c];
        assert forall i :: 0 <= i < |last| ==> v[i] == last[i];
        assert v[|last|] == c;
      }
      assert ('.' in host + [c]) == ('.' in host);
    }
  }

  /** The recogniser is always in the state `Expected` describes. */
  lemma {:induction false} RunIsExpected(s: string)
    ensures Run(s) == Expected(s)
    decreases |s|
  {
    if s != [] {
      var p, c := s[..|s| - 1], s[|s| - 1];
      assert s == p + [c];
      RunIsExpected(p);
      if '@' in p {
        ExpectedStepDomain(p, c);
      } else {
        ExpectedStepLocal(p, c);
      }
    }
  }

  lemma ExpectedAcceptingIsAddress(s: string)
    requires Accepting(Expected(s))
    ensures IsAddress(s)
  {
    var at := IndexOf(s, '@');
    var host := s[at + 1..];
    var last := LastField(host, '.');
    LastFieldIsTail(host, '.');
    var dot := |s| - |last| - 1;
    assert at < dot;
    var h := s[at + 1..dot];
    assert h == host[..|host| - |last| - 1];
    assert s[dot + 1..] == last;
    assert |h| > 0 by {
      assert host[0] != '.';
    }
    assert h[|h| - 1] == host[|h| - 1];
    assert forall i :: 0 <= i < |h| ==> h[i] == host[i];
    assert AddressSplitAt(s, at, dot);
  }

  lemma AddressIsExpectedAccepting(s: string, at: nat, dot: nat)
    requires AddressSplitAt(s, at, dot)
    ensures Accepting(Expected(s))
  {
    var local, h, t := s[..at], s[at + 1..dot], s[dot + 1..];
    assert '@' !in local by {
      assert forall i :: 0 <= i < |local| ==> local[i] == '.' || IsLocalChar(local[i]);
    }
    IndexOfUnique(s, '@', at);
    var host := s[at + 1..];
    assert host == h + ['.'] + t;
    assert '.' !in t by {
      assert forall i :: 0 <= i < |t| ==> IsLower(t[i]);
    }
    LastFieldAfter(h, t, '.');
    assert forall i :: 0 <= i < |h| ==> host[i] == h[i];
    assert host[|h|] == '.';
    assert forall i :: |h| < i < |host| ==> host[i] == t[i - |h| - 1];
    assert DottedPrefix(host, true);
  }

  /** The recogniser accepts exactly the strings of the pattern's language. */
  lemma AcceptsIffAddress(s: string)
    ensures Accepts(s) <==> IsAddress(s)
  {
    RunIsExpected(s);
    if IsAddress(s) {
      var at: nat, dot: nat :| AddressSplitAt(s, at, dot);
      AddressIsExpectedAccepting(s, at, dot);
    }
    if Accepts(s) {
      ExpectedAcceptingIsAddress(s);
    }
  }

  /** The handler's test holds exactly for a string of the pattern's language, or
      for one followed by a single newline. */
  lemma MatchesIffAddress(s: string)
    ensures MatchesEmailPattern(s) <==>
      IsAddress(s) || (|s| > 0 && s[|s| - 1] == '\n' && IsAddress(s[..|s| - 1]))
  {
    AcceptsIffAddress(s);
    if |s| > 0 {
      AcceptsIffAddress(s[..|s| - 1]);
    }
  }

  /** The characters of an address split at `at` and `dot`. */
  lemma AddressChars(s: string, at: nat, dot: nat)
    requires AddressSplitAt(s, at, dot)
    ensures forall k :: 0 <= k < |s| && s[k] == '@' ==> k == at
    ensures forall k :: 0 <= k < |s| ==> IsLocalChar(s[k]) || s[k] == '.' || s[k] == '@'
    ensures forall k :: at < k < |s| ==> s[k] != '_'
  {
    var local, h, t := s[..at], s[at + 1..dot], s[dot + 1..];
    assert forall k :: 0 <= k < at ==> s[k] == local[k];
    assert forall k :: at < k < dot ==> s[k] == h[k - at - 1];
    assert forall k :: dot < k < |s| ==> s[k] == t[k - dot - 1];
  }

  /** The dots of an address split at `at` and `dot`. */
  lemma AddressDots(s: string, at: nat, dot: nat)
    requires AddressSplitAt(s, at, dot)
    ensures 0 < at < |s| - 1
    ensures s[0] != '.' && s[at - 1] != '.' && s[at + 1] != '.' && s[|s| - 1] != '.'
    ensures forall k :: 0 <= k < |s| - 1 && s[k] == '.' ==> s[k + 1] != '.'
  {
    var local, h, t := s[..at], s[at + 1..dot], s[dot + 1..];
    assert s[0] == local[0] && s[at - 1] == local[at - 1];
    assert s[at + 1] == h[0] && s[dot - 1] == h[|h| - 1];
    assert s[dot + 1] == t[0] && s[|s| - 1] == t[|t| - 1];
    forall k | 0 <= k < |s| - 1 && s[k] == '.'
      ensures s[k + 1] != '.'
    {
      if k < at - 1 {
        assert s[k] == local[k] && s[k + 1] == local[k + 1];
      } else if at < k < dot - 1 {
        assert s[k] == h[k - at - 1] && s[k + 1] == h[k - at];
      }
    }
  }

  /** What an accepted address looks like, character by character: exactly one `@`;
      only lower-case letters, digits, `_`, `-`, `.` besides it, and no `_` after
      it; no dot at either end of the local part or of the domain and no two dots
      in a row; and a final dot followed by two to four lower-case letters. */
  lemma AddressShape(s: string)
    requires IsAddress(s)
    ensures '@' in s
    ensures forall k :: 0 <= k < |s| && s[k] == '@' ==> k == IndexOf(s, '@')
    ensures forall k :: 0 <= k < |s| ==> IsLocalChar(s[k]) || s[k] == '.' || s[k] == '@'
    ensures forall k :: IndexOf(s, '@') < k < |s| ==> s[k] != '_'
    ensures 0 < IndexOf(s, '@') < |s| - 1
    ensures s[0] != '.' && s[IndexOf(s, '@') - 1] != '.'
    ensures s[IndexOf(s, '@') + 1] != '.' && s[|s| - 1] != '.'
    ensures forall k :: 0 <= k < |s| - 1 && s[k] == '.' ==> s[k + 1] != '.'
    ensures var tld := LastField(s, '.');
      TopLevelDomain(tld) && |tld| < |s| && s[|s| - |tld| - 1] == '.'
  {
    var at: nat, dot: nat :| AddressSplitAt(s, at, dot);
    AddressChars(s, at, dot);
    AddressDots(s, at, dot);
    assert s[..at][..at] == s[..at];
    IndexOfUnique(s, '@', at);
    var t := s[dot + 1..];
    assert s == s[..dot] + ['.'] + t;
    assert '.' !in t by {
      assert forall i :: 0 <= i < |t| ==> IsLower(t[i]);
    }
    LastFieldAfter(s[..dot], t, '.');
  }

  /** An upper-case letter anywhere makes the test fail. */
  lemma UppercaseRejected(s: string, k: nat)
    requires k < |s| && 'A' <= s[k] <= 'Z'
    ensures !MatchesEmailPattern(s)
  {
    MatchesIffAddress(s);
    if IsAddress(s) {
      AddressShape(s);
    }
    if |s| > 0 && s[|s| - 1] == '\n' && IsAddress(s[..|s| - 1]) {
      AddressShape(s[..|s| - 1]);
    }
  }

  /** A string without `@`, such as a role-session name, is never email-shaped. */
  lemma NoAtRejected(s: string)
    requires '@' !in s
    ensures !MatchesEmailPattern(s)
  {
    MatchesIffAddress(s);
    if IsAddress(s) {
      AddressShape(s);
    }
    if |s| > 0 && IsAddress(s[..|s| - 1]) {
      AddressShape(s[..|s| - 1]);
      assert s[..|s| - 1][IndexOf(s[..|s| - 1], '@')] == '@';
    }
  }
}
