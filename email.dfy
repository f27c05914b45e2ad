/**
  The contact form's email check: the regular expression
  `^[^\s@]+@[^\s@]+\.[^\s@]+$` tested against the whole field value.

  The expression is modelled the way a regex engine would run it, as a
  deterministic automaton over the characters of the string (`Next`,
  `Run`, `IsValidEmail`). Its meaning is stated independently, as a
  split of the string around one `@` (`IsEmailShape`), and the two are
  proved to agree for every string.
 */
module Email {

  /** The JavaScript class `\s`: WhiteSpace and LineTerminator code points
      of ECMAScript. */
  predicate IsWhitespace(c: char) {
    || c == '\t' || c == '\n' || c == '\U{0B}' || c == '\U{0C}' || c == '\r'
    || c == ' ' || c == '\U{A0}' || c == '\U{1680}'
    || ('\U{2000}' <= c <= '\U{200A}')
    || c == '\U{2028}' || c == '\U{2029}' || c == '\U{202F}' || c == '\U{205F}'
    || c == '\U{3000}' || c == '\U{FEFF}'
  }

  /** The character class `[^\s@]`. Note that '.' belongs to it. */
  predicate IsAtomChar(c: char) {
    !IsWhitespace(c) && c != '@'
  }

  /** Every character of `s` is in `[^\s@]`. */
  predicate AllAtoms(s: string) {
    forall i :: 0 <= i < |s| ==> IsAtomChar(s[i])
  }

  /** `d` has a '.' with at least one character before it and one after it. */
  predicate HasInnerDot(d: string) {
    exists k :: 0 < k < |d| - 1 && d[k] == '.'
  }

  /** The structural description of an accepted address: a non-empty local
      part and a domain, around an '@' at index `at`, neither part holding
      whitespace or '@', and the domain holding an inner '.'. */
  ghost predicate IsEmailShape(s: string) {
    exists at :: 0 < at < |s| && s[at] == '@'
      && AllAtoms(s[..at]) && AllAtoms(s[at + 1..]) && HasInnerDot(s[at + 1..])
  }

  /** States of the automaton for the expression.
      Start:     nothing read.
      Local:     a non-empty local part read.
      AfterAt:   the local part and the '@' read.
      Domain:    a non-empty domain read, no '.' after its first character.
      DomainDot: as Domain, but the last character read is such a '.'.
      Accept:    an inner '.' of the domain has been followed by a character.
      Dead:      no continuation can match. */
  datatype State = Start | Local | AfterAt | Domain | DomainDot | Accept | Dead

  function Next(q: State, c: char): State {
    match q
    case Start => if IsAtomChar(c) then Local else Dead
    case Local => if c == '@' then AfterAt else if IsAtomChar(c) then Local else Dead
    case AfterAt => if IsAtomChar(c) then Domain else Dead
    case Domain => if c == '.' then DomainDot else if IsAtomChar(c) then Domain else Dead
    case DomainDot => if IsAtomChar(c) then Accept else Dead
    case Accept => if IsAtomChar(c) then Accept else Dead
    case Dead => Dead
  }

  /** The state reached from `q` after reading all of `s`. */
  function Run(q: State, s: string): State
    decreases |s|
  {
    if s == [] then q else Run(Next(q, s[0]), s[1..])
  }

  /** isValidEmail: the anchored expression matches the whole string. */
  predicate IsValidEmail(email: string) {
    Run(Start, email) == Accept
  }

  /** Number of occurrences of `c` in `s`. */
  function Occurrences(s: string, c: char): nat {
    if s == [] then 0 else (if s[0] == c then 1 else 0) + Occurrences(s[1..], c)
  }

  // ---------------------------------------------------------------------
  // What each state accepts

  lemma {:induction false} DeadRun(t: string)
    ensures Run(Dead, t) == Dead
    decreases |t|
  {
    if t != [] {
      DeadRun(t[1..]);
    }
  }

  lemma AllAtomsTail(t: string)
    requires t != []
    ensures AllAtoms(t) <==> IsAtomChar(t[0]) && AllAtoms(t[1..])
  {
  }

  lemma {:induction false} AcceptRun(t: string)
    ensures Run(Accept, t) == Accept <==> AllAtoms(t)
    decreases |t|
  {
    if t != [] {
      AllAtomsTail(t);
      if IsAtomChar(t[0]) {
        AcceptRun(t[1..]);
      } else {
        DeadRun(t[1..]);
      }
    }
  }

  lemma {:induction false} DomainDotRun(t: string)
    ensures Run(DomainDot, t) == Accept <==> t != [] && AllAtoms(t)
  {
    if t != [] {
      AllAtomsTail(t);
      if IsAtomChar(t[0]) {
        AcceptRun(t[1..]);
      } else {
        DeadRun(t[1..]);
      }
    }
  }

  /** `t` has a '.' with at least one character after it. */
  predicate HasDotBeforeEnd(t: string) {
    exists k :: 0 <= k < |t| - 1 && t[k] == '.'
  }

  lemma DotBeforeEndTail(t: string)
    requires t != [] && t[0] != '.'
    ensures HasDotBeforeEnd(t) <==> HasDotBeforeEnd(t[1..])
  {
  }

  lemma {:induction false} DomainRun(t: string)
    ensures Run(Domain, t) == Accept <==> AllAtoms(t) && HasDotBeforeEnd(t)
    decreases |t|
  {
    if t != [] {
      AllAtomsTail(t);
      var c, r := t[0], t[1..];
      if c == '.' {
        DomainDotRun(r);
        if r != [] {
          assert t[0] == '.' && 0 < |t| - 1;
        }
      } else if IsAtomChar(c) {
        DomainRun(r);
        DotBeforeEndTail(t);
      } else {
        DeadRun(r);
      }
    }
  }

  lemma InnerDotShift(t: string)
    requires t != []
    ensures HasInnerDot(t) <==> HasDotBeforeEnd(t[1..])
  {
  }

  lemma {:induction false} AfterAtRun(t: string)
    ensures Run(AfterAt, t) == Accept <==> AllAtoms(t) && HasInnerDot(t)
  {
    if t != [] {
      AllAtomsTail(t);
      InnerDotShift(t);
      if IsAtomChar(t[0]) {
        DomainRun(t[1..]);
      } else {
        DeadRun(t[1..]);
      }
    }
  }

  /** `t` splits at some '@' (possibly its first character) into a
      local part and a domain as in IsEmailShape. */
  ghost predicate SplitsAt(t: string, at: int) {
    0 <= at < |t| && t[at] == '@'
      && AllAtoms(t[..at]) && AllAtoms(t[at + 1..]) && HasInnerDot(t[at + 1..])
  }

  lemma SplitsAtShift(t: string, at: int)
    requires t != [] && 0 < at
    ensures SplitsAt(t, at) <==> IsAtomChar(t[0]) && SplitsAt(t[1..], at - 1)
  {
    if 0 < at < |t| {
      assert t[..at] == [t[0]] + t[1..][..at - 1];
      assert t[at + 1..] == t[1..][at - 1 + 1..];
      AllAtomsTail(t[..at]);
    }
  }

  lemma {:induction false} LocalRun(t: string)
    ensures Run(Local, t) == Accept <==> exists at :: SplitsAt(t, at)
    decreases |t|
  {
    if t == [] {
      assert forall at :: !SplitsAt(t, at);
    } else {
      var c, r := t[0], t[1..];
      if c == '@' {
        AfterAtRun(r);
        assert SplitsAt(t, 0) <==> AllAtoms(r) && HasInnerDot(r) by {
          assert t[..0] == [] && t[0 + 1..] == r;
        }
        forall at | 0 < at ensures !SplitsAt(t, at) {
          if 0 < at < |t| {
            assert t[..at][0] == '@';
          }
        }
      } else {
        LocalRun(r);
        assert !SplitsAt(t, 0);
        if IsAtomChar(c) {
          if exists at :: SplitsAt(t, at) {
            var at :| SplitsAt(t, at);
            SplitsAtShift(t, at);
          }
          if exists at :: SplitsAt(r, at) {
            var at :| SplitsAt(r, at);
            SplitsAtShift(t, at + 1);
          }
        } else {
          DeadRun(r);
          forall at | 0 < at ensures !SplitsAt(t, at) {
            SplitsAtShift(t, at);
          }
        }
      }
    }
  }

  /** The automaton accepts exactly the strings of the structural shape. */
  lemma {:induction false} ValidIffShape(s: string)
    ensures IsValidEmail(s) <==> IsEmailShape(s)
  {
    if s == [] {
    } else {
      var c, r := s[0], s[1..];
      if IsAtomChar(c) {
        LocalRun(r);
        if IsEmailShape(s) {
          var at :| 0 < at < |s| && s[at] == '@'
            && AllAtoms(s[..at]) && AllAtoms(s[at + 1..]) && HasInnerDot(s[at + 1..]);
          assert SplitsAt(s, at);
          SplitsAtShift(s, at);
        }
        if exists at :: SplitsAt(r, at) {
          var at :| SplitsAt(r, at);
          SplitsAtShift(s, at + 1);
        }
      } else {
        DeadRun(r);
        forall at | 0 < at < |s| ensures !AllAtoms(s[..at]) {
          assert s[..at][0] == c;
        }
      }
    }
  }

  // ---------------------------------------------------------------------
  // Consequences

  /** Written as local part + "@" + domain, an address is accepted exactly
      when the local part is non-empty, neither part holds whitespace or
      '@', and the domain has an inner '.'. */
  lemma SplitForm(local: string, domain: string)
    ensures IsValidEmail(local + "@" + domain)
        <==> local != [] && AllAtoms(local) && AllAtoms(domain) && HasInnerDot(domain)
  {
    var s := local + "@" + domain;
    ValidIffShape(s);
    assert s[|local|] == '@';
    assert s[..|local|] == local && s[|local| + 1..] == domain;
    forall at | 0 < at < |s| && at != |local|
      ensures !(AllAtoms(s[..at]) && AllAtoms(s[at + 1..]))
    {
      if at < |local| {
        assert s[at + 1..][|local| - at - 1] == '@';
      } else {
        assert s[..at][|local|] == '@';
      }
    }
  }

  lemma {:induction false} OccurrencesAppend(a: string, b: string, c: char)
    ensures Occurrences(a + b, c) == Occurrences(a, c) + Occurrences(b, c)
    decreases |a|
  {
    if a == [] {
      assert a + b == b;
    } else {
      assert (a + b)[1..] == a[1..] + b;
      OccurrencesAppend(a[1..], b, c);
    }
  }

  lemma {:induction false} AtomsHaveNoAt(s: string)
    requires AllAtoms(s)
    ensures Occurrences(s, '@') == 0
    decreases |s|
  {
    if s != [] {
      AllAtomsTail(s);
      AtomsHaveNoAt(s[1..]);
    }
  }

  /** An accepted address holds exactly one '@'; so a string with none, or
      with two or more, is rejected. */
  lemma ExactlyOneAt(s: string)
    ensures IsValidEmail(s) ==> Occurrences(s, '@') == 1
  {
    ValidIffShape(s);
    if IsEmailShape(s) {
      var at :| 0 < at < |s| && s[at] == '@'
        && AllAtoms(s[..at]) && AllAtoms(s[at + 1..]) && HasInnerDot(s[at + 1..]);
      assert s == s[..at] + [s[at]] + s[at + 1..];
      OccurrencesAppend(s[..at] + [s[at]], s[at + 1..], '@');
      OccurrencesAppend(s[..at], [s[at]], '@');
      AtomsHaveNoAt(s[..at]);
      AtomsHaveNoAt(s[at + 1..]);
    }
  }

  /** A string with a whitespace character anywhere is rejected. */
  lemma WhitespaceRejected(s: string, i: int)
    requires 0 <= i < |s| && IsWhitespace(s[i])
    ensures !IsValidEmail(s)
  {
    ValidIffShape(s);
    forall at | 0 < at < |s| && at != i
      ensures !(AllAtoms(s[..at]) && AllAtoms(s[at + 1..]))
    {
      if i < at {
        assert s[..at][i] == s[i];
      } else {
        assert s[at + 1..][i - at - 1] == s[i];
      }
    }
  }

  /** Sample addresses: one accepted, four rejected. */
  lemma Examples()
    ensures IsValidEmail("a@b.co")
    ensures !IsValidEmail("")
    ensures !IsValidEmail("a@b")
    ensures !IsValidEmail("a.com")
    ensures !IsValidEmail("a@ b.com")
  {
  }
}
