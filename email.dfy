/** The e-mail address check of the Python services: `re.match` of the
    pattern `^[a-zA-Z0-9._%+-]+@[a-zA-Z0-9.-]+\.[a-zA-Z]{2,}$`, and the
    weaker check of the browser form (non-blank and containing '@'). */
module Email {
  import Text
  import opened Common

  predicate IsAsciiLetter(c: char)
  {
    'a' <= c <= 'z' || 'A' <= c <= 'Z'
  }

  predicate IsAsciiDigit(c: char)
  {
    '0' <= c <= '9'
  }

  /** `[a-zA-Z0-9._%+-]` */
  predicate IsLocalChar(c: char)
  {
    IsAsciiLetter(c) || IsAsciiDigit(c) || c == '.' || c == '_' || c == '%' || c == '+' || c == '-'
  }

  /** `[a-zA-Z0-9.-]` */
  predicate IsDomainChar(c: char)
  {
    IsAsciiLetter(c) || IsAsciiDigit(c) || c == '.' || c == '-'
  }

  /** `s` is `local '@' domain '.' tld` with the `@` at index `a` and the
      final dot at index `p`: the three parts are non-empty runs of their
      character classes and the top-level part has at least two letters. */
  predicate PatternAt(s: string, a: int, p: int)
  {
    && 0 < a && a + 1 < p && p + 2 < |s|
    && s[a] == '@' && s[p] == '.'
    && (forall i :: 0 <= i < a ==> IsLocalChar(s[i]))
    && (forall i :: a < i < p ==> IsDomainChar(s[i]))
    && (forall i :: p < i < |s| ==> IsAsciiLetter(s[i]))
  }

  /** The language of the anchored pattern, as a regular expression defines
      it: some choice of the `@` and of the final dot fits. */
  ghost predicate MatchesPattern(s: string)
  {
    exists a, p :: PatternAt(s, a, p)
  }

  /** Index of the first occurrence of `c`. */
  function FirstIndex(s: string, c: char): (r: Option<nat>)
    ensures r.Some? <==> c in s
    ensures r.Some? ==> r.value < |s| && s[r.value] == c && c !in s[..r.value]
  {
    if s == [] then None
    else if s[0] == c then Some(0)
    else match FirstIndex(s[1..], c)
      case None => None
      case Some(k) => assert s[..k + 1] == [s[0]] + s[1..][..k]; Some(k + 1)
  }

  /** Index of the last occurrence of `c`. */
  function LastIndex(s: string, c: char): (r: Option<nat>)
    ensures r.Some? <==> c in s
    ensures r.Some? ==> r.value < |s| && s[r.value] == c && c !in s[r.value + 1..]
    decreases |s|
  {
    if s == [] then None
    else if s[|s| - 1] == c then Some(|s| - 1)
    else
      assert s == s[..|s| - 1] + [s[|s| - 1]];
      LastIndex(s[..|s| - 1], c)
  }

  /** The decision the matcher reaches: the `@` is the first one, the dot is
      the last one after it, and the parts fit their classes. */
  predicate MatchesAnchored(s: string)
  {
    match FirstIndex(s, '@')
    case None => false
    case Some(a) =>
      match LastIndex(s[a + 1..], '.')
      case None => false
      case Some(q) => PatternAt(s, a, a + 1 + q)
  }

  /** `validate_email`: Python's `$` also matches just before one final
      newline, so a valid address followed by "\n" is accepted. */
  predicate ValidateEmail(s: string)
  {
    MatchesAnchored(s) || (s != [] && s[|s| - 1] == '\n' && MatchesAnchored(s[..|s| - 1]))
  }

  /** The matcher accepts exactly the strings of the pattern's language. */
  lemma MatchesAnchoredIffPattern(s: string)
    ensures MatchesAnchored(s) <==> MatchesPattern(s)
  {
    if MatchesAnchored(s) {
      var a := FirstIndex(s, '@').value;
      var q := LastIndex(s[a + 1..], '.').value;
      assert PatternAt(s, a, a + 1 + q);
    }
    if MatchesPattern(s) {
      var a, p :| PatternAt(s, a, p);
      PatternDeterminesAt(s, a, p);
    }
  }

  /** In a string of the pattern's language the `@` is the first `@` and the
      dot is the last dot after it, so the matcher finds them. */
  lemma PatternDeterminesAt(s: string, a: int, p: int)
    requires PatternAt(s, a, p)
    ensures FirstIndex(s, '@') == Some(a)
    ensures LastIndex(s[a + 1..], '.') == Some(p - a - 1)
  {
    assert '@' !in s[..a] by {
      forall i | 0 <= i < a ensures s[..a][i] != '@' {
        assert IsLocalChar(s[i]);
      }
    }
    var rest := s[a + 1..];
    assert rest[p - a - 1] == '.';
    var tail := rest[p - a..];
    assert '.' !in tail by {
      forall i | 0 <= i < |tail| ensures tail[i] != '.' {
        assert IsAsciiLetter(s[p + 1 + i]);
      }
    }
  }

  /** Exactly one `@`, something before it, and a dot followed by at
      least two ASCII letters at the end. */
  predicate AddressShape(s: string)
  {
    && Text.Count(s, '@') == 1
    && |s| >= 5 && s[0] != '@'
    && exists p :: 0 < p < |s| - 2 && s[p] == '.' && forall i :: p < i < |s| ==> IsAsciiLetter(s[i])
  }

  lemma MatchesAnchoredShape(s: string)
    requires MatchesAnchored(s)
    ensures AddressShape(s)
  {
    var a := FirstIndex(s, '@').value;
    var q := LastIndex(s[a + 1..], '.').value;
    assert PatternAt(s, a, a + 1 + q);
    CountOne(s, a);
  }

  /** An accepted address has the shape above, possibly followed by one
      newline. */
  lemma ValidateEmailShape(s: string)
    requires ValidateEmail(s)
    ensures AddressShape(s) || (s[|s| - 1] == '\n' && AddressShape(s[..|s| - 1]))
  {
    if MatchesAnchored(s) {
      MatchesAnchoredShape(s);
    } else {
      MatchesAnchoredShape(s[..|s| - 1]);
    }
  }

  /** A string whose only `@` is at index `a` counts one `@`. */
  lemma {:induction false} CountOne(s: string, a: nat)
    requires a < |s| && s[a] == '@'
    requires forall i :: 0 <= i < |s| && i != a ==> s[i] != '@'
    ensures Text.Count(s, '@') == 1
    decreases |s|
  {
    if a == 0 {
      NoneCounted(s[1..]);
    } else {
      CountOne(s[1..], a - 1);
    }
  }

  lemma {:induction false} NoneCounted(s: string)
    requires forall i :: 0 <= i < |s| ==> s[i] != '@'
    ensures Text.Count(s, '@') == 0
    decreases |s|
  {
    if s != [] {
      NoneCounted(s[1..]);
    }
  }

  /** The browser form's check when "send e-mail" is ticked: the address is
      not blank after trimming and contains an `@`. */
  predicate FormEmailOk(email: string)
  {
    Text.Strip(email) != [] && '@' in email
  }
}
