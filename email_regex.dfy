/** The e-mail shape test of the contact form: the regular expression
    /^[^\s@]+@[^\s@]+\.[^\s@]+$/ applied with `test`, read literally,
    and a characterisation of the strings it accepts. */
module EmailRegex {

  /** JavaScript's `\s`: the ECMAScript WhiteSpace and LineTerminator
      code points (tab, line tab, form feed, no-break space, byte order
      mark, the Unicode space separators, and LF, CR, LS, PS). */
  predicate IsWhitespace(c: char)
    ensures IsWhitespace(c) ==> c != '@' && c != '.'
  {
    c == '\t' || c == '\n' || c == '\U{000B}' || c == '\U{000C}' || c == '\r' ||
    c == ' ' || c == '\U{00A0}' || c == '\U{1680}' ||
    ('\U{2000}' <= c <= '\U{200A}') ||
    c == '\U{2028}' || c == '\U{2029}' || c == '\U{202F}' || c == '\U{205F}' ||
    c == '\U{3000}' || c == '\U{FEFF}'
  }

  /** The character class [^\s@]. */
  predicate InClass(c: char)
  {
    !IsWhitespace(c) && c != '@'
  }

  /** The piece [^\s@]+: one or more characters of the class. */
  predicate Segment(t: string)
  {
    |t| > 0 && forall k :: 0 <= k < |t| ==> InClass(t[k])
  }

  /** The whole anchored pattern: s splits as segment, '@', segment, '.',
      segment, where i is the position of the '@' and j that of the '.'. */
  predicate EmailShape(s: string)
  {
    exists i, j | 0 < i < |s| && i < j < |s| ::
      s[i] == '@' && s[j] == '.' &&
      Segment(s[..i]) && Segment(s[i + 1..j]) && Segment(s[j + 1..])
  }

  /** Number of occurrences of c in s. */
  function Count(s: string, c: char): nat
  {
    if s == [] then 0 else (if s[0] == c then 1 else 0) + Count(s[1..], c)
  }

  predicate NoWhitespace(s: string)
  {
    forall k :: 0 <= k < |s| ==> !IsWhitespace(s[k])
  }

  /** d holds a '.' with at least one character on each side of it. */
  predicate InnerDot(d: string)
  {
    exists j | 0 < j < |d| - 1 :: d[j] == '.'
  }

  /** The plain-words reading of the pattern: no whitespace, exactly one
      '@', a non-empty part before it, and a part after it holding a '.'
      that is neither its first nor its last character. */
  predicate PlainShape(s: string)
  {
    NoWhitespace(s) && Count(s, '@') == 1 &&
    exists k | 0 < k < |s| :: s[k] == '@' && InnerDot(s[k + 1..])
  }

  lemma {:induction false} CountConcat(a: string, b: string, c: char)
    ensures Count(a + b, c) == Count(a, c) + Count(b, c)
  {
    if a == [] {
      assert a + b == b;
    } else {
      assert (a + b)[1..] == a[1..] + b;
      CountConcat(a[1..], b, c);
    }
  }

  lemma {:induction false} CountZeroIffAbsent(s: string, c: char)
    ensures Count(s, c) == 0 <==> forall k :: 0 <= k < |s| ==> s[k] != c
  {
    if s != [] {
      CountZeroIffAbsent(s[1..], c);
      if Count(s, c) == 0 {
        forall k | 0 <= k < |s| ensures s[k] != c {
          if k > 0 { assert s[k] == s[1..][k - 1]; }
        }
      } else if s[0] != c {
        var k :| 0 <= k < |s[1..]| && s[1..][k] == c;
        assert s[k + 1] == c;
      }
    }
  }

  /** When c occurs exactly once, the occurrence at k is the only one. */
  lemma OnlyOccurrence(s: string, c: char, k: int)
    requires Count(s, c) == 1 && 0 <= k < |s| && s[k] == c
    ensures forall m :: 0 <= m < |s| && m != k ==> s[m] != c
  {
    assert s == s[..k] + ([s[k]] + s[k + 1..]);
    CountConcat(s[..k], [s[k]] + s[k + 1..], c);
    CountConcat([s[k]], s[k + 1..], c);
    CountZeroIffAbsent(s[..k], c);
    CountZeroIffAbsent(s[k + 1..], c);
    forall m | 0 <= m < |s| && m != k ensures s[m] != c {
      if m < k { assert s[m] == s[..k][m]; } else { assert s[m] == s[k + 1..][m - k - 1]; }
    }
  }

  /** The pattern accepts exactly the strings of the plain-words reading. */
  lemma EmailShapeCharacterisation(s: string)
    ensures EmailShape(s) <==> PlainShape(s)
  {
    if EmailShape(s) {
      var i, j :| 0 < i < |s| && i < j < |s| && s[i] == '@' && s[j] == '.' &&
        Segment(s[..i]) && Segment(s[i + 1..j]) && Segment(s[j + 1..]);
      ShapeImpliesPlain(s, i, j);
    }
    if PlainShape(s) {
      var k :| 0 < k < |s| && s[k] == '@' && InnerDot(s[k + 1..]);
      PlainImpliesShape(s, k);
    }
  }

  lemma ShapeImpliesPlain(s: string, i: int, j: int)
    requires 0 < i < |s| && i < j < |s| && s[i] == '@' && s[j] == '.'
    requires Segment(s[..i]) && Segment(s[i + 1..j]) && Segment(s[j + 1..])
    ensures PlainShape(s)
  {
    var a, b, d := s[..i], s[i + 1..j], s[j + 1..];
    forall k | 0 <= k < |s| ensures !IsWhitespace(s[k]) {
      if k < i { assert s[k] == a[k]; }
      else if i < k < j { assert s[k] == b[k - i - 1]; }
      else if j < k { assert s[k] == d[k - j - 1]; }
    }
    assert s == a + ([s[i]] + (b + ([s[j]] + d)));
    CountConcat(a, [s[i]] + (b + ([s[j]] + d)), '@');
    CountConcat([s[i]], b + ([s[j]] + d), '@');
    CountConcat(b, [s[j]] + d, '@');
    CountConcat([s[j]], d, '@');
    CountZeroIffAbsent(a, '@');
    CountZeroIffAbsent(b, '@');
    CountZeroIffAbsent(d, '@');
    assert s[i + 1..][j - i - 1] == '.';
  }

  /** The pattern matches once the three segments around the '@' at i
      and the '.' at j are in place. */
  lemma MatchAt(s: string, i: int, j: int)
    requires 0 < i && i + 1 < j && j + 1 < |s| && s[i] == '@' && s[j] == '.'
    requires forall m :: 0 <= m < |s| && m != i && m != j ==> InClass(s[m])
    ensures EmailShape(s)
  {
  }

  lemma PlainImpliesShape(s: string, k: int)
    requires NoWhitespace(s) && Count(s, '@') == 1
    requires 0 < k < |s| && s[k] == '@' && InnerDot(s[k + 1..])
    ensures EmailShape(s)
  {
    OnlyOccurrence(s, '@', k);
    var jj :| 0 < jj < |s[k + 1..]| - 1 && s[k + 1..][jj] == '.';
    assert s[k + 1 + jj] == '.';
    MatchAt(s, k, k + 1 + jj);
  }

  /** Accepted: an ordinary address. */
  lemma AcceptsPlainAddress()
    ensures EmailShape("jane@example.com")
  {
    MatchAt("jane@example.com", 4, 12);
  }

  /** Accepted: several dots after the '@'. */
  lemma AcceptsSeveralDots()
    ensures EmailShape("a@b.c.d")
  {
    MatchAt("a@b.c.d", 1, 3);
  }

  /** Accepted: a dot at the edge of the domain, because another dot sits
      strictly inside it and '.' is itself of the class [^\s@]. */
  lemma AcceptsLeadingDotInDomain()
    ensures EmailShape("a@.b.c")
  {
    MatchAt("a@.b.c", 1, 4);
  }

  /** Rejected: nothing after the '@'. */
  lemma RejectsMissingDomain()
    ensures !EmailShape("bob@")
  {
  }

  /** Rejected: no '@' at all. */
  lemma RejectsMissingAt()
    ensures !EmailShape("bob.com")
  {
  }

  /** Rejected: nothing before the '@'. */
  lemma RejectsEmptyLocalPart()
    ensures !EmailShape("@x.com")
  {
  }

  /** Rejected: a second '@'. */
  lemma RejectsTwoAts()
    ensures !EmailShape("a@b@c.d")
  {
    EmailShapeCharacterisation("a@b@c.d");
    assert Count("a@b@c.d", '@') == 2;
  }

  /** Rejected: whitespace anywhere. */
  lemma RejectsWhitespace()
    ensures !EmailShape("a b@c.d")
  {
    EmailShapeCharacterisation("a b@c.d");
    assert IsWhitespace("a b@c.d"[1]);
  }
}
