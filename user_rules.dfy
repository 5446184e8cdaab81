/** The field validators of the two user services: names and usernames by
    trimmed length, passwords by raw length, and the email regular
    expression `^[^\s@]+@[^\s@]+\.[^\s@]+$`. */
module UserRules {
  import opened Outcomes
  import opened Text

  /** validatePassword: a string of at least three UTF-16 code units,
      whitespace included (the value is not trimmed). */
  predicate ValidPassword(x: Option<string>): (b: bool)
    ensures b ==> x.Some? && |x.value| >= 2
    ensures x.Some? && |x.value| >= 3 ==> b
  {
    x.Some? && Utf16Length(x.value) >= 3
  }

  /** A password rule that counts whitespace, unlike the name rule: three
      spaces pass as a password and fail as a name. */
  lemma PasswordCountsWhitespace()
    ensures ValidPassword(Some("   ")) && !TrimmedAtLeast3(Some("   "))
  {
    assert LeadingSpaces("   ") == 3 by {
      assert "   "[1..] == "  " && "  "[1..] == " " && " "[1..] == "";
    }
  }

  /** Lengths are JavaScript lengths: a character above U+FFFF counts as two
      code units, so two emoji pass the name rule and an emoji followed by
      one letter passes the password rule. */
  lemma AstralCharactersCountTwice()
    ensures TrimmedAtLeast3(Some("\U{1F600}\U{1F600}"))
    ensures ValidPassword(Some("\U{1F600}a"))
    ensures !ValidPassword(Some("ab"))
  {
    var pair := "\U{1F600}\U{1F600}";
    TrimUnpadded(pair);
    assert pair[1..] == "\U{1F600}" && "\U{1F600}"[1..] == "";
    assert "\U{1F600}a"[1..] == "a" && "a"[1..] == "";
    assert "ab"[1..] == "b" && "b"[1..] == "";
  }

  /** A segment `[^\s@]+` of the pattern, without its non-emptiness. */
  predicate Plain(s: string) {
    forall i :: 0 <= i < |s| ==> !IsSpace(s[i]) && s[i] != '@'
  }

  /** Position of the first `c` in `s`, or |s| when there is none. */
  function IndexOf(s: string, c: char): (n: nat)
    ensures n <= |s|
    ensures forall i :: 0 <= i < n ==> s[i] != c
    ensures n < |s| ==> s[n] == c
  {
    if s == [] then 0 else if s[0] == c then 0 else 1 + IndexOf(s[1..], c)
  }

  /** A dot with at least one character on each side. */
  predicate HasInnerDot(t: string) {
    exists i :: 0 < i < |t| - 1 && t[i] == '.'
  }

  /** validateEmail: one `@`, preceded by a non-empty plain segment and
      followed by a plain segment that holds a dot strictly inside it. */
  predicate ValidEmail(x: Option<string>): (b: bool)
    ensures b ==> x.Some? && |x.value| >= 5 && '@' in x.value
  {
    x.Some? &&
    var s, at := x.value, IndexOf(x.value, '@');
    0 < at < |s| && Plain(s[..at]) && Plain(s[at + 1..]) && HasInnerDot(s[at + 1..])
  }

  /** The shape the regular expression describes, written as the
      concatenation A "@" B "." C of three non-empty plain segments. The
      middle segment may itself hold dots. */
  ghost predicate EmailShape(s: string) {
    exists a, b, c :: a != [] && b != [] && c != [] && Plain(a) && Plain(b) && Plain(c)
      && s == a + "@" + b + "." + c
  }

  /** validateEmail accepts exactly the strings of the form A@B.C. */
  lemma ValidEmailIffShape(s: string)
    ensures ValidEmail(Some(s)) <==> EmailShape(s)
  {
    if ValidEmail(Some(s)) {
      ValidEmailHasShape(s);
    }
    if EmailShape(s) {
      var a, b, c :| a != [] && b != [] && c != [] && Plain(a) && Plain(b) && Plain(c)
        && s == a + "@" + b + "." + c;
      ShapeIsValidEmail(s, a, b, c);
    }
  }

  lemma ValidEmailHasShape(s: string)
    requires ValidEmail(Some(s))
    ensures EmailShape(s)
  {
    var at := IndexOf(s, '@');
    var t := s[at + 1..];
    var i :| 0 < i < |t| - 1 && t[i] == '.';
    var a, b, c := s[..at], t[..i], t[i + 1..];
    assert t == b + "." + c;
    assert s == a + "@" + t;
    assert Plain(b) by {
      forall k | 0 <= k < |b| ensures !IsSpace(b[k]) && b[k] != '@' {
        assert b[k] == t[k];
      }
    }
    assert Plain(c) by {
      forall k | 0 <= k < |c| ensures !IsSpace(c[k]) && c[k] != '@' {
        assert c[k] == t[i + 1 + k];
      }
    }
    assert s == a + "@" + b + "." + c;
  }

  lemma ShapeIsValidEmail(s: string, a: string, b: string, c: string)
    requires a != [] && b != [] && c != [] && Plain(a) && Plain(b) && Plain(c)
    requires s == a + "@" + b + "." + c
    ensures ValidEmail(Some(s))
  {
    var t := b + "." + c;
    assert s == a + "@" + t;
    var at := IndexOf(s, '@');
    assert s[|a|] == '@';
    assert forall i :: 0 <= i < |a| ==> s[i] == a[i];
    assert at == |a|;
    assert s[..at] == a;
    assert s[at + 1..] == t;
    assert Plain(t) by {
      forall k | 0 <= k < |t| ensures !IsSpace(t[k]) && t[k] != '@' {
        if k < |b| {
          assert t[k] == b[k];
        } else if k > |b| {
          assert t[k] == c[k - |b| - 1];
        }
      }
    }
    assert t[|b|] == '.';
  }
}
