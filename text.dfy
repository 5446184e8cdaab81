/** JavaScript's String.prototype.trim and the length rules built on it. */
module Text {
  import opened Outcomes

  /** The characters JavaScript's `trim` removes and `\s` matches:
      WhiteSpace (tab, vertical tab, form feed, space, no-break space,
      byte-order mark, category Zs) and LineTerminator. */
  predicate IsSpace(c: char) {
    c == ' ' || c == '\t' || c == '\n' || c == '\r' || c == '\U{000B}' || c == '\U{000C}'
    || c == '\U{00A0}' || c == '\U{1680}' || ('\U{2000}' <= c <= '\U{200A}')
    || c == '\U{2028}' || c == '\U{2029}' || c == '\U{202F}' || c == '\U{205F}'
    || c == '\U{3000}' || c == '\U{FEFF}'
  }

  /** Number of whitespace characters at the front of `s`. */
  function LeadingSpaces(s: string): (n: nat)
    ensures n <= |s|
    ensures forall i :: 0 <= i < n ==> IsSpace(s[i])
    ensures n < |s| ==> !IsSpace(s[n])
  {
    if |s| > 0 && IsSpace(s[0]) then 1 + LeadingSpaces(s[1..]) else 0
  }

  /** Number of whitespace characters at the back of `s`. */
  function TrailingSpaces(s: string): (n: nat)
    ensures n <= |s|
    ensures forall i :: |s| - n <= i < |s| ==> IsSpace(s[i])
    ensures n < |s| ==> !IsSpace(s[|s| - n - 1])
  {
    if |s| > 0 && IsSpace(s[|s| - 1]) then 1 + TrailingSpaces(s[..|s| - 1]) else 0
  }

  /** `s.trim()`: the slice of `s` that starts at its first and ends at its
      last non-whitespace character; everything cut off is whitespace. */
  function Trim(s: string): (r: string)
    ensures |r| <= |s|
    ensures LeadingSpaces(s) + |r| <= |s|
    ensures r == s[LeadingSpaces(s)..LeadingSpaces(s) + |r|]
    ensures forall k :: LeadingSpaces(s) + |r| <= k < |s| ==> IsSpace(s[k])
    ensures |r| > 0 ==> !IsSpace(r[0]) && !IsSpace(r[|r| - 1])
  {
    var t := s[LeadingSpaces(s)..];
    t[..|t| - TrailingSpaces(t)]
  }

  /** The UTF-16 code units JavaScript stores for `c`: two (a surrogate
      pair) above U+FFFF, one otherwise. */
  function CodeUnits(c: char): nat {
    if c >= '\U{10000}' then 2 else 1
  }

  /** JavaScript's `s.length`: the number of UTF-16 code units, which is
      between the number of characters and twice it. */
  function Utf16Length(s: string): (n: nat)
    ensures |s| <= n <= 2 * |s|
  {
    if s == [] then 0 else CodeUnits(s[0]) + Utf16Length(s[1..])
  }

  lemma {:induction false} Utf16LengthConcat(a: string, b: string)
    ensures Utf16Length(a + b) == Utf16Length(a) + Utf16Length(b)
  {
    if a == [] {
      assert a + b == b;
    } else {
      assert (a + b)[0] == a[0] && (a + b)[1..] == a[1..] + b;
      Utf16LengthConcat(a[1..], b);
    }
  }

  /** Below U+10000 every character is one code unit. */
  lemma {:induction false} Utf16LengthBmp(s: string)
    requires forall i :: 0 <= i < |s| ==> s[i] < '\U{10000}'
    ensures Utf16Length(s) == |s|
  {
    if s != [] {
      Utf16LengthBmp(s[1..]);
    }
  }

  /** `!x || x.trim().length < 3` fails: the value is present and keeps at
      least three UTF-16 code units once trimmed. */
  predicate TrimmedAtLeast3(x: Option<string>): (b: bool)
    ensures b ==> x.Some? && |x.value| >= 2
    ensures x.Some? && |Trim(x.value)| >= 3 ==> b
  {
    x.Some? && Utf16Length(Trim(x.value)) >= 3
  }

  /** Trimmed length at least three means: some stretch of the string that
      starts and ends with a non-whitespace character spans at least three
      code units (interior whitespace counts). */
  lemma TrimmedAtLeast3Iff(s: string)
    ensures TrimmedAtLeast3(Some(s)) <==>
      exists i, k :: 0 <= i <= k < |s| && !IsSpace(s[i]) && !IsSpace(s[k]) && Utf16Length(s[i..k + 1]) >= 3
  {
    var n, r := LeadingSpaces(s), Trim(s);
    if Utf16Length(r) >= 3 {
      assert s[n] == r[0] && s[n + |r| - 1] == r[|r| - 1];
      assert s[n..n + |r| - 1 + 1] == r;
    }
    if exists i, k :: 0 <= i <= k < |s| && !IsSpace(s[i]) && !IsSpace(s[k]) && Utf16Length(s[i..k + 1]) >= 3 {
      var i, k :| 0 <= i <= k < |s| && !IsSpace(s[i]) && !IsSpace(s[k]) && Utf16Length(s[i..k + 1]) >= 3;
      TrimKeepsStretch(s, i, k);
    }
  }

  /** A stretch between two non-whitespace characters survives the trim, so
      it spans no more code units than the trimmed string. */
  lemma TrimKeepsStretch(s: string, i: nat, k: nat)
    requires i <= k < |s| && !IsSpace(s[i]) && !IsSpace(s[k])
    ensures Utf16Length(s[i..k + 1]) <= Utf16Length(Trim(s))
  {
    var n, r := LeadingSpaces(s), Trim(s);
    assert n <= i;
    assert k < n + |r|;
    var a, m, c := s[n..i], s[i..k + 1], s[k + 1..n + |r|];
    assert r == a + m + c;
    Utf16LengthConcat(a + m, c);
    Utf16LengthConcat(a, m);
  }

  /** For text without characters above U+FFFF, trimmed length at least
      three means two non-whitespace characters at least two positions
      apart. */
  lemma TrimmedAtLeast3Bmp(s: string)
    requires forall i :: 0 <= i < |s| ==> s[i] < '\U{10000}'
    ensures TrimmedAtLeast3(Some(s)) <==>
      exists i, k :: 0 <= i && i + 2 <= k < |s| && !IsSpace(s[i]) && !IsSpace(s[k])
  {
    var n, r := LeadingSpaces(s), Trim(s);
    assert forall j :: 0 <= j < |r| ==> r[j] == s[n + j];
    Utf16LengthBmp(r);
    if |r| >= 3 {
      assert s[n] == r[0] && s[n + |r| - 1] == r[|r| - 1];
      assert 0 <= n && n + 2 <= n + |r| - 1 < |s| && !IsSpace(s[n]) && !IsSpace(s[n + |r| - 1]);
    }
    if exists i, k :: 0 <= i && i + 2 <= k < |s| && !IsSpace(s[i]) && !IsSpace(s[k]) {
      var i, k :| 0 <= i && i + 2 <= k < |s| && !IsSpace(s[i]) && !IsSpace(s[k]);
      assert n <= i;
      assert k < n + |r|;
    }
  }

  /** A string of at least three characters that neither starts nor ends
      with whitespace passes the trimmed-length rule. */
  lemma UnpaddedPasses(s: string)
    requires |s| >= 3 && !IsSpace(s[0]) && !IsSpace(s[|s| - 1])
    ensures TrimmedAtLeast3(Some(s))
  {
    TrimUnpadded(s);
  }

  /** A string that neither starts nor ends with whitespace is its own trim. */
  lemma TrimUnpadded(s: string)
    requires |s| > 0 && !IsSpace(s[0]) && !IsSpace(s[|s| - 1])
    ensures Trim(s) == s
  {
    assert LeadingSpaces(s) == 0;
    assert s[0..] == s;
  }
}
