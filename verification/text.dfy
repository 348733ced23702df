/**
 * The input guard of add_task: the entry's text is passed through Python's
 * `str.strip()` and an empty result is ignored.
 */
module Text {

  /** The characters Python's `str.isspace()` accepts; `str.strip()` with no
      argument removes exactly these from both ends. */
  predicate IsSpace(c: char) {
    || ('\t' <= c <= '\r')                // tab, line feed, vertical tab, form feed, carriage return
    || ('\U{1C}' <= c <= '\U{1F}')        // file, group, record and unit separators
    || c == ' '
    || c == '\U{85}'                      // next line
    || c == '\U{A0}'                      // no-break space
    || c == '\U{1680}'
    || ('\U{2000}' <= c <= '\U{200A}')
    || c == '\U{2028}' || c == '\U{2029}'
    || c == '\U{202F}' || c == '\U{205F}' || c == '\U{3000}'
  }

  predicate AllSpace(s: string) {
    forall i :: 0 <= i < |s| ==> IsSpace(s[i])
  }

  /** Length of the longest all-space prefix. */
  function LeadingSpaces(s: string): (n: nat)
    ensures n <= |s| && AllSpace(s[..n])
    ensures n < |s| ==> !IsSpace(s[n])
  {
    if s == [] || !IsSpace(s[0]) then 0 else 1 + LeadingSpaces(s[1..])
  }

  /** Length of the longest all-space suffix. */
  function TrailingSpaces(s: string): (n: nat)
    ensures n <= |s| && AllSpace(s[|s| - n..])
    ensures n < |s| ==> !IsSpace(s[|s| - n - 1])
  {
    if s == [] || !IsSpace(s[|s| - 1]) then 0
    else
      var k := TrailingSpaces(s[..|s| - 1]);
      assert s[|s| - (k + 1)..] == s[..|s| - 1][|s| - 1 - k..] + [s[|s| - 1]];
      k + 1
  }

  /** `str.strip()`: the infix of `s` left once the space characters at both
      ends are removed (see StripInfix). */
  function Strip(s: string): (r: string)
    ensures |r| <= |s|
    ensures r == [] <==> AllSpace(s)
  {
    var body := s[LeadingSpaces(s)..];
    assert AllSpace(s) ==> LeadingSpaces(s) == |s|;
    assert !AllSpace(s) ==> !IsSpace(body[0]) && TrailingSpaces(body) < |body|;
    body[..|body| - TrailingSpaces(body)]
  }

  /** The stripped text is an infix of `s` between two all-space margins,
      and it neither starts nor ends with a space. */
  lemma StripInfix(s: string) returns (i: nat)
    ensures i + |Strip(s)| <= |s| && Strip(s) == s[i..i + |Strip(s)|]
    ensures AllSpace(s[..i]) && AllSpace(s[i + |Strip(s)|..])
    ensures Strip(s) != [] ==> !IsSpace(Strip(s)[0]) && !IsSpace(Strip(s)[|Strip(s)| - 1])
  {
    i := LeadingSpaces(s);
    var body := s[i..];
    var n := TrailingSpaces(body);
    var r := Strip(s);
    assert r == body[..|body| - n];
    assert r == s[i..i + |r|];
    assert s[i + |r|..] == body[|body| - n..];
    if r != [] {
      assert r[0] == s[i];
      assert r[|r| - 1] == body[|body| - n - 1];
    }
  }

  /** Stripping is determined by its contract: any infix with space-only
      margins and non-space ends (or empty, when all of `s` is space) is
      the stripped text. */
  lemma {:induction false} StripUnique(s: string, i: nat, r: string)
    requires i + |r| <= |s| && r == s[i..i + |r|]
    requires AllSpace(s[..i]) && AllSpace(s[i + |r|..])
    requires r != [] ==> !IsSpace(r[0]) && !IsSpace(r[|r| - 1])
    ensures r == Strip(s)
  {
    if r == [] {
      assert forall k :: 0 <= k < |s| ==> IsSpace(s[k]) by {
        forall k | 0 <= k < |s| ensures IsSpace(s[k]) {
          if k < i { assert s[..i][k] == s[k]; } else { assert s[i..][k - i] == s[k]; }
        }
      }
    } else {
      LeadingSpacesAt(s, i);
      var body := s[i..];
      var n := |body| - |r|;
      assert body[|body| - n..] == s[i + |r|..];
      assert body[|body| - n - 1] == r[|r| - 1];
      TrailingSpacesAt(body, n);
      assert body[..|r|] == r;
    }
  }

  /** A non-space character after an all-space prefix ends the leading spaces. */
  lemma {:induction false} LeadingSpacesAt(s: string, i: nat)
    requires i < |s| && AllSpace(s[..i]) && !IsSpace(s[i])
    ensures LeadingSpaces(s) == i
  {
    if i > 0 {
      assert s[..i][0] == s[0];
      assert s[1..][..i - 1] == s[..i][1..];
      LeadingSpacesAt(s[1..], i - 1);
    }
  }

  /** A non-space character before an all-space suffix ends the trailing spaces. */
  lemma {:induction false} TrailingSpacesAt(s: string, n: nat)
    requires n < |s| && AllSpace(s[|s| - n..]) && !IsSpace(s[|s| - n - 1])
    ensures TrailingSpaces(s) == n
  {
    if n > 0 {
      assert s[|s| - n..][n - 1] == s[|s| - 1];
      assert s[..|s| - 1][|s| - 1 - (n - 1)..] == s[|s| - n..][..n - 1];
      TrailingSpacesAt(s[..|s| - 1], n - 1);
    }
  }

  /** Stripping twice is stripping once. */
  lemma StripIdempotent(s: string)
    ensures Strip(Strip(s)) == Strip(s)
  {
    var r := Strip(s);
    var _ := StripInfix(s);
    if r != [] {
      assert r == r[0..0 + |r|];
      StripUnique(r, 0, r);
    }
  }

  /** Input made only of spaces, tabs and newlines strips to nothing. */
  lemma StripBlank()
    ensures Strip(" \t \n") == []
  {
    assert AllSpace(" \t \n");
  }

  /** Text with no space at either end is left as it is. */
  lemma StripPlain()
    ensures Strip("task2") == "task2"
  {
    StripUnique("task2", 0, "task2");
  }

  /** Spaces around the text go, spaces inside it stay. */
  lemma StripPadded()
    ensures Strip("  buy milk  ") == "buy milk"
  {
    StripUnique("  buy milk  ", 2, "buy milk");
  }
}
