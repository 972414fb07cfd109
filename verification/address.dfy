/**
 * The address check shared by both clients: Python's
 * `re.match(r"^[a-zA-Z0-9._%+-]+@[a-zA-Z0-9.-]+\.[a-zA-Z]{2,}$", s)`.
 *
 * `FullMatch` states the pattern declaratively (some split of the string into
 * local part, `@`, domain, `.`, top-level label); `IsValid` decides it by
 * scanning for the first `@` and the last `.`; `ScanIff` and the contract
 * of `IsValid` tie the two together.  Python's `$` also matches just before a
 * newline that ends the string, so an address followed by one `"\n"` passes.
 */
module Address {
  import opened Wrappers
  import opened Text

  predicate IsLetter(c: char) { 'A' <= c <= 'Z' || 'a' <= c <= 'z' }

  predicate IsDigit(c: char) { '0' <= c <= '9' }

  /** The class `[a-zA-Z0-9._%+-]` of the local part. */
  predicate IsLocalChar(c: char) {
    IsLetter(c) || IsDigit(c) || c == '.' || c == '_' || c == '%' || c == '+' || c == '-'
  }

  /** The class `[a-zA-Z0-9.-]` of the domain. */
  predicate IsDomainChar(c: char) {
    IsLetter(c) || IsDigit(c) || c == '.' || c == '-'
  }

  /**
   * `s` reads as local part `s[..at]`, `@`, domain `s[at+1..dot]`, `.`, and a
   * top-level label `s[dot+1..]` of at least two letters.
   */
  predicate SplitsAt(s: string, at: int, dot: int) {
    && 0 < at && at + 1 < dot && dot + 2 < |s|
    && (forall k :: 0 <= k < at ==> IsLocalChar(s[k]))
    && s[at] == '@'
    && (forall k :: at < k < dot ==> IsDomainChar(s[k]))
    && s[dot] == '.'
    && (forall k :: dot < k < |s| ==> IsLetter(s[k]))
  }

  /** The pattern between `^` and `$`, matched against the whole of `s`. */
  ghost predicate FullMatch(s: string) {
    exists at, dot :: SplitsAt(s, at, dot)
  }

  /** What `re.match` with a trailing `$` accepts: the pattern, optionally followed by one newline. */
  ghost predicate PatternMatches(s: string) {
    FullMatch(s) || (|s| > 0 && s[|s| - 1] == '\n' && FullMatch(s[..|s| - 1]))
  }

  predicate AllLocal(s: string) { forall k :: 0 <= k < |s| ==> IsLocalChar(s[k]) }

  predicate AllDomain(s: string) { forall k :: 0 <= k < |s| ==> IsDomainChar(s[k]) }

  predicate AllLetters(s: string) { forall k :: 0 <= k < |s| ==> IsLetter(s[k]) }

  /** The domain side, after the `@`: its last `.` starts a label of two or more letters. */
  predicate DomainMatches(d: string) {
    match LastIndexOf(d, '.')
    case None => false
    case Some(dot) => 0 < dot && |d| - dot > 2 && AllDomain(d[..dot]) && AllLetters(d[dot + 1..])
  }

  /** Decides `FullMatch` by cutting at the first `@` (the local part cannot hold one). */
  predicate Scan(s: string) {
    match IndexOf(s, '@')
    case None => false
    case Some(at) => 0 < at && AllLocal(s[..at]) && DomainMatches(s[at + 1..])
  }

  /** Whatever the scanner accepts matches the pattern. */
  lemma ScanSound(s: string)
    requires Scan(s)
    ensures FullMatch(s)
  {
    var at := IndexOf(s, '@').value;
    forall k | 0 <= k < at
      ensures IsLocalChar(s[k])
    {
      assert s[k] == s[..at][k];
    }
    var dd := LastIndexOf(s[at + 1..], '.').value;
    DomainSound(s, at, dd);
    assert SplitsAt(s, at, at + 1 + dd);
  }

  /** What `DomainMatches` says about the domain side, read back on the whole string. */
  lemma DomainSound(s: string, at: nat, dd: nat)
    requires at < |s| && DomainMatches(s[at + 1..]) && LastIndexOf(s[at + 1..], '.') == Some(dd)
    ensures var dot := at + 1 + dd;
            && at + 1 < dot && dot + 2 < |s| && s[dot] == '.'
            && (forall k :: at < k < dot ==> IsDomainChar(s[k]))
            && (forall k :: dot < k < |s| ==> IsLetter(s[k]))
  {
    var d := s[at + 1..];
    var dot := at + 1 + dd;
    assert s[dot] == d[dd];
    forall k | at < k < dot
      ensures IsDomainChar(s[k])
    {
      assert s[k] == d[k - at - 1] == d[..dd][k - at - 1];
    }
    forall k | dot < k < |s|
      ensures IsLetter(s[k])
    {
      assert s[k] == d[k - at - 1] == d[dd + 1..][k - dot - 1];
    }
  }

  /** The first `@` of a matching string is the one after the local part. */
  lemma FirstAt(s: string, at: int, dot: int)
    requires SplitsAt(s, at, dot)
    ensures IndexOf(s, '@') == Some(at)
  {
    assert s[at] == '@';
  }

  /** The last `.` of a matching string's domain side starts the top-level label. */
  lemma LastDot(s: string, at: int, dot: int)
    requires SplitsAt(s, at, dot)
    ensures LastIndexOf(s[at + 1..], '.') == Some(dot - at - 1)
  {
    var d := s[at + 1..];
    assert d[dot - at - 1] == '.';
    assert forall k :: dot - at - 1 < k < |d| ==> d[k] == s[at + 1 + k];
  }

  /** Every character of `s[i..j]` satisfies `p` when every `s[k]` with `i <= k < j` does. */
  lemma SliceAll(s: string, i: nat, j: nat, p: char -> bool)
    requires i <= j <= |s|
    requires forall k :: i <= k < j ==> p(s[k])
    ensures forall k :: 0 <= k < j - i ==> p(s[i..j][k])
  {
    forall k | 0 <= k < j - i ensures p(s[i..j][k]) {
      assert s[i..j][k] == s[i + k];
    }
  }

  /** The domain side of a matching string passes `DomainMatches`. */
  lemma DomainSide(s: string, at: int, dot: int)
    requires SplitsAt(s, at, dot)
    ensures DomainMatches(s[at + 1..])
  {
    LastDot(s, at, dot);
    var d := s[at + 1..];
    var dd := dot - at - 1;
    SliceAll(s, at + 1, dot, IsDomainChar);
    assert d[..dd] == s[at + 1..dot];
    assert AllDomain(d[..dd]);
    SliceAll(s, dot + 1, |s|, IsLetter);
    assert d[dd + 1..] == s[dot + 1..|s|];
    assert AllLetters(d[dd + 1..]);
  }

  /** Whatever matches the pattern the scanner accepts. */
  lemma ScanComplete(s: string)
    requires FullMatch(s)
    ensures Scan(s)
  {
    var at, dot :| SplitsAt(s, at, dot);
    FirstAt(s, at, dot);
    DomainSide(s, at, dot);
    SliceAll(s, 0, at, IsLocalChar);
    assert s[..at] == s[0..at];
    assert AllLocal(s[..at]);
  }

  /** The scanner and the declarative pattern agree on every string. */
  lemma ScanIff(s: string)
    ensures Scan(s) <==> FullMatch(s)
  {
    if Scan(s) {
      ScanSound(s);
    }
    if FullMatch(s) {
      ScanComplete(s);
    }
  }

  /**
   * `validate_email_address` in both clients: true exactly when the regular
   * expression matches, that is, the pattern optionally followed by one `"\n"`.
   */
  function IsValid(s: string): (valid: bool)
    ensures valid <==> PatternMatches(s)
  {
    ScanIff(s);
    if |s| > 0 then ScanIff(s[..|s| - 1]); Scan(s) || (s[|s| - 1] == '\n' && Scan(s[..|s| - 1]))
    else Scan(s)
  }

  /** A string that ends in a line feed never matches the pattern itself. */
  lemma NoMatchEndingInNewline(t: string)
    requires |t| > 0 && t[|t| - 1] == '\n'
    ensures !FullMatch(t)
  {
    forall at, dot ensures !SplitsAt(t, at, dot) {
      if 0 <= dot < |t| - 1 {
        assert !IsLetter(t[|t| - 1]);
      }
    }
  }

  /** Python's `$` lets one trailing newline through, but not two. */
  lemma NewlineTolerance(s: string)
    requires FullMatch(s)
    ensures IsValid(s) && IsValid(s + "\n") && !IsValid(s + "\n\n")
  {
    assert (s + "\n")[..|s|] == s;
    var t := s + "\n\n";
    assert t[..|t| - 1] == s + "\n";
    NoMatchEndingInNewline(t);
    NoMatchEndingInNewline(s + "\n");
  }

  /** Neither a NUL, a line break nor a space. */
  predicate Plain(c: char) {
    c != '\0' && c != '\r' && c != ' ' && c != '\n' && c != '<' && c != '>'
  }

  /** No character of a matching string is a NUL, a line break or a space. */
  lemma MatchShape(m: string)
    requires FullMatch(m)
    ensures |m| >= 6
    ensures forall k :: 0 <= k < |m| ==> Plain(m[k])
  {
    var at, dot :| SplitsAt(m, at, dot);
    forall k | 0 <= k < |m|
      ensures Plain(m[k])
    {
      if k < at {
        assert IsLocalChar(m[k]);
      } else if k == at || k == dot {
      } else if k < dot {
        assert IsDomainChar(m[k]);
      } else {
        assert IsLetter(m[k]);
      }
    }
  }

  /**
   * A valid address is at least six characters long and holds no NUL,
   * carriage return or space; a line feed can only be its last character.
   */
  lemma ValidShape(s: string)
    requires IsValid(s)
    ensures |s| >= 6
    ensures forall k :: 0 <= k < |s| ==> s[k] != '\0' && s[k] != '\r' && s[k] != ' ' && s[k] != '<' && s[k] != '>'
    ensures forall k :: 0 <= k < |s| - 1 ==> s[k] != '\n'
  {
    if FullMatch(s) {
      MatchShape(s);
    } else {
      NewlineShape(s);
    }
  }

  /** The shape of a valid address that is a match followed by a line feed. */
  lemma NewlineShape(s: string)
    requires |s| > 0 && s[|s| - 1] == '\n' && FullMatch(s[..|s| - 1])
    ensures |s| >= 7
    ensures forall k :: 0 <= k < |s| - 1 ==> Plain(s[k])
  {
    var m := s[..|s| - 1];
    MatchShape(m);
    assert forall k :: 0 <= k < |s| - 1 ==> s[k] == m[k];
  }
}
