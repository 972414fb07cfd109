/**
 * The few Python string operations the SMTP code relies on: `str.strip()`,
 * `str.startswith`, the `in` substring test, `str.join`, and searching for
 * a character.
 */
module Text {
  import opened Wrappers

  /** The characters Python's `str.isspace()` accepts, which `str.strip()` removes. */
  predicate IsSpace(c: char) {
    var n := c as int;
    n == 0x20 || 0x09 <= n <= 0x0D || 0x1C <= n <= 0x1F || n == 0x85 || n == 0xA0
    || n == 0x1680 || 0x2000 <= n <= 0x200A || n == 0x2028 || n == 0x2029
    || n == 0x202F || n == 0x205F || n == 0x3000
  }

  /** How many whitespace characters `s` starts with. */
  function Lead(s: string): (n: nat)
    ensures n <= |s|
    ensures forall k :: 0 <= k < n ==> IsSpace(s[k])
    ensures n == |s| || !IsSpace(s[n])
    decreases |s|
  {
    if |s| > 0 && IsSpace(s[0]) then
      var m := Lead(s[1..]);
      assert forall k :: 1 <= k < m + 1 ==> s[k] == s[1..][k - 1];
      m + 1
    else 0
  }

  /** The length of `s` once its trailing whitespace is cut off. */
  function Span(s: string): (n: nat)
    ensures n <= |s|
    ensures forall k :: n <= k < |s| ==> IsSpace(s[k])
    ensures n == 0 || !IsSpace(s[n - 1])
    decreases |s|
  {
    if |s| > 0 && IsSpace(s[|s| - 1]) then Span(s[..|s| - 1]) else |s|
  }

  /** `Lead` is the only count of leading whitespace followed by a visible character or the end. */
  lemma LeadUnique(s: string, n: nat)
    requires n <= |s| && (forall k :: 0 <= k < n ==> IsSpace(s[k])) && (n == |s| || !IsSpace(s[n]))
    ensures Lead(s) == n
  {
  }

  /** `Span` is the only cut with whitespace after it and a visible character or the start before it. */
  lemma SpanUnique(s: string, n: nat)
    requires n <= |s| && (forall k :: n <= k < |s| ==> IsSpace(s[k])) && (n == 0 || !IsSpace(s[n - 1]))
    ensures Span(s) == n
  {
  }

  /**
   * Python's `str.strip()`: the slice of `s` that starts after its leading
   * whitespace and is followed only by whitespace; it neither starts nor ends
   * with whitespace.
   */
  function Strip(s: string): (r: string)
    ensures Lead(s) + |r| <= |s| && r == s[Lead(s)..Lead(s) + |r|]
    ensures forall k :: Lead(s) + |r| <= k < |s| ==> IsSpace(s[k])
    ensures r == [] || (!IsSpace(r[0]) && !IsSpace(r[|r| - 1]))
  {
    var i := Lead(s);
    if i == |s| then []
    else
      assert i < Span(s);
      s[i..Span(s)]
  }

  /** The first character of `Strip(s)` is the first non-whitespace character of `s`. */
  lemma StripFirst(s: string, k: nat)
    requires k < |s| && !IsSpace(s[k])
    requires forall j :: 0 <= j < k ==> IsSpace(s[j])
    ensures Strip(s) != [] && Strip(s)[0] == s[k]
  {
    LeadUnique(s, k);
  }

  /** Text with no whitespace at either end is left as it is. */
  lemma StripUnchanged(s: string)
    requires s == [] || (!IsSpace(s[0]) && !IsSpace(s[|s| - 1]))
    ensures Strip(s) == s
  {
    if s != [] {
      LeadUnique(s, 0);
      SpanUnique(s, |s|);
    }
  }

  /** Trailing whitespace after text with visible ends is stripped away. */
  lemma StripTrailing(s: string, w: string)
    requires |s| > 0 && !IsSpace(s[0]) && !IsSpace(s[|s| - 1])
    requires forall k :: 0 <= k < |w| ==> IsSpace(w[k])
    ensures Strip(s + w) == s
  {
    var x := s + w;
    assert x[0] == s[0] && x[|s| - 1] == s[|s| - 1];
    assert forall k :: |s| <= k < |x| ==> x[k] == w[k - |s|];
    LeadUnique(x, 0);
    SpanUnique(x, |s|);
    assert x[..|s|] == s;
  }

  /** Stripping twice is stripping once. */
  lemma StripIdempotent(s: string)
    ensures Strip(Strip(s)) == Strip(s)
  {
    StripUnchanged(Strip(s));
  }

  /** `Strip(s)` is empty exactly when `s` is all whitespace. */
  lemma StripEmpty(s: string)
    ensures Strip(s) == [] <==> forall k :: 0 <= k < |s| ==> IsSpace(s[k])
  {
    if Strip(s) == [] {
      assert Lead(s) == |s|;
    } else {
      assert !IsSpace(s[Lead(s)]);
    }
  }

  /** `s` holds neither a carriage return nor a line feed. */
  predicate NoBreak(s: string) {
    forall k :: 0 <= k < |s| ==> s[k] != '\r' && s[k] != '\n'
  }

  /** Python's `s.startswith(p)`. */
  predicate StartsWith(s: string, p: string) {
    |p| <= |s| && s[..|p|] == p
  }

  /** Python's `sub in s`. */
  predicate Contains(s: string, sub: string)
    decreases |s|
  {
    StartsWith(s, sub) || (|s| > 0 && Contains(s[1..], sub))
  }

  /** `sub` occurs in `s` starting at position `i`. */
  predicate OccursAt(s: string, sub: string, i: int) {
    0 <= i <= |s| - |sub| && s[i..i + |sub|] == sub
  }

  /** `Contains` holds exactly when `sub` occurs at some position of `s`. */
  lemma {:induction false} ContainsAt(s: string, sub: string)
    ensures Contains(s, sub) <==> exists i :: OccursAt(s, sub, i)
    decreases |s|
  {
    if StartsWith(s, sub) {
      assert OccursAt(s, sub, 0);
    }
    if |s| > 0 {
      ContainsAt(s[1..], sub);
      if Contains(s[1..], sub) {
        var i :| OccursAt(s[1..], sub, i);
        assert OccursAt(s, sub, i + 1);
      }
      if exists i :: OccursAt(s, sub, i) {
        var i :| OccursAt(s, sub, i);
        if i > 0 {
          assert OccursAt(s[1..], sub, i - 1);
        } else {
          assert StartsWith(s, sub);
        }
      }
    } else {
      if exists i :: OccursAt(s, sub, i) {
        var i :| OccursAt(s, sub, i);
        assert StartsWith(s, sub);
      }
    }
  }

  /**
   * Putting in front of `s` a text that never holds the first character of
   * `sub` changes nothing about whether `sub` occurs.
   */
  lemma {:induction false} ContainsPastPrefix(p: string, s: string, sub: string)
    requires |sub| > 0 && sub[0] !in p
    ensures Contains(p + s, sub) <==> Contains(s, sub)
    decreases |p|
  {
    if |p| > 0 {
      assert (p + s)[0] == p[0] != sub[0];
      assert !StartsWith(p + s, sub);
      assert (p + s)[1..] == p[1..] + s;
      ContainsPastPrefix(p[1..], s, sub);
    } else {
      assert p + s == s;
    }
  }

  /** A text without the first character of `sub` does not contain `sub`. */
  lemma NotContainedWithout(s: string, sub: string)
    requires |sub| > 0 && sub[0] !in s
    ensures !Contains(s, sub)
  {
    ContainsPastPrefix(s, "", sub);
    assert s + "" == s;
  }

  /**
   * `sub` is not in `head + tail` when its first character occurs neither in
   * `head` nor after the first character of `tail`, and `tail` does not start
   * with it.
   */
  lemma NotContainedAround(head: string, tail: string, sub: string)
    requires |sub| > 0 && sub[0] !in head && |tail| > 0 && !StartsWith(tail, sub) && sub[0] !in tail[1..]
    ensures !Contains(head + tail, sub)
  {
    NotContainedWithout(tail[1..], sub);
    ContainsPastPrefix(head, tail, sub);
  }

  /** Python's `sep.join(parts)`. */
  function Join(parts: seq<string>, sep: string): string
    decreases |parts|
  {
    if |parts| == 0 then ""
    else if |parts| == 1 then parts[0]
    else parts[0] + sep + Join(parts[1..], sep)
  }

  /** With a non-empty separator, the join is empty only for no parts or one empty part. */
  lemma JoinEmpty(parts: seq<string>, sep: string)
    requires |sep| > 0
    ensures Join(parts, sep) == "" <==> |parts| == 0 || parts == [""]
  {
    if |parts| == 1 {
      assert parts == [parts[0]];
    }
  }

  /** Every part followed by the terminator `t`. */
  function Terminated(parts: seq<string>, t: string): string
    decreases |parts|
  {
    if |parts| == 0 then "" else parts[0] + t + Terminated(parts[1..], t)
  }

  /** Joining with `sep` and appending one more `sep` terminates every part with `sep`. */
  lemma {:induction false} JoinThenTerminate(parts: seq<string>, sep: string)
    requires |parts| > 0
    ensures Join(parts, sep) + sep == Terminated(parts, sep)
    decreases |parts|
  {
    if |parts| > 1 {
      JoinThenTerminate(parts[1..], sep);
      assert Join(parts, sep) + sep == parts[0] + sep + (Join(parts[1..], sep) + sep);
    } else {
      assert Terminated(parts[1..], sep) == "";
    }
  }

  /** The first position of `c` in `s`, if any. */
  function IndexOf(s: string, c: char): (r: Option<nat>)
    ensures r.None? <==> c !in s
    ensures r.Some? ==> r.value < |s| && s[r.value] == c && c !in s[..r.value]
    decreases |s|
  {
    if |s| == 0 then None
    else if s[0] == c then Some(0)
    else match IndexOf(s[1..], c)
      case None => None
      case Some(i) =>
        assert s[..i + 1] == [s[0]] + s[1..][..i];
        Some(i + 1)
  }

  /** The last position of `c` in `s`, if any. */
  function LastIndexOf(s: string, c: char): (r: Option<nat>)
    ensures r.None? <==> c !in s
    ensures r.Some? ==> r.value < |s| && s[r.value] == c && c !in s[r.value + 1..]
    decreases |s|
  {
    if |s| == 0 then None
    else if s[|s| - 1] == c then Some(|s| - 1)
    else
      assert s == s[..|s| - 1] + [s[|s| - 1]];
      match LastIndexOf(s[..|s| - 1], c)
      case None => None
      case Some(i) =>
        assert s[i + 1..] == s[..|s| - 1][i + 1..] + [s[|s| - 1]];
        Some(i)
  }
}
