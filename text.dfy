/**
 * The string operations of Rust's `str` that the server relies on, written out
 * with Rust's semantics: `find`, `contains`, `split`, `replace`, `trim`,
 * `trim_matches`, `trim_start_matches`, and the decimal formatting of `{}`.
 */
module Text {
  import opened Wrappers

  /** `s` has `pat` as a prefix. */
  predicate StartsWith<T(==)>(s: seq<T>, pat: seq<T>) {
    |pat| <= |s| && s[..|pat|] == pat
  }

  /** `s` has `pat` as a suffix. */
  predicate EndsWith<T(==)>(s: seq<T>, pat: seq<T>) {
    |pat| <= |s| && s[|s| - |pat|..] == pat
  }

  /** `pat` occurs somewhere in `s` (Rust `s.contains(pat)`). */
  predicate Contains(s: string, pat: string)
    decreases |s|
  {
    StartsWith(s, pat) || (|s| > 0 && Contains(s[1..], pat))
  }

  /** Rust `s.find(pat)`: the index of the leftmost occurrence of `pat`. */
  function Find(s: string, pat: string): (r: Option<nat>)
    ensures r.Some? ==> r.value + |pat| <= |s| && s[r.value..r.value + |pat|] == pat
    decreases |s|
  {
    if StartsWith(s, pat) then Some(0)
    else if |s| == 0 then None
    else match Find(s[1..], pat)
      case None => None
      case Some(j) => Some(j + 1)
  }

  /** `Find` reports the leftmost occurrence, and `None` exactly when there is none. */
  lemma {:induction false} FindLeftmost(s: string, pat: string)
    ensures var r := Find(s, pat);
            r.Some? ==> forall j :: 0 <= j < r.value ==> !StartsWith(s[j..], pat)
    ensures Find(s, pat).None? <==> !Contains(s, pat)
    decreases |s|
  {
    if !StartsWith(s, pat) && |s| > 0 {
      FindLeftmost(s[1..], pat);
      match Find(s[1..], pat)
      case None =>
      case Some(j) =>
        assert forall k :: 1 <= k <= j ==> s[k..] == s[1..][k - 1..];
    }
  }

  /**
   * Rust `s.split(sep)` for a non-empty separator: the pieces between the
   * non-overlapping occurrences of `sep`, found left to right.
   */
  function SplitOn(s: string, sep: string): (parts: seq<string>)
    requires |sep| > 0
    ensures |parts| >= 1
    decreases |s|
  {
    match Find(s, sep)
    case None => [s]
    case Some(i) => [s[..i]] + SplitOn(s[i + |sep|..], sep)
  }

  /**
   * Rust `s.replace(pat, rep)` for a non-empty pattern: every non-overlapping
   * occurrence of `pat`, scanning left to right, is replaced by `rep`, in one pass.
   */
  function Replace(s: string, pat: string, rep: string): (r: string)
    requires |pat| > 0
    decreases |s|
  {
    if |s| == 0 then ""
    else if StartsWith(s, pat) then rep + Replace(s[|pat|..], pat, rep)
    else [s[0]] + Replace(s[1..], pat, rep)
  }

  /** `c` does not occur in `s`. */
  predicate Avoids(s: string, c: char) {
    forall i :: 0 <= i < |s| ==> s[i] != c
  }

  lemma AvoidsConcat(a: string, b: string, c: char)
    requires Avoids(a, c) && Avoids(b, c)
    ensures Avoids(a + b, c)
  {
    forall i | 0 <= i < |a + b| ensures (a + b)[i] != c {
      if i >= |a| { assert (a + b)[i] == b[i - |a|]; }
    }
  }

  /** `char::is_whitespace`: the Unicode White_Space property. */
  predicate IsWhitespace(c: char) {
    ('\U{0009}' <= c <= '\U{000D}') || c == ' ' || c == '\U{0085}' || c == '\U{00A0}'
    || c == '\U{1680}' || ('\U{2000}' <= c <= '\U{200A}') || c == '\U{2028}' || c == '\U{2029}'
    || c == '\U{202F}' || c == '\U{205F}' || c == '\U{3000}'
  }

  /** Rust `s.trim_start_matches(c)` for a single character. */
  function TrimStartChar(s: string, c: char): (r: string)
    ensures |r| <= |s| && r == s[|s| - |r|..]
    ensures |r| > 0 ==> r[0] != c
    decreases |s|
  {
    if |s| > 0 && s[0] == c then TrimStartChar(s[1..], c) else s
  }

  /** Rust `s.trim_end_matches(c)` for a single character. */
  function TrimEndChar(s: string, c: char): (r: string)
    ensures |r| <= |s| && r == s[..|r|]
    ensures |r| > 0 ==> r[|r| - 1] != c
    decreases |s|
  {
    if |s| > 0 && s[|s| - 1] == c then TrimEndChar(s[..|s| - 1], c) else s
  }

  /** Rust `s.trim_matches(c)` for a single character. */
  function TrimChar(s: string, c: char): (r: string) {
    TrimEndChar(TrimStartChar(s, c), c)
  }

  /** Rust `s.trim()`: leading and trailing whitespace removed. */
  function Trim(s: string): (r: string)
    decreases |s|
  {
    if |s| > 0 && IsWhitespace(s[0]) then Trim(s[1..])
    else if |s| > 0 && IsWhitespace(s[|s| - 1]) then Trim(s[..|s| - 1])
    else s
  }

  /** The decimal digit for `d < 10`. */
  function Digit(d: nat): char
    requires d < 10
  {
    (('0' as int) + d) as char
  }

  /** Rust's `{}` formatting of an unsigned integer: its decimal digits. */
  function Decimal(n: nat): (r: string)
    decreases n
  {
    if n < 10 then [Digit(n)] else Decimal(n / 10) + [Digit(n % 10)]
  }

  /** The number a string of decimal digits denotes (a reader of `Decimal`). */
  function DecimalValue(s: string): (n: nat)
    decreases |s|
  {
    if |s| == 0 then 0
    else DecimalValue(s[..|s| - 1]) * 10 + DigitValue(s[|s| - 1])
  }

  function DigitValue(c: char): (d: nat)
    ensures d < 10
  {
    if '0' <= c <= '9' then (c as int) - ('0' as int) else 0
  }

  predicate AllDigits(s: string) {
    forall i :: 0 <= i < |s| ==> '0' <= s[i] <= '9'
  }

  /** The decimal text of `n` is non-empty, all digits, and reads back as `n`. */
  lemma {:induction false} DecimalRoundTrip(n: nat)
    ensures |Decimal(n)| > 0 && AllDigits(Decimal(n))
    ensures DecimalValue(Decimal(n)) == n
    decreases n
  {
    if n >= 10 {
      DecimalRoundTrip(n / 10);
      var s := Decimal(n);
      assert s[..|s| - 1] == Decimal(n / 10);
      assert DigitValue(s[|s| - 1]) == n % 10;
      assert forall i :: 0 <= i < |s| - 1 ==> s[i] == Decimal(n / 10)[i];
    }
  }

  /** Removing a prefix of `s` before which `pat` does not start keeps `Find` in step. */
  lemma {:induction false} FindAfterPlainPrefix(a: string, sep: string, b: string)
    requires |sep| > 0
    requires forall i :: 0 <= i < |a| ==> a[i] != sep[0]
    ensures Find(a + sep + b, sep) == Some(|a|)
    decreases |a|
  {
    if |a| > 0 {
      assert !StartsWith(a + sep + b, sep) by {
        assert (a + sep + b)[..|sep|][0] == a[0];
      }
      assert (a + sep + b)[1..] == a[1..] + sep + b;
      FindAfterPlainPrefix(a[1..], sep, b);
    } else {
      assert a + sep + b == sep + b;
    }
  }

  /** A string without the separator's first character is one piece. */
  lemma {:induction false} SplitOnPlain(a: string, sep: string)
    requires |sep| > 0
    requires forall i :: 0 <= i < |a| ==> a[i] != sep[0]
    ensures SplitOn(a, sep) == [a]
  {
    NotContainsPlain(a, sep);
  }

  lemma {:induction false} NotContainsPlain(a: string, sep: string)
    requires |sep| > 0
    requires forall i :: 0 <= i < |a| ==> a[i] != sep[0]
    ensures !Contains(a, sep)
    decreases |a|
  {
    if |a| > 0 {
      assert !StartsWith(a, sep) by {
        if |sep| <= |a| { assert a[..|sep|][0] == a[0]; }
      }
      NotContainsPlain(a[1..], sep);
    }
  }

  /**
   * Joining pieces that do not contain the separator's first character with the
   * separator, then splitting on it, gives the pieces back.
   */
  lemma {:induction false} SplitOnJoined(a: string, sep: string, b: string)
    requires |sep| > 0
    requires forall i :: 0 <= i < |a| ==> a[i] != sep[0]
    ensures SplitOn(a + sep + b, sep) == [a] + SplitOn(b, sep)
  {
    FindAfterPlainPrefix(a, sep, b);
    var s := a + sep + b;
    assert s[..|a|] == a;
    assert s[|a| + |sep|..] == b;
  }

  /** A line without `\r` followed by `\r\n` is the first piece of the split. */
  lemma CrlfLine(line: string, rest: string)
    requires Avoids(line, '\r')
    ensures SplitOn(line + "\r\n" + rest, "\r\n") == [line] + SplitOn(rest, "\r\n")
  {
    SplitOnJoined(line, "\r\n", rest);
  }

  /** A last header line, then the blank line: the split ends with two empty pieces. */
  lemma BlankLineEnd(line: string)
    requires Avoids(line, '\r')
    ensures SplitOn(line + "\r\n\r\n", "\r\n") == [line, "", ""]
  {
    var crlf := "\r\n";
    assert line + "\r\n\r\n" == line + crlf + crlf;
    SplitOnJoined(line, crlf, crlf);
    assert SplitOn(crlf, crlf) == ["", ""] by {
      EmptyLine(crlf);
    }
  }

  /** The separator alone splits into two empty pieces. */
  lemma EmptyLine(sep: string)
    requires |sep| > 0
    ensures SplitOn(sep, sep) == ["", ""]
  {
    var empty: string := [];
    assert StartsWith(sep, sep) by {
      assert sep[..|sep|] == sep;
    }
    assert Find(sep, sep) == Some(0);
    assert sep[|sep|..] == empty && sep[..0] == empty;
    assert Find(empty, sep) == None;
  }
}
