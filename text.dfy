/**
 * The few pieces of Rust's `str` and integer API that the server relies on,
 * stated over `string`. Throughout the model a character stands for one
 * octet of the connection, so the length of a string is its byte length.
 */
module Text {

  datatype Option<T> = None | Some(value: T)

  /** The line terminator of HTTP/1.1 messages. */
  const CRLF: string := "\r\n"

  /** One header field line, as both sides of the connection write it. */
  function FieldLine(name: string, value: string): string
  {
    name + ": " + value + CRLF
  }

  /** `pat` occurs in `s` starting at index `j`. */
  predicate OccursAt(s: string, pat: string, j: int)
  {
    0 <= j && j + |pat| <= |s| && s[j..j + |pat|] == pat
  }

  /** The leftmost index at which `pat` occurs in `s` (Rust's `str::find`). */
  function IndexOf(s: string, pat: string): (r: Option<nat>)
    ensures r.Some? ==> OccursAt(s, pat, r.value)
    ensures r.Some? ==> forall j :: 0 <= j < r.value ==> !OccursAt(s, pat, j)
    ensures r.None? ==> forall j :: 0 <= j ==> !OccursAt(s, pat, j)
    decreases |s|
  {
    if |s| < |pat| then None
    else if s[..|pat|] == pat then Some(0)
    else
      match IndexOf(s[1..], pat)
      case None =>
        assert forall j :: 1 <= j ==> OccursAt(s, pat, j) == OccursAt(s[1..], pat, j - 1);
        None
      case Some(i) =>
        assert forall j :: 1 <= j ==> OccursAt(s, pat, j) == OccursAt(s[1..], pat, j - 1);
        Some(i + 1)
  }

  /** Rust's `str::contains` with a string pattern. */
  predicate Contains(s: string, pat: string)
  {
    IndexOf(s, pat).Some?
  }

  /** Searching for a one-character pattern is searching for that character. */
  lemma ContainsChar(s: string, c: char)
    ensures Contains(s, [c]) <==> c in s
  {
    if c in s {
      var j :| 0 <= j < |s| && s[j] == c;
      assert OccursAt(s, [c], j);
    }
    if Contains(s, [c]) {
      var j := IndexOf(s, [c]).value;
      assert s[j..j + 1][0] == c;
    }
  }

  /** Rust's `str::starts_with` with a string pattern. */
  predicate StartsWith(s: string, prefix: string)
  {
    |prefix| <= |s| && s[..|prefix|] == prefix
  }

  /** Rust's `str::ends_with` with a string pattern. */
  predicate EndsWith(s: string, suffix: string)
  {
    |suffix| <= |s| && s[|s| - |suffix|..] == suffix
  }

  /** A suffix of `s` is a suffix of anything that ends with `s`. */
  lemma EndsWithAppend(prefix: string, s: string, suffix: string)
    requires EndsWith(s, suffix)
    ensures EndsWith(prefix + s, suffix)
  {
    assert (prefix + s)[|prefix + s| - |suffix|..] == s[|s| - |suffix|..];
  }

  /** A string is the text before an occurrence of `pat`, `pat`, and the text after it. */
  lemma AroundOccurrence(s: string, pat: string, j: int)
    requires OccursAt(s, pat, j)
    ensures s == s[..j] + pat + s[j + |pat|..]
  {
    assert s[j..] == s[j..j + |pat|] + s[j + |pat|..];
    assert s == s[..j] + s[j..];
  }

  /** The pieces put back together with `sep` between each two (Rust's `join`). */
  function Join(parts: seq<string>, sep: string): string
  {
    if parts == [] then []
    else if |parts| == 1 then parts[0]
    else parts[0] + sep + Join(parts[1..], sep)
  }

  /**
   * Rust's `str::split` with a non-empty string pattern: the pieces between
   * the non-overlapping occurrences of `sep`, found from left to right.
   * `SplitJoins` and `FirstPiece` state what the pieces are.
   */
  function Split(s: string, sep: string): (parts: seq<string>)
    requires |sep| > 0
    ensures |parts| >= 1
    ensures |parts| == 1 <==> !Contains(s, sep)
    ensures forall k :: 0 <= k < |parts| ==> !Contains(parts[k], sep)
    decreases |s|
  {
    match IndexOf(s, sep)
    case None => [s]
    case Some(i) =>
      var before := s[..i];
      assert forall j :: 0 <= j ==> OccursAt(before, sep, j) ==> OccursAt(s, sep, j);
      [before] + Split(s[i + |sep|..], sep)
  }

  /** The pieces of a split, joined with the separator, give back the string. */
  lemma {:induction false} SplitJoins(s: string, sep: string)
    requires |sep| > 0
    ensures Join(Split(s, sep), sep) == s
    decreases |s|
  {
    match IndexOf(s, sep)
    case None =>
    case Some(i) =>
      var after := s[i + |sep|..];
      var parts := Split(s, sep);
      assert parts == [s[..i]] + Split(after, sep);
      assert parts[1..] == Split(after, sep);
      SplitJoins(after, sep);
      assert Join(parts, sep) == s[..i] + sep + after;
      AroundOccurrence(s, sep, i);
  }

  /** Rust's `str::split_once`: the text before and after the first `sep`. */
  function SplitOnce(s: string, sep: string): (r: Option<(string, string)>)
    requires |sep| > 0
    ensures r.None? <==> !Contains(s, sep)
    ensures r.Some? ==> s == r.value.0 + sep + r.value.1 && !Contains(r.value.0, sep)
  {
    match IndexOf(s, sep)
    case None => None
    case Some(i) =>
      var before := s[..i];
      assert forall j :: 0 <= j ==> OccursAt(before, sep, j) ==> OccursAt(s, sep, j);
      assert s == before + sep + s[i + |sep|..];
      Some((before, s[i + |sep|..]))
  }

  /**
   * The white space characters that are one octet long: tab, line feed,
   * vertical tab, form feed, carriage return and space. `char::is_whitespace`
   * also holds of characters whose UTF-8 encoding takes two or three octets
   * (U+0085, U+00A0, U+1680, U+2000 to U+200A, U+2028, U+2029, U+202F,
   * U+205F, U+3000); the trimming functions below do not strip those.
   */
  predicate IsWhitespace(c: char)
  {
    c == ' ' || c == '\t' || c == '\n' || c == '\U{B}' || c == '\U{C}' || c == '\r'
  }

  /** Rust's `str::trim_start`, for one-octet white space. */
  function TrimStart(s: string): (r: string)
    ensures |r| <= |s| && r == s[|s| - |r|..]
    ensures r == [] || !IsWhitespace(r[0])
    ensures forall k :: 0 <= k < |s| - |r| ==> IsWhitespace(s[k])
  {
    if s != [] && IsWhitespace(s[0]) then TrimStart(s[1..]) else s
  }

  /** Rust's `str::trim_end`, for one-octet white space. */
  function TrimEnd(s: string): (r: string)
    ensures |r| <= |s| && r == s[..|r|]
    ensures r == [] || !IsWhitespace(r[|r| - 1])
    ensures forall k :: |r| <= k < |s| ==> IsWhitespace(s[k])
  {
    if s != [] && IsWhitespace(s[|s| - 1]) then TrimEnd(s[..|s| - 1]) else s
  }

  /** `trim_end` removes white space after the last other character, and no more. */
  lemma {:induction false} TrimEndAppend(s: string, tail: string)
    requires s != [] && !IsWhitespace(s[|s| - 1])
    requires forall k :: 0 <= k < |tail| ==> IsWhitespace(tail[k])
    ensures TrimEnd(s + tail) == s
  {
    if tail == [] {
      assert s + tail == s;
    } else {
      var t := tail[..|tail| - 1];
      assert (s + tail)[..|s + tail| - 1] == s + t;
      TrimEndAppend(s, t);
    }
  }

  /**
   * Trimming text that has leading white space, then a piece that starts
   * and ends with a non-white-space character, then only white space,
   * leaves the first part without its leading white space, then the piece.
   */
  lemma {:induction false} TrimAround(s: string, piece: string, tail: string)
    requires piece != [] && !IsWhitespace(piece[0]) && !IsWhitespace(piece[|piece| - 1])
    requires forall k :: 0 <= k < |tail| ==> IsWhitespace(tail[k])
    ensures Trim(s + piece + tail) == TrimStart(s) + piece
  {
    var kept := TrimStart(s) + piece;
    TrimStartPiece(s, piece, tail);
    assert kept[|kept| - 1] == piece[|piece| - 1];
    TrimEndAppend(kept, tail);
  }

  /**
   * `trim_start` stops at the first character that is not white space: in
   * text, a piece starting with such a character, and more, only the text
   * loses its leading white space.
   */
  lemma {:induction false} TrimStartPiece(s: string, piece: string, tail: string)
    requires piece != [] && !IsWhitespace(piece[0])
    ensures TrimStart(s + piece + tail) == TrimStart(s) + piece + tail
  {
    if s == [] {
      assert s + piece + tail == piece + tail;
      assert TrimStart(s) + piece + tail == piece + tail;
    } else if IsWhitespace(s[0]) {
      assert (s + piece + tail)[1..] == s[1..] + piece + tail;
      TrimStartPiece(s[1..], piece, tail);
    }
  }

  /** `trim_start` only removes characters, so it adds none. */
  lemma TrimStartKeepsOut(s: string, c: char)
    requires c !in s
    ensures c !in TrimStart(s)
  {
    var r := TrimStart(s);
    forall k | 0 <= k < |r|
      ensures r[k] != c
    {
      assert r[k] == s[|s| - |r| + k];
    }
  }

  /** Rust's `str::trim`: one-octet white space removed from both ends. */
  function Trim(s: string): string
  {
    TrimEnd(TrimStart(s))
  }

  /**
   * Trimming a string that starts and ends with a non-white-space character
   * and is followed only by white space gives back that string.
   */
  lemma {:induction false} TrimTrailing(s: string, tail: string)
    requires s != [] && !IsWhitespace(s[0]) && !IsWhitespace(s[|s| - 1])
    requires forall k :: 0 <= k < |tail| ==> IsWhitespace(tail[k])
    ensures Trim(s + tail) == s
  {
    assert TrimStart(s + tail) == s + tail;
    TrimEndAppend(s, tail);
  }

  predicate IsDigit(c: char)
  {
    '0' <= c <= '9'
  }

  predicate AllDigits(s: string)
  {
    forall k :: 0 <= k < |s| ==> IsDigit(s[k])
  }

  /** The value of a string of decimal digits, most significant first. */
  function DigitsValue(s: string): nat
    requires AllDigits(s)
  {
    if s == [] then 0
    else DigitsValue(s[..|s| - 1]) * 10 + (s[|s| - 1] as int - '0' as int)
  }

  /** Decimal notation without leading zeros, as `format!("{}", n)` writes it. */
  function Decimal(n: nat): (r: string)
    decreases n
  {
    if n < 10 then [('0' as int + n) as char]
    else Decimal(n / 10) + [('0' as int + n % 10) as char]
  }

  /** The decimal notation is a non-empty string of digits that reads back as `n`. */
  lemma {:induction false} DecimalDigits(n: nat)
    ensures Decimal(n) != [] && AllDigits(Decimal(n))
    ensures DigitsValue(Decimal(n)) == n
    decreases n
  {
    if n >= 10 {
      DecimalDigits(n / 10);
      var d := Decimal(n);
      assert d[..|d| - 1] == Decimal(n / 10);
    }
  }

  const U64_LIMIT: nat := 0x1_0000_0000_0000_0000

  /**
   * Rust's `u64::from_str`: an optional `+`, then one or more decimal digits
   * whose value fits in 64 bits. Anything else (the empty string, a lone
   * `+`, a sign `-`, white space, an overflow) is a parse error.
   */
  function ParseU64(s: string): (r: Option<nat>)
    ensures r.Some? ==> r.value < U64_LIMIT
  {
    if s == [] then None
    else
      var digits := if s[0] == '+' then s[1..] else s;
      if digits == [] || !AllDigits(digits) then None
      else
        var v := DigitsValue(digits);
        if v < U64_LIMIT then Some(v) else None
  }

  /** Formatting a 64-bit length and parsing it back gives the same length. */
  lemma DecimalParses(n: nat)
    requires n < U64_LIMIT
    ensures ParseU64(Decimal(n)) == Some(n)
  {
    DecimalDigits(n);
  }

  /** A string with a non-digit (other than a leading `+`) never parses. */
  lemma NonDigitRejected(s: string, k: nat)
    requires k < |s| && !IsDigit(s[k]) && !(k == 0 && s[k] == '+')
    ensures ParseU64(s) == None
  {
  }

  /** `pat` is found exactly where it is placed when its first character does not occur before it. */
  lemma {:induction false} IndexOfAfter(a: string, pat: string, b: string)
    requires |pat| > 0 && pat[0] !in a
    ensures IndexOf(a + pat + b, pat) == Some(|a|)
  {
    var s := a + pat + b;
    assert OccursAt(s, pat, |a|);
    forall j | 0 <= j < |a|
      ensures !OccursAt(s, pat, j)
    {
      assert s[j] == a[j];
    }
  }

  /** Splitting at a separator whose first character does not occur before it. */
  lemma SplitAfter(a: string, sep: string, b: string)
    requires |sep| > 0 && sep[0] !in a
    ensures Split(a + sep + b, sep) == [a] + Split(b, sep)
  {
    IndexOfAfter(a, sep, b);
    var s := a + sep + b;
    assert s[..|a|] == a;
    assert s[|a| + |sep|..] == b;
  }

  /** The same, for `split_once`. */
  lemma SplitOnceAfter(a: string, sep: string, b: string)
    requires |sep| > 0 && sep[0] !in a
    ensures SplitOnce(a + sep + b, sep) == Some((a, b))
  {
    IndexOfAfter(a, sep, b);
    var s := a + sep + b;
    assert s[..|a|] == a;
    assert s[|a| + |sep|..] == b;
  }

  /** The same, with the separator and what follows it given as one piece. */
  lemma SplitOnceLead(a: string, sep: string, b: string)
    requires |sep| > 0 && sep[0] !in a
    ensures SplitOnce(a + (sep + b), sep) == Some((a, b))
  {
    assert a + (sep + b) == a + sep + b;
    SplitOnceAfter(a, sep, b);
  }

  /** A string that starts with the separator splits into an empty first piece and the pieces of the rest. */
  lemma SplitLeadingSep(s: string, sep: string)
    requires |sep| > 0 && StartsWith(s, sep)
    ensures Split(s, sep) == [[]] + Split(s[|sep|..], sep)
  {
  }

  /**
   * The first piece of a split is the text before the leftmost occurrence
   * of the separator, or the whole string when there is none: it is a
   * prefix, holds no separator, and is either the whole string or followed
   * by the separator.
   */
  lemma FirstPiece(s: string, sep: string)
    requires |sep| > 0
    ensures StartsWith(s, Split(s, sep)[0])
    ensures !Contains(Split(s, sep)[0], sep)
    ensures Split(s, sep)[0] == s || StartsWith(s[|Split(s, sep)[0]|..], sep)
    ensures IndexOf(s, sep) == (if Split(s, sep)[0] == s then None else Some(|Split(s, sep)[0]|))
  {
    match IndexOf(s, sep)
    case None =>
    case Some(i) =>
      var p := s[..i];
      assert forall j :: 0 <= j ==> OccursAt(p, sep, j) ==> OccursAt(s, sep, j);
      assert s[i..][..|sep|] == s[i..i + |sep|];
  }

  /** A string lacking some character of `pat` does not contain `pat`. */
  lemma MissingCharNotContained(s: string, pat: string, k: nat)
    requires k < |pat| && pat[k] !in s
    ensures !Contains(s, pat)
  {
  }
}
