/**
 * The `str` methods the configuration and metadata parsers rely on: `trim`, `trim_matches`,
 * `split_once`, `lines`, `starts_with`/`ends_with`, `to_ascii_uppercase`, and the integer
 * parsers `u64::from_str`, `u8::from_str` and `u32::from_str_radix`.
 */
module Text {
  import opened Wrappers

  type Str = seq<char>

  /** `char::is_whitespace`: the characters with the Unicode White_Space property. */
  predicate IsWhitespace(c: char)
  {
    ('\t' <= c <= '\r') || c == ' ' || c == '\U{85}' || c == '\U{A0}' || c == '\U{1680}' ||
    ('\U{2000}' <= c <= '\U{200A}') || c == '\U{2028}' || c == '\U{2029}' || c == '\U{202F}' ||
    c == '\U{205F}' || c == '\U{3000}'
  }

  /** Length of the longest prefix of `s` made of `p`-characters. */
  function LeadingCount(s: Str, p: char -> bool): (n: nat)
    ensures n <= |s|
    ensures forall i :: 0 <= i < n ==> p(s[i])
    ensures n < |s| ==> !p(s[n])
  {
    if s == [] || !p(s[0]) then 0 else 1 + LeadingCount(s[1..], p)
  }

  /** Length of the longest suffix of `s` made of `p`-characters. */
  function TrailingCount(s: Str, p: char -> bool): (n: nat)
    ensures n <= |s|
    ensures forall i :: |s| - n <= i < |s| ==> p(s[i])
    ensures n < |s| ==> !p(s[|s| - n - 1])
  {
    if s == [] || !p(s[|s| - 1]) then 0 else 1 + TrailingCount(s[..|s| - 1], p)
  }

  /**
   * `s.trim_matches(p)`: `s` without its leading and trailing `p`-characters; the result is
   * the infix that neither starts nor ends with one and everything removed satisfies `p`.
   */
  function TrimMatchesBy(s: Str, p: char -> bool): (r: Str)
    ensures exists i, j :: (0 <= i <= j <= |s| && r == s[i..j] &&
                            (forall k :: 0 <= k < i ==> p(s[k])) && (forall k :: j <= k < |s| ==> p(s[k])))
    ensures r != [] ==> !p(r[0]) && !p(r[|r| - 1])
    ensures (forall k :: 0 <= k < |s| ==> !p(s[k])) ==> r == s
  {
    var a := LeadingCount(s, p);
    var rest := s[a..];
    var b := TrailingCount(rest, p);
    var r := rest[..|rest| - b];
    assert r == s[a..|s| - b];
    assert b < |rest| ==> a < |s| - b;
    r
  }

  /** `str::trim`. */
  function Trim(s: Str): (r: Str)
    ensures exists i, j :: (0 <= i <= j <= |s| && r == s[i..j] &&
                            (forall k :: 0 <= k < i ==> IsWhitespace(s[k])) &&
                            (forall k :: j <= k < |s| ==> IsWhitespace(s[k])))
    ensures r != [] ==> !IsWhitespace(r[0]) && !IsWhitespace(r[|r| - 1])
  {
    TrimMatchesBy(s, IsWhitespace)
  }

  predicate IsQuote(c: char) { c == '"' }

  /** `str::trim_matches('"')`: `s` without its surrounding double quotes. */
  function TrimQuotes(s: Str): (r: Str)
    ensures exists i, j :: (0 <= i <= j <= |s| && r == s[i..j] &&
                            (forall k :: 0 <= k < i ==> s[k] == '"') && (forall k :: j <= k < |s| ==> s[k] == '"'))
    ensures r != [] ==> r[0] != '"' && r[|r| - 1] != '"'
  {
    TrimMatchesBy(s, IsQuote)
  }

  /** Index of the first `c` in `s`, or |s| when there is none. */
  function IndexOf(s: Str, c: char): (k: nat)
    ensures k <= |s|
    ensures k < |s| ==> s[k] == c
    ensures forall i :: 0 <= i < k ==> s[i] != c
  {
    if s == [] then 0 else if s[0] == c then 0 else 1 + IndexOf(s[1..], c)
  }

  /** The first `c` of `a + [c] + b` is the one after `a` when `a` has none. */
  lemma IndexOfFirst(a: Str, c: char, b: Str)
    requires c !in a
    ensures IndexOf(a + [c] + b, c) == |a|
    ensures (a + [c] + b)[..|a|] == a && (a + [c] + b)[|a| + 1..] == b
  {
    var s := a + [c] + b;
    assert forall i :: 0 <= i < |a| ==> s[i] == a[i];
    assert s[|a|] == c;
  }

  /** `s.split_once(c)`: the parts before and after the first `c`. */
  function SplitOnce(s: Str, c: char): (r: Option<(Str, Str)>)
    ensures r.None? <==> c !in s
    ensures r.Some? ==> s == r.value.0 + [c] + r.value.1 && c !in r.value.0
  {
    var k := IndexOf(s, c);
    if k == |s| then None
    else
      assert s == s[..k] + [c] + s[k + 1..];
      Some((s[..k], s[k + 1..]))
  }

  /**
   * `s.lines()`: the pieces between line feeds; a line that ended in "\r\n" loses the
   * carriage return too, and a final line feed does not start another (empty) line.
   */
  function Lines(s: Str): (ls: seq<Str>)
    ensures s == [] <==> ls == []
    ensures forall l :: l in ls ==> '\n' !in l
    decreases |s|
  {
    if s == [] then []
    else
      var k := IndexOf(s, '\n');
      if k == |s| then [s]
      else
        var l := s[..k];
        [if l != [] && l[|l| - 1] == '\r' then l[..|l| - 1] else l] + Lines(s[k + 1..])
  }

  /** `split_once` splits at the first separator, so a part without it is split off whole. */
  lemma SplitOnceAtFirst(a: Str, c: char, b: Str)
    requires c !in a
    ensures SplitOnce(a + [c] + b, c) == Some((a, b))
  {
    IndexOfFirst(a, c, b);
  }

  /** Lines each ended by a line feed, as a text file holds them. */
  function Terminated(ls: seq<Str>): Str
  {
    if ls == [] then [] else ls[0] + "\n" + Terminated(ls[1..])
  }

  /** A line that `lines` gives back as it is: no line feed, no final carriage return. */
  predicate PlainLine(l: Str)
  {
    '\n' !in l && (l == [] || l[|l| - 1] != '\r')
  }

  /** `lines` takes a text of terminated lines apart into those lines. */
  lemma {:induction false} LinesOfTerminated(ls: seq<Str>)
    requires forall i :: 0 <= i < |ls| ==> PlainLine(ls[i])
    ensures Lines(Terminated(ls)) == ls
  {
    if ls != [] {
      IndexOfFirst(ls[0], '\n', Terminated(ls[1..]));
      LinesOfTerminated(ls[1..]);
    }
  }

  predicate StartsWith(s: Str, p: Str) { |p| <= |s| && s[..|p|] == p }
  predicate EndsWith(s: Str, p: Str) { |p| <= |s| && s[|s| - |p|..] == p }

  /** `u8::to_ascii_uppercase` on a character. */
  function AsciiUpper(c: char): (r: char)
    ensures 'a' <= c <= 'z' ==> r as int == c as int - 32
    ensures !('a' <= c <= 'z') ==> r == c
  {
    if 'a' <= c <= 'z' then (c as int - 32) as char else c
  }

  /** The value of a digit in the given radix, or -1 when it is not one. */
  function DigitValue(c: char, radix: nat): (d: int)
    requires 2 <= radix <= 36
    ensures -1 <= d < radix
  {
    var v :=
      if '0' <= c <= '9' then c as int - '0' as int
      else if 'a' <= c <= 'z' then c as int - 'a' as int + 10
      else if 'A' <= c <= 'Z' then c as int - 'A' as int + 10
      else -1;
    if v < radix then v else -1
  }

  /** `n` moved up one digit place. */
  function Shift(n: nat, radix: nat): nat
  {
    n * radix
  }

  /** The number a sequence of digits spells. */
  function DigitsValue(ds: Str, radix: nat): nat
    requires 2 <= radix <= 36
    requires forall i :: 0 <= i < |ds| ==> DigitValue(ds[i], radix) >= 0
  {
    if ds == [] then 0
    else
      Shift(DigitsValue(ds[..|ds| - 1], radix), radix) + DigitValue(ds[|ds| - 1], radix)
  }

  /**
   * `from_str_radix` for an unsigned type whose largest value is `max`: an optional '+'
   * followed by at least one digit, and a value no larger than `max`.
   */
  function ParseUnsigned(s: Str, radix: nat, max: nat): (r: Option<nat>)
    requires 2 <= radix <= 36
    ensures r.Some? ==> r.value <= max
    ensures r.Some? ==> s != [] && s != "+"
    ensures r.Some? <==> (
      var ds := if s != [] && s[0] == '+' then s[1..] else s;
      ds != [] && (forall i :: 0 <= i < |ds| ==> DigitValue(ds[i], radix) >= 0) &&
      DigitsValue(ds, radix) <= max)
  {
    var ds := if s != [] && s[0] == '+' then s[1..] else s;
    if ds == [] then None
    else if exists i :: 0 <= i < |ds| && DigitValue(ds[i], radix) < 0 then None
    else if DigitsValue(ds, radix) > max then None
    else Some(DigitsValue(ds, radix))
  }

  const U8Max: nat := 0xFF
  const U32Max: nat := 0xFFFF_FFFF
  const U64Max: nat := 0xFFFF_FFFF_FFFF_FFFF

  /** The digit for a value below 36: '0'-'9', then small letters. */
  function DigitChar(d: nat): (c: char)
    requires d < 36
    ensures d < 10 ==> '0' <= c <= '9'
    ensures forall radix :: 2 <= radix <= 36 && d < radix ==> DigitValue(c, radix) == d
  {
    if d < 10 then (d + '0' as int) as char else (d - 10 + 'a' as int) as char
  }

  /** Division by the radix splits off the last digit. */
  lemma DivMod(n: nat, radix: nat)
    requires 2 <= radix
    ensures 0 <= n % radix < radix && 0 <= n / radix
    ensures n >= radix ==> n / radix < n
    ensures n < radix ==> n / radix == 0 && n % radix == n
    ensures Shift(n / radix, radix) + n % radix == n
  {
  }

  /** The digits of a natural number in the given radix, most significant first (`{}`, `{:x}`). */
  function DigitsOf(n: nat, radix: nat): (r: Str)
    requires 2 <= radix <= 36
    ensures r != [] && r[0] != '+'
    ensures forall i :: 0 <= i < |r| ==> DigitValue(r[i], radix) >= 0
    ensures radix <= 10 ==> forall i :: 0 <= i < |r| ==> '0' <= r[i] <= '9'
    decreases n
  {
    DivMod(n, radix);
    var d := DigitChar(n % radix);
    assert DigitValue(d, radix) == n % radix;
    if n < radix then [d]
    else
      var r := DigitsOf(n / radix, radix) + [d];
      assert r[|r| - 1] == d;
      r
  }

  /** The decimal digits of a natural number. */
  function DecimalDigits(n: nat): (r: Str)
    ensures r != []
    ensures forall i :: 0 <= i < |r| ==> '0' <= r[i] <= '9'
  {
    DigitsOf(n, 10)
  }

  /** `format!("{}", n)` for an integer. */
  function Decimal(n: int): (r: Str)
    ensures r != []
    ensures n < 0 <==> r[0] == '-'
  {
    if n < 0 then "-" + DecimalDigits(-n) else DecimalDigits(n)
  }

  /** The value of printed digits is the number printed. */
  lemma {:induction false} DigitsOfValue(n: nat, radix: nat)
    requires 2 <= radix <= 36
    ensures DigitsValue(DigitsOf(n, radix), radix) == n
    decreases n
  {
    DivMod(n, radix);
    var high, low := n / radix, n % radix;
    var d := DigitChar(low);
    assert DigitValue(d, radix) == low;
    var front := if n < radix then [] else DigitsOf(high, radix);
    assert DigitsOf(n, radix) == front + [d];
    if n >= radix {
      DigitsOfValue(high, radix);
    }
    assert DigitsValue(front, radix) == high;
    DigitsValueSnoc(front, d, radix);
  }

  /** One more digit at the end moves the value up one place and adds the digit. */
  lemma DigitsValueSnoc(ds: Str, d: char, radix: nat)
    requires 2 <= radix <= 36
    requires forall i :: 0 <= i < |ds| ==> DigitValue(ds[i], radix) >= 0
    requires DigitValue(d, radix) >= 0
    ensures forall i :: 0 <= i < |ds + [d]| ==> DigitValue((ds + [d])[i], radix) >= 0
    ensures DigitsValue(ds + [d], radix) == Shift(DigitsValue(ds, radix), radix) + DigitValue(d, radix)
  {
    assert (ds + [d])[..|ds|] == ds;
  }

  /** Parsing what is printed in a radix gives back the number, whenever it fits the type. */
  lemma ParseRoundTrip(n: nat, radix: nat, max: nat)
    requires 2 <= radix <= 36 && n <= max
    ensures ParseUnsigned(DigitsOf(n, radix), radix, max) == Some(n)
  {
    DigitsOfValue(n, radix);
  }

  /** Parsing what `format!("{}", n)` prints gives back `n`, whenever `n` fits the type. */
  lemma ParseDecimalRoundTrip(n: nat, max: nat)
    requires n <= max
    ensures ParseUnsigned(Decimal(n), 10, max) == Some(n)
  {
    ParseRoundTrip(n, 10, max);
  }

  // ---------------------------------------------------------------------------------------
  // Splitting on separator characters

  /** `s` holds none of the characters `seps`. */
  predicate Unseparated(s: Str, seps: set<char>)
  {
    forall i :: 0 <= i < |s| ==> s[i] !in seps
  }

  /**
   * `str::split` on any character of `seps`: the pieces between separators, in order, empty
   * pieces included; the empty string is one empty piece.
   */
  function Split(s: Str, seps: set<char>): (parts: seq<Str>)
    ensures |parts| >= 1
    ensures forall i :: 0 <= i < |parts| ==> Unseparated(parts[i], seps)
    decreases |s|
  {
    if s == [] then [[]]
    else
      var rest := Split(s[1..], seps);
      if s[0] in seps then [[]] + rest
      else
        assert Unseparated([s[0]] + rest[0], seps) by {
          assert forall i :: 0 < i < |rest[0]| + 1 ==> ([s[0]] + rest[0])[i] == rest[0][i - 1];
        }
        [[s[0]] + rest[0]] + rest[1..]
  }

  /** The pieces put back together with `sep` between them (`join`). */
  function Join(parts: seq<Str>, sep: char): (s: Str)
    requires |parts| >= 1
    decreases |parts|
  {
    if |parts| == 1 then parts[0] else parts[0] + [sep] + Join(parts[1..], sep)
  }

  /** A first piece without separators in front of more text stays in front of its first piece. */
  lemma {:induction false} SplitPrefix(p: Str, tail: Str, seps: set<char>)
    requires Unseparated(p, seps)
    ensures Split(p + tail, seps) == [p + Split(tail, seps)[0]] + Split(tail, seps)[1..]
    decreases |p|
  {
    var q := Split(tail, seps);
    if p == [] {
      assert p + tail == tail && p + q[0] == q[0];
      assert [q[0]] + q[1..] == q;
    } else {
      assert Unseparated(p[1..], seps) by {
        assert forall i :: 0 <= i < |p| - 1 ==> p[1..][i] == p[i + 1];
      }
      SplitPrefix(p[1..], tail, seps);
      var s := p + tail;
      assert s[0] == p[0] && p[0] !in seps;
      assert s[1..] == p[1..] + tail;
      var rest := Split(s[1..], seps);
      assert rest == [p[1..] + q[0]] + q[1..];
      assert Split(s, seps) == [[p[0]] + rest[0]] + rest[1..];
      assert [p[0]] + (p[1..] + q[0]) == p + q[0];
    }
  }

  /** Splitting joined pieces that hold no separator gives the pieces back. */
  lemma {:induction false} SplitJoin(parts: seq<Str>, sep: char, seps: set<char>)
    requires |parts| >= 1 && sep in seps
    requires forall i :: 0 <= i < |parts| ==> Unseparated(parts[i], seps)
    ensures Split(Join(parts, sep), seps) == parts
    decreases |parts|
  {
    if |parts| == 1 {
      SplitPrefix(parts[0], [], seps);
      assert parts[0] + [] == parts[0];
      assert Split([], seps) == [[]];
      assert Join(parts, sep) == parts[0] && parts == [parts[0]];
    } else {
      var rest := Join(parts[1..], sep);
      assert forall i :: 0 <= i < |parts| - 1 ==> parts[1..][i] == parts[i + 1];
      SplitJoin(parts[1..], sep, seps);
      SplitPrefix(parts[0], [sep] + rest, seps);
      assert Join(parts, sep) == parts[0] + ([sep] + rest);
      assert ([sep] + rest)[1..] == rest;
      var q := Split([sep] + rest, seps);
      assert q == [[]] + parts[1..];
      assert q[0] == [] && q[1..] == parts[1..];
      assert parts[0] + q[0] == parts[0];
      assert parts == [parts[0]] + parts[1..];
    }
  }

  /** Joining the pieces of a split on one separator gives the text back. */
  lemma {:induction false} JoinSplit(s: Str, sep: char)
    ensures Join(Split(s, {sep}), sep) == s
    decreases |s|
  {
    if s != [] {
      var rest := Split(s[1..], {sep});
      JoinSplit(s[1..], sep);
      if s[0] == sep {
        assert Split(s, {sep}) == [[]] + rest;
        assert ([[]] + rest)[1..] == rest;
        assert s == [] + [sep] + s[1..];
      } else {
        var parts := Split(s, {sep});
        assert parts == [[s[0]] + rest[0]] + rest[1..];
        if |rest| == 1 {
          assert s == [s[0]] + s[1..];
        } else {
          assert parts[1..] == rest[1..];
          assert Join(rest, sep) == rest[0] + [sep] + Join(rest[1..], sep);
          assert s == [s[0]] + s[1..];
        }
      }
    }
  }
}
