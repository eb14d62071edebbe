/**
 * UTF-8 as Rust's `core::str` sees it: which byte sequences `String::from_utf8` accepts
 * (the well-formed sequences of table 3-7 of the Unicode Standard, chapter 3), what
 * `String::from_utf8_lossy` makes of the others (each maximal invalid subpart becomes one
 * U+FFFD), and the characters a well-formed sequence decodes to.
 */
module Utf8 {
  import opened Bytes

  /** The encoding of U+FFFD REPLACEMENT CHARACTER. */
  const Replacement: seq<byte> := [0xEF, 0xBF, 0xBD]

  /** Length of the well-formed sequence a lead byte starts, 0 when it cannot start one. */
  function SequenceLength(lead: byte): (n: nat)
    ensures n <= 4
  {
    if lead < 0x80 then 1
    else if 0xC2 <= lead <= 0xDF then 2
    else if 0xE0 <= lead <= 0xEF then 3
    else if 0xF0 <= lead <= 0xF4 then 4
    else 0
  }

  /** Whether `b` may stand at offset `k` (k >= 1) of a sequence led by `lead`. */
  predicate ContinuationOk(lead: byte, k: nat, b: byte)
  {
    if k == 1 && lead == 0xE0 then 0xA0 <= b <= 0xBF
    else if k == 1 && lead == 0xED then 0x80 <= b <= 0x9F
    else if k == 1 && lead == 0xF0 then 0x90 <= b <= 0xBF
    else if k == 1 && lead == 0xF4 then 0x80 <= b <= 0x8F
    else 0x80 <= b <= 0xBF
  }

  /** Number of acceptable bytes at offsets k, k+1, ... (below n) of `s`. */
  function Matched(s: seq<byte>, k: nat, n: nat): (m: nat)
    requires 1 <= k && s != []
    ensures k + m <= (if n < k then k else n) && k + m <= |s| + (if |s| < k then k - |s| else 0)
    ensures forall j :: k <= j < k + m ==> j < |s| && ContinuationOk(s[0], j, s[j])
    ensures k + m < n && k + m < |s| ==> !ContinuationOk(s[0], k + m, s[k + m])
    decreases n - k
  {
    if k < n && k < |s| && ContinuationOk(s[0], k, s[k]) then 1 + Matched(s, k + 1, n) else 0
  }

  datatype Scan = Char(len: nat) | Invalid(len: nat)

  /**
   * What the decoder finds at the start of non-empty `s`: a whole well-formed sequence of
   * `len` bytes, or a maximal invalid subpart of `len` bytes.
   */
  function ScanAt(s: seq<byte>): (r: Scan)
    requires s != []
    ensures 1 <= r.len <= 4 && r.len <= |s|
    ensures r.Char? <==> (SequenceLength(s[0]) != 0 && SequenceLength(s[0]) <= |s| &&
                          forall j :: 1 <= j < SequenceLength(s[0]) ==> ContinuationOk(s[0], j, s[j]))
    ensures r.Char? ==> r.len == SequenceLength(s[0])
  {
    var n := SequenceLength(s[0]);
    if n == 0 then Invalid(1)
    else
      var m := Matched(s, 1, n);
      if 1 + m == n then Char(n) else Invalid(1 + m)
  }

  /** Length of the well-formed sequence at the start of non-empty `s`, 0 when there is none. */
  function CharLen(s: seq<byte>): (n: nat)
    requires s != []
    ensures n <= |s| && n <= 4
  {
    var b0 := s[0];
    if b0 < 0x80 then 1
    else if 0xC2 <= b0 <= 0xDF then
      if |s| >= 2 && 0x80 <= s[1] <= 0xBF then 2 else 0
    else if 0xE0 <= b0 <= 0xEF then
      if |s| >= 3 && ContinuationOk(b0, 1, s[1]) && 0x80 <= s[2] <= 0xBF then 3 else 0
    else if 0xF0 <= b0 <= 0xF4 then
      if |s| >= 4 && ContinuationOk(b0, 1, s[1]) && 0x80 <= s[2] <= 0xBF && 0x80 <= s[3] <= 0xBF then 4 else 0
    else 0
  }

  /** `String::from_utf8(s).is_ok()`. */
  predicate Valid(s: seq<byte>)
    decreases |s|
  {
    s == [] || (CharLen(s) != 0 && Valid(s[CharLen(s)..]))
  }

  /** `String::from_utf8_lossy(s)`, as bytes. */
  function Lossy(s: seq<byte>): seq<byte>
    decreases |s|
  {
    if s == [] then []
    else match ScanAt(s)
      case Char(n) => s[..n] + Lossy(s[n..])
      case Invalid(n) => Replacement + Lossy(s[n..])
  }

  /** Every sequence of ASCII bytes is well-formed. */
  lemma {:induction false} AsciiValid(s: seq<byte>)
    requires forall i :: 0 <= i < |s| ==> s[i] < 0x80
    ensures Valid(s)
  {
    if s != [] {
      AsciiValid(s[1..]);
    }
  }

  /** The scan of a sequence only looks at the bytes of its first element. */
  lemma ScanPrefix(s: seq<byte>, t: seq<byte>)
    requires s != [] && ScanAt(s).Char?
    ensures ScanAt(s + t) == ScanAt(s)
    ensures (s + t)[ScanAt(s).len..] == s[ScanAt(s).len..] + t
  {
    var n := ScanAt(s).len;
    assert forall j :: 0 <= j < n ==> (s + t)[j] == s[j];
  }

  /** Two well-formed sequences concatenate to a well-formed one. */
  lemma {:induction false} ValidConcat(a: seq<byte>, b: seq<byte>)
    requires Valid(a) && Valid(b)
    ensures Valid(a + b)
    decreases |a|
  {
    if a == [] {
      assert a + b == b;
    } else {
      ScanPrefix(a, b);
      ValidConcat(a[ScanAt(a).len..], b);
    }
  }

  /** A well-formed sequence comes back unchanged from `from_utf8_lossy`. */
  lemma {:induction false} LossyOfValid(s: seq<byte>)
    requires Valid(s)
    ensures Lossy(s) == s
    decreases |s|
  {
    if s != [] {
      ScanOfWellFormed(s);
      var n := ScanAt(s).len;
      LossyOfValid(s[n..]);
      assert s[..n] + s[n..] == s;
    }
  }

  /** A well-formed first character is the character the scan reads. */
  lemma ScanOfWellFormed(s: seq<byte>)
    requires s != [] && CharLen(s) != 0
    ensures ScanAt(s) == Char(CharLen(s))
  {
  }

  /** Whatever the input, `from_utf8_lossy` produces well-formed UTF-8. */
  lemma {:induction false} LossyIsValid(s: seq<byte>)
    ensures Valid(Lossy(s))
    decreases |s|
  {
    if s != [] {
      var n := ScanAt(s).len;
      LossyIsValid(s[n..]);
      match ScanAt(s)
      case Char(_) =>
        assert Valid(s[..n]) by {
          assert ScanAt(s[..n]) == ScanAt(s) by {
            assert forall j :: 0 <= j < n ==> s[..n][j] == s[j];
          }
          assert s[..n][n..] == [];
        }
        ValidConcat(s[..n], Lossy(s[n..]));
      case Invalid(_) =>
        assert Valid(Replacement) by {
          assert ScanAt(Replacement) == Char(3);
          assert Replacement[3..] == [];
        }
        ValidConcat(Replacement, Lossy(s[n..]));
    }
  }

  /** The scalar value of the well-formed sequence at the start of `s`. */
  function CodePoint(s: seq<byte>): (c: char)
    requires s != [] && ScanAt(s).Char?
  {
    var n := ScanAt(s).len;
    var b0: int, b1: int := s[0], if n > 1 then s[1] else 0;
    var b2: int, b3: int := if n > 2 then s[2] else 0, if n > 3 then s[3] else 0;
    if n == 1 then s[0] as char
    else if n == 2 then ((b0 - 0xC0) * 64 + (b1 - 0x80)) as char
    else if n == 3 then
      assert s[0] == 0xE0 ==> s[1] >= 0xA0;
      assert s[0] == 0xED ==> s[1] <= 0x9F;
      ((b0 - 0xE0) * 4096 + (b1 - 0x80) * 64 + (b2 - 0x80)) as char
    else
      assert s[0] == 0xF0 ==> s[1] >= 0x90;
      assert s[0] == 0xF4 ==> s[1] <= 0x8F;
      ((b0 - 0xF0) * 262144 + (b1 - 0x80) * 4096 + (b2 - 0x80) * 64 + (b3 - 0x80)) as char
  }

  /** The characters of a well-formed sequence (`core::str::from_utf8(s).unwrap()`). */
  function Chars(s: seq<byte>): seq<char>
    requires Valid(s)
    decreases |s|
  {
    if s == [] then [] else [CodePoint(s)] + Chars(s[ScanAt(s).len..])
  }

  /** An ASCII byte string decodes to the characters with the same codes. */
  lemma {:induction false} CharsOfAscii(s: seq<byte>)
    requires forall i :: 0 <= i < |s| ==> s[i] < 0x80
    ensures Valid(s) && |Chars(s)| == |s|
    ensures forall i :: 0 <= i < |s| ==> Chars(s)[i] as int == s[i]
  {
    AsciiValid(s);
    if s != [] {
      CharsOfAscii(s[1..]);
    }
  }
}
