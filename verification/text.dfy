/** The handful of Go `strings`/`strconv` operations the modelled code uses,
    over byte strings. A Dafny `string` here stands for a Go string with one
    `char` per byte, so `|s|` is Go's `len(s)`. */
module Text {
  import opened Wrappers

  /** `strings.HasPrefix`. */
  predicate HasPrefix(s: string, prefix: string) {
    |prefix| <= |s| && s[..|prefix|] == prefix
  }

  /** Index of the first occurrence of `c` in `s` (`strings.Index` with a one-byte needle), if any. */
  function IndexOf(s: string, c: char): (r: Option<nat>)
    ensures r.None? <==> c !in s
    ensures r.Some? ==> r.value < |s| && s[r.value] == c && c !in s[..r.value]
  {
    if |s| == 0 then None
    else if s[0] == c then Some(0)
    else match IndexOf(s[1..], c)
      case None => None
      case Some(i) =>
        assert s[1..][..i] == s[1..i + 1];
        Some(i + 1)
  }

  // ---------------------------------------------------------------------------
  // strings.Split with a one-byte separator, and its inverse strings.Join
  // ---------------------------------------------------------------------------

  /** `strings.Split(s, sep)` for a one-byte separator: the pieces between
      consecutive separators, always at least one (an empty `s` gives `[""]`). */
  function Split(s: string, sep: char): (parts: seq<string>)
    ensures |parts| >= 1
    ensures forall k :: 0 <= k < |parts| ==> sep !in parts[k]
    decreases |s|
  {
    match IndexOf(s, sep)
    case None => [s]
    case Some(i) => [s[..i]] + Split(s[i + 1..], sep)
  }

  /** `strings.Join(parts, sep)`. */
  function Join(parts: seq<string>, sep: char): string {
    if |parts| == 0 then ""
    else if |parts| == 1 then parts[0]
    else parts[0] + [sep] + Join(parts[1..], sep)
  }

  /** Joining a first piece in front of a non-empty list puts one
      separator between it and the rest. */
  lemma JoinCons(x: string, xs: seq<string>, sep: char)
    requires |xs| > 0
    ensures Join([x] + xs, sep) == x + [sep] + Join(xs, sep)
  {
    assert ([x] + xs)[1..] == xs;
  }

  /** Splitting undoes joining: a manifest assembled from separator-free
      lines splits back into exactly those lines. */
  lemma {:induction false} SplitJoin(parts: seq<string>, sep: char)
    requires |parts| >= 1
    requires forall k :: 0 <= k < |parts| ==> sep !in parts[k]
    ensures Split(Join(parts, sep), sep) == parts
  {
    if |parts| == 1 {
      assert IndexOf(parts[0], sep) == None;
    } else {
      var s := Join(parts, sep);
      var rest := Join(parts[1..], sep);
      assert s == parts[0] + [sep] + rest;
      IndexOfAfterFree(parts[0], sep, rest);
      assert s[..|parts[0]|] == parts[0];
      assert s[|parts[0]| + 1..] == rest;
      SplitJoin(parts[1..], sep);
    }
  }

  lemma IndexOfAfterFree(a: string, c: char, b: string)
    requires c !in a
    ensures IndexOf(a + [c] + b, c) == Some(|a|)
  {
    var s := a + [c] + b;
    assert s[|a|] == c;
    assert s[..|a|] == a;
  }

  /** Joining undoes splitting. */
  lemma {:induction false} JoinSplit(s: string, sep: char)
    ensures Join(Split(s, sep), sep) == s
    decreases |s|
  {
    match IndexOf(s, sep)
    case None =>
    case Some(i) =>
      var rest := Split(s[i + 1..], sep);
      assert Split(s, sep) == [s[..i]] + rest;
      assert ([s[..i]] + rest)[1..] == rest;
      JoinSplit(s[i + 1..], sep);
      assert Join(Split(s, sep), sep) == s[..i] + [sep] + Join(rest, sep);
      assert s == s[..i] + [sep] + s[i + 1..];
  }

  /** The last piece of `strings.Split(s, sep)`. */
  function LastPiece(s: string, sep: char): (l: string)
    ensures sep !in l
  {
    var parts := Split(s, sep);
    parts[|parts| - 1]
  }

  /** The last piece of a split is the tail of `s` after its last
      separator, or all of `s` when there is none. */
  lemma {:induction false} SplitLast(s: string, sep: char)
    ensures var l := LastPiece(s, sep);
      && |l| <= |s| && l == s[|s| - |l|..]
      && (|l| < |s| ==> s[|s| - |l| - 1] == sep)
    decreases |s|
  {
    match IndexOf(s, sep)
    case None =>
      assert Split(s, sep) == [s];
      assert s[0..] == s;
    case Some(i) =>
      var rest := s[i + 1..];
      SplitLast(rest, sep);
      LastPieceStep(s, sep, i);
      SuffixOfSuffix(s, i, LastPiece(rest, sep));
  }

  /** Past the first separator, the last piece is that of the rest. */
  lemma LastPieceStep(s: string, sep: char, i: nat)
    requires IndexOf(s, sep) == Some(i)
    ensures LastPiece(s, sep) == LastPiece(s[i + 1..], sep)
  {
    var tail := Split(s[i + 1..], sep);
    assert Split(s, sep) == [s[..i]] + tail;
  }

  /** A tail of `s[i + 1..]` that is preceded there by a separator, or is
      all of it, is preceded in `s` by a separator too when `s[i]` is one. */
  lemma SuffixOfSuffix(s: string, i: nat, l: string)
    requires i < |s|
    requires var rest := s[i + 1..];
      && |l| <= |rest| && l == rest[|rest| - |l|..]
      && (|l| < |rest| ==> rest[|rest| - |l| - 1] == s[i])
    ensures |l| < |s| && l == s[|s| - |l|..] && s[|s| - |l| - 1] == s[i]
  {
  }

  /** The last piece of a split is empty exactly when `s` is empty or ends
      with the separator. */
  lemma LastPieceEmpty(s: string, sep: char)
    ensures LastPiece(s, sep) == "" <==> (s == "" || s[|s| - 1] == sep)
  {
    var l := LastPiece(s, sep);
    SplitLast(s, sep);
    assert sep !in l;
    if l != "" && s != "" {
      assert l[|l| - 1] == s[|s| - 1];
    }
  }

  /** Splitting `a + [sep] + b` with a separator-free `b` ends with `b`. */
  lemma LastPieceOfFree(a: string, b: string, sep: char)
    requires sep !in b
    ensures LastPiece(a + [sep] + b, sep) == b
  {
    var s := a + [sep] + b;
    var l := LastPiece(s, sep);
    SplitLast(s, sep);
    forall k | |s| - |l| <= k < |s| ensures s[k] in l {
      assert l[k - (|s| - |l|)] == s[k];
    }
    forall k | |a| < k < |s| ensures s[k] in b {
      assert b[k - |a| - 1] == s[k];
    }
    assert s[|a|] == sep;
    assert s[|s| - |b|..] == b;
  }

  // ---------------------------------------------------------------------------
  // Trimming
  // ---------------------------------------------------------------------------

  /** The bytes `strings.TrimSpace` removes. Only the ASCII white-space bytes
      are modelled; multi-byte Unicode spaces are not. */
  predicate IsAsciiSpace(c: char) {
    c == ' ' || c == '\t' || c == '\n' || c == '\r' || c == 11 as char || c == 12 as char
  }

  /** Drops the longest prefix whose bytes all satisfy `drop`. */
  function TrimLeftBy(s: string, drop: char -> bool): (r: string)
    ensures |r| <= |s| && r == s[|s| - |r|..]
    ensures forall k :: 0 <= k < |s| - |r| ==> drop(s[k])
    ensures |r| > 0 ==> !drop(r[0])
  {
    if |s| > 0 && drop(s[0]) then
      var r := TrimLeftBy(s[1..], drop);
      assert s[1..][|s| - 1 - |r|..] == s[|s| - |r|..];
      assert forall k :: 1 <= k < |s| - |r| ==> s[1..][k - 1] == s[k];
      r
    else
      s
  }

  /** Drops the longest suffix whose bytes all satisfy `drop`. */
  function TrimRightBy(s: string, drop: char -> bool): (r: string)
    ensures |r| <= |s| && r == s[..|r|]
    ensures forall k :: |r| <= k < |s| ==> drop(s[k])
    ensures |r| > 0 ==> !drop(r[|r| - 1])
  {
    if |s| > 0 && drop(s[|s| - 1]) then TrimRightBy(s[..|s| - 1], drop) else s
  }

  /** Trims both ends (`strings.TrimFunc`); the result is a contiguous piece
      `s[i..i + |r|]` of the input, every byte cut off satisfies `drop`, and
      the result neither starts nor ends with such a byte. */
  function TrimBy(s: string, drop: char -> bool): (r: string)
    ensures |r| <= |s|
    ensures exists i :: IsSliceAt(r, s, i)
    ensures |r| > 0 ==> !drop(r[0]) && !drop(r[|r| - 1])
  {
    var left := TrimLeftBy(s, drop);
    var r := TrimRightBy(left, drop);
    var i := |s| - |left|;
    assert r == left[..|r|] && left == s[i..];
    assert s[i..][..|r|] == s[i..i + |r|];
    assert IsSliceAt(r, s, i);
    r
  }

  /** `r` is the piece of `s` that starts at offset `i`. */
  predicate IsSliceAt(r: string, s: string, i: int) {
    0 <= i <= |s| - |r| && r == s[i..i + |r|]
  }

  /** Trimming keeps only bytes that were already there. */
  lemma TrimByContained(s: string, drop: char -> bool)
    ensures forall c :: c in TrimBy(s, drop) ==> c in s
  {
    var r := TrimBy(s, drop);
    var i :| IsSliceAt(r, s, i);
    forall c | c in r ensures c in s {
      var k :| 0 <= k < |r| && r[k] == c;
      assert s[i + k] == c;
    }
  }

  /** Trimming a string that neither starts nor ends with a dropped byte
      changes nothing. */
  lemma TrimByUnchanged(s: string, drop: char -> bool)
    requires |s| > 0 ==> !drop(s[0]) && !drop(s[|s| - 1])
    ensures TrimBy(s, drop) == s
  {
  }

  /** `strings.Trim(s, cutset)`: drops the longest prefix and then the
      longest suffix made of bytes of `cutset`. The result is a piece
      `s[i..i + |r|]` of the input, every byte cut off is in the cutset, and
      the result neither starts nor ends with one. */
  function Trim(s: string, cutset: set<char>): (r: string)
    ensures |r| <= |s|
    ensures exists i :: IsSliceAt(r, s, i)
    ensures |r| > 0 ==> r[0] !in cutset && r[|r| - 1] !in cutset
  {
    var left := TrimLeft(s, cutset);
    var r := TrimRight(left, cutset);
    assert r == s[|s| - |left|..][..|r|];
    assert IsSliceAt(r, s, |s| - |left|);
    r
  }

  function TrimLeft(s: string, cutset: set<char>): (r: string)
    ensures |r| <= |s| && r == s[|s| - |r|..]
    ensures |r| > 0 ==> r[0] !in cutset
  {
    if |s| > 0 && s[0] in cutset then TrimLeft(s[1..], cutset) else s
  }

  function TrimRight(s: string, cutset: set<char>): (r: string)
    ensures |r| <= |s| && r == s[..|r|]
    ensures |r| > 0 ==> r[|r| - 1] !in cutset
  {
    if |s| > 0 && s[|s| - 1] in cutset then TrimRight(s[..|s| - 1], cutset) else s
  }

  /** Trimming a string that neither starts nor ends with a cutset byte
      changes nothing. */
  lemma TrimUnchanged(s: string, cutset: set<char>)
    requires |s| > 0 ==> s[0] !in cutset && s[|s| - 1] !in cutset
    ensures Trim(s, cutset) == s
  {
  }

  /** `strings.TrimSpace` over ASCII white space. */
  function TrimSpace(s: string): string {
    TrimBy(s, IsAsciiSpace)
  }

  /** Every byte of `s` satisfies `p`. */
  predicate All(s: string, p: char -> bool) {
    forall k :: 0 <= k < |s| ==> p(s[k])
  }

  lemma TrimKeepsAll(s: string, drop: char -> bool, p: char -> bool)
    requires All(s, p)
    ensures All(TrimBy(s, drop), p)
  {
    var r := TrimBy(s, drop);
    var i :| IsSliceAt(r, s, i);
    forall k | 0 <= k < |r| ensures p(r[k]) {
      assert r[k] == s[i + k];
    }
  }

  /** `strings.ReplaceAll(s, string(from), string(to))` for single bytes. */
  function ReplaceByte(s: string, from: char, to: char): (r: string)
    ensures |r| == |s|
    ensures forall k :: 0 <= k < |s| ==> r[k] == (if s[k] == from then to else s[k])
  {
    seq(|s|, k requires 0 <= k < |s| => if s[k] == from then to else s[k])
  }

  /** Go's `s[:n]` when `len(s) > n`, otherwise `s` unchanged. */
  function Truncate(s: string, n: nat): (r: string)
    ensures |r| <= n && |r| <= |s|
    ensures |s| <= n ==> r == s
    ensures |s| > n ==> |r| == n
    ensures r == s[..|r|]
  {
    if |s| > n then s[..n] else s
  }

  // ---------------------------------------------------------------------------
  // Decimal numbers: strconv.Atoi on a digit run, fmt's %d
  // ---------------------------------------------------------------------------

  const MaxInt64: int := 0x7FFF_FFFF_FFFF_FFFF

  predicate IsDigit(c: char) {
    '0' <= c <= '9'
  }

  /** The value of a string of decimal digits (most significant first). */
  function DigitsValue(s: string): nat
    requires All(s, IsDigit)
  {
    if |s| == 0 then 0
    else DigitsValue(s[..|s| - 1]) * 10 + (s[|s| - 1] as int - '0' as int)
  }

  /** `strconv.Atoi` applied to a non-empty digit run whose error result is
      discarded: a value beyond the 64-bit range comes back clamped to the
      largest `int`. */
  function Atoi(s: string): (n: int)
    requires |s| > 0 && All(s, IsDigit)
    ensures 0 <= n <= MaxInt64
    ensures DigitsValue(s) <= MaxInt64 ==> n == DigitsValue(s)
    ensures DigitsValue(s) > MaxInt64 ==> n == MaxInt64
  {
    var v := DigitsValue(s);
    if v > MaxInt64 then MaxInt64 else v
  }

  /** The decimal digits of `n`, no leading zeros (`0` is `"0"`). */
  function NatDigits(n: nat): (s: string)
    ensures |s| > 0 && All(s, IsDigit)
  {
    if n < 10 then [('0' as int + n) as char]
    else NatDigits(n / 10) + [('0' as int + n % 10) as char]
  }

  /** Formatting with `%d`: a minus sign before the digits of a negative number. */
  function FormatInt(n: int): (s: string)
    ensures |s| > 0
    ensures forall k :: 0 <= k < |s| ==> IsDigit(s[k]) || s[k] == '-'
  {
    if n < 0 then "-" + NatDigits(-n) else NatDigits(n)
  }

  /** Reading back the digits `%d` wrote gives the number again. */
  lemma {:induction false} DigitsValueOfNatDigits(n: nat)
    ensures DigitsValue(NatDigits(n)) == n
  {
    var s := NatDigits(n);
    if n >= 10 {
      DigitsValueOfNatDigits(n / 10);
      assert s[..|s| - 1] == NatDigits(n / 10);
    }
  }

  /** A number within the 64-bit range survives formatting and `Atoi`. */
  lemma AtoiFormat(n: nat)
    requires n <= MaxInt64
    ensures Atoi(NatDigits(n)) == n
  {
    DigitsValueOfNatDigits(n);
  }
}
