/**
  The string primitives the form handler relies on: Python's `str.isspace`,
  `str.strip()`, `str.split(sep)` and the decimal grammar accepted by `int(str)`.
 */
module Text {
  import opened Wrappers

  // ---------------------------------------------------------------------------
  // Decimal digits
  // ---------------------------------------------------------------------------

  predicate IsDigit(c: char) {
    '0' <= c <= '9'
  }

  predicate AllDigits(s: string) {
    forall i :: 0 <= i < |s| ==> IsDigit(s[i])
  }

  function DigitValue(c: char): (d: nat)
    requires IsDigit(c)
    ensures d < 10
  {
    c as int - '0' as int
  }

  function DigitChar(d: nat): (c: char)
    requires d < 10
    ensures IsDigit(c) && DigitValue(c) == d
  {
    ('0' as int + d) as char
  }

  /** The value of a string of decimal digits, most significant first. */
  function DigitsValue(s: string): nat
    requires AllDigits(s)
  {
    if |s| == 0 then 0 else 10 * DigitsValue(s[..|s| - 1]) + DigitValue(s[|s| - 1])
  }

  /** The shortest decimal spelling of `n`, as `str(n)` prints it. */
  function Digits(n: nat): (s: string)
    ensures |s| > 0 && AllDigits(s)
    ensures DigitsValue(s) == n
    ensures |s| > 1 ==> s[0] != '0'
  {
    if n < 10 then [DigitChar(n)]
    else
      var s := Digits(n / 10) + [DigitChar(n % 10)];
      assert s[..|s| - 1] == Digits(n / 10);
      s
  }

  // ---------------------------------------------------------------------------
  // Whitespace and str.strip()
  // ---------------------------------------------------------------------------

  /** The code points for which Python's `str.isspace()` holds. */
  predicate IsSpace(c: char) {
    var n := c as int;
    (0x09 <= n <= 0x0D) || (0x1C <= n <= 0x20) || n == 0x85 || n == 0xA0 || n == 0x1680
    || (0x2000 <= n <= 0x200A) || n == 0x2028 || n == 0x2029 || n == 0x202F || n == 0x205F
    || n == 0x3000
  }

  /** Neither end of `s` is whitespace. */
  predicate IsStripped(s: string) {
    |s| == 0 || (!IsSpace(s[0]) && !IsSpace(s[|s| - 1]))
  }

  /** `s` with its leading whitespace removed: a suffix of `s` that does not start with whitespace. */
  function TrimStart(s: string): (r: string)
    ensures |r| <= |s| && r == s[|s| - |r|..]
    ensures forall i :: 0 <= i < |s| - |r| ==> IsSpace(s[i])
    ensures |r| == 0 || !IsSpace(r[0])
  {
    if |s| > 0 && IsSpace(s[0]) then TrimStart(s[1..]) else s
  }

  /** `s` with its trailing whitespace removed: a prefix of `s` that does not end with whitespace. */
  function TrimEnd(s: string): (r: string)
    ensures |r| <= |s| && r == s[..|r|]
    ensures forall i :: |r| <= i < |s| ==> IsSpace(s[i])
    ensures |r| == 0 || !IsSpace(r[|r| - 1])
  {
    if |s| > 0 && IsSpace(s[|s| - 1]) then TrimEnd(s[..|s| - 1]) else s
  }

  /** Python's `s.strip()`. */
  function Strip(s: string): (r: string)
    ensures IsStripped(r)
    ensures |r| <= |s|
  {
    TrimEnd(TrimStart(s))
  }

  /**
    What `strip()` removes is whitespace at the two ends and nothing else:
    the result is the slice `s[lo..hi]` with only whitespace outside it.
   */
  lemma StripBounds(s: string) returns (lo: nat, hi: nat)
    ensures lo <= hi <= |s| && Strip(s) == s[lo..hi]
    ensures forall i :: 0 <= i < lo ==> IsSpace(s[i])
    ensures forall i :: hi <= i < |s| ==> IsSpace(s[i])
  {
    var t := TrimStart(s);
    lo := |s| - |t|;
    hi := lo + |Strip(s)|;
    assert t == s[lo..];
    forall i | hi <= i < |s| ensures IsSpace(s[i]) {
      assert s[i] == t[i - lo];
    }
  }

  /** Stripping only removes characters: whatever is in the result was in the text. */
  lemma StripKeeps(s: string, c: char)
    requires c in Strip(s)
    ensures c in s
  {
    var lo, hi := StripBounds(s);
    var i :| 0 <= i < |Strip(s)| && Strip(s)[i] == c;
    assert s[lo + i] == c;
  }

  /** A string with no whitespace at either end is left as it is by `strip()`. */
  lemma StripFixed(s: string)
    requires IsStripped(s)
    ensures Strip(s) == s
  {
    assert TrimStart(s) == s by {
      if |s| > 0 { assert !IsSpace(s[0]); }
    }
    assert TrimEnd(s) == s by {
      if |s| > 0 { assert !IsSpace(s[|s| - 1]); }
    }
  }

  /** Stripping an already stripped string changes nothing. */
  lemma StripIdempotent(s: string)
    ensures Strip(Strip(s)) == Strip(s)
  {
    StripFixed(Strip(s));
  }

  // ---------------------------------------------------------------------------
  // str.split(sep) and its inverse, sep.join(pieces)
  // ---------------------------------------------------------------------------

  /** The number of occurrences of `c` in `s`. */
  function Occurrences(s: string, c: char): nat {
    if |s| == 0 then 0 else (if s[0] == c then 1 else 0) + Occurrences(s[1..], c)
  }

  /**
    Python's `s.split(sep)` with a one-character separator: the pieces between
    separators, empty pieces included, so there is always at least one piece.
   */
  function Split(s: string, sep: char): (pieces: seq<string>)
    ensures |pieces| == Occurrences(s, sep) + 1
    ensures forall p :: p in pieces ==> sep !in p
  {
    if |s| == 0 then [""]
    else
      var rest := Split(s[1..], sep);
      if s[0] == sep then [""] + rest
      else
        var pieces := [[s[0]] + rest[0]] + rest[1..];
        assert forall p :: p in pieces ==> p == [s[0]] + rest[0] || p in rest;
        pieces
  }

  /** Python's `sep.join(pieces)`. */
  function Join(pieces: seq<string>, sep: char): string
    requires |pieces| > 0
  {
    if |pieces| == 1 then pieces[0] else pieces[0] + [sep] + Join(pieces[1..], sep)
  }

  /** Splitting loses nothing: joining the pieces with the separator gives back the text. */
  lemma {:induction false} JoinSplit(s: string, sep: char)
    ensures Join(Split(s, sep), sep) == s
  {
    if |s| > 0 {
      var rest := Split(s[1..], sep);
      JoinSplit(s[1..], sep);
      if s[0] == sep {
        assert Split(s, sep) == [""] + rest;
        assert ([""] + rest)[1..] == rest;
      } else {
        var pieces := [[s[0]] + rest[0]] + rest[1..];
        assert Split(s, sep) == pieces;
        if |rest| == 1 {
          assert rest == [rest[0]];
        } else {
          assert pieces[1..] == rest[1..];
          assert Join(rest, sep) == rest[0] + [sep] + Join(rest[1..], sep);
        }
      }
    }
  }

  /** Splitting a join of separator-free pieces gives the pieces back. */
  lemma {:induction false} SplitJoin(pieces: seq<string>, sep: char)
    requires |pieces| > 0
    requires forall p :: p in pieces ==> sep !in p
    ensures Split(Join(pieces, sep), sep) == pieces
  {
    if |pieces| == 1 {
      SplitPlain(pieces[0], sep);
    } else {
      var tail := Join(pieces[1..], sep);
      assert forall p :: p in pieces[1..] ==> p in pieces;
      SplitJoin(pieces[1..], sep);
      SplitPrefix(pieces[0], tail, sep);
    }
  }

  /** A string without the separator is a single piece. */
  lemma {:induction false} SplitPlain(s: string, sep: char)
    requires sep !in s
    ensures Split(s, sep) == [s]
  {
    if |s| > 0 {
      assert sep !in s[1..];
      SplitPlain(s[1..], sep);
      assert s[0] != sep;
      assert [s[0]] + s[1..] == s;
    }
  }

  /** A separator-free prefix followed by a separator becomes the first piece. */
  lemma {:induction false} SplitPrefix(p: string, tail: string, sep: char)
    requires sep !in p
    ensures Split(p + [sep] + tail, sep) == [p] + Split(tail, sep)
  {
    if |p| == 0 {
      assert p + [sep] + tail == [sep] + tail;
      assert ([sep] + tail)[1..] == tail;
    } else {
      assert (p + [sep] + tail)[1..] == p[1..] + [sep] + tail;
      assert sep !in p[1..];
      SplitPrefix(p[1..], tail, sep);
      assert [p[0]] + p[1..] == p;
    }
  }

  // ---------------------------------------------------------------------------
  // int(s) with base 10
  // ---------------------------------------------------------------------------

  /** Decimal digits with single underscores between them, as `int()` accepts: `digit ("_"? digit)*`. */
  predicate IsDigitGroups(s: string)
    decreases |s|
  {
    |s| > 0 && IsDigit(s[0])
    && (|s| == 1 || IsDigitGroups(if s[1] == '_' then s[2..] else s[1..]))
  }

  /** Digit groups hold only digits and underscores. */
  lemma {:induction false} DigitGroupsChars(s: string)
    requires IsDigitGroups(s)
    ensures forall i :: 0 <= i < |s| ==> IsDigit(s[i]) || s[i] == '_'
    decreases |s|
  {
    if |s| > 1 {
      var rest := if s[1] == '_' then s[2..] else s[1..];
      DigitGroupsChars(rest);
      assert forall i :: |s| - |rest| <= i < |s| ==> s[i] == rest[i - (|s| - |rest|)];
    }
  }

  /** Plain digits are digit groups. */
  lemma {:induction false} DigitsAreGroups(s: string)
    requires |s| > 0 && AllDigits(s)
    ensures IsDigitGroups(s)
    decreases |s|
  {
    if |s| > 1 {
      DigitsAreGroups(s[1..]);
    }
  }

  /** Removing the underscores from digits and underscores leaves only digits. */
  lemma {:induction false} DigitsOnly(s: string)
    requires forall i :: 0 <= i < |s| ==> IsDigit(s[i]) || s[i] == '_'
    ensures AllDigits(WithoutUnderscores(s))
  {
    if |s| > 0 {
      DigitsOnly(s[..|s| - 1]);
    }
  }

  /** `s` without its underscores. */
  function WithoutUnderscores(s: string): (r: string)
    ensures |r| <= |s|
  {
    if |s| == 0 then ""
    else if s[|s| - 1] == '_' then WithoutUnderscores(s[..|s| - 1])
    else WithoutUnderscores(s[..|s| - 1]) + [s[|s| - 1]]
  }

  /**
    Digits and underscores where every underscore sits between two digits:
    the shape of `digit ("_"? digit)*` stated position by position.
   */
  predicate GroupedDigits(s: string) {
    |s| > 0 && forall i :: 0 <= i < |s| ==> DigitOrJoin(s, i)
  }

  /** Position `i` holds a digit, or an underscore with a digit on each side. */
  predicate DigitOrJoin(s: string, i: int)
    requires 0 <= i < |s|
  {
    IsDigit(s[i]) || (s[i] == '_' && 0 < i < |s| - 1 && IsDigit(s[i - 1]) && IsDigit(s[i + 1]))
  }

  lemma {:induction false} DigitGroupsAreGrouped(s: string)
    requires IsDigitGroups(s)
    ensures GroupedDigits(s)
    decreases |s|
  {
    if |s| > 1 {
      var skip := if s[1] == '_' then 2 else 1;
      var rest := s[skip..];
      DigitGroupsAreGrouped(rest);
      forall i | skip <= i < |s|
        ensures DigitOrJoin(s, i)
      {
        assert s[i] == rest[i - skip] && DigitOrJoin(rest, i - skip);
        if !IsDigit(s[i]) {
          assert 0 < i - skip;
          assert s[i - 1] == rest[i - skip - 1] && s[i + 1] == rest[i - skip + 1];
        }
      }
      assert DigitOrJoin(rest, 0);
    }
  }

  lemma {:induction false} GroupedAreDigitGroups(s: string)
    requires GroupedDigits(s)
    ensures IsDigitGroups(s)
    decreases |s|
  {
    assert DigitOrJoin(s, 0);
    if |s| > 1 {
      var skip := if s[1] == '_' then 2 else 1;
      var rest := s[skip..];
      assert DigitOrJoin(s, 1) && DigitOrJoin(s, skip);
      forall j | 0 <= j < |rest|
        ensures DigitOrJoin(rest, j)
      {
        assert rest[j] == s[j + skip] && DigitOrJoin(s, j + skip);
        if !IsDigit(rest[j]) {
          assert rest[j - 1] == s[j + skip - 1] && rest[j + 1] == s[j + skip + 1];
        }
      }
      GroupedAreDigitGroups(rest);
    }
  }

  /** The recursive grammar and the position-by-position shape accept the same strings. */
  lemma DigitGroupsShape(s: string)
    ensures IsDigitGroups(s) <==> GroupedDigits(s)
  {
    if IsDigitGroups(s) { DigitGroupsAreGrouped(s); }
    if GroupedDigits(s) { GroupedAreDigitGroups(s); }
  }

  /** `s` without a leading `+` or `-`. */
  function Unsigned(s: string): string {
    if |s| > 0 && (s[0] == '+' || s[0] == '-') then s[1..] else s
  }

  /**
    `int(s)` for a string that has already been stripped: an optional sign and
    underscore-separated decimal digits; anything else is a `ValueError`.
   */
  function ParseInt(s: string): (r: Option<int>)
    ensures r.Some? <==> GroupedDigits(Unsigned(s))
  {
    var body := Unsigned(s);
    DigitGroupsShape(body);
    if !IsDigitGroups(body) then None
    else
      var digits := WithoutUnderscores(body);
      DigitGroupsChars(body);
      DigitsOnly(body);
      var magnitude: int := DigitsValue(digits);
      Some(if |s| > 0 && s[0] == '-' then -magnitude else magnitude)
  }

  /** `str(n)`: a minus sign for negative numbers, then the shortest decimal digits. */
  function IntToText(n: int): string {
    if n < 0 then "-" + Digits(-n) else Digits(n)
  }

  /** `int()` reads back every number `str()` writes. */
  lemma ParseIntToText(n: int)
    ensures ParseInt(IntToText(n)) == Some(n)
  {
    var d := if n < 0 then Digits(-n) else Digits(n);
    var s := IntToText(n);
    DigitsAreGroups(d);
    NoUnderscores(d);
    if n < 0 {
      assert s == "-" + d;
      assert s[1..] == d;
    } else {
      assert s == d && IsDigit(d[0]);
    }
    assert Unsigned(s) == d;
  }

  lemma {:induction false} NoUnderscores(s: string)
    requires AllDigits(s)
    ensures WithoutUnderscores(s) == s
  {
    if |s| > 0 {
      NoUnderscores(s[..|s| - 1]);
      assert s[..|s| - 1] + [s[|s| - 1]] == s;
    }
  }
}
