/** The Python string operations the core relies on, over `seq<char>`. */
module Strings {

  /** Python's `str.isspace` for one character: exactly the characters that `str.strip()` removes. */
  predicate IsSpace(c: char)
  {
    || ('\t' <= c <= '\r')
    || ('\U{1C}' <= c <= ' ')
    || c == '\U{85}' || c == '\U{A0}' || c == '\U{1680}'
    || ('\U{2000}' <= c <= '\U{200A}')
    || c == '\U{2028}' || c == '\U{2029}' || c == '\U{202F}' || c == '\U{205F}' || c == '\U{3000}'
  }

  predicate AllSpace(s: string)
  {
    forall i :: 0 <= i < |s| ==> IsSpace(s[i])
  }

  /** `s[i:j]` without its leading and trailing whitespace. */
  function StripRange(s: string, i: nat, j: nat): string
    requires i <= j <= |s|
    decreases j - i
  {
    if i == j then []
    else if IsSpace(s[i]) then StripRange(s, i + 1, j)
    else if IsSpace(s[j - 1]) then StripRange(s, i, j - 1)
    else s[i..j]
  }

  /** Python's `str.strip()`: `s` without its leading and trailing whitespace. */
  function Strip(s: string): string
  {
    StripRange(s, 0, |s|)
  }

  lemma {:induction false} StripRangeShape(s: string, i: nat, j: nat)
    requires i <= j <= |s|
    ensures var r := StripRange(s, i, j);
            |r| <= j - i && (r != [] ==> !IsSpace(r[0]) && !IsSpace(r[|r| - 1]))
    decreases j - i
  {
    if i < j {
      if IsSpace(s[i]) {
        StripRangeShape(s, i + 1, j);
      } else if IsSpace(s[j - 1]) {
        StripRangeShape(s, i, j - 1);
      }
    }
  }

  /** Stripping never lengthens, and what it leaves neither starts nor ends with whitespace. */
  lemma StripShape(s: string)
    ensures |Strip(s)| <= |s|
    ensures Strip(s) != [] ==> !IsSpace(Strip(s)[0]) && !IsSpace(Strip(s)[|Strip(s)| - 1])
  {
    StripRangeShape(s, 0, |s|);
  }

  lemma {:induction false} StripRangeInfix(s: string, i: nat, j: nat) returns (a: nat, b: nat)
    requires i <= j <= |s|
    ensures i <= a <= b <= j && StripRange(s, i, j) == s[a..b]
    ensures forall k :: i <= k < a ==> IsSpace(s[k])
    ensures forall k :: b <= k < j ==> IsSpace(s[k])
    decreases j - i
  {
    if i == j {
      a, b := i, i;
    } else if IsSpace(s[i]) {
      a, b := StripRangeInfix(s, i + 1, j);
    } else if IsSpace(s[j - 1]) {
      a, b := StripRangeInfix(s, i, j - 1);
    } else {
      a, b := i, j;
    }
  }

  /**
   * What stripping removes: the result is the slice `s[i..j]`, and everything
   * before `i` and from `j` on is whitespace.
   */
  lemma StripInfix(s: string) returns (i: nat, j: nat)
    ensures i <= j <= |s| && Strip(s) == s[i..j]
    ensures AllSpace(s[..i]) && AllSpace(s[j..])
  {
    i, j := StripRangeInfix(s, 0, |s|);
  }

  lemma {:induction false} StripRangeBlank(s: string, i: nat, j: nat)
    requires i <= j <= |s|
    ensures StripRange(s, i, j) == [] <==> forall k :: i <= k < j ==> IsSpace(s[k])
    decreases j - i
  {
    if i < j {
      if IsSpace(s[i]) {
        StripRangeBlank(s, i + 1, j);
      } else if IsSpace(s[j - 1]) {
        StripRangeBlank(s, i, j - 1);
      }
    }
  }

  /** Stripping leaves nothing exactly when the string is all whitespace. */
  lemma StripBlank(s: string)
    ensures Strip(s) == [] <==> AllSpace(s)
  {
    StripRangeBlank(s, 0, |s|);
  }

  lemma {:induction false} StripRangeWithin(s: string, i: nat, j: nat, c: char)
    requires i <= j <= |s|
    ensures c in StripRange(s, i, j) ==> c in s[i..j]
    decreases j - i
  {
    if i < j {
      if IsSpace(s[i]) {
        StripRangeWithin(s, i + 1, j, c);
        assert forall x :: x in s[i + 1..j] ==> x in s[i..j];
      } else if IsSpace(s[j - 1]) {
        StripRangeWithin(s, i, j - 1, c);
        assert forall x :: x in s[i..j - 1] ==> x in s[i..j];
      }
    }
  }

  /** Stripping only removes characters: whatever is in the result was in `s`. */
  lemma StripWithin(s: string, c: char)
    ensures c in Strip(s) ==> c in s
  {
    StripRangeWithin(s, 0, |s|, c);
    assert s[0..|s|] == s;
  }

  /** Stripping twice strips no more than once. */
  lemma StripStripped(s: string)
    ensures Strip(Strip(s)) == Strip(s)
  {
    var t := Strip(s);
    StripShape(s);
    assert t[0..|t|] == t;
  }

  /** Python's `s.split(sep)` for a one-character separator: the pieces between separators, never none. */
  function Split(s: string, sep: char): (parts: seq<string>)
    ensures |parts| >= 1
    ensures forall p :: p in parts ==> sep !in p
    decreases |s|
  {
    if s == [] then [[]]
    else
      var rest := Split(s[1..], sep);
      if s[0] == sep then [[]] + rest else [[s[0]] + rest[0]] + rest[1..]
  }

  /** Python's `sep.join(parts)`. */
  function Join(parts: seq<string>, sep: string): (r: string)
    ensures parts != [] ==> parts[0] <= r
    decreases |parts|
  {
    if parts == [] then []
    else if |parts| == 1 then parts[0]
    else parts[0] + sep + Join(parts[1..], sep)
  }

  /** Prefixing the first part with a character prefixes the joined string with it. */
  lemma JoinPrefixFirst(c: char, parts: seq<string>, sep: string)
    requires parts != []
    ensures Join([[c] + parts[0]] + parts[1..], sep) == [c] + Join(parts, sep)
  {
    var longer := [[c] + parts[0]] + parts[1..];
    assert longer[1..] == parts[1..];
    if |parts| > 1 {
      assert Join(longer, sep) == ([c] + parts[0]) + sep + Join(parts[1..], sep);
      assert ([c] + parts[0]) + sep + Join(parts[1..], sep) == [c] + (parts[0] + sep + Join(parts[1..], sep));
    }
  }

  /** Joining the pieces of a split with the separator gives back the original string. */
  lemma {:induction false} SplitJoin(s: string, sep: char)
    ensures Join(Split(s, sep), [sep]) == s
    decreases |s|
  {
    if s != [] {
      var rest := Split(s[1..], sep);
      SplitJoin(s[1..], sep);
      if s[0] == sep {
        assert Split(s, sep) == [[]] + rest;
        assert ([[]] + rest)[1..] == rest;
        assert Join([[]] + rest, [sep]) == [] + [sep] + Join(rest, [sep]);
        assert [] + [sep] + s[1..] == s;
      } else {
        JoinPrefixFirst(s[0], rest, [sep]);
        assert [s[0]] + s[1..] == s;
      }
    }
  }

  /** A character found in no part and not in the separator is not in the joined string. */
  lemma {:induction false} JoinAvoids(parts: seq<string>, sep: string, c: char)
    requires forall p :: p in parts ==> c !in p
    requires c !in sep
    ensures c !in Join(parts, sep)
    decreases |parts|
  {
    if |parts| > 1 {
      JoinAvoids(parts[1..], sep, c);
    }
  }

  /** With a whitespace separator, the joined string is blank exactly when every part is. */
  lemma {:induction false} JoinAllSpace(parts: seq<string>, sep: string)
    requires AllSpace(sep)
    ensures AllSpace(Join(parts, sep)) <==> forall p :: p in parts ==> AllSpace(p)
    decreases |parts|
  {
    if |parts| > 1 {
      JoinAllSpace(parts[1..], sep);
      var tail := Join(parts[1..], sep);
      var r := parts[0] + sep + tail;
      assert Join(parts, sep) == r;
      if AllSpace(r) {
        assert forall i :: 0 <= i < |parts[0]| ==> parts[0][i] == r[i];
        assert forall i :: 0 <= i < |tail| ==> tail[i] == r[|parts[0]| + |sep| + i];
        forall p | p in parts ensures AllSpace(p) {
          if p != parts[0] { assert p in parts[1..]; }
        }
      } else {
        forall p | p in parts[1..] ensures p in parts { }
        assert AllSpace(parts[0]) && AllSpace(tail) ==> AllSpace(r);
      }
    }
  }

  /** A line-split string is blank exactly when every line is blank. */
  lemma SplitAllSpace(s: string, sep: char)
    requires IsSpace(sep)
    ensures AllSpace(s) <==> forall p :: p in Split(s, sep) ==> AllSpace(p)
  {
    SplitJoin(s, sep);
    JoinAllSpace(Split(s, sep), [sep]);
  }

  /** Python's `s.replace(pat, rep, 1)`: the first occurrence of `pat` replaced by `rep`. */
  function ReplaceFirst(s: string, pat: string, rep: string): string
    decreases |s|
  {
    if pat <= s then rep + s[|pat|..]
    else if s == [] then []
    else [s[0]] + ReplaceFirst(s[1..], pat, rep)
  }

  function DigitChar(d: nat): (c: char)
    requires d < 10
    ensures '0' <= c <= '9'
  {
    ('0' as int + d) as char
  }

  /** Python's `str(n)` for a non-negative integer: its decimal digits. */
  function DecimalString(n: nat): (r: string)
    ensures r != []
    ensures forall c :: c in r ==> '0' <= c <= '9'
  {
    if n < 10 then [DigitChar(n)] else DecimalString(n / 10) + [DigitChar(n % 10)]
  }

  /** The number a string of decimal digits denotes (Python's `int(s)` on digits). */
  function DigitsValue(s: string): int
  {
    if s == [] then 0 else 10 * DigitsValue(s[..|s| - 1]) + (s[|s| - 1] as int - '0' as int)
  }

  /** Reading back the decimal digits of `n` gives `n`: `int(str(n)) == n`. */
  lemma {:induction false} DecimalRoundTrip(n: nat)
    ensures DigitsValue(DecimalString(n)) == n
  {
    var r := DecimalString(n);
    if n >= 10 {
      DecimalRoundTrip(n / 10);
      assert r[..|r| - 1] == DecimalString(n / 10);
    }
  }
}
