/** The Python `str` operations the line counter relies on, written out over
    `seq<char>`: `str.isspace`, `strip`, `startswith`, the `in` operator,
    `split`, `str(n)`, `int(s)`, `s * n` and `'\t'.expandtabs(n)`. */
module PyStrings {
  import opened Seqs

  /** Python's `c.isspace()`. */
  predicate IsSpace(c: char) {
    c == ' ' || ('\t' <= c <= '\r') || ('\U{1C}' <= c <= '\U{1F}')
    || c == '\U{85}' || c == '\U{A0}' || c == '\U{1680}'
    || ('\U{2000}' <= c <= '\U{200A}') || c == '\U{2028}' || c == '\U{2029}'
    || c == '\U{202F}' || c == '\U{205F}' || c == '\U{3000}'
  }

  /** An ASCII decimal digit. */
  predicate IsDigit(c: char) {
    '0' <= c <= '9'
  }

  /** Python's `s.startswith(prefix)`. */
  predicate StartsWith(s: string, prefix: string) {
    prefix <= s
  }

  /** `t` occurs in `s` starting at position `k`. */
  ghost predicate OccursAt(t: string, s: string, k: nat) {
    k + |t| <= |s| && s[k..k + |t|] == t
  }

  /** Python's `t in s` on two strings: `t` occurs somewhere inside `s`. */
  function IsSubstring(t: string, s: string): (b: bool)
    ensures b <==> exists k: nat :: OccursAt(t, s, k)
    decreases |s|
  {
    if |t| > |s| then false
    else if t <= s then
      assert OccursAt(t, s, 0);
      true
    else
      var b := IsSubstring(t, s[1..]);
      assert !OccursAt(t, s, 0);
      assert forall k: nat :: OccursAt(t, s[1..], k) ==> OccursAt(t, s, k + 1) by {
        forall k: nat | OccursAt(t, s[1..], k) ensures OccursAt(t, s, k + 1) {
          assert s[1..][k..k + |t|] == s[k + 1..k + 1 + |t|];
        }
      }
      assert forall k: nat :: OccursAt(t, s, k) ==> k > 0 && OccursAt(t, s[1..], k - 1) by {
        forall k: nat | OccursAt(t, s, k) ensures k > 0 && OccursAt(t, s[1..], k - 1) {
          assert k != 0;
          assert s[1..][k - 1..k - 1 + |t|] == s[k..k + |t|];
        }
      }
      b
  }

  /** Substring occurrence is transitive: whatever contains `u` contains every
      substring of `u`. */
  lemma SubstringTransitive(t: string, u: string, s: string)
    requires IsSubstring(t, u) && IsSubstring(u, s)
    ensures IsSubstring(t, s)
  {
    var i: nat :| OccursAt(t, u, i);
    var j: nat :| OccursAt(u, s, j);
    forall k | 0 <= k < |t| ensures s[j + i + k] == t[k] {
      assert s[j + i + k] == s[j..j + |u|][i + k] == u[i..i + |t|][k];
    }
    assert s[j + i..j + i + |t|] == t;
    assert OccursAt(t, s, j + i);
  }

  /** Neither end is a whitespace character. */
  predicate Trimmed(s: string) {
    s == [] || (!IsSpace(s[0]) && !IsSpace(s[|s| - 1]))
  }

  /** Python's `s.lstrip()`: the suffix left after dropping leading whitespace. */
  function StripLeft(s: string): (r: string)
    ensures |r| <= |s| && r == s[|s| - |r|..]
    ensures r == [] || !IsSpace(r[0])
    ensures forall k :: 0 <= k < |s| - |r| ==> IsSpace(s[k])
    decreases |s|
  {
    if s != [] && IsSpace(s[0]) then StripLeft(s[1..]) else s
  }

  /** Python's `s.rstrip()`: the prefix left after dropping trailing whitespace. */
  function StripRight(s: string): (r: string)
    ensures |r| <= |s| && r == s[..|r|]
    ensures r == [] || !IsSpace(r[|r| - 1])
    ensures forall k :: |r| <= k < |s| ==> IsSpace(s[k])
    decreases |s|
  {
    if s != [] && IsSpace(s[|s| - 1]) then StripRight(s[..|s| - 1]) else s
  }

  /** Python's `s.strip()`: `s` without its leading and trailing whitespace.
      The result is the slice of `s` that starts at the first non-whitespace
      character and ends after the last one. */
  function Strip(s: string): (r: string)
    ensures Trimmed(r)
    ensures |r| <= |s|
    ensures forall c :: c in r ==> c in s
    ensures var i := |s| - |StripLeft(s)|;
      && i + |r| <= |s| && r == s[i..i + |r|]
      && (forall k :: 0 <= k < i ==> IsSpace(s[k]))
      && (forall k :: i + |r| <= k < |s| ==> IsSpace(s[k]))
  {
    var l := StripLeft(s);
    var r := StripRight(l);
    SuffixPrefix(s, l, r);
    r
  }

  /** A prefix `r` of a suffix `l` of `s` is a slice of `s`; whitespace that
      follows `r` in `l` follows it in `s`. */
  lemma SuffixPrefix(s: string, l: string, r: string)
    requires |l| <= |s| && l == s[|s| - |l|..]
    requires l == [] || !IsSpace(l[0])
    requires forall k :: 0 <= k < |s| - |l| ==> IsSpace(s[k])
    requires |r| <= |l| && r == l[..|r|]
    requires r == [] || !IsSpace(r[|r| - 1])
    requires forall k :: |r| <= k < |l| ==> IsSpace(l[k])
    ensures Trimmed(r)
    ensures |r| <= |s|
    ensures forall c :: c in r ==> c in s
    ensures var i := |s| - |l|;
      && i + |r| <= |s| && r == s[i..i + |r|]
      && (forall k :: 0 <= k < i ==> IsSpace(s[k]))
      && (forall k :: i + |r| <= k < |s| ==> IsSpace(s[k]))
  {
    assert r != [] ==> r[0] == l[0];
    var i := |s| - |l|;
    assert r == s[i..i + |r|];
    forall k | i + |r| <= k < |s| ensures IsSpace(s[k]) {
      assert s[k] == l[k - i];
    }
    forall c | c in r ensures c in s {
      var j :| 0 <= j < |r| && r[j] == c;
      assert s[i + j] == c;
    }
  }

  /** Stripping leaves a string that is already stripped as it is. */
  lemma StripTrimmed(s: string)
    requires Trimmed(s)
    ensures Strip(s) == s
  {
  }

  /** Stripping removes exactly the whitespace around a trimmed string. */
  lemma StripPadded(w: string, x: string, w': string)
    requires forall k :: 0 <= k < |w| ==> IsSpace(w[k])
    requires forall k :: 0 <= k < |w'| ==> IsSpace(w'[k])
    requires Trimmed(x)
    ensures Strip(w + x + w') == x
  {
    var s := w + x + w';
    var r := Strip(s);
    var i := |s| - |StripLeft(s)|;
    if x == [] {
      assert forall k :: 0 <= k < |s| ==> IsSpace(s[k]);
    } else {
      assert s[|w|] == x[0] && !IsSpace(s[|w|]);
      assert s[|w| + |x| - 1] == x[|x| - 1] && !IsSpace(s[|w| + |x| - 1]);
      assert i <= |w|;
      assert r != [];
      assert r[0] == s[i];
      assert i == |w|;
      assert |w| + |x| <= i + |r|;
      assert r[|r| - 1] == s[i + |r| - 1];
      assert i + |r| == |w| + |x|;
      assert s[|w|..|w| + |x|] == x;
    }
  }

  /** Stripping a trimmed string followed by a whitespace character gives the
      string back: this is how one line `t + "\n"` reads back as `t`. */
  lemma StripTrailingSpace(t: string, c: char)
    requires Trimmed(t) && IsSpace(c)
    ensures Strip(t + [c]) == t
  {
    if t == [] {
      assert StripLeft([c]) == StripLeft([]);
    } else {
      assert StripLeft(t + [c]) == t + [c];
      assert (t + [c])[..|t|] == t;
    }
  }

  /** The number of occurrences of `c` in `s`. */
  function Count(s: string, c: char): nat {
    multiset(s)[c]
  }

  /** Python's `sep.join(pieces)` for a one-character separator. */
  function Join(pieces: seq<string>, sep: char): string
    requires pieces != []
    decreases |pieces|
  {
    if |pieces| == 1 then pieces[0] else pieces[0] + [sep] + Join(pieces[1..], sep)
  }

  /** Python's `s.split(sep)` for a one-character separator: the pieces between
      separators, one more than there are separators, joined back into `s`. */
  function Split(s: string, sep: char): (pieces: seq<string>)
    ensures |pieces| == Count(s, sep) + 1
    ensures forall i :: 0 <= i < |pieces| ==> sep !in pieces[i]
    ensures Join(pieces, sep) == s
    decreases |s|
  {
    if sep !in s then
      assert multiset(s)[sep] == 0;
      [s]
    else
      var k := FirstIndex(s, sep);
      var rest := Split(s[k + 1..], sep);
      assert s == s[..k] + [sep] + s[k + 1..];
      assert multiset(s) == multiset(s[..k]) + multiset{sep} + multiset(s[k + 1..]);
      assert multiset(s[..k])[sep] == 0;
      var pieces := [s[..k]] + rest;
      assert pieces[1..] == rest;
      pieces
  }

  /** The character for a decimal digit value. */
  function DigitChar(d: nat): (c: char)
    requires d < 10
    ensures IsDigit(c) && c as int - '0' as int == d
  {
    (d + '0' as int) as char
  }

  /** Python's `str(n)` for a non-negative integer: its decimal digits, without
      leading zeros. */
  function NatToString(n: nat): (s: string)
    ensures |s| > 0
    ensures forall i :: 0 <= i < |s| ==> IsDigit(s[i])
    ensures s[0] == '0' ==> n == 0 && s == "0"
    decreases n
  {
    if n < 10 then [DigitChar(n)] else NatToString(n / 10) + [DigitChar(n % 10)]
  }

  /** The value of a string of decimal digits; underscores are skipped. */
  function DigitsValue(d: string): nat
    decreases |d|
  {
    if d == [] then 0
    else
      var c := d[|d| - 1];
      if IsDigit(c) then DigitsValue(d[..|d| - 1]) * 10 + (c as int - '0' as int)
      else DigitsValue(d[..|d| - 1])
  }

  /** What Python's `int()` accepts after the sign: decimal digits, with single
      underscores allowed between two digits. */
  predicate DecimalLiteral(b: string) {
    && |b| > 0
    && IsDigit(b[0])
    && IsDigit(b[|b| - 1])
    && forall i :: 0 <= i < |b| ==> IsDigit(b[i]) || (b[i] == '_' && i + 1 < |b| && IsDigit(b[i + 1]))
  }

  /** The ASCII information separators U+001C..U+001F: whitespace to
      `str.isspace`, but not to `int()`, which keeps every ASCII character as
      it is and then skips only " \t\n\v\f\r" (and non-ASCII whitespace). */
  predicate IsInformationSeparator(c: char) {
    '\U{1C}' <= c <= '\U{1F}'
  }

  /** The whitespace `int()` accepts around a number. */
  predicate IsIntSpace(c: char) {
    IsSpace(c) && !IsInformationSeparator(c)
  }

  /** What `int()` makes of the text inside the surrounding whitespace: one
      optional sign, then a decimal literal. */
  function ParseTrimmed(t: string): (r: Option<int>)
    ensures r.Some? ==> t != [] && IsDigit(t[|t| - 1])
  {
    if t == [] then None
    else
      var body := if t[0] == '-' || t[0] == '+' then t[1..] else t;
      if !DecimalLiteral(body) then None
      else
        var v: int := DigitsValue(body);
        Some(if t[0] == '-' then -v else v)
  }

  /** Python's `int(s)` on a string in base 10; `None` where it raises
      `ValueError`. Surrounding whitespace and one sign are allowed. An
      information separator is never skipped as whitespace, and it is no digit,
      sign or underscore, so a string holding one is refused. */
  function ParseInt(s: string): (r: Option<int>)
    ensures r.Some? ==> exists i :: 0 <= i < |s| && IsDigit(s[i])
  {
    if exists i :: 0 <= i < |s| && IsInformationSeparator(s[i]) then None
    else
      var t := Strip(s);
      var r := ParseTrimmed(t);
      assert r.Some? ==> t[|t| - 1] in s;
      r
  }

  /** `int(str(n)) == n`: the decimal rendering of a count reads back as it. */
  lemma ParseNatToString(n: nat)
    ensures ParseInt(NatToString(n)) == Some(n)
  {
    var d := NatToString(n);
    ParseSigned(false, n);
    assert "" + d == d;
    ParseIntOfDigits(d, n);
  }

  /** Text made of digits only is its own trimmed form. */
  lemma ParseIntOfDigits(d: string, v: int)
    requires d != [] && forall k :: 0 <= k < |d| ==> IsDigit(d[k])
    requires ParseTrimmed(d) == Some(v)
    ensures ParseInt(d) == Some(v)
  {
    assert Trimmed(d);
    StripTrimmed(d);
    ParseIntOfStripped(d, d);
  }

  /** A decimal number with an optional minus sign reads as its value. */
  lemma ParseSigned(negative: bool, n: nat)
    ensures var v: int := if negative then -(n as int) else n;
      ParseTrimmed((if negative then "-" else "") + NatToString(n)) == Some(v)
  {
    var d := NatToString(n);
    assert DecimalLiteral(d);
    DigitsValueOfNatToString(n);
    ParseSignedLiteral(negative, d);
  }

  /** A decimal literal with an optional minus sign reads as its value. */
  lemma ParseSignedLiteral(negative: bool, d: string)
    requires DecimalLiteral(d)
    ensures var v: int := DigitsValue(d);
      ParseTrimmed((if negative then "-" else "") + d) == Some(if negative then -v else v)
  {
    var x := (if negative then "-" else "") + d;
    if negative {
      assert x[0] == '-' && x[1..] == d;
    } else {
      assert x == d;
    }
  }

  /** Whitespace `int()` skips, digits and signs hold no information
      separator. */
  lemma PaddedHasNoSeparator(w: string, x: string, w': string)
    requires forall k :: 0 <= k < |w| ==> IsIntSpace(w[k])
    requires forall k :: 0 <= k < |w'| ==> IsIntSpace(w'[k])
    requires forall k :: 0 <= k < |x| ==> x[k] == '-' || IsDigit(x[k])
    ensures forall k :: 0 <= k < |w + x + w'| ==> !IsInformationSeparator((w + x + w')[k])
  {
    var s := w + x + w';
    forall k | 0 <= k < |s| ensures !IsInformationSeparator(s[k]) {
      if k < |w| {
        assert s[k] == w[k];
      } else if k < |w| + |x| {
        assert s[k] == x[k - |w|];
      } else {
        assert s[k] == w'[k - |w| - |x|];
      }
    }
  }

  /** `int()` reads a decimal number with an optional minus sign and
      whitespace on either side as that number. */
  lemma ParseIntPadded(w: string, negative: bool, n: nat, w': string)
    requires forall k :: 0 <= k < |w| ==> IsIntSpace(w[k])
    requires forall k :: 0 <= k < |w'| ==> IsIntSpace(w'[k])
    ensures var v: int := if negative then -(n as int) else n;
      var x := (if negative then "-" else "") + NatToString(n);
      ParseInt(w + x + w') == Some(v)
  {
    var d := NatToString(n);
    var x := (if negative then "-" else "") + d;
    var v: int := if negative then -(n as int) else n;
    assert x[|x| - 1] == d[|d| - 1];
    assert forall k :: 0 <= k < |x| ==> x[k] == '-' || IsDigit(x[k]);
    ParseSigned(negative, n);
    ParseIntOfPadded(w, x, w', v);
  }

  /** A signed number between whitespace `int()` skips reads as the number. */
  lemma ParseIntOfPadded(w: string, x: string, w': string, v: int)
    requires forall k :: 0 <= k < |w| ==> IsIntSpace(w[k])
    requires forall k :: 0 <= k < |w'| ==> IsIntSpace(w'[k])
    requires Trimmed(x)
    requires forall k :: 0 <= k < |x| ==> x[k] == '-' || IsDigit(x[k])
    requires ParseTrimmed(x) == Some(v)
    ensures ParseInt(w + x + w') == Some(v)
  {
    StripPadded(w, x, w');
    PaddedHasNoSeparator(w, x, w');
    ParseIntOfStripped(w + x + w', x);
  }

  /** Without information separators, `int()` reads what is left once the
      surrounding whitespace is stripped. */
  lemma ParseIntOfStripped(s: string, x: string)
    requires forall k :: 0 <= k < |s| ==> !IsInformationSeparator(s[k])
    requires Strip(s) == x
    ensures ParseInt(s) == ParseTrimmed(x)
  {
  }

  /** Inside the whitespace, a character that is no digit, underscore or sign
      makes `int()` refuse the text. */
  lemma TrimmedRefuses(t: string, j: nat)
    requires j < |t| && !IsDigit(t[j]) && t[j] != '_' && t[j] != '+' && t[j] != '-'
    ensures ParseTrimmed(t) == None
  {
    var body := if t[0] == '-' || t[0] == '+' then t[1..] else t;
    var b := if t[0] == '-' || t[0] == '+' then j - 1 else j;
    assert 0 <= b < |body| && body[b] == t[j];
    if DecimalLiteral(body) {
      DecimalLiteralChar(body, b);
    }
  }

  lemma DecimalLiteralChar(b: string, k: nat)
    requires DecimalLiteral(b) && k < |b|
    ensures IsDigit(b[k]) || b[k] == '_'
  {
    assert IsDigit(b[k]) || (b[k] == '_' && k + 1 < |b| && IsDigit(b[k + 1]));
  }

  /** `int()` refuses a string holding a character that is neither a digit,
      an underscore, a sign nor whitespace it skips. */
  lemma ParseIntRefuses(s: string, k: nat)
    requires k < |s| && !IsDigit(s[k]) && s[k] != '_' && s[k] != '+' && s[k] != '-' && !IsIntSpace(s[k])
    ensures ParseInt(s) == None
  {
    if !exists i :: 0 <= i < |s| && IsInformationSeparator(s[i]) {
      assert !IsSpace(s[k]);
      var t := Strip(s);
      var i := |s| - |StripLeft(s)|;
      InsideSlice(s, t, i, k);
      TrimmedRefuses(t, k - i);
      ParseIntOfStripped(s, t);
    }
  }

  /** A non-space character of `s` lies in the slice that stripping keeps. */
  lemma InsideSlice(s: string, t: string, i: nat, k: nat)
    requires i + |t| <= |s| && t == s[i..i + |t|]
    requires forall j :: 0 <= j < i ==> IsSpace(s[j])
    requires forall j :: i + |t| <= j < |s| ==> IsSpace(s[j])
    requires k < |s| && !IsSpace(s[k])
    ensures i <= k < i + |t| && t[k - i] == s[k]
  {
  }

  lemma {:induction false} DigitsValueOfNatToString(n: nat)
    ensures DigitsValue(NatToString(n)) == n
    decreases n
  {
    var s := NatToString(n);
    if n >= 10 {
      DigitsValueOfNatToString(n / 10);
      assert s[..|s| - 1] == NatToString(n / 10);
    } else {
      assert s[..|s| - 1] == [];
    }
  }

  /** `n` spaces. */
  function Spaces(n: nat): (r: string)
    ensures |r| == n && forall i :: 0 <= i < n ==> r[i] == ' '
  {
    seq(n, _ => ' ')
  }

  /** Python's `'\t'.expandtabs(n)`: a lone tab at column 0 becomes `n` spaces,
      and disappears when `n` is zero or negative. */
  function ExpandTab(n: int): (r: string)
    ensures |r| == if n > 0 then n else 0
    ensures forall i :: 0 <= i < |r| ==> r[i] == ' '
  {
    if n > 0 then Spaces(n) else ""
  }

  /** Python's `s * n` on a string: `n` copies, nothing when `n` <= 0. */
  function Repeat(s: string, n: int): (r: string)
    ensures |r| == if n > 0 then n * |s| else 0
    ensures forall i :: 0 <= i < |r| ==> r[i] in s
    decreases n
  {
    if n <= 0 then "" else Repeat(s, n - 1) + s
  }
}
