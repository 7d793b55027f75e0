/**
 * The string operations that Accept-Language parsing uses, with
 * ECMAScript's meanings: `String.prototype.split` on a one-character
 * separator, `String.prototype.trim`, `String.prototype.startsWith` and
 * `parseFloat` (decimal notation without an exponent).
 */
module Text {
  import opened Wrappers

  /**
   * ECMAScript's WhiteSpace and LineTerminator code points, the set that
   * `trim` removes and `parseFloat` skips.
   */
  predicate IsWhitespace(c: char) {
    var n := c as int;
    n == 0x09 || n == 0x0A || n == 0x0B || n == 0x0C || n == 0x0D ||
    n == 0x20 || n == 0xA0 || n == 0x1680 || (0x2000 <= n <= 0x200A) ||
    n == 0x2028 || n == 0x2029 || n == 0x202F || n == 0x205F ||
    n == 0x3000 || n == 0xFEFF
  }

  predicate AllWhitespace(s: string) {
    forall k :: 0 <= k < |s| ==> IsWhitespace(s[k])
  }

  /** `s.split(sep)`: the maximal pieces of `s` between occurrences of `sep`. */
  function Split(s: string, sep: char): (parts: seq<string>)
    ensures |parts| >= 1
    ensures forall k :: 0 <= k < |parts| ==> sep !in parts[k]
  {
    if s == [] then [[]]
    else
      var rest := Split(s[1..], sep);
      if s[0] == sep then [[]] + rest
      else [[s[0]] + rest[0]] + rest[1..]
  }

  /** `parts.join(sep)`. */
  function Join(parts: seq<string>, sep: char): string {
    if parts == [] then []
    else if |parts| == 1 then parts[0]
    else parts[0] + [sep] + Join(parts[1..], sep)
  }

  /** Joining the pieces with the separator gives back the original string. */
  lemma {:induction false} JoinSplit(s: string, sep: char)
    ensures Join(Split(s, sep), sep) == s
  {
    if s != [] {
      JoinSplit(s[1..], sep);
      var rest := Split(s[1..], sep);
      if s[0] == sep {
        assert ([[]] + rest)[1..] == rest;
      } else if |rest| > 1 {
        var parts := [[s[0]] + rest[0]] + rest[1..];
        assert parts[1..] == rest[1..];
        assert Join(rest, sep) == rest[0] + [sep] + Join(rest[1..], sep);
      }
    }
  }

  /** One step of `Split`: a separator opens a new piece, any other character extends the first. */
  lemma SplitCons(c: char, s: string, sep: char)
    ensures c == sep ==> Split([c] + s, sep) == [[]] + Split(s, sep)
    ensures c != sep ==> Split([c] + s, sep) == [[c] + Split(s, sep)[0]] + Split(s, sep)[1..]
  {
    assert ([c] + s)[0] == c && ([c] + s)[1..] == s;
  }

  /** The first piece is the prefix of `s` up to the first separator, if any. */
  lemma {:induction false} SplitFirst(s: string, sep: char)
    ensures Split(s, sep)[0] <= s
    ensures Split(s, sep)[0] < s ==> s[|Split(s, sep)[0]|] == sep
  {
    if s != [] && s[0] != sep {
      SplitFirst(s[1..], sep);
      var p := Split(s[1..], sep)[0];
      assert Split(s, sep)[0] == [s[0]] + p;
      assert s == [s[0]] + s[1..];
    }
  }

  /** Splitting a string that starts with a separator-free piece `p`. */
  lemma {:induction false} SplitPrefix(p: string, rest: string, sep: char)
    requires sep !in p
    ensures Split(p + rest, sep) == [p + Split(rest, sep)[0]] + Split(rest, sep)[1..]
  {
    var tail := Split(rest, sep);
    if p == [] {
      assert p + rest == rest && p + tail[0] == tail[0];
      assert tail == [tail[0]] + tail[1..];
    } else {
      SplitPrefix(p[1..], rest, sep);
      assert p + rest == [p[0]] + (p[1..] + rest);
      SplitCons(p[0], p[1..] + rest, sep);
      assert [p[0]] + (p[1..] + tail[0]) == p + tail[0];
    }
  }

  /** Splitting a joined sequence of separator-free pieces gives back the pieces. */
  lemma {:induction false} SplitJoin(parts: seq<string>, sep: char)
    requires |parts| >= 1
    requires forall k :: 0 <= k < |parts| ==> sep !in parts[k]
    ensures Split(Join(parts, sep), sep) == parts
  {
    if |parts| == 1 {
      SplitPrefix(parts[0], [], sep);
      assert parts[0] + [] == parts[0];
      assert Split([], sep) == [[]];
      assert parts[0] + [] == parts[0];
    } else {
      SplitJoin(parts[1..], sep);
      var tail := [sep] + Join(parts[1..], sep);
      assert parts[0] + [sep] + Join(parts[1..], sep) == parts[0] + tail;
      SplitPrefix(parts[0], tail, sep);
      SplitCons(sep, Join(parts[1..], sep), sep);
      assert Split(tail, sep) == [[]] + parts[1..];
      assert parts[0] + [] == parts[0];
      assert parts == [parts[0]] + parts[1..];
    }
  }

  /** A string without the separator splits into itself alone. */
  lemma SplitNoSeparator(s: string, sep: char)
    ensures sep !in s ==> Split(s, sep) == [s]
  {
    if sep !in s {
      SplitPrefix(s, [], sep);
      assert s + [] == s;
    }
  }

  /** `s` without its leading whitespace. */
  function TrimStart(s: string): (r: string)
    ensures |r| <= |s| && r == s[|s| - |r|..]
    ensures AllWhitespace(s[..|s| - |r|])
    ensures r == [] || !IsWhitespace(r[0])
  {
    if s != [] && IsWhitespace(s[0]) then TrimStart(s[1..]) else s
  }

  /** `s` without its trailing whitespace. */
  function TrimEnd(s: string): (r: string)
    ensures |r| <= |s| && r == s[..|r|]
    ensures AllWhitespace(s[|r|..])
    ensures r == [] || !IsWhitespace(r[|r| - 1])
  {
    if s != [] && IsWhitespace(s[|s| - 1]) then TrimEnd(s[..|s| - 1]) else s
  }

  /** Dropping `m` characters after dropping `i` drops `i + m`. */
  lemma DropDrop(s: string, i: nat, m: nat)
    requires i + m <= |s|
    ensures s[i..][m..] == s[i + m..]
  {
  }

  /** Taking a prefix after dropping `i` characters is a middle slice. */
  lemma DropTake(s: string, i: nat, m: nat)
    requires i + m <= |s|
    ensures s[i..][..m] == s[i..i + m]
  {
  }

  /**
   * If `u` is `s` without a whitespace prefix and `r` is `u` without a
   * whitespace suffix, then `r` is a middle slice of `s` with only
   * whitespace around it, and a non-blank start of `u` is the start of `r`.
   */
  lemma MiddleSlice(s: string, u: string, r: string)
    requires |u| <= |s| && u == s[|s| - |u|..] && AllWhitespace(s[..|s| - |u|])
    requires |r| <= |u| && r == u[..|r|] && AllWhitespace(u[|r|..])
    requires u == [] || !IsWhitespace(u[0])
    ensures var i := |s| - |u|;
            r == s[i..i + |r|] && AllWhitespace(s[i + |r|..])
    ensures r == [] || !IsWhitespace(r[0])
  {
    var i := |s| - |u|;
    DropTake(s, i, |r|);
    DropDrop(s, i, |r|);
    if r != [] {
      assert r[0] == u[0];
    }
  }

  /** `s.trim()`. */
  function Trim(s: string): (r: string)
    ensures exists i, j :: 0 <= i <= j <= |s| && r == s[i..j] &&
                           AllWhitespace(s[..i]) && AllWhitespace(s[j..])
    ensures r == [] || (!IsWhitespace(r[0]) && !IsWhitespace(r[|r| - 1]))
  {
    var u := TrimStart(s);
    var r := TrimEnd(u);
    MiddleSlice(s, u, r);
    r
  }

  lemma {:induction false} TrimStartPadding(w: string, s: string)
    requires AllWhitespace(w)
    ensures TrimStart(w + s) == TrimStart(s)
  {
    if w != [] {
      assert (w + s)[0] == w[0];
      assert (w + s)[1..] == w[1..] + s;
      TrimStartPadding(w[1..], s);
    } else {
      assert w + s == s;
    }
  }

  lemma {:induction false} TrimEndPadding(s: string, w: string)
    requires AllWhitespace(w)
    ensures TrimEnd(s + w) == TrimEnd(s)
  {
    if w != [] {
      var w' := w[..|w| - 1];
      assert (s + w)[|s + w| - 1] == w[|w| - 1];
      assert (s + w)[..|s + w| - 1] == s + w';
      TrimEndPadding(s, w');
    } else {
      assert s + w == s;
    }
  }

  /** Trimming the start does not touch trailing text once a non-blank is found. */
  lemma {:induction false} TrimStartAppend(s: string, w: string)
    ensures TrimStart(s + w) == if TrimStart(s) == [] then TrimStart(w) else TrimStart(s) + w
  {
    if s != [] {
      assert (s + w)[0] == s[0];
      if IsWhitespace(s[0]) {
        assert (s + w)[1..] == s[1..] + w;
        TrimStartAppend(s[1..], w);
      }
    } else {
      assert s + w == w;
    }
  }

  /** Whitespace around a string does not change what `trim` returns. */
  lemma TrimIgnoresPadding(w1: string, s: string, w2: string)
    requires AllWhitespace(w1) && AllWhitespace(w2)
    ensures Trim(w1 + s + w2) == Trim(s)
  {
    assert w1 + s + w2 == w1 + (s + w2);
    TrimStartPadding(w1, s + w2);
    TrimStartAppend(s, w2);
    if TrimStart(s) == [] {
      assert TrimStart(w2) == [] by {
        TrimStartPadding(w2, []);
        assert w2 + [] == w2;
      }
    } else {
      TrimEndPadding(TrimStart(s), w2);
    }
  }

  /** A string with no whitespace at either end is its own trim. */
  lemma TrimNoPadding(s: string)
    requires s != [] && !IsWhitespace(s[0]) && !IsWhitespace(s[|s| - 1])
    ensures Trim(s) == s
  {
  }

  /** Trimming twice is trimming once. */
  lemma TrimIdempotent(s: string)
    ensures Trim(Trim(s)) == Trim(s)
  {
    var r := Trim(s);
    assert TrimStart(r) == r;
    assert TrimEnd(r) == r;
  }

  /** `s.startsWith(prefix)`. */
  predicate StartsWith(s: string, prefix: string) {
    prefix <= s
  }

  predicate IsDigit(c: char) {
    '0' <= c <= '9'
  }

  /** The length of the run of decimal digits that starts `s`. */
  function DigitRun(s: string): (n: nat)
    ensures n <= |s|
    ensures forall k :: 0 <= k < n ==> IsDigit(s[k])
    ensures n < |s| ==> !IsDigit(s[n])
  {
    if s != [] && IsDigit(s[0]) then 1 + DigitRun(s[1..]) else 0
  }

  function DigitValue(c: char): real
    requires IsDigit(c)
  {
    (c as int - '0' as int) as real
  }

  /** The value of a run of digits read as an integer numeral. */
  function IntegerValue(ds: string): (v: real)
    requires forall k :: 0 <= k < |ds| ==> IsDigit(ds[k])
    ensures v >= 0.0
  {
    if ds == [] then 0.0
    else 10.0 * IntegerValue(ds[..|ds| - 1]) + DigitValue(ds[|ds| - 1])
  }

  /** The value of a run of digits read as the fraction after a decimal point. */
  function FractionValue(ds: string): (v: real)
    requires forall k :: 0 <= k < |ds| ==> IsDigit(ds[k])
    ensures 0.0 <= v < 1.0
  {
    if ds == [] then 0.0
    else (DigitValue(ds[0]) + FractionValue(ds[1..])) / 10.0
  }

  /** `t` without a leading `+` or `-`. */
  function AfterSign(t: string): string {
    if t != [] && (t[0] == '+' || t[0] == '-') then t[1..] else t
  }

  /** `u` begins with a digit, or with a decimal point followed by a digit. */
  predicate StartsNumeral(u: string) {
    (u != [] && IsDigit(u[0])) || (|u| >= 2 && u[0] == '.' && IsDigit(u[1]))
  }

  /** The digits after a decimal point that starts `rest`, if one does. */
  function FractionDigits(rest: string): (ds: string)
    ensures forall k :: 0 <= k < |ds| ==> IsDigit(ds[k])
    ensures ds != [] ==> |rest| >= 2 && rest[0] == '.' && IsDigit(rest[1])
  {
    if rest != [] && rest[0] == '.' then rest[1..][..DigitRun(rest[1..])] else []
  }

  /** The value of the unsigned numeral that starts `u`, if one does. */
  function UnsignedValue(u: string): (r: Option<real>)
    ensures r.None? <==> !StartsNumeral(u)
    ensures r.Some? ==> r.value >= 0.0
  {
    var n := DigitRun(u);
    var fraction := FractionDigits(u[n..]);
    if n == 0 && fraction == [] then None
    else Some(IntegerValue(u[..n]) + FractionValue(fraction))
  }

  /**
   * `parseFloat(s)`: skips leading whitespace, then reads the longest prefix
   * of the form [sign] digits [. digits] with at least one digit; `None`
   * stands for NaN.
   */
  function ParseFloat(s: string): (r: Option<real>)
    ensures r.None? <==> !StartsNumeral(AfterSign(TrimStart(s)))
    ensures r.Some? && (TrimStart(s) == [] || TrimStart(s)[0] != '-') ==> r.value >= 0.0
  {
    SignedValue(TrimStart(s))
  }

  /** The value of the optionally signed numeral that starts `t`, if one does. */
  function SignedValue(t: string): (r: Option<real>)
    ensures r.None? <==> !StartsNumeral(AfterSign(t))
    ensures r.Some? && (t == [] || t[0] != '-') ==> r.value >= 0.0
  {
    match UnsignedValue(AfterSign(t))
    case None => None
    case Some(v) => Some(if t != [] && t[0] == '-' then -v else v)
  }

  /** A run of digits followed by a non-digit (or nothing) is read whole. */
  lemma {:induction false} DigitRunOf(ds: string, rest: string)
    requires forall k :: 0 <= k < |ds| ==> IsDigit(ds[k])
    requires rest == [] || !IsDigit(rest[0])
    ensures DigitRun(ds + rest) == |ds|
  {
    if ds != [] {
      DigitRunOf(ds[1..], rest);
      assert (ds + rest)[1..] == ds[1..] + rest;
    }
  }

  /** A string that starts with a digit has no sign and no padding to skip. */
  lemma ParseFloatUnsigned(u: string)
    requires u != [] && IsDigit(u[0])
    ensures ParseFloat(u) == UnsignedValue(u)
  {
    assert !IsWhitespace(u[0]);
    assert TrimStart(u) == u;
    assert AfterSign(u) == u;
  }

  /** The unsigned numeral read from its integer digits and fraction digits. */
  lemma UnsignedOfParts(u: string, ds: string, fs: string)
    requires ds != [] && |ds| <= |u|
    requires forall k :: 0 <= k < |ds| ==> IsDigit(ds[k])
    requires DigitRun(u) == |ds| && u[..|ds|] == ds && FractionDigits(u[|ds|..]) == fs
    ensures UnsignedValue(u) == Some(IntegerValue(ds) + FractionValue(fs))
    ensures fs == [] ==> UnsignedValue(u) == Some(IntegerValue(ds))
  {
  }

  /** `parseFloat` of an integer numeral is the value of its digits. */
  lemma ParseFloatInteger(ds: string)
    requires ds != []
    requires forall k :: 0 <= k < |ds| ==> IsDigit(ds[k])
    ensures ParseFloat(ds) == Some(IntegerValue(ds))
  {
    assert DigitRun(ds) == |ds| by {
      DigitRunOf(ds, []);
      assert ds + [] == ds;
    }
    assert ds[..|ds|] == ds && ds[|ds|..] == [];
    UnsignedOfParts(ds, ds, []);
    ParseFloatUnsigned(ds);
  }

  /** `parseFloat` skips leading whitespace. */
  lemma ParseFloatSkipsBlanks(w: string, s: string)
    requires AllWhitespace(w)
    ensures ParseFloat(w + s) == ParseFloat(s)
  {
    TrimStartPadding(w, s);
  }

  /**
   * `parseFloat` of a decimal numeral `ds.fs`: the integer digits' value
   * plus the fraction digits' value.
   */
  lemma ParseFloatDecimal(ds: string, fs: string)
    requires ds != []
    requires forall k :: 0 <= k < |ds| ==> IsDigit(ds[k])
    requires forall k :: 0 <= k < |fs| ==> IsDigit(fs[k])
    ensures ParseFloat(ds + ['.'] + fs) == Some(IntegerValue(ds) + FractionValue(fs))
  {
    var tail := ['.'] + fs;
    var u := ds + tail;
    assert u == ds + ['.'] + fs;
    assert u[..|ds|] == ds && u[|ds|..] == tail;
    assert u[0] == ds[0];
    ParseFloatUnsigned(u);
    DigitRunOf(ds, tail);
    assert FractionDigits(tail) == fs by {
      assert tail[1..] == fs;
      DigitRunOf(fs, []);
      assert fs + [] == fs;
    }
    UnsignedOfParts(u, ds, fs);
  }
}
