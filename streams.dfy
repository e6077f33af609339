/** The `std::istringstream` extractions used by the wire codec, each written
    as a function of the underlying text and the current read position:
    `std::getline`, `operator>>` into a `std::string` (a whitespace-delimited
    word) and `operator>>` into an `i32`; and `std::stoull`, which reads a
    numeral the same way. */
module Streams {
  import opened Results
  import opened Text

  const I32Min: int := -0x8000_0000
  const I32Max: int := 0x7fff_ffff

  /** The values of a C++ `i32`. */
  type Int32 = x: int | I32Min <= x <= I32Max

  /** `isspace` in the "C" locale: space, \t, \n, \v, \f, \r. */
  predicate IsSpace(c: char) {
    c == ' ' || c == '\t' || c == '\n' || c == '\r' || c as int == 11 || c as int == 12
  }

  /** Where the line that starts at `pos` ends: the first '\n' at or after
      `pos`, or the end of the text. */
  function LineEnd(s: string, pos: nat): (r: nat)
    requires pos <= |s|
    ensures pos <= r <= |s|
    decreases |s| - pos
  {
    if pos == |s| || s[pos] == '\n' then pos else LineEnd(s, pos + 1)
  }

  /** `LineEnd` stops at the first '\n', or at the end when there is none. */
  lemma {:induction false} LineEndSpec(s: string, pos: nat)
    requires pos <= |s|
    ensures LineEnd(s, pos) == |s| || s[LineEnd(s, pos)] == '\n'
    ensures forall j :: pos <= j < LineEnd(s, pos) ==> s[j] != '\n'
    decreases |s| - pos
  {
    if pos < |s| && s[pos] != '\n' {
      LineEndSpec(s, pos + 1);
    }
  }

  /** A position that holds the first '\n' after `pos` (or the end, when no
      '\n' is left) is where the line ends. */
  lemma {:induction false} LineEndIs(s: string, pos: nat, e: nat)
    requires pos <= e <= |s| && (e == |s| || s[e] == '\n')
    requires forall j :: pos <= j < e ==> s[j] != '\n'
    ensures LineEnd(s, pos) == e
    decreases e - pos
  {
    if pos < e {
      LineEndIs(s, pos + 1, e);
    }
  }

  /** `std::getline(stream, line)` on a stream over `s` positioned at `pos`:
      `None` when nothing is left to read (the stream fails), otherwise the
      characters up to the next '\n' (which is consumed but not stored) and the
      new position. */
  function GetLine(s: string, pos: nat): (r: Option<(string, nat)>)
    ensures r.None? <==> pos >= |s|
    ensures r.Some? ==> pos < r.value.1 <= |s|
  {
    if pos >= |s| then None
    else
      var e := LineEnd(s, pos);
      if e < |s| then Some((s[pos..e], e + 1)) else Some((s[pos..], |s|))
  }

  /** What `std::getline` reads: a line free of '\n', followed by its '\n'
      or by the end of the text. */
  lemma {:induction false} GetLineText(s: string, pos: nat)
    requires GetLine(s, pos).Some?
    ensures var (line, next) := GetLine(s, pos).value;
            '\n' !in line &&
            ((s[pos..next] == line + "\n") || (next == |s| && s[pos..] == line))
  {
    LineEndSpec(s, pos);
  }

  /** The first position at or after `pos` that is not white space. */
  function SkipSpace(s: string, pos: nat): (r: nat)
    requires pos <= |s|
    ensures pos <= r <= |s|
    ensures forall i :: pos <= i < r ==> IsSpace(s[i])
    ensures r < |s| ==> !IsSpace(s[r])
    decreases |s| - pos
  {
    if pos == |s| || !IsSpace(s[pos]) then pos else SkipSpace(s, pos + 1)
  }

  /** The end of the run of non-space characters that starts at `pos`. */
  function WordEnd(s: string, pos: nat): (r: nat)
    requires pos <= |s|
    ensures pos <= r <= |s|
    ensures forall i :: pos <= i < r ==> !IsSpace(s[i])
    ensures r < |s| ==> IsSpace(s[r])
    decreases |s| - pos
  {
    if pos == |s| || IsSpace(s[pos]) then pos else WordEnd(s, pos + 1)
  }

  /** The end of the run of decimal digits that starts at `pos`. */
  function DigitsEnd(s: string, pos: nat): (r: nat)
    requires pos <= |s|
    ensures pos <= r <= |s|
    ensures IsDigits(s[pos..r])
    ensures r < |s| ==> !IsDigit(s[r])
    decreases |s| - pos
  {
    if pos == |s| || !IsDigit(s[pos]) then pos else DigitsEnd(s, pos + 1)
  }

  /** `stream >> word` for a `std::string`: skip white space, then take the
      longest run of non-space characters; `None` when the stream is at its
      end (the extraction fails and every later extraction fails too). */
  function ReadWord(s: string, pos: nat): (r: Option<(string, nat)>)
    requires pos <= |s|
    ensures r.None? <==> forall i :: pos <= i < |s| ==> IsSpace(s[i])
    ensures r.Some? ==> var (w, next) := r.value;
              pos < next <= |s| && 0 < |w| <= next - pos && w == s[next - |w|..next] &&
              (forall i :: 0 <= i < |w| ==> !IsSpace(w[i])) &&
              (forall i :: pos <= i < next - |w| ==> IsSpace(s[i])) &&
              (next < |s| ==> IsSpace(s[next]))
  {
    var b := SkipSpace(s, pos);
    if b == |s| then None
    else
      var e := WordEnd(s, b);
      Some((s[b..e], e))
  }

  /** `stream >> word` on a word located in the text: white space from `pos`
      up to `b`, then the word `w`, then white space or the end of the text. */
  lemma {:induction false} ReadWordAt(s: string, pos: nat, b: nat, w: string)
    requires pos <= b && b + |w| <= |s| && s[b..b + |w|] == w && |w| > 0
    requires forall i :: pos <= i < b ==> IsSpace(s[i])
    requires forall i :: 0 <= i < |w| ==> !IsSpace(w[i])
    requires b + |w| == |s| || IsSpace(s[b + |w|])
    ensures ReadWord(s, pos) == Some((w, b + |w|))
  {
    assert !IsSpace(s[b]) by { assert s[b] == w[0]; }
    assert SkipSpace(s, pos) == b by { SkipSpaceIs(s, pos, b); }
    assert WordEnd(s, b) == b + |w| by {
      forall i | b <= i < b + |w| ensures !IsSpace(s[i]) { assert s[i] == w[i - b]; }
      WordEndIs(s, b, b + |w|);
    }
  }

  /** The first non-space position after a run of white space. */
  lemma {:induction false} SkipSpaceIs(s: string, pos: nat, b: nat)
    requires pos <= b < |s| && !IsSpace(s[b])
    requires forall i :: pos <= i < b ==> IsSpace(s[i])
    ensures SkipSpace(s, pos) == b
    decreases b - pos
  {
    if pos < b {
      SkipSpaceIs(s, pos + 1, b);
    }
  }

  /** The end of a maximal run of non-space characters. */
  lemma {:induction false} WordEndIs(s: string, b: nat, e: nat)
    requires b <= e <= |s| && (e == |s| || IsSpace(s[e]))
    requires forall i :: b <= i < e ==> !IsSpace(s[i])
    ensures WordEnd(s, b) == e
    decreases e - b
  {
    if b < e {
      WordEndIs(s, b + 1, e);
    }
  }

  /** The outcome of `stream >> n` for an `i32`: whether it succeeded, the
      value stored and the position after the digits. */
  datatype NumRead = NumRead(ok: bool, value: int, next: nat)

  /** `stream >> n` for an `i32`: skip white space, an optional sign, then the
      longest run of digits. With no digit the extraction fails and 0 is
      stored; a value outside the `i32` range fails and stores the nearest
      bound. */
  function ReadInt32(s: string, pos: nat): (r: NumRead)
    requires pos <= |s|
    ensures I32Min <= r.value <= I32Max
    ensures r.ok ==> pos < r.next <= |s| && IsDigit(s[r.next - 1])
    ensures !r.ok && r.value != 0 ==> r.value == I32Min || r.value == I32Max
    ensures (forall i :: pos <= i < |s| ==> !IsDigit(s[i])) ==> !r.ok && r.value == 0
  {
    var b := SkipSpace(s, pos);
    var signed := b < |s| && (s[b] == '-' || s[b] == '+');
    var d := if signed then b + 1 else b;
    var e := DigitsEnd(s, d);
    if e == d then NumRead(false, 0, e)
    else
      var magnitude: int := DecimalValue(s[d..e]);
      var v: int := if signed && s[b] == '-' then -magnitude else magnitude;
      if v > I32Max then NumRead(false, I32Max, e)
      else if v < I32Min then NumRead(false, I32Min, e)
      else NumRead(true, v, e)
  }

  /** `ReadInt32` reads back what `IntToString` writes, from wherever the
      stream stands (after `lead`), whatever white space comes before the
      numeral and whatever non-digit follows it. */
  lemma {:induction false} ReadInt32OfIntToString(lead: string, pre: string, i: int, post: string)
    requires I32Min <= i <= I32Max
    requires forall k :: 0 <= k < |pre| ==> IsSpace(pre[k])
    requires post == [] || !IsDigit(post[0])
    ensures var s := lead + pre + IntToString(i) + post;
            ReadInt32(s, |lead|) == NumRead(true, i, |lead| + |pre| + |IntToString(i)|)
  {
    var t := IntToString(i);
    var s := lead + pre + t + post;
    var neg := i < 0;
    var m: nat := if neg then -i else i;
    var b, e := |lead| + |pre|, |lead| + |pre| + |t|;
    var d := if neg then b + 1 else b;
    assert s[b..e] == t && s[b] == t[0];
    forall k | |lead| <= k < b ensures IsSpace(s[k]) {
      assert s[k] == pre[k - |lead|];
    }
    assert SkipSpace(s, |lead|) == b;
    assert s[d..e] == NatToString(m);
    assert DigitsEnd(s, d) == e by {
      if e < |s| { assert s[e] == post[0]; }
      DigitsRun(s, d, e);
    }
    DecimalRoundTrip(m);
    ReadInt32Digits(s, |lead|, b, neg, m, e);
  }

  /** `ReadInt32` on a numeral located in the text: the white space ends at
      `b`, then comes a '-' when `neg`, then the digits of `m` end at `e`. */
  lemma {:induction false} ReadInt32Digits(s: string, pos: nat, b: nat, neg: bool, m: nat, e: nat)
    requires pos <= b < |s| && SkipSpace(s, pos) == b
    requires neg ==> s[b] == '-'
    requires !neg ==> IsDigit(s[b])
    requires var d := if neg then b + 1 else b;
             d < e <= |s| && DigitsEnd(s, d) == e && DecimalValue(s[d..e]) == m
    requires I32Min <= (if neg then -(m as int) else m as int) <= I32Max
    ensures ReadInt32(s, pos) == NumRead(true, if neg then -(m as int) else m as int, e)
  {
  }

  /** A sign as `strtol` and `strtoull` accept it: none, '+' or '-'. */
  predicate IsSign(sign: string) {
    sign == "" || sign == "+" || sign == "-"
  }

  /** A numeral written after `lead`: white space `pre`, a sign, the digits,
      then anything that does not start with a digit. A numeric extraction
      at `|lead|` skips `pre`, sees the sign and stops after the digits. */
  lemma {:induction false} NumeralAt(lead: string, pre: string, sign: string, digits: string, post: string)
    requires forall k :: 0 <= k < |pre| ==> IsSpace(pre[k])
    requires IsSign(sign) && digits != [] && IsDigits(digits)
    requires post == [] || !IsDigit(post[0])
    ensures var s := lead + pre + sign + digits + post;
            var b := |lead| + |pre|;
            var d := b + |sign|;
            b < |s| && SkipSpace(s, |lead|) == b &&
            ((s[b] == '-' || s[b] == '+') <==> sign != "") && (sign == "-" <==> s[b] == '-') &&
            DigitsEnd(s, d) == d + |digits| && s[d..d + |digits|] == digits
  {
    var s := lead + pre + sign + digits + post;
    var b := |lead| + |pre|;
    var d := b + |sign|;
    var e := d + |digits|;
    assert s[b] == (sign + digits)[0];
    assert IsDigit(digits[0]);
    forall k | |lead| <= k < b ensures IsSpace(s[k]) {
      assert s[k] == pre[k - |lead|];
    }
    SkipSpaceIs(s, |lead|, b);
    assert s[d..e] == digits;
    if e < |s| {
      assert s[e] == post[0];
    }
    DigitsRun(s, d, e);
  }

  /** `stream >> n` for an `i32` on any numeral: a value in the `i32` range
      is read as itself; a value out of range fails and stores the bound on
      its side, the minimum for a negative one and the maximum otherwise;
      either way the digits are consumed. */
  lemma {:induction false} ReadInt32Numeral(lead: string, pre: string, sign: string, digits: string, post: string)
    requires forall k :: 0 <= k < |pre| ==> IsSpace(pre[k])
    requires IsSign(sign) && digits != [] && IsDigits(digits)
    requires post == [] || !IsDigit(post[0])
    ensures var v: int := if sign == "-" then -(DecimalValue(digits) as int) else DecimalValue(digits) as int;
            var e := |lead| + |pre| + |sign| + |digits|;
            ReadInt32(lead + pre + sign + digits + post, |lead|) ==
              if v > I32Max then NumRead(false, I32Max, e)
              else if v < I32Min then NumRead(false, I32Min, e)
              else NumRead(true, v, e)
  {
    var s := lead + pre + sign + digits + post;
    var b := |lead| + |pre|;
    var d := b + |sign|;
    var e := d + |digits|;
    NumeralAt(lead, pre, sign, digits, post);
    assert s[d..e] == digits && (s[b] == '-' <==> sign == "-");
    ReadInt32At(s, |lead|, b, d, e);
  }

  /** `ReadInt32` on a numeral located by positions: the white space ends at
      `b`, the digits run from `d` (after a sign at `b` when `d == b + 1`) to
      `e`. */
  lemma {:induction false} ReadInt32At(s: string, pos: nat, b: nat, d: nat, e: nat)
    requires pos <= b < |s| && SkipSpace(s, pos) == b
    requires (d == b + 1 && (s[b] == '-' || s[b] == '+')) || (d == b && IsDigit(s[b]))
    requires d < e <= |s| && DigitsEnd(s, d) == e
    ensures var m := DecimalValue(s[d..e]);
            var v: int := if s[b] == '-' then -(m as int) else m as int;
            ReadInt32(s, pos) ==
              if v > I32Max then NumRead(false, I32Max, e)
              else if v < I32Min then NumRead(false, I32Min, e)
              else NumRead(true, v, e)
  {
  }

  /** 2^64: the values of a `size_t` / `unsigned long long` lie below it. */
  const U64Limit: int := 0x1_0000_0000_0000_0000

  /** `std::stoull(s)`, which reads through `strtoull` in base 10: skip white
      space, an optional sign, then the longest run of digits, ignoring what
      follows. It throws (`None`) when there is no digit or when the digits'
      value does not fit 64 bits; a '-' negates the value modulo 2^64. */
  function Stoull(s: string): (r: Option<nat>)
    ensures r.Some? ==> r.value < U64Limit
    ensures (forall i :: 0 <= i < |s| ==> !IsDigit(s[i])) ==> r.None?
  {
    var b := SkipSpace(s, 0);
    var signed := b < |s| && (s[b] == '-' || s[b] == '+');
    var d := if signed then b + 1 else b;
    var e := DigitsEnd(s, d);
    if e == d then None
    else
      var m := DecimalValue(s[d..e]);
      if m >= U64Limit then None
      else if signed && s[b] == '-' then Some((U64Limit - m) % U64Limit)
      else Some(m)
  }

  /** `std::stoull` on any numeral: the value of its digits when they fit 64
      bits (negated modulo 2^64 after a '-'), an exception otherwise, whatever
      white space comes before and whatever non-digit follows. */
  lemma {:induction false} StoullNumeral(pre: string, sign: string, digits: string, post: string)
    requires forall k :: 0 <= k < |pre| ==> IsSpace(pre[k])
    requires IsSign(sign) && digits != [] && IsDigits(digits)
    requires post == [] || !IsDigit(post[0])
    ensures var m := DecimalValue(digits);
            Stoull(pre + sign + digits + post) ==
              if m >= U64Limit then None
              else if sign == "-" then Some((U64Limit - m) % U64Limit)
              else Some(m)
  {
    var s := pre + sign + digits + post;
    var d := |pre| + |sign|;
    assert "" + pre + sign + digits + post == s;
    NumeralAt("", pre, sign, digits, post);
    StoullAt(s, |pre|, d, d + |digits|);
  }

  /** `Stoull` on a numeral located by positions, as for `ReadInt32At`. */
  lemma {:induction false} StoullAt(s: string, b: nat, d: nat, e: nat)
    requires b < |s| && SkipSpace(s, 0) == b
    requires (d == b + 1 && (s[b] == '-' || s[b] == '+')) || (d == b && IsDigit(s[b]))
    requires d < e <= |s| && DigitsEnd(s, d) == e
    ensures var m := DecimalValue(s[d..e]);
            Stoull(s) ==
              if m >= U64Limit then None
              else if s[b] == '-' then Some((U64Limit - m) % U64Limit)
              else Some(m)
  {
  }

  /** `std::stoull` on a plain digit string reads its decimal value when it
      fits 64 bits, and throws otherwise. */
  lemma {:induction false} StoullDigits(digits: string)
    requires digits != [] && IsDigits(digits)
    ensures Stoull(digits) == if DecimalValue(digits) < U64Limit then Some(DecimalValue(digits)) else None
  {
    StoullNumeral("", "", digits, "");
    assert "" + "" + digits + "" == digits;
  }

  /** A maximal run of digits is where `DigitsEnd` stops. */
  lemma {:induction false} DigitsRun(s: string, d: nat, e: nat)
    requires d <= e <= |s|
    requires IsDigits(s[d..e])
    requires e == |s| || !IsDigit(s[e])
    ensures DigitsEnd(s, d) == e
    decreases e - d
  {
    if d < e {
      assert IsDigit(s[d..e][0]);
      assert s[d + 1..e] == s[d..e][1..];
      DigitsRun(s, d + 1, e);
    }
  }
}
