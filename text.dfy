/** The `std::string` operations the library relies on: `find` (for a single
    character and for a substring), ASCII lower-casing as done by `::tolower`
    in the "C" locale, `std::to_string` on unsigned and signed integers, and the
    value of a string of decimal digits. */
module Text {
  import opened Results

  // ---------------------------------------------------------------------------
  // find

  /** `pat` occurs in `s` starting at index `i`. */
  predicate OccursAt(s: string, pat: string, i: nat) {
    i + |pat| <= |s| && s[i..i + |pat|] == pat
  }

  /** `s.find(pat, from)`: the least index `i >= from` at which `pat` occurs,
      `None` standing for `npos`. */
  function Find(s: string, pat: string, from: nat): (r: Option<nat>)
    ensures r.Some? ==> from <= r.value && OccursAt(s, pat, r.value)
    ensures r.Some? ==> forall j :: from <= j < r.value ==> !OccursAt(s, pat, j)
    ensures r.None? ==> forall j :: from <= j ==> !OccursAt(s, pat, j)
    decreases |s| - from
  {
    if from + |pat| > |s| then None
    else if s[from..from + |pat|] == pat then Some(from)
    else Find(s, pat, from + 1)
  }

  /** `s.find(c, from)` for a single character. */
  function FindChar(s: string, c: char, from: nat): (r: Option<nat>)
    ensures r.Some? ==> from <= r.value < |s| && s[r.value] == c
    ensures r.Some? ==> forall j :: from <= j < r.value ==> s[j] != c
    ensures r.None? ==> forall j :: from <= j < |s| ==> s[j] != c
    decreases |s| - from
  {
    if from >= |s| then None
    else if s[from] == c then Some(from)
    else FindChar(s, c, from + 1)
  }

  /** `find(c, from)` is `k` when `s[k] == c` and no `c` comes before it. */
  lemma {:induction false} FindCharIs(s: string, c: char, from: nat, k: nat)
    requires from <= k < |s| && s[k] == c
    requires forall j :: from <= j < k ==> s[j] != c
    ensures FindChar(s, c, from) == Some(k)
  {
  }

  /** Searching after a prefix is searching the rest, shifted. */
  lemma {:induction false} FindCharShift(pre: string, s: string, c: char, from: nat)
    ensures FindChar(pre + s, c, |pre| + from) ==
            (match FindChar(s, c, from) case None => None case Some(k) => Some(|pre| + k))
    decreases |s| - from
  {
    if from < |s| {
      assert (pre + s)[|pre| + from] == s[from];
      FindCharShift(pre, s, c, from + 1);
    }
  }

  /** `find` after a prefix free of `c` lands where it lands in the rest. */
  lemma {:induction false} FindCharSkip(pre: string, s: string, c: char)
    requires c !in pre
    ensures FindChar(pre + s, c, 0) ==
            (match FindChar(s, c, 0) case None => None case Some(k) => Some(|pre| + k))
  {
    var t := pre + s;
    match FindChar(s, c, 0)
    case None =>
      forall j | 0 <= j < |t| ensures t[j] != c {
        if j < |pre| { assert t[j] == pre[j]; } else { assert t[j] == s[j - |pre|]; }
      }
    case Some(k) =>
      assert t[|pre| + k] == c;
      forall j | 0 <= j < |pre| + k ensures t[j] != c {
        if j < |pre| { assert t[j] == pre[j]; } else { assert t[j] == s[j - |pre|]; }
      }
  }

  /** A search in a prefix `t` of `s` finds exactly the occurrences of `s`
      that lie wholly inside `t`: so the first occurrence found in a growing
      buffer is the first occurrence in the whole stream. */
  lemma {:induction false} FindInPrefix(s: string, t: string, pat: string, from: nat)
    requires |t| <= |s| && t == s[..|t|]
    ensures Find(t, pat, from).Some? ==> Find(s, pat, from) == Find(t, pat, from)
    ensures Find(s, pat, from).Some? && Find(s, pat, from).value + |pat| <= |t| ==>
              Find(t, pat, from) == Find(s, pat, from)
    ensures Find(t, pat, from).None? && Find(s, pat, from).Some? ==>
              Find(s, pat, from).value + |pat| > |t|
    decreases |s| - from
  {
    if from + |pat| <= |t| {
      assert t[from..from + |pat|] == s[from..from + |pat|];
      FindInPrefix(s, t, pat, from + 1);
    }
  }

  // ---------------------------------------------------------------------------
  // ASCII lower-casing (::tolower in the "C" locale)

  function LowerChar(c: char): (d: char)
    ensures 'A' <= c <= 'Z' ==> d as int == c as int + 32
    ensures !('A' <= c <= 'Z') ==> d == c
  {
    if 'A' <= c <= 'Z' then (c as int + 32) as char else c
  }

  /** `std::transform(k.begin(), k.end(), k.begin(), ::tolower)`. */
  function Lower(s: string): (r: string)
    ensures |r| == |s|
    ensures forall i {:trigger r[i]} :: 0 <= i < |s| ==> r[i] == LowerChar(s[i])
    ensures forall i :: 0 <= i < |r| ==> !('A' <= r[i] <= 'Z')
  {
    seq(|s|, i requires 0 <= i < |s| => LowerChar(s[i]))
  }

  /** Lower-casing is idempotent: a stored (lower-case) key is its own
      canonical form. */
  lemma {:induction false} LowerIdempotent(s: string)
    ensures Lower(Lower(s)) == Lower(s)
  {
    var l := Lower(s);
    assert forall i :: 0 <= i < |l| ==> LowerChar(l[i]) == l[i];
  }

  // ---------------------------------------------------------------------------
  // Decimal numerals: std::to_string and std::stoull on digit strings

  predicate IsDigit(c: char) { '0' <= c <= '9' }

  predicate IsDigits(s: string) {
    forall i :: 0 <= i < |s| ==> IsDigit(s[i])
  }

  function DigitChar(d: nat): (c: char)
    requires d < 10
    ensures IsDigit(c) && c as int - '0' as int == d
  {
    ('0' as int + d) as char
  }

  /** `std::to_string(n)` for an unsigned value: the shortest decimal numeral. */
  function NatToString(n: nat): (r: string)
    ensures |r| > 0 && IsDigits(r)
    ensures r[0] == '0' <==> n == 0
    decreases n
  {
    if n < 10 then [DigitChar(n)] else NatToString(n / 10) + [DigitChar(n % 10)]
  }

  /** The value of a string of decimal digits. */
  function DecimalValue(s: string): nat
    requires IsDigits(s)
  {
    if s == [] then 0
    else DecimalValue(s[..|s| - 1]) * 10 + (s[|s| - 1] as int - '0' as int)
  }

  /** Reading back a written unsigned numeral gives the original value. */
  lemma {:induction false} DecimalRoundTrip(n: nat)
    ensures DecimalValue(NatToString(n)) == n
    decreases n
  {
    if n >= 10 {
      var s := NatToString(n);
      assert s[..|s| - 1] == NatToString(n / 10);
      DecimalRoundTrip(n / 10);
    }
  }

  /** `std::to_string` / `operator<<` for a signed value. */
  function IntToString(i: int): (r: string)
    ensures |r| > 0
    ensures i < 0 ==> r[0] == '-' && r[1..] == NatToString(-i)
    ensures i >= 0 ==> r == NatToString(i)
  {
    if i < 0 then "-" + NatToString(-i) else NatToString(i)
  }
}
