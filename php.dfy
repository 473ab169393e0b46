/** The handful of PHP string built-ins the core relies on, written out with
    PHP's own semantics: `trim` with its default character list, ASCII
    `strtolower`, `substr($s, 0, $n)`, the position of the first and of the last
    occurrence of a character (`explode(...)[0]`, `strrchr`), the falsiness of a
    string (`empty`, `if ($s)`), and `preg_replace('/\D/', '', $s)`. */
module Php {
  import opened Wrappers

  /** The characters PHP's `trim` strips by default: " \t\n\r\0\x0B". */
  predicate IsTrimChar(c: char) {
    c == ' ' || c == '\t' || c == '\n' || c == '\r' || c == '\0' || c == '\U{B}'
  }

  /** `ltrim($s)`: drops the leading trim characters. */
  function TrimLeft(s: string): (r: string)
    ensures |r| <= |s| && r == s[|s| - |r|..]
    ensures forall k :: 0 <= k < |s| - |r| ==> IsTrimChar(s[k])
    ensures r != [] ==> !IsTrimChar(r[0])
  {
    if |s| > 0 && IsTrimChar(s[0]) then TrimLeft(s[1..]) else s
  }

  /** `rtrim($s)`: drops the trailing trim characters. */
  function TrimRight(s: string): (r: string)
    ensures |r| <= |s| && r == s[..|r|]
    ensures forall k :: |r| <= k < |s| ==> IsTrimChar(s[k])
    ensures r != [] ==> !IsTrimChar(r[|r| - 1])
  {
    if |s| > 0 && IsTrimChar(s[|s| - 1]) then TrimRight(s[..|s| - 1]) else s
  }

  /** `r` is the slice of `s` starting at `i`, and everything of `s` around
      it is a trim character. */
  predicate TrimmedSlice(s: string, r: string, i: nat) {
    && i + |r| <= |s| && r == s[i..i + |r|]
    && (forall k :: 0 <= k < i ==> IsTrimChar(s[k]))
    && (forall k :: i + |r| <= k < |s| ==> IsTrimChar(s[k]))
  }

  /** `trim($s)`: the result is a slice of `s` outside which there are only
      trim characters, and it neither starts nor ends with one; a string with
      no trim character at either end is left as it is. */
  function Trim(s: string): (r: string)
    ensures |r| <= |s|
    ensures exists i :: TrimmedSlice(s, r, i)
    ensures r != [] ==> !IsTrimChar(r[0]) && !IsTrimChar(r[|r| - 1])
    ensures s != [] && !IsTrimChar(s[0]) && !IsTrimChar(s[|s| - 1]) ==> r == s
    ensures s == [] || !IsTrimChar(s[0]) ==>
              r == s[..|r|] && forall k :: |r| <= k < |s| ==> IsTrimChar(s[k])
  {
    TrimBothEnds(s);
    TrimRight(TrimLeft(s))
  }

  /** `rtrim(ltrim($s))` is the slice of `s` left after a leading and a
      trailing run of trim characters. */
  lemma TrimBothEnds(s: string)
    ensures TrimmedSlice(s, TrimRight(TrimLeft(s)), |s| - |TrimLeft(s)|)
  {
    var l := TrimLeft(s);
    SliceOfSuffix(s, l, TrimRight(l), |s| - |l|);
  }

  /** A prefix `r` of the suffix `l` of `s`, with only trim characters before
      `l` and after `r`, is a trimmed slice of `s`. */
  lemma SliceOfSuffix(s: string, l: string, r: string, i: nat)
    requires i <= |s| && l == s[i..] && |r| <= |l| && r == l[..|r|]
    requires forall k :: 0 <= k < i ==> IsTrimChar(s[k])
    requires forall k :: |r| <= k < |l| ==> IsTrimChar(l[k])
    ensures TrimmedSlice(s, r, i)
  {
    assert s[i..][..|r|] == s[i..i + |r|];
    forall k | i + |r| <= k < |s|
      ensures IsTrimChar(s[k])
    {
      assert s[k] == l[k - i];
    }
  }

  /** ASCII lower-casing of one character, as `strtolower` does from PHP 8.2
      on (earlier versions follow the locale). */
  function LowerChar(c: char): char {
    if 'A' <= c <= 'Z' then (c as int + 32) as char else c
  }

  function ToLower(s: string): (r: string)
    ensures |r| == |s|
    ensures forall k :: 0 <= k < |s| ==> r[k] == LowerChar(s[k])
  {
    seq(|s|, k requires 0 <= k < |s| => LowerChar(s[k]))
  }

  /** `substr($s, 0, $n)`: the first `n` characters, or all of `s` when it is shorter. */
  function Prefix(s: string, n: nat): (r: string)
    ensures |r| == if |s| < n then |s| else n
    ensures r == s[..|r|]
  {
    if |s| <= n then s else s[..n]
  }

  /** A string PHP treats as false: `""` and `"0"` (so `empty($s)` and `!$s`). */
  predicate Falsy(s: string) {
    s == "" || s == "0"
  }

  /** Position of the first occurrence of `c` in `s`. */
  function FirstIndexOf(s: string, c: char): (r: Option<nat>)
    ensures r.None? <==> c !in s
    ensures r.Some? ==> r.value < |s| && s[r.value] == c && c !in s[..r.value]
  {
    if |s| == 0 then None
    else if s[0] == c then Some(0)
    else
      var rest := FirstIndexOf(s[1..], c);
      if rest.None? then None
      else
        assert s[..rest.value + 1] == [s[0]] + s[1..][..rest.value];
        Some(rest.value + 1)
  }

  /** Position of the last occurrence of `c` in `s` (what `strrchr` finds). */
  function LastIndexOf(s: string, c: char): (r: Option<nat>)
    ensures r.None? <==> c !in s
    ensures r.Some? ==> r.value < |s| && s[r.value] == c && c !in s[r.value + 1..]
  {
    if |s| == 0 then None
    else if s[|s| - 1] == c then Some(|s| - 1)
    else
      var init := s[..|s| - 1];
      var rest := LastIndexOf(init, c);
      if rest.None? then
        assert c !in s by { assert s == init + [s[|s| - 1]]; }
        None
      else
        assert s[rest.value + 1..] == init[rest.value + 1..] + [s[|s| - 1]];
        Some(rest.value)
  }

  predicate IsDigit(c: char) {
    '0' <= c <= '9'
  }

  /** `preg_replace('/\D/', '', $s)`: the ASCII digits of `s`, in order. */
  function DigitsOnly(s: string): (r: string)
    ensures |r| <= |s|
    ensures forall k :: 0 <= k < |r| ==> IsDigit(r[k])
    ensures (forall k :: 0 <= k < |s| ==> IsDigit(s[k])) ==> r == s
  {
    if |s| == 0 then ""
    else if IsDigit(s[0]) then [s[0]] + DigitsOnly(s[1..])
    else DigitsOnly(s[1..])
  }

  /** `str_replace($from, $to, $s)` for single characters. */
  function ReplaceChar(s: string, from: char, to: char): (r: string)
    ensures |r| == |s|
    ensures forall k :: 0 <= k < |s| ==> r[k] == if s[k] == from then to else s[k]
  {
    seq(|s|, k requires 0 <= k < |s| => if s[k] == from then to else s[k])
  }

  /** `ltrim` removes exactly a leading run of trim characters. */
  lemma {:induction false} TrimLeftPadded(pad: string, t: string)
    requires forall k :: 0 <= k < |pad| ==> IsTrimChar(pad[k])
    requires t == [] || !IsTrimChar(t[0])
    ensures TrimLeft(pad + t) == t
  {
    if pad != [] {
      assert (pad + t)[1..] == pad[1..] + t;
      TrimLeftPadded(pad[1..], t);
    }
  }

  /** `preg_replace('/\D/', '', ...)` works character by character: the digits
      of a concatenation are the digits of each part, in order. */
  lemma {:induction false} DigitsOnlyAppend(a: string, b: string)
    ensures DigitsOnly(a + b) == DigitsOnly(a) + DigitsOnly(b)
    decreases |a|
  {
    if a != [] {
      assert (a + b)[1..] == a[1..] + b;
      DigitsOnlyAppend(a[1..], b);
    } else {
      assert a + b == b;
    }
  }

  /** A single character is kept exactly when it is a digit. */
  lemma DigitsOnlySingle(c: char)
    ensures DigitsOnly([c]) == if IsDigit(c) then [c] else []
  {
    assert [c][1..] == [];
  }

  /** `rtrim` keeps every character up to the last one that is not a trim character. */
  lemma TrimRightKeeps(t: string, n: nat)
    requires 0 < n <= |t| && !IsTrimChar(t[n - 1])
    ensures n <= |TrimRight(t)| && TrimRight(t)[..n] == t[..n]
  {
  }

  /** Trimming is idempotent. */
  lemma TrimIdempotent(s: string)
    ensures Trim(Trim(s)) == Trim(s)
  {
    var t := Trim(s);
    assert TrimLeft(t) == t;
    assert TrimRight(t) == t;
  }

  /** Lower-casing is idempotent. */
  lemma ToLowerIdempotent(s: string)
    ensures ToLower(ToLower(s)) == ToLower(s)
  {
  }
}
