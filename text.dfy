/** Text helpers shared by the puzzles that read numbers out of lines:
    Rust's `str::trim` and the unsigned integer parser of the standard
    library, for 64-bit `u64` and `usize`. */
module Text {
  import opened Wrappers

  predicate IsDigit(c: char)
  {
    '0' <= c <= '9'
  }

  predicate AllDigits(s: string)
  {
    forall k :: 0 <= k < |s| ==> IsDigit(s[k])
  }

  /** The value of a run of decimal digit characters. */
  function DigitsValue(s: string): nat
    requires AllDigits(s)
  {
    if s == [] then 0
    else
      var n := |s| - 1;
      assert forall k :: 0 <= k < n ==> s[..n][k] == s[k];
      assert IsDigit(s[n]);
      DigitsValue(s[..n]) * 10 + (s[n] as int - '0' as int)
  }

  /** The ASCII characters `char::is_whitespace` accepts. */
  predicate IsWhitespace(c: char)
  {
    c == ' ' || c == '\t' || c == '\n' || c == '\r' || c == '\U{B}' || c == '\U{C}'
  }

  /** `str::trim`. */
  function Trim(s: string): (r: string)
    ensures |r| <= |s|
  {
    if s != [] && IsWhitespace(s[0]) then Trim(s[1..])
    else if s != [] && IsWhitespace(s[|s| - 1]) then Trim(s[..|s| - 1])
    else s
  }

  /** `str::split` on any character of seps: the pieces between
      separators, empty ones included, so there is always at least one. */
  function SplitOn(s: string, seps: set<char>): (r: seq<string>)
    ensures |r| >= 1
  {
    if s == [] then [""]
    else
      var init := SplitOn(s[..|s| - 1], seps);
      var c := s[|s| - 1];
      if c in seps then init + [""]
      else init[..|init| - 1] + [init[|init| - 1] + [c]]
  }

  /** Trimming takes off exactly the white space at both ends: white
      space w before and w' after a string t that neither starts nor ends
      with white space all goes, and t stays whole. */
  lemma {:induction false} TrimPadded(w: string, t: string, w': string)
    requires forall k :: 0 <= k < |w| ==> IsWhitespace(w[k])
    requires forall k :: 0 <= k < |w'| ==> IsWhitespace(w'[k])
    requires t != [] ==> !IsWhitespace(t[0]) && !IsWhitespace(t[|t| - 1])
    ensures Trim(w + t + w') == t
    decreases |w| + |w'|
  {
    var s := w + t + w';
    if w != [] {
      assert s[0] == w[0];
      assert s[1..] == w[1..] + t + w';
      TrimPadded(w[1..], t, w');
    } else if w' != [] {
      assert s[|s| - 1] == w'[|w'| - 1];
      if t != [] {
        assert s[0] == t[0];
        assert s[..|s| - 1] == w + t + w'[..|w'| - 1];
        TrimPadded(w, t, w'[..|w'| - 1]);
      } else {
        assert s[0] == w'[0];
        assert s[1..] == w + t + w'[1..];
        TrimPadded(w, t, w'[1..]);
      }
    } else {
      assert s == t;
    }
  }

  /** `split` at a separator: the pieces before it followed by the pieces
      after it. */
  lemma {:induction false} SplitOnAt(a: string, c: char, b: string, seps: set<char>)
    requires c in seps
    ensures SplitOn(a + [c] + b, seps) == SplitOn(a, seps) + SplitOn(b, seps)
    decreases |b|
  {
    if b == [] {
      SplitOnSnoc(a, c, seps);
      assert a + [c] + b == a + [c];
    } else {
      var n := |b| - 1;
      var t, d := b[..n], b[n];
      assert b == t + [d];
      assert a + [c] + b == (a + [c] + t) + [d];
      SplitOnAt(a, c, t, seps);
      SplitOnSnoc(a + [c] + t, d, seps);
      SplitOnSnoc(t, d, seps);
      var x, y := SplitOn(a, seps), SplitOn(t, seps);
      if d in seps {
        assert x + y + [""] == x + (y + [""]);
      } else {
        SplitLast(x, y, d);
      }
    }
  }

  /** One more character ends the pieces with an empty one when it is a
      separator, and extends the last piece otherwise. */
  lemma SplitOnSnoc(t: string, d: char, seps: set<char>)
    ensures var init := SplitOn(t, seps);
      SplitOn(t + [d], seps) == if d in seps then init + [""] else init[..|init| - 1] + [init[|init| - 1] + [d]]
  {
    assert (t + [d])[..|t + [d]| - 1] == t;
  }

  /** Extending the last piece of x + y, y not empty, extends the last
      piece of y. */
  lemma SplitLast(x: seq<string>, y: seq<string>, d: char)
    requires |y| >= 1
    ensures (x + y)[..|x + y| - 1] + [(x + y)[|x + y| - 1] + [d]] == x + (y[..|y| - 1] + [y[|y| - 1] + [d]])
  {
    assert (x + y)[..|x + y| - 1] == x + y[..|y| - 1];
  }

  /** A string without separators is a single piece. */
  lemma {:induction false} SplitOnNone(s: string, seps: set<char>)
    requires forall k :: 0 <= k < |s| ==> s[k] !in seps
    ensures SplitOn(s, seps) == [s]
    decreases |s|
  {
    if s != [] {
      assert forall k :: 0 <= k < |s| - 1 ==> s[..|s| - 1][k] == s[k];
      SplitOnNone(s[..|s| - 1], seps);
      assert s[..|s| - 1] + [s[|s| - 1]] == s;
    }
  }

  const U64Limit: nat := 0x1_0000_0000_0000_0000

  /** `u64::from_str` (and `usize::from_str` on a 64-bit target): an
      optional `+` and then one or more decimal digits, with a value below
      2^64; anything else is an error. */
  function ParseU64(token: string): (r: Option<nat>)
    ensures r.Some? ==> r.value < U64Limit
    ensures token == [] ==> r.None?
  {
    var digits := if token != [] && token[0] == '+' then token[1..] else token;
    if digits == [] || !AllDigits(digits) then None
    else if DigitsValue(digits) < U64Limit then Some(DigitsValue(digits))
    else None
  }

  /** A token holding a plain decimal number below 2^64 gives that number. */
  lemma ParseDecimal(token: string)
    requires token != [] && AllDigits(token)
    requires DigitsValue(token) < U64Limit
    ensures ParseU64(token) == Some(DigitsValue(token))
  {
  }
}
