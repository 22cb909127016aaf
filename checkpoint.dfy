/** Naming a checkpoint by its global step and reading the step back:
    `save_step_network` saves under `save_path + 'network'` with
    `global_step=time_step`, and the saver appends `-<step>`;
    `load_step_network` recovers the step as `int(path.split('-')[-1])`
    (ddpg_sp/DDPG_class.py:157-168). */
module Checkpoint {
  import opened Outcomes

  /** `int()` raises `ValueError` on anything but an optionally signed
      decimal literal. */
  datatype ParseError = InvalidLiteral

  /** `s.split('-')[-1]`: everything after the last dash, or all of `s`
      when it holds no dash. */
  function LastSegment(s: string): (r: string)
    ensures |r| <= |s| && r == s[|s| - |r|..]
    ensures forall i :: 0 <= i < |r| ==> r[i] != '-'
    ensures |r| < |s| ==> s[|s| - |r| - 1] == '-'
    decreases |s|
  {
    if s == [] then []
    else if s[|s| - 1] == '-' then []
    else LastSegment(s[..|s| - 1]) + [s[|s| - 1]]
  }

  /** Whatever precedes the last dash does not matter. */
  lemma {:induction false} LastSegmentAfterDash(prefix: string, seg: string)
    requires forall i :: 0 <= i < |seg| ==> seg[i] != '-'
    ensures LastSegment(prefix + "-" + seg) == seg
    decreases |seg|
  {
    var s := prefix + "-" + seg;
    if seg == [] {
      assert s[|s| - 1] == '-';
    } else {
      var init := seg[..|seg| - 1];
      assert s[|s| - 1] == seg[|seg| - 1];
      assert s[..|s| - 1] == prefix + "-" + init;
      LastSegmentAfterDash(prefix, init);
      assert init + [seg[|seg| - 1]] == seg;
    }
  }

  /** The whitespace `int()` skips around a literal: the ASCII spaces
      `\t \n \v \f \r` and blank, and every non-ASCII character
      `str.isspace` accepts (those are rewritten to a blank first).  The
      ASCII separators U+001C to U+001F, which `str.isspace` also accepts,
      are not skipped. */
  predicate IsSpace(c: char)
  {
    var n := c as int;
    || n == 0x20 || 0x09 <= n <= 0x0D || n == 0x85 || n == 0xA0
    || n == 0x1680 || 0x2000 <= n <= 0x200A || n == 0x2028 || n == 0x2029
    || n == 0x202F || n == 0x205F || n == 0x3000
  }

  predicate AllSpace(s: string)
  {
    forall i :: 0 <= i < |s| ==> IsSpace(s[i])
  }

  /** Leading whitespace removed. */
  function StripLeft(s: string): (r: string)
    ensures |r| <= |s| && r == s[|s| - |r|..]
    ensures AllSpace(s[..|s| - |r|])
    ensures r != [] ==> !IsSpace(r[0])
    decreases |s|
  {
    if s != [] && IsSpace(s[0]) then
      var r := StripLeft(s[1..]);
      assert s[..|s| - |r|] == [s[0]] + s[1..][..|s| - 1 - |r|];
      r
    else s
  }

  /** Trailing whitespace removed. */
  function StripRight(s: string): (r: string)
    ensures |r| <= |s| && r == s[..|r|]
    ensures AllSpace(s[|r|..])
    ensures r != [] ==> !IsSpace(r[|r| - 1])
    decreases |s|
  {
    if s != [] && IsSpace(s[|s| - 1]) then
      var r := StripRight(s[..|s| - 1]);
      assert s[|r|..] == s[..|s| - 1][|r|..] + [s[|s| - 1]];
      r
    else s
  }

  /** Whitespace removed at both ends: what is left neither starts nor ends
      with whitespace. */
  function Strip(s: string): (r: string)
    ensures |r| <= |s|
    ensures r != [] ==> !IsSpace(r[0]) && !IsSpace(r[|r| - 1])
  {
    StripRight(StripLeft(s))
  }

  /** Only a string of whitespace strips to nothing. */
  lemma StripEmpty(s: string)
    ensures Strip(s) == [] <==> AllSpace(s)
  {
    var l := StripLeft(s);
    if l == [] {
      assert s[..|s| - |l|] == s;
    }
  }

  predicate IsDigit(c: char)
  {
    '0' <= c <= '9'
  }

  /** Base-10 digits with single underscores between them, as `int()` accepts. */
  predicate IsNumeral(s: string)
  {
    && |s| > 0
    && IsDigit(s[0]) && IsDigit(s[|s| - 1])
    && (forall i :: 0 <= i < |s| ==> IsDigit(s[i]) || s[i] == '_')
    && (forall i :: 0 < i < |s| ==> s[i] == '_' ==> s[i - 1] != '_')
  }

  /** The digits of a numeral, underscores dropped. */
  function DigitsOf(s: string): (d: string)
    ensures |d| <= |s|
    ensures (forall i :: 0 <= i < |s| ==> s[i] != '_') ==> d == s
    decreases |s|
  {
    if s == [] then []
    else if s[|s| - 1] == '_' then DigitsOf(s[..|s| - 1])
    else DigitsOf(s[..|s| - 1]) + [s[|s| - 1]]
  }

  function DigitValue(c: char): (v: nat)
    requires IsDigit(c)
    ensures v < 10
  {
    c as int - '0' as int
  }

  function DigitChar(v: nat): (c: char)
    requires v < 10
    ensures IsDigit(c) && DigitValue(c) == v
  {
    ('0' as int + v) as char
  }

  /** The number a digit string names, most significant digit first. */
  function Value(d: string): nat
    requires forall i :: 0 <= i < |d| ==> IsDigit(d[i])
    decreases |d|
  {
    if d == [] then 0 else 10 * Value(d[..|d| - 1]) + DigitValue(d[|d| - 1])
  }

  /** Python's `int(s)` in base 10: surrounding whitespace is ignored. */
  function ParseInt(s: string): (r: Result<int, ParseError>)
    ensures r.Success? <==>
      var t := Strip(s);
      IsNumeral(t) || (|t| > 0 && (t[0] == '+' || t[0] == '-') && IsNumeral(t[1..]))
    ensures r.Success? && IsNumeral(Strip(s)) ==> r.value >= 0
  {
    ParseLiteral(Strip(s))
  }

  /** An optional sign followed by a numeral. */
  function ParseLiteral(t: string): (r: Result<int, ParseError>)
    ensures r.Success? <==>
      IsNumeral(t) || (|t| > 0 && (t[0] == '+' || t[0] == '-') && IsNumeral(t[1..]))
    ensures r.Success? && (|t| == 0 || t[0] != '-') ==> r.value >= 0
  {
    if IsNumeral(t) then Success(NumeralValue(t))
    else if |t| > 0 && t[0] == '+' && IsNumeral(t[1..]) then Success(NumeralValue(t[1..]))
    else if |t| > 0 && t[0] == '-' && IsNumeral(t[1..]) then Success(-(NumeralValue(t[1..]) as int))
    else Failure(InvalidLiteral)
  }

  function NumeralValue(t: string): nat
    requires IsNumeral(t)
  {
    NumeralDigits(t);
    Value(DigitsOf(t))
  }

  /** `DigitsOf` works character by character: an underscore is dropped and
      any other character kept. */
  lemma DigitsOfChar(c: char)
    ensures DigitsOf([c]) == if c == '_' then [] else [c]
  {
    assert [c][..0] == [];
  }

  /** ... and so distributes over concatenation. */
  lemma {:induction false} DigitsOfAppend(a: string, b: string)
    ensures DigitsOf(a + b) == DigitsOf(a) + DigitsOf(b)
    decreases |b|
  {
    if b == [] {
      assert a + b == a;
    } else {
      var init := b[..|b| - 1];
      assert (a + b)[..|a + b| - 1] == a + init;
      assert (a + b)[|a + b| - 1] == b[|b| - 1];
      DigitsOfAppend(a, init);
    }
  }

  /** An underscore between digits does not change the value: `int('1_000') == int('1000')`. */
  lemma UnderscoreIgnored(a: string, b: string)
    requires IsNumeral(a + "_" + b)
    ensures IsNumeral(a + b)
    ensures ParseLiteral(a + "_" + b) == ParseLiteral(a + b)
  {
    JoinNumeral(a, b);
    DropUnderscore(a, b);
  }

  /** Removing an underscore from a numeral leaves a numeral. */
  lemma JoinNumeral(a: string, b: string)
    requires IsNumeral(a + "_" + b)
    ensures IsNumeral(a + b)
  {
    var s := a + "_" + b;
    var t := a + b;
    assert s[|a|] == '_';
    assert |a| > 0 && |b| > 0;
    assert a[|a| - 1] == s[|a| - 1] && b[0] == s[|a| + 1];
    forall i | 0 <= i < |t|
      ensures IsDigit(t[i]) || t[i] == '_'
    {
      if i < |a| { assert t[i] == s[i]; } else { assert t[i] == s[i + 1]; }
    }
    forall i | 0 < i < |t| && t[i] == '_'
      ensures t[i - 1] != '_'
    {
      if i < |a| { assert t[i] == s[i] && t[i - 1] == s[i - 1]; }
      else if i > |a| { assert t[i] == s[i + 1] && t[i - 1] == s[i]; }
    }
    assert t[0] == s[0] && t[|t| - 1] == s[|s| - 1];
  }

  lemma DropUnderscore(a: string, b: string)
    ensures DigitsOf(a + "_" + b) == DigitsOf(a + b)
  {
    assert a + "_" + b == a + ("_" + b);
    DigitsOfAppend(a, "_" + b);
    DigitsOfAppend("_", b);
    DigitsOfChar('_');
    DigitsOfAppend(a, b);
  }

  /** A `+` sign leaves the value as it is, a `-` sign negates it. */
  lemma SignedLiteral(d: string)
    requires IsNumeral(d)
    ensures ParseLiteral("+" + d) == ParseLiteral(d)
    ensures ParseLiteral("-" + d) == Success(-ParseLiteral(d).value)
  {
    assert ("+" + d)[1..] == d && ("-" + d)[1..] == d;
  }

  /** Dropping the underscores of a numeral leaves only digits. */
  lemma {:induction false} NumeralDigits(t: string)
    requires forall i :: 0 <= i < |t| ==> IsDigit(t[i]) || t[i] == '_'
    ensures forall i :: 0 <= i < |DigitsOf(t)| ==> IsDigit(DigitsOf(t)[i])
    decreases |t|
  {
    if t != [] {
      NumeralDigits(t[..|t| - 1]);
    }
  }

  /** `learn_step = int(path.split('-')[-1])`: the step after the last dash. */
  function ParseStep(path: string): (r: Result<int, ParseError>)
    ensures r.Success? ==> r.value >= 0
  {
    var seg := LastSegment(path);
    StripLeftNoDash(seg);
    ParseInt(seg)
  }

  /** The segment after the last dash cannot start with a minus sign once stripped. */
  lemma StripLeftNoDash(seg: string)
    requires forall i :: 0 <= i < |seg| ==> seg[i] != '-'
    ensures var t := Strip(seg); |t| > 0 ==> t[0] != '-'
  {
    var l := StripLeft(seg);
    var t := StripRight(l);
    if |t| > 0 {
      assert t[0] == l[0] == seg[|seg| - |l|];
    }
  }

  /** `str(n)`: the decimal digits of `n`, without leading zeros. */
  function NatToString(n: nat): (s: string)
    ensures |s| > 0
    ensures forall i :: 0 <= i < |s| ==> IsDigit(s[i])
    ensures Value(s) == n
    ensures |s| > 1 ==> s[0] != '0'
    decreases n
  {
    if n < 10 then [DigitChar(n)]
    else
      var prefix := NatToString(n / 10);
      var s := prefix + [DigitChar(n % 10)];
      assert s[..|s| - 1] == prefix;
      assert s[0] == prefix[0];
      s
  }

  /** The path `saver.save(sess, save_path + 'network', global_step=step)`
      writes: it starts with `save_path`, and what follows its last dash is
      `str(step)`. */
  function CheckpointPath(savePath: string, step: nat): (p: string)
    ensures |savePath| < |p| && p[..|savePath|] == savePath
    ensures LastSegment(p) == NatToString(step)
  {
    var digits := NatToString(step);
    SuffixAfterDash(savePath, "network", digits);
    savePath + "network" + "-" + digits
  }

  /** `a + b + "-" + seg` starts with `a` and ends, after its last dash, with `seg`. */
  lemma SuffixAfterDash(a: string, b: string, seg: string)
    requires forall i :: 0 <= i < |seg| ==> seg[i] != '-'
    ensures |a| < |a + b + "-" + seg| && (a + b + "-" + seg)[..|a|] == a
    ensures LastSegment(a + b + "-" + seg) == seg
  {
    LastSegmentAfterDash(a + b, seg);
  }

  /** A string with no whitespace at either end is its own strip. */
  lemma StripUnspaced(s: string)
    requires s != [] && !IsSpace(s[0]) && !IsSpace(s[|s| - 1])
    ensures Strip(s) == s
  {
  }

  /** Round trip: loading a checkpoint saved at step `n` restores `learn_step = n`. */
  lemma StepRoundTrip(savePath: string, step: nat)
    ensures ParseStep(CheckpointPath(savePath, step)) == Success(step)
  {
    ParseDigits(NatToString(step));
  }

  /** `int(d)` of a non-empty string of decimal digits, leading zeros included,
      is the number they name. */
  lemma ParseDigits(digits: string)
    requires digits != [] && forall i :: 0 <= i < |digits| ==> IsDigit(digits[i])
    ensures ParseInt(digits) == Success(Value(digits))
  {
    assert !IsSpace(digits[0]) && !IsSpace(digits[|digits| - 1]);
    StripUnspaced(digits);
    LiteralOfDigits(digits);
  }

  lemma LiteralOfDigits(digits: string)
    requires digits != [] && forall i :: 0 <= i < |digits| ==> IsDigit(digits[i])
    ensures ParseLiteral(digits) == Success(Value(digits))
  {
    assert IsNumeral(digits);
    assert forall i :: 0 <= i < |digits| ==> digits[i] != '_';
    assert DigitsOf(digits) == digits;
  }

  /** The ASCII separators U+001C to U+001F are not whitespace to `int()`:
      a text that starts with one is rejected, as `int('\x1c5')` is. */
  lemma ParseIntRejectsSeparator(c: char, s: string)
    requires 0x1C <= c as int <= 0x1F
    ensures ParseInt([c] + s).Failure?
  {
    var x := [c] + s;
    assert x[0] == c && !IsSpace(x[0]);
    StripEmpty(x);
    assert StripLeft(x) == x;
    var t := Strip(x);
    assert t == x[..|t|];
    LiteralRejectsLead(t);
  }

  /** A literal must start with a digit or a sign. */
  lemma LiteralRejectsLead(t: string)
    requires t != [] && !IsDigit(t[0]) && t[0] != '+' && t[0] != '-'
    ensures ParseLiteral(t).Failure?
  {
  }

  /** Surrounding whitespace does not change what `int()` reads. */
  lemma ParseIntIgnoresSpace(lead: string, s: string, trail: string)
    requires AllSpace(lead) && AllSpace(trail)
    ensures ParseInt(lead + s + trail) == ParseInt(s)
  {
    StripAround(lead, s, trail);
  }

  lemma {:induction false} StripLeftSpaces(lead: string, s: string)
    requires AllSpace(lead)
    ensures StripLeft(lead + s) == StripLeft(s)
    decreases |lead|
  {
    if lead != [] {
      assert (lead + s)[0] == lead[0] && (lead + s)[1..] == lead[1..] + s;
      StripLeftSpaces(lead[1..], s);
    } else {
      assert lead + s == s;
    }
  }

  lemma {:induction false} StripRightSpaces(s: string, trail: string)
    requires AllSpace(trail)
    ensures StripRight(s + trail) == StripRight(s)
    decreases |trail|
  {
    if trail != [] {
      assert (s + trail)[|s + trail| - 1] == trail[|trail| - 1];
      assert (s + trail)[..|s + trail| - 1] == s + trail[..|trail| - 1];
      StripRightSpaces(s, trail[..|trail| - 1]);
    } else {
      assert s + trail == s;
    }
  }

  lemma StripAround(lead: string, s: string, trail: string)
    requires AllSpace(lead) && AllSpace(trail)
    ensures Strip(lead + s + trail) == Strip(s)
  {
    assert lead + s + trail == lead + (s + trail);
    StripLeftSpaces(lead, s + trail);
    var l := StripLeft(s);
    StripLeftAppend(s, trail);
    if l != [] {
      assert StripLeft(s + trail) == l + trail;
      StripRightSpaces(l, trail);
    } else {
      assert StripLeft(trail) == [] by { StripLeftSpaces(trail, []); assert trail + [] == trail; }
    }
  }

  lemma {:induction false} StripLeftAppend(s: string, trail: string)
    ensures StripLeft(s) != [] ==> StripLeft(s + trail) == StripLeft(s) + trail
    ensures StripLeft(s) == [] ==> StripLeft(s + trail) == StripLeft(trail)
    decreases |s|
  {
    if s == [] {
      assert s + trail == trail;
    } else {
      assert (s + trail)[0] == s[0];
      if IsSpace(s[0]) {
        assert (s + trail)[1..] == s[1..] + trail;
        assert StripLeft(s + trail) == StripLeft(s[1..] + trail);
        assert StripLeft(s) == StripLeft(s[1..]);
        StripLeftAppend(s[1..], trail);
      } else {
        assert StripLeft(s) == s;
        assert StripLeft(s + trail) == s + trail;
      }
    }
  }
}
