/** String helpers shared by the endpoint, the page and the components:
    ASCII case folding, substring search, `String.prototype.trim` and the
    decimal rendering of integers (`Number.prototype.toString`, `::text`). */
module Text {

  /** ASCII case folding: upper-case Latin letters become lower case. */
  function LowerChar(c: char): (r: char)
    ensures !('A' <= r <= 'Z')
    ensures ('a' <= r <= 'z') <==> ('A' <= c <= 'Z' || 'a' <= c <= 'z')
  {
    if 'A' <= c <= 'Z' then (c as int + 32) as char else c
  }

  /** `toLowerCase` restricted to ASCII letters. */
  function Lower(s: string): (r: string)
    ensures |r| == |s|
    ensures forall i :: 0 <= i < |s| ==> r[i] == LowerChar(s[i])
  {
    seq(|s|, i requires 0 <= i < |s| => LowerChar(s[i]))
  }

  /** A lower-case letter occurs in the folded string exactly when it or its
      capital occurs in the original. */
  lemma LowerMember(s: string, c: char)
    requires 'a' <= c <= 'z'
    ensures c in Lower(s) <==> c in s || (c as int - 32) as char in s
  {
    if c in Lower(s) {
      var i :| 0 <= i < |s| && Lower(s)[i] == c;
      assert LowerChar(s[i]) == c;
    }
    if c in s {
      var i :| 0 <= i < |s| && s[i] == c;
      assert Lower(s)[i] == c;
    }
    if (c as int - 32) as char in s {
      var i :| 0 <= i < |s| && s[i] == (c as int - 32) as char;
      assert Lower(s)[i] == c;
    }
  }

  /** `t` occurs in `s` as a contiguous block. */
  predicate Contains(s: string, t: string)
    decreases |s|
  {
    t <= s || (s != [] && Contains(s[1..], t))
  }

  /** `t` occurs in `s` starting at index `i`. */
  ghost predicate OccursAt(s: string, t: string, i: int)
  {
    0 <= i && i + |t| <= |s| && s[i..i + |t|] == t
  }

  /** `Contains` finds exactly the blocks an index search would find. */
  lemma {:induction false} ContainsIffOccurs(s: string, t: string)
    ensures Contains(s, t) <==> exists i :: OccursAt(s, t, i)
  {
    if t <= s {
      assert OccursAt(s, t, 0);
    } else if s != [] {
      ContainsIffOccurs(s[1..], t);
      if exists j :: OccursAt(s[1..], t, j) {
        var j :| OccursAt(s[1..], t, j);
        assert s[j + 1..j + 1 + |t|] == s[1..][j..j + |t|];
        assert OccursAt(s, t, j + 1);
      }
      if exists i :: OccursAt(s, t, i) {
        var i :| OccursAt(s, t, i);
        assert s[1..][i - 1..i - 1 + |t|] == s[i..i + |t|];
        assert OccursAt(s[1..], t, i - 1);
      }
    }
  }

  /** Every character of a contained block is a character of the container. */
  lemma ContainedChars(s: string, t: string, k: int)
    requires Contains(s, t) && 0 <= k < |t|
    ensures t[k] in s
  {
    ContainsIffOccurs(s, t);
    var i :| OccursAt(s, t, i);
    assert t[k] == s[i..i + |t|][k] == s[i + k];
  }

  /** The characters `String.prototype.trim` removes: ECMAScript WhiteSpace and LineTerminator. */
  predicate IsSpace(c: char)
  {
    var x := c as int;
    (0x09 <= x <= 0x0D) || x == 0x20 || x == 0xA0 || x == 0x1680 || (0x2000 <= x <= 0x200A) ||
    x == 0x2028 || x == 0x2029 || x == 0x202F || x == 0x205F || x == 0x3000 || x == 0xFEFF
  }

  /** `String.prototype.trim`: removes the white space at both ends. */
  function Trim(s: string): (r: string)
    ensures |r| <= |s|
    ensures r == [] || (!IsSpace(r[0]) && !IsSpace(r[|r| - 1]))
    decreases |s|
  {
    if s == [] then s
    else if IsSpace(s[0]) then Trim(s[1..])
    else if IsSpace(s[|s| - 1]) then Trim(s[..|s| - 1])
    else s
  }

  /** `r` is the block of `s` starting at `a`, with only white space before and after it. */
  predicate BlockAt(s: string, r: string, a: int)
  {
    0 <= a && a + |r| <= |s| && r == s[a..a + |r|]
    && (forall k :: 0 <= k < a ==> IsSpace(s[k]))
    && (forall k :: a + |r| <= k < |s| ==> IsSpace(s[k]))
  }

  /** The trimmed string is the block of `s` left between a run of leading
      and a run of trailing white space. */
  lemma {:induction false} TrimIsBlock(s: string)
    ensures exists a :: BlockAt(s, Trim(s), a)
    decreases |s|
  {
    var r := Trim(s);
    if s == [] {
      assert BlockAt(s, r, 0);
    } else if IsSpace(s[0]) {
      TrimIsBlock(s[1..]);
      var a :| BlockAt(s[1..], r, a);
      BlockAfterSpace(s, r, a);
    } else if IsSpace(s[|s| - 1]) {
      TrimIsBlock(s[..|s| - 1]);
      var a :| BlockAt(s[..|s| - 1], r, a);
      BlockBeforeSpace(s, r, a);
    } else {
      assert BlockAt(s, r, 0);
    }
  }

  /** A block of the tail of `s` after a leading space is a block of `s`, one further on. */
  lemma BlockAfterSpace(s: string, r: string, a: int)
    requires s != [] && IsSpace(s[0]) && BlockAt(s[1..], r, a)
    ensures BlockAt(s, r, a + 1)
  {
    var t := s[1..];
    assert r == s[a + 1..a + 1 + |r|];
    forall k | 0 <= k < a + 1 ensures IsSpace(s[k]) {
      if k > 0 { assert s[k] == t[k - 1]; }
    }
    forall k | a + 1 + |r| <= k < |s| ensures IsSpace(s[k]) {
      assert s[k] == t[k - 1];
    }
  }

  /** A block of `s` without a trailing space is a block of `s`. */
  lemma BlockBeforeSpace(s: string, r: string, a: int)
    requires s != [] && IsSpace(s[|s| - 1]) && BlockAt(s[..|s| - 1], r, a)
    ensures BlockAt(s, r, a)
  {
    var t := s[..|s| - 1];
    assert r == s[a..a + |r|];
    forall k | a + |r| <= k < |s| ensures IsSpace(s[k]) {
      if k < |t| { assert s[k] == t[k]; }
    }
  }

  /** Trimming finds nothing to keep exactly when `s` is all white space. */
  lemma {:induction false} TrimEmptyIffAllSpace(s: string)
    ensures Trim(s) == [] <==> forall k :: 0 <= k < |s| ==> IsSpace(s[k])
    decreases |s|
  {
    if s != [] && IsSpace(s[0]) {
      TrimEmptyIffAllSpace(s[1..]);
      if Trim(s) == [] {
        forall k | 0 <= k < |s| ensures IsSpace(s[k]) {
          if k > 0 { assert s[k] == s[1..][k - 1]; }
        }
      }
    } else if s != [] && IsSpace(s[|s| - 1]) {
      var t := s[..|s| - 1];
      TrimEmptyIffAllSpace(t);
      assert t[0] == s[0];
    }
  }

  /** Trimming twice is trimming once. */
  lemma TrimIdempotent(s: string)
    ensures Trim(Trim(s)) == Trim(s)
  {
  }

  /** The character of a single decimal digit. */
  function DigitChar(d: int): (c: char)
    requires 0 <= d < 10
    ensures '0' <= c <= '9'
  {
    ('0' as int + d) as char
  }

  predicate IsDigit(c: char)
  {
    '0' <= c <= '9'
  }

  /** 10 to the power `k`. */
  function Pow10(k: nat): (r: nat)
    ensures r >= 1
  {
    if k == 0 then 1 else 10 * Pow10(k - 1)
  }

  /** The decimal digits of a natural number, most significant first, without leading zeros. */
  function Digits(n: nat): (r: string)
    ensures |r| >= 1
    ensures forall i :: 0 <= i < |r| ==> IsDigit(r[i])
    ensures |r| > 1 ==> r[0] != '0'
    decreases n
  {
    if n < 10 then [DigitChar(n)] else Digits(n / 10) + [DigitChar(n % 10)]
  }

  /** The value of a string of decimal digits. */
  function DigitsValue(s: string): (v: nat)
    requires forall i :: 0 <= i < |s| ==> IsDigit(s[i])
    ensures v < Pow10(|s|)
  {
    if s == [] then 0
    else
      var last := s[|s| - 1];
      assert IsDigit(last);
      var high := DigitsValue(s[..|s| - 1]);
      assert high * 10 + 9 < Pow10(|s|) by {
        assert high + 1 <= Pow10(|s| - 1);
        assert (high + 1) * 10 <= Pow10(|s| - 1) * 10;
      }
      high * 10 + (last as int - '0' as int)
  }

  /** `Number.prototype.toString` and SQL `::text` on integers: a minus sign for negative values. */
  function Decimal(n: int): (r: string)
    ensures r != []
    ensures n >= 0 ==> r == Digits(n)
    ensures n < 0 ==> r[0] == '-' && r[1..] == Digits(-n)
  {
    if n < 0 then "-" + Digits(-n) else Digits(n)
  }

  /** Reading the digits back gives the number. */
  lemma {:induction false} DigitsRoundTrip(n: nat)
    ensures DigitsValue(Digits(n)) == n
  {
    if n >= 10 {
      DigitsRoundTrip(n / 10);
      var d := Digits(n);
      assert d[..|d| - 1] == Digits(n / 10);
    }
  }

  /** The text of an integer starts with a minus sign exactly when it is negative. */
  lemma DecimalSign(n: int)
    ensures Decimal(n)[0] == '-' <==> n < 0
  {
    if n >= 0 {
      assert IsDigit(Digits(n)[0]);
    }
  }

  /** Different integers have different texts. */
  lemma DecimalInjective(m: int, n: int)
    requires Decimal(m) == Decimal(n)
    ensures m == n
  {
    DecimalSign(m);
    DecimalSign(n);
    if m >= 0 {
      DigitsRoundTrip(m);
      DigitsRoundTrip(n);
    } else {
      DigitsRoundTrip(-m);
      DigitsRoundTrip(-n);
    }
  }

  /** A number has exactly `k + 1` digits when it lies between `10^k` and `10^(k+1)`
      (for `k = 0`, from 0). */
  lemma {:induction false} DigitCount(n: nat, k: nat)
    ensures |Digits(n)| == k + 1 <==> (k == 0 || Pow10(k) <= n) && n < Pow10(k + 1)
    decreases n
  {
    if n >= 10 && k > 0 {
      DigitCount(n / 10, k - 1);
    } else if n >= 10 {
      assert Pow10(1) == 10;
    } else if k > 0 {
      PowMonotone(1, k);
      assert Pow10(1) == 10;
    }
  }

  lemma {:induction false} PowMonotone(a: nat, b: nat)
    requires a <= b
    ensures Pow10(a) <= Pow10(b)
    decreases b - a
  {
    if a < b {
      PowMonotone(a, b - 1);
    }
  }

  /** Decimal strings hold only digits and the minus sign: no letters. */
  lemma DecimalHasNoLetters(n: int, k: int)
    requires 0 <= k < |Decimal(n)|
    ensures IsDigit(Decimal(n)[k]) || Decimal(n)[k] == '-'
  {
    if n < 0 && k > 0 {
      assert Decimal(n)[k] == Digits(-n)[k - 1];
    }
  }

  /** A block that needs a character the container lacks is not contained. */
  lemma MissingCharNotContained(s: string, t: string, k: int)
    requires 0 <= k < |t| && t[k] !in s
    ensures !Contains(s, t)
  {
    if Contains(s, t) {
      ContainedChars(s, t, k);
    }
  }
}
