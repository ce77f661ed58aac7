/** Display formatting of the stored ten- or eleven-digit phone numbers. */
module Phone {
  import opened Sequences
  import opened Text

  /** The characters the eleven-digit pattern puts before the bracket. */
  const CountryLead := "1 "

  /** `(XXX) XXX-XXXX` when the number prints as ten characters,
      `1 (XXX) XXX-XXXX` when it prints as eleven beginning with `1`,
      otherwise the printed number unchanged. */
  function FormatPhoneNumber(phoneNumber: int): (r: string)
    ensures |Decimal(phoneNumber)| == 10 ==> |r| == 14
    ensures |Decimal(phoneNumber)| == 11 && Decimal(phoneNumber)[0] == '1' ==> |r| == 16
    ensures |Decimal(phoneNumber)| != 10 && !(|Decimal(phoneNumber)| == 11 && Decimal(phoneNumber)[0] == '1') ==>
              r == Decimal(phoneNumber)
  {
    var s := Decimal(phoneNumber);
    if |s| == 10 then
      Layout(s[..3], s[3..6], s[6..])
    else if |s| == 11 && s[0] == '1' then
      CountryLead + Layout(s[1..4], s[4..7], s[7..])
    else
      s
  }

  /** The display pattern `(a) b-c`. */
  function Layout(a: string, b: string, c: string): (r: string)
    ensures |r| == |a| + |b| + |c| + 4
  {
    "(" + a + ") " + b + "-" + c
  }

  /** Reads a display form back: drops the punctuation the two patterns add. */
  function Unformat(r: string): string
  {
    if |r| == 14 && r[0] == '(' then
      r[1..4] + r[6..9] + r[10..]
    else if |r| == 16 && r[..3] == "1 (" then
      "1" + r[3..6] + r[8..11] + r[12..]
    else
      r
  }

  /** The punctuation of the display patterns. */
  predicate IsSeparator(c: char)
  {
    c == '(' || c == ')' || c == ' ' || c == '-'
  }

  function KeepsChar(c: char): bool
  {
    !IsSeparator(c)
  }

  /** The characters of a string other than the punctuation. */
  function StripSeparators(s: string): string
  {
    Filter(s, KeepsChar)
  }

  /** The blocks of a layout sit at fixed places once `a` and `b` have three characters. */
  lemma LayoutBlocks(a: string, b: string, c: string)
    requires |a| == 3 && |b| == 3
    ensures var r := Layout(a, b, c);
            && r[0] == '(' && r[4] == ')' && r[5] == ' ' && r[9] == '-'
            && r[1..4] == a && r[6..9] == b && r[10..] == c
  {
    assert Layout(a, b, c) == ['('] + a + [')', ' '] + b + ['-'] + c;
  }

  /** Reading the display form back gives the printed number in every branch. */
  lemma FormatRoundTrip(n: int)
    ensures Unformat(FormatPhoneNumber(n)) == Decimal(n)
  {
    var s := Decimal(n);
    var r := FormatPhoneNumber(n);
    if |s| == 10 {
      LayoutBlocks(s[..3], s[3..6], s[6..]);
      assert s == s[..3] + s[3..6] + s[6..];
    } else if |s| == 11 && s[0] == '1' {
      var l := Layout(s[1..4], s[4..7], s[7..]);
      LayoutBlocks(s[1..4], s[4..7], s[7..]);
      assert r[..3] == "1 (" by {
        assert r[2] == l[0];
      }
      assert r[3..6] == l[1..4] && r[8..11] == l[6..9] && r[12..] == l[10..];
      assert s == [s[0]] + s[1..4] + s[4..7] + s[7..];
    } else if |s| == 14 {
      DecimalHasNoLetters(n, 0);
    } else if |s| == 16 {
      DecimalHasNoLetters(n, 1);
      assert r[..3][1] == r[1];
    }
  }

  /** Two numbers never share a display form. */
  lemma FormatInjective(m: int, n: int)
    ensures FormatPhoneNumber(m) == FormatPhoneNumber(n) <==> m == n
  {
    if FormatPhoneNumber(m) == FormatPhoneNumber(n) {
      FormatRoundTrip(m);
      FormatRoundTrip(n);
      DecimalInjective(m, n);
    }
  }

  /** Removing the punctuation distributes over concatenation. */
  lemma StripAppend(s: string, t: string)
    ensures StripSeparators(s + t) == StripSeparators(s) + StripSeparators(t)
  {
    FilterConcat(s, t, KeepsChar);
  }

  /** Punctuation alone strips to nothing. */
  lemma StripPunctuation(s: string)
    requires forall i :: 0 <= i < |s| ==> IsSeparator(s[i])
    ensures StripSeparators(s) == []
  {
  }

  /** Digits survive the removal of punctuation. */
  lemma StripDigits(s: string)
    requires forall i :: 0 <= i < |s| ==> IsDigit(s[i])
    ensures StripSeparators(s) == s
  {
    FilterAll(s, KeepsChar);
  }

  /** Removing the punctuation drops a block that holds only punctuation. */
  lemma StripAround(s: string, d: string, t: string)
    requires StripSeparators(d) == []
    ensures StripSeparators(s + d + t) == StripSeparators(s) + StripSeparators(t)
  {
    StripAppend(s + d, t);
    StripAppend(s, d);
  }

  /** Removing the punctuation from a layout keeps what is left of each block. */
  lemma StripLayout(a: string, b: string, c: string)
    ensures StripSeparators(Layout(a, b, c))
         == StripSeparators(a) + StripSeparators(b) + StripSeparators(c)
  {
    var x2 := "(" + a;
    var x4 := x2 + ") " + b;
    LayoutPunctuation();
    calc {
      StripSeparators(Layout(a, b, c));
      StripSeparators(x4 + "-" + c);
      { StripAround(x4, "-", c); }
      StripSeparators(x4) + StripSeparators(c);
      { StripAround(x2, ") ", b); }
      StripSeparators(x2) + StripSeparators(b) + StripSeparators(c);
      { StripAround([], "(", a); assert [] + "(" + a == x2; }
      StripSeparators(a) + StripSeparators(b) + StripSeparators(c);
    }
  }

  /** The punctuation pieces of the layout strip to nothing. */
  lemma LayoutPunctuation()
    ensures StripSeparators("(") == [] && StripSeparators(") ") == [] && StripSeparators("-") == []
  {
    StripPunctuation("(");
    StripPunctuation(") ");
    StripPunctuation("-");
  }

  /** A digit string cut into three blocks: the blocks hold digits and join back. */
  lemma CutBlocks(s: string, i: nat, j: nat, k: nat)
    requires i <= j <= k <= |s|
    requires forall m :: 0 <= m < |s| ==> IsDigit(s[m])
    ensures s[i..] == s[i..j] + s[j..k] + s[k..]
    ensures forall m :: 0 <= m < j - i ==> IsDigit(s[i..j][m])
    ensures forall m :: 0 <= m < k - j ==> IsDigit(s[j..k][m])
    ensures forall m :: 0 <= m < |s| - k ==> IsDigit(s[k..][m])
  {
  }

  /** A layout of digit blocks strips back to the blocks. */
  lemma StripDigitLayout(s: string, i: nat)
    requires i + 6 <= |s|
    requires forall m :: 0 <= m < |s| ==> IsDigit(s[m])
    ensures StripSeparators(Layout(s[i..i + 3], s[i + 3..i + 6], s[i + 6..])) == s[i..]
  {
    CutBlocks(s, i, i + 3, i + 6);
    StripLayout(s[i..i + 3], s[i + 3..i + 6], s[i + 6..]);
    StripDigits(s[i..i + 3]);
    StripDigits(s[i + 3..i + 6]);
    StripDigits(s[i + 6..]);
  }

  /** The country lead strips to its digit. */
  lemma StripCountryLead()
    ensures StripSeparators(CountryLead) == "1"
  {
    StripPunctuation(" ");
    StripDigits("1");
    StripAppend("1", " ");
    assert "1" + " " == CountryLead;
  }

  /** The eleven-digit display strips back to the printed digits. */
  lemma StripElevenDigits(s: string)
    requires |s| == 11 && s[0] == '1'
    requires forall m :: 0 <= m < |s| ==> IsDigit(s[m])
    ensures StripSeparators(CountryLead + Layout(s[1..4], s[4..7], s[7..])) == s
  {
    var l := Layout(s[1..4], s[4..7], s[7..]);
    StripDigitLayout(s, 1);
    StripAppend(CountryLead, l);
    StripCountryLead();
    LeadingOne(s);
  }

  /** A string that starts with `1` is `1` followed by the rest. */
  lemma LeadingOne(s: string)
    requires s != [] && s[0] == '1'
    ensures "1" + s[1..] == s
  {
    assert s == [s[0]] + s[1..];
  }

  /** Formatting only inserts punctuation: for a non-negative number, removing
      it leaves exactly the printed digits. */
  lemma FormatOnlyAddsSeparators(n: nat)
    ensures StripSeparators(FormatPhoneNumber(n)) == Decimal(n)
  {
    var s := Decimal(n);
    if |s| == 10 {
      StripDigitLayout(s, 0);
      assert s[0..] == s;
    } else if |s| == 11 && s[0] == '1' {
      StripElevenDigits(s);
    } else {
      StripDigits(s);
    }
  }

  /** The bracketed ten-digit pattern is taken by exactly the numbers from
      1000000000 to 9999999999. */
  lemma TenDigitNumbers(n: nat)
    ensures FormatPhoneNumber(n)[0] == '(' <==> 1_000_000_000 <= n < 10_000_000_000
  {
    DigitCount(n, 9);
    assert Pow10(9) == 1_000_000_000;
    assert Pow10(10) == 10_000_000_000;
    var s := Decimal(n);
    if |s| != 10 {
      DecimalHasNoLetters(n, 0);
    }
  }
}
