/**
 The two display formatters of js/script.js. Each is a regular-expression
 replace, written out here as "find the leftmost match, splice in the
 replacement, keep the rest".
 */
module Formatters {
  import opened Options
  import opened Text

  // ---------- phone ----------

  /** `replace(/[^\d]+/g, '')`: the digits of `s`, in order. */
  function Digits(s: string): (r: string)
    ensures AllDigits(r)
    ensures |r| <= |s|
    ensures AllDigits(s) ==> r == s
  {
    if |s| == 0 then []
    else if IsDigit(s[0]) then [s[0]] + Digits(s[1..])
    else Digits(s[1..])
  }

  lemma {:induction false} DigitsAppend(a: string, b: string)
    ensures Digits(a + b) == Digits(a) + Digits(b)
  {
    if |a| == 0 {
      assert a + b == b;
    } else {
      assert (a + b)[1..] == a[1..] + b;
      DigitsAppend(a[1..], b);
    }
  }

  /** `(\d{3})(\d{3})(\d{4})` matches at position `i`. */
  predicate PhoneAt(s: string, i: int) {
    0 <= i && i + 10 <= |s| && AllDigits(s[i..i + 10])
  }

  /** The leftmost position at or after `from` where the phone pattern matches. */
  function FirstPhone(s: string, from: nat): (r: Option<nat>)
    ensures r.Some? ==> from <= r.value && PhoneAt(s, r.value)
    ensures r.Some? ==> forall j :: from <= j < r.value ==> !PhoneAt(s, j)
    ensures r.None? ==> forall j :: from <= j ==> !PhoneAt(s, j)
    decreases |s| - from
  {
    if from + 10 > |s| then None
    else if PhoneAt(s, from) then Some(from)
    else FirstPhone(s, from + 1)
  }

  /**
   `replace(/(\d{3})(\d{3})(\d{4})/, '($1) $2-$3')` on any string: without a
   run of ten digits nothing changes; otherwise the first run gains four
   punctuation characters and no digit is added, lost or moved.
   */
  function ReplacePhone(s: string): (r: string)
    ensures (forall j :: !PhoneAt(s, j)) ==> r == s
    ensures (exists j :: PhoneAt(s, j)) ==> |r| == |s| + 4 && Digits(r) == Digits(s)
  {
    match FirstPhone(s, 0)
    case None => s
    case Some(i) =>
      ReplacePhoneKeepsDigits(s, i);
      s[..i] + Punctuate(s[i..i + 3], s[i + 3..i + 6], s[i + 6..i + 10]) + s[i + 10..]
  }

  /** The replacement text `($1) $2-$3`. */
  function Punctuate(a: string, b: string, c: string): string {
    "(" + a + ") " + b + "-" + c
  }

  /** `formatPhoneNumber`: keep the digits, then format the first ten as `(NNN) NNN-NNNN`. */
  function FormatPhoneNumber(phone: string): (r: string)
    ensures var d := Digits(phone);
            |d| < 10 ==> r == d
    ensures var d := Digits(phone);
            |d| >= 10 ==> r == "(" + d[..3] + ") " + d[3..6] + "-" + d[6..10] + d[10..]
  {
    var d := Digits(phone);
    assert |d| >= 10 ==> AllDigits(d[0..10]);
    ReplacePhone(d)
  }

  lemma {:induction false} DigitsOfPunctuation(s: string)
    requires forall k :: 0 <= k < |s| ==> !IsDigit(s[k])
    ensures Digits(s) == []
  {
    if |s| > 0 {
      DigitsOfPunctuation(s[1..]);
    }
  }

  /** Punctuation between two runs of digits drops out: the digits of `555-0100` are `5550100`. */
  lemma DigitsAroundPunctuation(a: string, h: string, b: string)
    requires AllDigits(a) && AllDigits(b)
    requires forall k :: 0 <= k < |h| ==> !IsDigit(h[k])
    ensures Digits(a + h + b) == a + b
  {
    DigitsOfPunctuation(h);
    var x := a + h;
    DigitsAppend(a, h);
    assert Digits(x) == a;
    DigitsAppend(x, b);
    assert Digits(x + b) == a + b;
  }

  /** The digits of `(abc) def-ghij` are `abcdefghij`. */
  lemma DigitsOfPunctuated(a: string, b: string, c: string)
    requires AllDigits(a) && AllDigits(b) && AllDigits(c)
    ensures Digits(Punctuate(a, b, c)) == a + b + c
  {
    var o, cs, h := "(", ") ", "-";
    DigitsOfPunctuation(o);
    DigitsOfPunctuation(cs);
    DigitsOfPunctuation(h);
    var x1 := o + a;
    DigitsAppend(o, a);
    assert Digits(x1) == a;
    var x2 := x1 + cs;
    DigitsAppend(x1, cs);
    assert Digits(x2) == a;
    var x3 := x2 + b;
    DigitsAppend(x2, b);
    assert Digits(x3) == a + b;
    var x4 := x3 + h;
    DigitsAppend(x3, h);
    assert Digits(x4) == a + b;
    DigitsAppend(x4, c);
  }

  /** The digits of `<pre>(abc) def-ghij<rest>` are those of `<pre>`, then `abcdefghij`, then those of `<rest>`. */
  lemma DigitsOfFormatted(pre: string, a: string, b: string, c: string, rest: string)
    requires AllDigits(a) && AllDigits(b) && AllDigits(c)
    ensures Digits(pre + Punctuate(a, b, c) + rest) == Digits(pre) + a + b + c + Digits(rest)
  {
    var p := Punctuate(a, b, c);
    DigitsOfPunctuated(a, b, c);
    DigitsAppend(pre + p, rest);
    DigitsAppend(pre, p);
  }

  /** Any piece of a ten-digit run is all digits. */
  lemma RunDigits(s: string, i: nat, lo: nat, hi: nat)
    requires PhoneAt(s, i) && i <= lo <= hi <= i + 10
    ensures AllDigits(s[lo..hi])
  {
    var run := s[i..i + 10];
    forall k | 0 <= k < hi - lo
      ensures IsDigit(s[lo..hi][k])
    {
      assert s[lo..hi][k] == run[lo - i + k];
    }
  }

  /** Splicing the punctuation into a ten-digit run keeps the string's digits. */
  lemma ReplacePhoneKeepsDigits(s: string, i: nat)
    requires PhoneAt(s, i)
    ensures Digits(s[..i] + Punctuate(s[i..i + 3], s[i + 3..i + 6], s[i + 6..i + 10]) + s[i + 10..]) == Digits(s)
  {
    var pre, a, b, c, rest := s[..i], s[i..i + 3], s[i + 3..i + 6], s[i + 6..i + 10], s[i + 10..];
    RunDigits(s, i, i, i + 3);
    RunDigits(s, i, i + 3, i + 6);
    RunDigits(s, i, i + 6, i + 10);
    DigitsOfFormatted(pre, a, b, c, rest);
    var run := a + b + c;
    assert AllDigits(run);
    assert Digits(pre) + a + b + c + Digits(rest) == Digits(pre) + run + Digits(rest);
    calc {
      Digits(s);
      { assert s == pre + run + rest; }
      Digits(pre + run + rest);
      { DigitsAppend(pre + run, rest); }
      Digits(pre + run) + Digits(rest);
      { DigitsAppend(pre, run); }
      Digits(pre) + run + Digits(rest);
    }
  }

  /** Formatting adds punctuation only: the digits survive unchanged and in order. */
  lemma FormatPhoneKeepsDigits(phone: string)
    ensures Digits(FormatPhoneNumber(phone)) == Digits(phone)
  {
    var d := Digits(phone);
    if |d| >= 10 {
      assert AllDigits(d[0..10]);
      assert PhoneAt(d, 0);
    }
  }

  /** Formatting an already formatted number changes nothing. */
  lemma FormatPhoneIdempotent(phone: string)
    ensures FormatPhoneNumber(FormatPhoneNumber(phone)) == FormatPhoneNumber(phone)
  {
    FormatPhoneKeepsDigits(phone);
  }

  lemma FormatPhoneExample(p: string)
    requires p == "1234567890"
    ensures FormatPhoneNumber(p) == "(123) 456-7890"
  {
    assert AllDigits(p);
    assert Digits(p) == p;
    assert p[..3] == "123" && p[3..6] == "456" && p[6..10] == "7890" && p[10..] == "";
    assert "(" + "123" + ") " + "456" + "-" + "7890" + "" == "(123) 456-7890";
  }

  lemma FormatPhoneShortExample(p: string)
    requires p == "555-0100"
    ensures FormatPhoneNumber(p) == "5550100"
  {
    var a, h, b := p[..3], p[3..4], p[4..];
    assert p == a + h + b;
    DigitsAroundPunctuation(a, h, b);
    assert a + b == "5550100";
  }

  lemma FormatPhoneLongExample(p: string)
    requires p == "123456789012"
    ensures FormatPhoneNumber(p) == "(123) 456-789012"
  {
    assert AllDigits(p);
    assert Digits(p) == p;
    assert p[..3] == "123" && p[3..6] == "456" && p[6..10] == "7890" && p[10..] == "12";
    assert "(" + "123" + ") " + "456" + "-" + "7890" + "12" == "(123) 456-789012";
  }

  // ---------- date ----------

  /** `(\d{4})-(\d{2})-(\d{2}).` matches at position `i`: a date followed by one non-line-terminator. */
  predicate DateAt(s: string, i: int) {
    && 0 <= i && i + 11 <= |s|
    && IsDigit(s[i]) && IsDigit(s[i + 1]) && IsDigit(s[i + 2]) && IsDigit(s[i + 3])
    && s[i + 4] == '-' && IsDigit(s[i + 5]) && IsDigit(s[i + 6])
    && s[i + 7] == '-' && IsDigit(s[i + 8]) && IsDigit(s[i + 9])
    && !IsLineTerminator(s[i + 10])
  }

  /** Where the greedy `.+` stops: the first line terminator at or after `j`, or the end. */
  function LineEnd(s: string, j: nat): (e: nat)
    requires j <= |s|
    ensures j <= e <= |s|
    ensures e == |s| || IsLineTerminator(s[e])
    ensures forall k :: j <= k < e ==> !IsLineTerminator(s[k])
    decreases |s| - j
  {
    if j == |s| || IsLineTerminator(s[j]) then j else LineEnd(s, j + 1)
  }

  /** The leftmost position at or after `from` where the date pattern matches. */
  function FirstDate(s: string, from: nat): (r: Option<nat>)
    ensures r.Some? ==> from <= r.value && DateAt(s, r.value)
    ensures r.Some? ==> forall j :: from <= j < r.value ==> !DateAt(s, j)
    ensures r.None? ==> forall j :: from <= j ==> !DateAt(s, j)
    decreases |s| - from
  {
    if from + 11 > |s| then None
    else if DateAt(s, from) then Some(from)
    else FirstDate(s, from + 1)
  }

  /** `formatDate`: `replace(/(\d{4})-(\d{2})-(\d{2}).+/, '$2/$3/$1')`. */
  function FormatDate(date: string): (r: string)
    ensures (forall j :: !DateAt(date, j)) ==> r == date
    ensures |date| < 11 ==> r == date
  {
    match FirstDate(date, 0)
    case None => date
    case Some(i) =>
      date[..i] + date[i + 5..i + 7] + "/" + date[i + 8..i + 10] + "/" + date[i..i + 4]
      + date[LineEnd(date, i + 10)..]
  }

  /** The search for the leftmost date stops at the first position that matches. */
  lemma FirstDateFinds(s: string, from: nat, at: nat)
    requires from <= at && DateAt(s, at)
    requires forall j :: from <= j < at ==> !DateAt(s, j)
    ensures FirstDate(s, from) == Some(at)
  {
  }

  /**
   A date-time `YYYY-MM-DD<rest>` on one line, after a lead-in without digits,
   becomes the lead-in followed by `MM/DD/YYYY`.
   */
  lemma FormatDateOfTimestamp(lead: string, y: string, m: string, d: string, rest: string)
    requires forall k :: 0 <= k < |lead| ==> !IsDigit(lead[k])
    requires |y| == 4 && |m| == 2 && |d| == 2 && AllDigits(y) && AllDigits(m) && AllDigits(d)
    requires |rest| >= 1 && forall k :: 0 <= k < |rest| ==> !IsLineTerminator(rest[k])
    ensures FormatDate(lead + y + "-" + m + "-" + d + rest) == lead + m + "/" + d + "/" + y
  {
    var s := lead + y + "-" + m + "-" + d + rest;
    var i := |lead|;
    assert s[..i] == lead && s[i..i + 4] == y && s[i + 5..i + 7] == m && s[i + 8..i + 10] == d;
    assert s[i + 10..] == rest;
    assert DateAt(s, i);
    forall j | 0 <= j < i
      ensures !DateAt(s, j)
    {
      assert s[j] == lead[j];
    }
    FirstDateFinds(s, 0, i);
    var e := LineEnd(s, i + 10);
    assert e == |s|;
    assert FormatDate(s) == s[..i] + s[i + 5..i + 7] + "/" + s[i + 8..i + 10] + "/" + s[i..i + 4] + s[e..];
  }

  lemma FormatDateExample(date: string)
    requires date == "1990-05-03T00:00:00Z"
    ensures FormatDate(date) == "05/03/1990"
  {
    var lead, y, m, d, rest := date[..0], date[..4], date[5..7], date[8..10], date[10..];
    assert y == "1990" && m == "05" && d == "03" && rest == "T00:00:00Z";
    assert date == lead + y + "-" + m + "-" + d + rest;
    FormatDateOfTimestamp(lead, y, m, d, rest);
    assert lead + m + "/" + d + "/" + y == "05/03/1990";
  }

}
