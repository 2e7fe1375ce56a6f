// parse_date: a `DD-MM-YYYY` string split on '-' into three unsigned 32-bit fields, validated
// against the Gregorian calendar and a minimum year, and converted to epoch seconds.
module DateParse {
  import opened Types
  import opened Calendar

  const Separator: char := '-'
  const U32Limit: nat := 0x1_0000_0000
  const MinYear: nat := 2023

  /** The fields of `parts` joined back together with the separator between them. */
  function Join(parts: seq<string>): string
    requires |parts| >= 1
  {
    if |parts| == 1 then parts[0] else parts[0] + [Separator] + Join(parts[1..])
  }

  /** Splitting on '-': the pieces contain no separator and joining them gives back the text. */
  function Split(s: string): (parts: seq<string>)
    ensures |parts| >= 1
    ensures forall i :: 0 <= i < |parts| ==> Separator !in parts[i]
    ensures Join(parts) == s
  {
    if |s| == 0 then [""]
    else
      var rest := Split(s[1..]);
      if s[0] == Separator then [""] + rest
      else [[s[0]] + rest[0]] + rest[1..]
  }

  /** A separator-free prefix is the first piece, whether the text ends there or continues after a separator. */
  lemma {:induction false} SplitPrefix(head: string, tail: Option<string>)
    requires Separator !in head
    ensures tail.None? ==> Split(head) == [head]
    ensures tail.Some? ==> Split(head + [Separator] + tail.value) == [head] + Split(tail.value)
    decreases |head|
  {
    var text := if tail.None? then head else head + [Separator] + tail.value;
    if |head| > 0 {
      SplitPrefix(head[1..], tail);
      assert text[1..] == if tail.None? then head[1..] else head[1..] + [Separator] + tail.value;
      assert [head[0]] + head[1..] == head;
    } else if tail.Some? {
      assert text[1..] == tail.value;
    }
  }

  /** The pieces are determined by the joined text: Split inverts Join. */
  lemma {:induction false} SplitJoin(parts: seq<string>)
    requires |parts| >= 1
    requires forall i :: 0 <= i < |parts| ==> Separator !in parts[i]
    ensures Split(Join(parts)) == parts
    decreases |parts|
  {
    if |parts| == 1 {
      SplitPrefix(parts[0], None);
    } else {
      assert forall i :: 0 <= i < |parts| - 1 ==> parts[1..][i] == parts[i + 1];
      SplitJoin(parts[1..]);
      SplitPrefix(parts[0], Some(Join(parts[1..])));
      assert [parts[0]] + parts[1..] == parts;
    }
  }

  predicate IsDigit(c: char) {
    '0' <= c <= '9'
  }

  function DigitValue(c: char): (r: nat)
    requires IsDigit(c)
    ensures r < 10
  {
    (c - '0') as nat
  }

  function DigitChar(n: nat): (c: char)
    requires n < 10
    ensures IsDigit(c) && DigitValue(c) == n
  {
    ('0' as int + n) as char
  }

  predicate AllDigits(s: string) {
    forall i :: 0 <= i < |s| ==> IsDigit(s[i])
  }

  /** The number written by a string of decimal digits, most significant first. */
  function DigitsValue(s: string): nat
    requires AllDigits(s)
  {
    if |s| == 0 then 0 else DigitsValue(s[..|s| - 1]) * 10 + DigitValue(s[|s| - 1])
  }

  /** Parsing one field as u32: a non-empty run of digits whose value fits in 32 bits. */
  function ParseU32(s: string): (r: Option<nat>)
    ensures r.Some? <==> |s| > 0 && AllDigits(s) && DigitsValue(s) < U32Limit
    ensures r.Some? ==> r.value == DigitsValue(s) && r.value < U32Limit
  {
    if |s| > 0 && AllDigits(s) && DigitsValue(s) < U32Limit then Some(DigitsValue(s)) else None
  }

  /** The shortest decimal numeral of `n`. */
  function Digits(n: nat): (s: string)
    ensures |s| > 0 && AllDigits(s)
  {
    if n < 10 then [DigitChar(n)] else Digits(n / 10) + [DigitChar(n % 10)]
  }

  lemma {:induction false} DigitsRoundTrip(n: nat)
    ensures DigitsValue(Digits(n)) == n
  {
    var s := Digits(n);
    if n >= 10 {
      DigitsRoundTrip(n / 10);
      assert s[..|s| - 1] == Digits(n / 10);
    }
  }

  lemma ParseU32Digits(n: nat)
    requires n < U32Limit
    ensures Separator !in Digits(n)
    ensures ParseU32(Digits(n)) == Some(n)
  {
    DigitsRoundTrip(n);
  }

  /** The accepted date as (timestamp, year, month, day). */
  datatype ParsedDate = ParsedDate(timestamp: nat, year: nat, month: nat, day: nat)

  /** The calendar checks parse_date applies to the three numbers it read. */
  predicate AcceptedDate(year: nat, month: nat, day: nat) {
    ValidDate(year, month, day) && year >= MinYear
  }

  /**
   * parse_date: the text must split into exactly three fields, each a u32, forming a valid
   * Gregorian date no earlier than the minimum year. Every failure is InvalidInput.
   */
  function ParseDate(text: string): (r: Result<ParsedDate>)
    ensures r.Err? ==> r.error == InvalidInput
    ensures r.Ok? <==>
      var parts := Split(text);
      |parts| == 3 && ParseU32(parts[0]).Some? && ParseU32(parts[1]).Some? && ParseU32(parts[2]).Some? &&
      AcceptedDate(ParseU32(parts[2]).value, ParseU32(parts[1]).value, ParseU32(parts[0]).value)
    ensures r.Ok? ==>
      var d := r.value;
      AcceptedDate(d.year, d.month, d.day) && d.year < U32Limit &&
      d.timestamp == Timestamp(d.year, d.month, d.day) && d.timestamp % SecondsPerDay == 0 &&
      DigitsValue(Split(text)[0]) == d.day && DigitsValue(Split(text)[1]) == d.month &&
      DigitsValue(Split(text)[2]) == d.year
  {
    var parts := Split(text);
    if |parts| != 3 then Err(InvalidInput)
    else
      var day := ParseU32(parts[0]);
      var month := ParseU32(parts[1]);
      var year := ParseU32(parts[2]);
      if day.None? || month.None? || year.None? then Err(InvalidInput)
      else if !AcceptedDate(year.value, month.value, day.value) then Err(InvalidInput)
      else
        var ts := Timestamp(year.value, month.value, day.value);
        Ok(ParsedDate(ts, year.value, month.value, day.value))
  }

  /** `k` zero digits. */
  function Zeros(k: nat): (s: string)
    ensures |s| == k && AllDigits(s) && Separator !in s
  {
    if k == 0 then "" else Zeros(k - 1) + "0"
  }

  /** Leading zeros do not change the value of a numeral. */
  lemma {:induction false} LeadingZeros(k: nat, s: string)
    requires AllDigits(s)
    ensures AllDigits(Zeros(k) + s)
    ensures DigitsValue(Zeros(k) + s) == DigitsValue(s)
    decreases k + |s|
  {
    var t := Zeros(k) + s;
    assert AllDigits(t) by {
      forall i | 0 <= i < |t| ensures IsDigit(t[i]) {
        if i >= k { assert t[i] == s[i - k]; }
      }
    }
    if |s| > 0 {
      LeadingZeros(k, s[..|s| - 1]);
      assert t[..|t| - 1] == Zeros(k) + s[..|s| - 1];
    } else if k > 0 {
      LeadingZeros(k - 1, "");
      assert t == Zeros(k - 1) + "0";
      assert t[..|t| - 1] == Zeros(k - 1) + "";
    }
  }

  /** The decimal numeral of `n`, padded with leading zeros to at least `width` digits. */
  function Padded(n: nat, width: nat): (s: string)
    ensures |s| >= width
  {
    var digits := Digits(n);
    Zeros(if |digits| < width then width - |digits| else 0) + digits
  }

  /** A zero-padded numeral of a u32 parses back to the number. */
  lemma ParseU32Padded(n: nat, width: nat)
    requires n < U32Limit
    ensures Separator !in Padded(n, width)
    ensures ParseU32(Padded(n, width)) == Some(n)
  {
    var digits := Digits(n);
    var k := if |digits| < width then width - |digits| else 0;
    ParseU32Digits(n);
    LeadingZeros(k, digits);
    assert Padded(n, width) == Zeros(k) + digits;
  }

  /** A date written as DD-MM-YYYY: two-digit day and month, four-digit year, zero-padded. */
  function FormatDate(year: nat, month: nat, day: nat): string
  {
    Join([Padded(day, 2), Padded(month, 2), Padded(year, 4)])
  }

  /** Every date parse_date should accept is read back exactly from its DD-MM-YYYY form. */
  lemma ParseFormatRoundTrip(year: nat, month: nat, day: nat)
    requires AcceptedDate(year, month, day) && year < U32Limit
    ensures ParseDate(FormatDate(year, month, day)) == Ok(ParsedDate(Timestamp(year, month, day), year, month, day))
  {
    ParseU32Padded(day, 2);
    ParseU32Padded(month, 2);
    ParseU32Padded(year, 4);
    var parts := [Padded(day, 2), Padded(month, 2), Padded(year, 4)];
    SplitJoin(parts);
  }
}
