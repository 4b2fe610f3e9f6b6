/**
  The pieces of Rust's standard library that the protocol code leans on,
  written out so that their behaviour is part of the model: `str::split`
  with a one-character pattern, `str::trim`, `u16`'s `FromStr` and the
  decimal `Display` of an unsigned integer.
 */
module Text {
  import opened Wrappers

  type u16 = x: int | 0 <= x < 0x1_0000

  // ---------------------------------------------------------------------
  // Splitting on a separator character
  // ---------------------------------------------------------------------

  /** Glues `parts` back together with `sep` between neighbours. */
  function Join(parts: seq<string>, sep: char): string
    requires |parts| >= 1
  {
    if |parts| == 1 then parts[0] else parts[0] + [sep] + Join(parts[1..], sep)
  }

  /** Number of occurrences of `c` in `s`. */
  function Count(s: string, c: char): nat
  {
    if s == [] then 0 else (if s[0] == c then 1 else 0) + Count(s[1..], c)
  }

  /**
    `s.split(sep)`: the maximal separator-free pieces of `s`, in order,
    empty pieces included; the empty string splits into one empty piece.
   */
  function Split(s: string, sep: char): (parts: seq<string>)
    ensures |parts| >= 1
    ensures forall i :: 0 <= i < |parts| ==> sep !in parts[i]
  {
    if s == [] then [""]
    else
      var rest := Split(s[1..], sep);
      if s[0] == sep then [""] + rest else [[s[0]] + rest[0]] + rest[1..]
  }

  /** Joining the pieces with the separator gives the string back. */
  lemma {:induction false} JoinSplit(s: string, sep: char)
    ensures Join(Split(s, sep), sep) == s
  {
    if s != [] {
      JoinSplit(s[1..], sep);
      if s[0] != sep {
        JoinConsFirst(s[0], Split(s[1..], sep), sep);
      }
    }
  }

  /** Prepending a character to the first piece prepends it to the join. */
  lemma JoinConsFirst(c: char, parts: seq<string>, sep: char)
    requires |parts| >= 1
    ensures Join([[c] + parts[0]] + parts[1..], sep) == [c] + Join(parts, sep)
  {
    var ps := [[c] + parts[0]] + parts[1..];
    if |parts| > 1 {
      assert ps[1..] == parts[1..];
    }
  }

  /** A string has one more piece than it has separators. */
  lemma {:induction false} SplitCount(s: string, sep: char)
    ensures |Split(s, sep)| == Count(s, sep) + 1
  {
    if s != [] {
      SplitCount(s[1..], sep);
    }
  }

  /** A separator-free prefix becomes (the start of) the first piece. */
  lemma {:induction false} SplitPrefix(a: string, b: string, sep: char)
    requires sep !in a
    ensures Split(a + b, sep) == [a + Split(b, sep)[0]] + Split(b, sep)[1..]
  {
    if a != [] {
      assert (a + b)[1..] == a[1..] + b;
      SplitPrefix(a[1..], b, sep);
      assert [a[0]] + (a[1..] + Split(b, sep)[0]) == a + Split(b, sep)[0];
    } else {
      assert a + b == b;
      assert a + Split(b, sep)[0] == Split(b, sep)[0];
      assert Split(b, sep) == [Split(b, sep)[0]] + Split(b, sep)[1..];
    }
  }

  /** A separator-free string is a single piece. */
  lemma {:induction false} SplitNoSeparator(a: string, sep: char)
    requires sep !in a
    ensures Split(a, sep) == [a]
  {
    if a != [] {
      SplitNoSeparator(a[1..], sep);
      assert [a[0]] + a[1..] == a;
    }
  }

  /** A leading separator closes an empty first piece. */
  lemma SplitLeadingSeparator(tail: string, sep: char)
    ensures Split([sep] + tail, sep) == [""] + Split(tail, sep)
  {
    assert ([sep] + tail)[1..] == tail;
  }

  /** Splitting undoes joining separator-free pieces. */
  lemma {:induction false} SplitJoin(parts: seq<string>, sep: char)
    requires |parts| >= 1
    requires forall i :: 0 <= i < |parts| ==> sep !in parts[i]
    ensures Split(Join(parts, sep), sep) == parts
  {
    if |parts| == 1 {
      SplitNoSeparator(parts[0], sep);
    } else {
      var head, tail := parts[0], Join(parts[1..], sep);
      SplitJoin(parts[1..], sep);
      SplitLeadingSeparator(tail, sep);
      SplitPrefix(head, [sep] + tail, sep);
      assert head + [sep] + tail == head + ([sep] + tail);
      assert head + "" == head;
      assert parts == [head] + parts[1..];
    }
  }

  // ---------------------------------------------------------------------
  // Trimming whitespace
  // ---------------------------------------------------------------------

  /** ASCII whitespace: horizontal tab to carriage return, and space. */
  predicate IsWhitespace(c: char)
  {
    c == ' ' || ('\t' <= c <= '\r')
  }

  /** `str::trim_start`: drops the leading whitespace. */
  function TrimStart(s: string): (r: string)
    ensures |r| <= |s| && r == s[|s| - |r|..]
    ensures r != [] ==> !IsWhitespace(r[0])
  {
    if s != [] && IsWhitespace(s[0]) then TrimStart(s[1..]) else s
  }

  /** `str::trim_end`: drops the trailing whitespace. */
  function TrimEnd(s: string): (r: string)
    ensures |r| <= |s| && r == s[..|r|]
    ensures r != [] ==> !IsWhitespace(r[|r| - 1])
  {
    if s != [] && IsWhitespace(s[|s| - 1]) then TrimEnd(s[..|s| - 1]) else s
  }

  /** Everything `TrimStart` drops is whitespace. */
  lemma {:induction false} TrimStartDropsWhitespace(s: string)
    ensures forall i :: 0 <= i < |s| - |TrimStart(s)| ==> IsWhitespace(s[i])
  {
    if s != [] && IsWhitespace(s[0]) {
      var tail := s[1..];
      TrimStartDropsWhitespace(tail);
      assert |TrimStart(s)| == |TrimStart(tail)|;
      forall i | 1 <= i < |s| - |TrimStart(s)|
        ensures IsWhitespace(s[i])
      {
        assert s[i] == tail[i - 1];
      }
    }
  }

  /** Everything `TrimEnd` drops is whitespace. */
  lemma {:induction false} TrimEndDropsWhitespace(s: string)
    ensures forall i :: |TrimEnd(s)| <= i < |s| ==> IsWhitespace(s[i])
  {
    if s != [] && IsWhitespace(s[|s| - 1]) {
      var init := s[..|s| - 1];
      TrimEndDropsWhitespace(init);
      assert |TrimEnd(s)| == |TrimEnd(init)|;
    }
  }

  /** Neither the first nor the last character is whitespace. */
  predicate NoOuterWhitespace(s: string)
  {
    s != [] ==> !IsWhitespace(s[0]) && !IsWhitespace(s[|s| - 1])
  }

  /** `str::trim`: drops whitespace at both ends. */
  function Trim(s: string): (r: string)
    ensures NoOuterWhitespace(r)
  {
    TrimEnd(TrimStart(s))
  }

  /** Trimming keeps a string without whitespace at its ends as it is. */
  lemma TrimKeepsTrimmed(s: string)
    requires NoOuterWhitespace(s)
    ensures Trim(s) == s
  {
    assert TrimStart(s) == s;
  }

  /** `s[lo..hi]` is a slice of `s` with nothing but whitespace before and after it. */
  predicate OnlyWhitespaceOutside(s: string, lo: int, hi: int)
  {
    && 0 <= lo <= hi <= |s|
    && (forall i :: 0 <= i < lo ==> IsWhitespace(s[i]))
    && (forall i :: hi <= i < |s| ==> IsWhitespace(s[i]))
  }

  /** Where in its input the trimmed text sits. */
  lemma TrimBounds(s: string) returns (lo: nat, hi: nat)
    ensures lo <= hi <= |s| && Trim(s) == s[lo..hi]
    ensures lo == |s| - |TrimStart(s)| && hi == lo + |Trim(s)|
  {
    var t := TrimStart(s);
    var u := TrimEnd(t);
    lo, hi := |s| - |t|, |s| - |t| + |u|;
    SliceOfSuffix(s, lo, |u|);
  }

  /** A prefix of a suffix is a slice. */
  lemma SliceOfSuffix(s: string, lo: nat, k: nat)
    requires lo + k <= |s|
    ensures s[lo..][..k] == s[lo..lo + k]
  {
  }

  /** What trimming keeps is a slice of the input, and only whitespace is cut off. */
  lemma TrimIsInnerSlice(s: string)
    ensures exists lo, hi :: OnlyWhitespaceOutside(s, lo, hi) && Trim(s) == s[lo..hi]
  {
    var lo, hi := TrimBounds(s);
    var t := TrimStart(s);
    TrimStartDropsWhitespace(s);
    TrimEndDropsWhitespace(t);
    assert OnlyWhitespaceOutside(s, lo, hi) by {
      assert forall i :: hi <= i < |s| ==> s[i] == t[i - lo];
    }
  }

  /** Trimming adds no character: one absent from the input is absent from the result. */
  lemma TrimKeepsAbsent(s: string, c: char)
    requires c !in s
    ensures c !in Trim(s)
  {
    var lo, hi := TrimBounds(s);
    forall j | 0 <= j < hi - lo
      ensures s[lo..hi][j] != c
    {
      assert s[lo..hi][j] == s[lo + j] && s[lo + j] in s;
    }
  }

  // ---------------------------------------------------------------------
  // Decimal numbers
  // ---------------------------------------------------------------------

  predicate IsDigit(c: char)
  {
    '0' <= c <= '9'
  }

  predicate AllDigits(s: string)
  {
    forall i :: 0 <= i < |s| ==> IsDigit(s[i])
  }

  /** The value of a string of decimal digits, most significant first. */
  function DigitsValue(s: string): nat
    requires AllDigits(s)
  {
    if s == [] then 0 else DigitsValue(s[..|s| - 1]) * 10 + (s[|s| - 1] as int - '0' as int)
  }

  /** The digit character for `d`. */
  function DigitChar(d: nat): (c: char)
    requires d < 10
    ensures IsDigit(c) && c as int - '0' as int == d
  {
    (d + '0' as int) as char
  }

  /**
    `n.to_string()` for an unsigned integer: its shortest decimal
    representation, without sign or leading zeros.
   */
  function Decimal(n: nat): (r: string)
    ensures |r| >= 1 && AllDigits(r)
    ensures DigitsValue(r) == n
    ensures r[0] == '0' ==> r == "0"
  {
    if n < 10 then [DigitChar(n)]
    else
      var r := Decimal(n / 10) + [DigitChar(n % 10)];
      assert r[..|r| - 1] == Decimal(n / 10);
      r
  }

  /**
    `s.parse::<u16>()` as Rust's `FromStr` does it: one optional leading
    `+`, then one or more ASCII digits whose value is at most 65535.
    Leading zeros are allowed, so several strings parse to one number.
   */
  function ParseU16(s: string): (r: Option<u16>)
    ensures r.Some? ==> |s| >= 1 && (s[0] == '+' || IsDigit(s[0]))
    ensures r.Some? ==> forall i :: 0 < i < |s| ==> IsDigit(s[i])
  {
    var digits := if |s| > 0 && s[0] == '+' then s[1..] else s;
    if |digits| == 0 || !AllDigits(digits) then None
    else if DigitsValue(digits) < 0x1_0000 then Some(DigitsValue(digits))
    else None
  }

  /** Parsing the decimal form of a `u16` gives it back. */
  lemma ParseDecimal(n: u16)
    ensures ParseU16(Decimal(n)) == Some(n)
  {
    var d := Decimal(n);
    assert d[0] != '+';
  }

  /** `z` zero digits. */
  function Zeros(z: nat): (r: string)
    ensures |r| == z && AllDigits(r)
  {
    if z == 0 then "" else "0" + Zeros(z - 1)
  }

  /** The optional sign `u16::from_str` accepts in front of the digits. */
  function SignPrefix(plus: bool): string
  {
    if plus then "+" else ""
  }

  /** A leading zero does not change the value of a digit string. */
  lemma {:induction false} DigitsValueLeadingZero(d: string)
    requires AllDigits(d)
    ensures AllDigits("0" + d) && DigitsValue("0" + d) == DigitsValue(d)
  {
    var e := "0" + d;
    assert forall i :: 0 < i < |e| ==> e[i] == d[i - 1];
    if d != [] {
      var p := d[..|d| - 1];
      DigitsValueLeadingZero(p);
      assert e[..|e| - 1] == "0" + p;
    }
  }

  /** Any number of leading zeros does not change the value of a digit string. */
  lemma {:induction false} DigitsValueZeros(z: nat, d: string)
    requires AllDigits(d)
    ensures AllDigits(Zeros(z) + d) && DigitsValue(Zeros(z) + d) == DigitsValue(d)
  {
    var e := Zeros(z) + d;
    assert forall i :: 0 <= i < |e| ==> IsDigit(e[i]);
    if z > 0 {
      var f := Zeros(z - 1) + d;
      DigitsValueZeros(z - 1, d);
      DigitsValueLeadingZero(f);
      assert e == "0" + f;
      calc {
        DigitsValue(e);
        DigitsValue("0" + f);
        DigitsValue(f);
      }
    } else {
      assert e == d;
    }
  }

  /** A digit string that does not start with `0` has a positive value. */
  lemma {:induction false} DigitsValuePositive(d: string)
    requires AllDigits(d) && d != [] && d[0] != '0'
    ensures DigitsValue(d) >= 1
  {
    if |d| > 1 {
      DigitsValuePositive(d[..|d| - 1]);
    }
  }

  /** A digit string without a leading zero is the decimal text of its value. */
  lemma {:induction false} DecimalUnique(d: string)
    requires AllDigits(d) && d != [] && d[0] != '0'
    ensures Decimal(DigitsValue(d)) == d
  {
    var v := DigitsValue(d);
    if |d| == 1 {
      assert d[..|d| - 1] == "";
      assert v == DigitsValue(d[..|d| - 1]) * 10 + (d[|d| - 1] as int - '0' as int);
      assert v == d[0] as int - '0' as int;
      assert Decimal(v) == [DigitChar(v)];
    } else {
      var p := d[..|d| - 1];
      var last := d[|d| - 1] as int - '0' as int;
      DigitsValuePositive(p);
      DecimalUnique(p);
      assert v == DigitsValue(p) * 10 + last && 0 <= last < 10;
      assert v / 10 == DigitsValue(p) && v % 10 == last;
      assert Decimal(v) == p + [DigitChar(last)];
      assert d == p + [d[|d| - 1]];
    }
  }

  /** Every non-empty digit string is zeros followed by the decimal text of its value. */
  lemma {:induction false} DigitsAreZerosThenDecimal(d: string) returns (z: nat)
    requires AllDigits(d) && d != []
    ensures d == Zeros(z) + Decimal(DigitsValue(d))
  {
    if d[0] != '0' {
      DecimalUnique(d);
      z := 0;
    } else if |d| == 1 {
      assert d == "0" && d[..0] == "";
      z := 0;
    } else {
      var t := d[1..];
      assert d == "0" + t;
      var z' := DigitsAreZerosThenDecimal(t);
      DigitsValueLeadingZero(t);
      z := z' + 1;
      assert Zeros(z) + Decimal(DigitsValue(d)) == "0" + (Zeros(z') + Decimal(DigitsValue(t)));
    }
  }

  /**
    Every optional `+`, any number of leading zeros and then the decimal
    text of a `u16` parse to that number.
   */
  lemma ParseU16Padded(n: u16, z: nat, plus: bool)
    ensures ParseU16(SignPrefix(plus) + Zeros(z) + Decimal(n)) == Some(n)
  {
    var d := Zeros(z) + Decimal(n);
    DigitsValueZeros(z, Decimal(n));
    var s := SignPrefix(plus) + Zeros(z) + Decimal(n);
    assert s == SignPrefix(plus) + d;
    assert |d| > 0 && AllDigits(d) && DigitsValue(d) == n;
    if plus {
      assert s[0] == '+' && s[1..] == d;
    } else {
      assert s == d && IsDigit(s[0]);
    }
  }

  /**
    Conversely, whatever text parses to `n` is an optional `+`, some
    leading zeros and the decimal text of `n`: nothing else is accepted.
   */
  lemma ParseU16Form(s: string, n: u16)
    requires ParseU16(s) == Some(n)
    ensures exists plus: bool, z: nat :: s == SignPrefix(plus) + Zeros(z) + Decimal(n)
  {
    var plus, digits := ParseU16Digits(s, n);
    var z := DigitsAreZerosThenDecimal(digits);
    ConcatAssoc(SignPrefix(plus), Zeros(z), Decimal(n));
  }

  lemma ConcatAssoc(a: string, b: string, c: string)
    ensures a + (b + c) == a + b + c
  {
  }

  /** What the parser reads as the digits of an accepted text. */
  lemma ParseU16Digits(s: string, n: u16) returns (plus: bool, digits: string)
    requires ParseU16(s) == Some(n)
    ensures s == SignPrefix(plus) + digits
    ensures digits != [] && AllDigits(digits) && DigitsValue(digits) == n
  {
    plus := |s| > 0 && s[0] == '+';
    digits := if plus then s[1..] else s;
  }

  /** Leading zeros and a `+` sign are accepted, so parsing is not injective. */
  lemma ParseU16NotInjective()
    ensures ParseU16("01") == Some(1) && ParseU16("+1") == Some(1) && ParseU16("1") == Some(1)
  {
    assert "01"[..1] == "0" && "0"[..0] == "" && "1"[..0] == "";
    assert DigitsValue("0") == 0;
    assert DigitsValue("1") == 1;
    assert DigitsValue("01") == 1;
    assert "+1"[1..] == "1";
  }

  /** A bare sign, a minus sign, an empty string and 65536 are all refused. */
  lemma ParseU16Rejects()
    ensures ParseU16("") == None && ParseU16("+") == None && ParseU16("-1") == None
    ensures ParseU16("65536") == None && ParseU16("65535") == Some(65535)
  {
    assert !IsDigit("-1"[0]);
    assert "6"[..0] == "" && DigitsValue("6") == 6;
    assert "65"[..1] == "6" && DigitsValue("65") == 65;
    assert "655"[..2] == "65" && DigitsValue("655") == 655;
    assert "6553"[..3] == "655" && DigitsValue("6553") == 6553;
    assert "65536"[..4] == "6553" && DigitsValue("65536") == 65536;
    assert "65535"[..4] == "6553" && DigitsValue("65535") == 65535;
  }
}
