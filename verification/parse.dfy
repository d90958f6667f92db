/** Reading the site list: one "x, y" record per line (src/main.rs, read_points). */
module Parse {
  import opened Wrappers
  import opened Geometry

  /** The bounds of Rust's i64, which the parsed coordinates must fit. */
  const I64Min: int := -0x8000_0000_0000_0000
  const I64Max: int := 0x7fff_ffff_ffff_ffff

  /** The field separator passed to str::split. */
  const Sep: string := ", "

  predicate IsDigit(c: char) {
    '0' <= c <= '9'
  }

  predicate AllDigits(s: string) {
    forall i :: 0 <= i < |s| ==> IsDigit(s[i])
  }

  /** The value of a string of decimal digits, most significant first. */
  function DigitsValue(s: string): (n: nat)
    requires AllDigits(s)
  {
    if |s| == 0 then 0
    else DigitsValue(s[..|s| - 1]) * 10 + (s[|s| - 1] - '0') as int
  }

  /** A decimal numeral as str::parse::<i64> reads it: an optional '+' or
      '-' followed by at least one digit, and nothing else. */
  predicate IsNumeral(s: string) {
    || (|s| > 0 && AllDigits(s))
    || (|s| > 1 && (s[0] == '+' || s[0] == '-') && AllDigits(s[1..]))
  }

  /** Rust's str::parse::<i64>: a numeral whose value lies in the i64 range. */
  function ParseI64(s: string): (r: Option<int>)
    ensures r.Some? ==> IsNumeral(s) && I64Min <= r.value <= I64Max
    ensures r.Some? && IsDigit(s[0]) ==> AllDigits(s) && r.value == DigitsValue(s)
    ensures r.Some? && s[0] == '+' ==> AllDigits(s[1..]) && r.value == DigitsValue(s[1..])
    ensures r.Some? && s[0] == '-' ==> AllDigits(s[1..]) && r.value == -(DigitsValue(s[1..]) as int)
  {
    if |s| == 0 then None
    else
      var neg := s[0] == '-';
      var body := if s[0] == '-' || s[0] == '+' then s[1..] else s;
      if |body| == 0 || !AllDigits(body) then None
      else
        var v: int := if neg then -(DigitsValue(body) as int) else DigitsValue(body);
        if I64Min <= v <= I64Max then Some(v) else None
  }

  /** No occurrence of the separator ", " anywhere in s. */
  predicate SepFree(s: string) {
    forall t :: 0 <= t < |s| - 1 ==> !(s[t] == ',' && s[t + 1] == ' ')
  }

  /** str::split(", "): the pieces between left-to-right, non-overlapping
      occurrences of the separator; a line without one is a single piece.
      No piece holds the separator, and the first piece is a prefix of s. */
  function Fields(s: string): (r: seq<string>)
    ensures |r| >= 1
    ensures |r[0]| <= |s| && r[0] == s[..|r[0]|]
    ensures forall k :: 0 <= k < |r| ==> SepFree(r[k])
    decreases |s|
  {
    if |s| < 2 then [s]
    else if s[..2] == Sep then [""] + Fields(s[2..])
    else
      var rest := Fields(s[1..]);
      var first := [s[0]] + rest[0];
      assert SepFree(first) by {
        forall t | 0 <= t < |first| - 1 ensures !(first[t] == ',' && first[t + 1] == ' ') {
          if t > 0 {
            assert first[t] == rest[0][t - 1] && first[t + 1] == rest[0][t];
          } else {
            assert first[1] == s[1];
          }
        }
      }
      [first] + rest[1..]
  }

  /** Gluing the pieces back together with the separator. */
  function Join(fs: seq<string>): string
    requires |fs| >= 1
  {
    if |fs| == 1 then fs[0] else fs[0] + Sep + Join(fs[1..])
  }

  /** The per-line body of read_points: field 0 is x and field 1 is y, any
      later fields are ignored, and a missing field or a field that is not an
      i64 is a failure (a panic in the source). */
  function ParseLine(line: string): (r: Option<Point>)
    ensures r.Some? ==> I64Min <= r.value.x <= I64Max && I64Min <= r.value.y <= I64Max
  {
    var fs := Fields(line);
    if |fs| < 2 then None
    else
      var x := ParseI64(fs[0]);
      var y := ParseI64(fs[1]);
      if x.Some? && y.Some? then Some(Point(x.value, y.value)) else None
  }

  /** Applies a line parser to every line in order; the first failure fails the whole read. */
  function ParseAll<T>(parse: string -> Option<T>, lines: seq<string>): (r: Option<seq<T>>)
    ensures r.Some? <==> forall i :: 0 <= i < |lines| ==> parse(lines[i]).Some?
    ensures r.Some? ==> |r.value| == |lines|
    ensures r.Some? ==> forall i :: 0 <= i < |lines| ==> parse(lines[i]) == Some(r.value[i])
  {
    if |lines| == 0 then Some([])
    else
      var pre := lines[..|lines| - 1];
      assert forall i :: 0 <= i < |pre| ==> pre[i] == lines[i];
      var ps := ParseAll(parse, pre);
      var p := parse(lines[|lines| - 1]);
      if ps.None? || p.None? then None
      else
        var r := ps.value + [p.value];
        assert forall i :: 0 <= i < |pre| ==> r[i] == ps.value[i];
        Some(r)
  }

  /** read_points: one point per line, in line order; a line that does not
      parse fails the whole read. */
  function ReadPoints(lines: seq<string>): (r: Option<seq<Point>>)
    ensures r.Some? <==> forall i :: 0 <= i < |lines| ==> ParseLine(lines[i]).Some?
    ensures r.Some? ==> |r.value| == |lines|
    ensures r.Some? ==> forall i :: 0 <= i < |lines| ==> ParseLine(lines[i]) == Some(r.value[i])
  {
    ParseAll(ParseLine, lines)
  }

  // Rendering, the inverse of parsing.

  function DigitChar(d: nat): (c: char)
    requires d < 10
    ensures IsDigit(c) && (c - '0') as int == d
  {
    '0' + d as char
  }

  /** The decimal digits of n, without leading zeros. */
  function ShowNat(n: nat): (s: string)
    ensures |s| > 0 && AllDigits(s)
  {
    if n < 10 then [DigitChar(n)] else ShowNat(n / 10) + [DigitChar(n % 10)]
  }

  /** The decimal text of n, with a '-' when n is negative. */
  function ShowInt(n: int): (s: string)
    ensures |s| > 0
  {
    if n < 0 then "-" + ShowNat(-n) else ShowNat(n)
  }

  lemma {:induction false} DigitsOfShowNat(n: nat)
    ensures DigitsValue(ShowNat(n)) == n
  {
    if n >= 10 {
      var s := ShowNat(n);
      assert s[..|s| - 1] == ShowNat(n / 10);
      DigitsOfShowNat(n / 10);
    }
  }

  /** Every i64 survives rendering and re-parsing. */
  lemma ParseShowInt(n: int)
    requires I64Min <= n <= I64Max
    ensures ParseI64(ShowInt(n)) == Some(n)
  {
    var s := ShowInt(n);
    if n < 0 {
      assert s[1..] == ShowNat(-n);
      DigitsOfShowNat(-n);
    } else {
      DigitsOfShowNat(n);
    }
  }

  lemma ShowIntHasNoComma(n: int)
    ensures ',' !in ShowInt(n)
    ensures SepFree(ShowInt(n))
  {
    var d := ShowNat(if n < 0 then -n else n);
    assert forall i :: 0 <= i < |d| ==> IsDigit(d[i]);
  }

  /** Every numeral in the i64 range is accepted with its signed value, and
      every numeral outside it is rejected: leading zeros and a '+' sign are
      allowed, as str::parse::<i64> allows them. */
  lemma ParseI64Numeral(sign: string, digits: string)
    requires sign == "" || sign == "+" || sign == "-"
    requires |digits| > 0 && AllDigits(digits)
    ensures var v := if sign == "-" then -(DigitsValue(digits) as int) else DigitsValue(digits);
      ParseI64(sign + digits) == if I64Min <= v <= I64Max then Some(v) else None
  {
    var s := sign + digits;
    if sign == "" {
      assert s == digits && IsDigit(s[0]);
    } else {
      assert s[0] == sign[0] && s[1..] == digits;
    }
  }

  /** A bare sign is not a numeral. */
  lemma BareSignFails()
    ensures ParseI64("-") == None && ParseI64("+") == None
  {
  }

  /** A leading '+' and leading zeros are accepted. */
  lemma PlusAndZerosParse()
    ensures ParseI64("+5") == Some(5)
    ensures ParseI64("007") == Some(7)
  {
    ParseI64Numeral("+", "5");
    ParseI64Numeral("", "007");
    assert "007"[..2] == "00" && "00"[..1] == "0";
  }

  /** A piece free of commas ends at the first separator after it. */
  lemma {:induction false} FieldsAfterCommaFree(a: string, rest: string)
    requires ',' !in a
    ensures Fields(a + Sep + rest) == [a] + Fields(rest)
    decreases |a|
  {
    var s := a + Sep + rest;
    if |a| == 0 {
      assert s[..2] == Sep;
      assert s[2..] == rest;
    } else {
      assert s[..2] != Sep by { assert s[0] == a[0] != ','; }
      assert s[1..] == a[1..] + Sep + rest;
      FieldsAfterCommaFree(a[1..], rest);
      assert [s[0]] + a[1..] == a;
    }
  }

  /** A string holding no separator is a single piece. */
  lemma {:induction false} FieldsOfSepFree(a: string)
    requires SepFree(a)
    ensures Fields(a) == [a]
    decreases |a|
  {
    if |a| >= 2 {
      assert a[..2] != Sep by { assert !(a[0] == ',' && a[1] == ' '); }
      assert SepFree(a[1..]) by {
        forall t | 0 <= t < |a[1..]| - 1 ensures !(a[1..][t] == ',' && a[1..][t + 1] == ' ') {
          assert a[1..][t] == a[t + 1] && a[1..][t + 1] == a[t + 2];
        }
      }
      FieldsOfSepFree(a[1..]);
      assert [a[0]] + a[1..] == a;
    }
  }

  /** Prepending text to the first piece prepends it to the joined text. */
  lemma JoinPrepend(x: string, fs: seq<string>, gs: seq<string>)
    requires |fs| >= 1 && |gs| == |fs|
    requires gs[0] == x + fs[0] && gs[1..] == fs[1..]
    ensures Join(gs) == x + Join(fs)
  {
    if |fs| > 1 {
      var tail := Join(fs[1..]);
      assert (x + fs[0]) + Sep + tail == x + (fs[0] + Sep + tail);
    }
  }

  /** Splitting a line and joining the pieces gives the line back. */
  lemma {:induction false} JoinFields(s: string)
    ensures Join(Fields(s)) == s
    decreases |s|
  {
    if |s| >= 2 {
      if s[..2] == Sep {
        JoinFields(s[2..]);
        assert s == s[..2] + s[2..];
      } else {
        JoinFields(s[1..]);
        var rest := Fields(s[1..]);
        var fs := [[s[0]] + rest[0]] + rest[1..];
        assert fs[1..] == rest[1..];
        JoinPrepend([s[0]], rest, fs);
        assert s == [s[0]] + s[1..];
      }
    }
  }

  /** "x, y" for two i64 values parses to Point(x, y). */
  lemma ParseLineRoundTrip(x: int, y: int)
    requires I64Min <= x <= I64Max && I64Min <= y <= I64Max
    ensures ParseLine(ShowInt(x) + Sep + ShowInt(y)) == Some(Point(x, y))
  {
    ShowIntHasNoComma(x);
    ShowIntHasNoComma(y);
    FieldsAfterCommaFree(ShowInt(x), ShowInt(y));
    FieldsOfSepFree(ShowInt(y));
    ParseShowInt(x);
    ParseShowInt(y);
  }

  /** Fields after the second are ignored, whatever they hold. */
  lemma ParseLineIgnoresExtraFields(x: int, y: int, rest: string)
    requires I64Min <= x <= I64Max && I64Min <= y <= I64Max
    ensures ParseLine(ShowInt(x) + Sep + ShowInt(y) + Sep + rest) == Some(Point(x, y))
  {
    ShowIntHasNoComma(x);
    ShowIntHasNoComma(y);
    assert ShowInt(x) + Sep + ShowInt(y) + Sep + rest == ShowInt(x) + Sep + (ShowInt(y) + Sep + rest);
    FieldsAfterCommaFree(ShowInt(x), ShowInt(y) + Sep + rest);
    FieldsAfterCommaFree(ShowInt(y), rest);
    ParseShowInt(x);
    ParseShowInt(y);
  }

  /** A line with no ", " anywhere, such as "1,2" or "1 ,2", has no field 1,
      so it is rejected. */
  lemma MissingSeparatorFails(line: string)
    requires SepFree(line)
    ensures ParseLine(line) == None
  {
    FieldsOfSepFree(line);
  }

  /** A line whose field 0 or field 1 is not a numeral, such as "5, x" or
      "1x, 2", is rejected. */
  lemma NonNumericFails(line: string)
    requires |Fields(line)| >= 2
    requires !IsNumeral(Fields(line)[0]) || !IsNumeral(Fields(line)[1])
    ensures ParseLine(line) == None
  {
  }

}
