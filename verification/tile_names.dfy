/** Tile names "srtm_LL_BB" and the (lon_id, lat_id) pairs they stand for.
    lon_id runs 1..72 from -180 to 180 and lat_id 1..24 from 60 to -60, in
    steps of 5 degrees; the conversion itself works on any integers. */
module TileNames {
  import opened Outcomes

  // ---------------------------------------------------------------------
  // Decimal digits
  // ---------------------------------------------------------------------

  predicate IsDigit(c: char) { '0' <= c <= '9' }

  predicate AllDigits(s: string) { forall k :: 0 <= k < |s| ==> IsDigit(s[k]) }

  function DigitChar(d: nat): (c: char)
    requires d < 10
    ensures IsDigit(c)
  {
    (('0' as int) + d) as char
  }

  function DigitValue(c: char): (d: nat)
    requires IsDigit(c)
    ensures d < 10 && DigitChar(d) == c
  {
    (c as int) - ('0' as int)
  }

  /** The decimal representation of n, most significant digit first. */
  function Digits(n: nat): (s: string)
    ensures 1 <= |s| && AllDigits(s)
    ensures '_' !in s && '-' !in s && '+' !in s
    ensures |s| == 1 <==> n < 10
  {
    if n < 10 then [DigitChar(n)] else Digits(n / 10) + [DigitChar(n % 10)]
  }

  /** The number a string of decimal digits denotes (leading zeros allowed). */
  function ValueOf(s: string): nat
    requires AllDigits(s)
  {
    if |s| == 0 then 0 else ValueOf(s[..|s| - 1]) * 10 + DigitValue(s[|s| - 1])
  }

  lemma {:induction false} ValueOfDigits(n: nat)
    ensures ValueOf(Digits(n)) == n
  {
    if n >= 10 {
      var s := Digits(n);
      assert s[..|s| - 1] == Digits(n / 10);
      ValueOfDigits(n / 10);
    }
  }

  lemma {:induction false} ValueOfLeadingZero(s: string)
    requires AllDigits(s)
    ensures AllDigits("0" + s) && ValueOf("0" + s) == ValueOf(s)
  {
    var z := "0" + s;
    if |s| > 0 {
      assert z[..|z| - 1] == "0" + s[..|s| - 1];
      ValueOfLeadingZero(s[..|s| - 1]);
    } else {
      assert z[..|z| - 1] == [];
    }
  }

  // ---------------------------------------------------------------------
  // Python's '{:02d}'.format(n) and int(text)
  // ---------------------------------------------------------------------

  /** '{:02d}'.format(n): at least two characters, zero-padded after the sign.
      A negative number already has two characters, so it is never padded. */
  function Format02(n: int): (s: string)
    ensures |s| >= 2 && '_' !in s
  {
    if n < 0 then "-" + Digits(-n)
    else if n < 10 then "0" + Digits(n)
    else Digits(n)
  }

  /** The literals int() accepts, restricted to an optional sign followed by
      ASCII digits. */
  predicate IsIntLiteral(s: string)
  {
    || (|s| >= 2 && (s[0] == '-' || s[0] == '+') && AllDigits(s[1..]))
    || (|s| >= 1 && AllDigits(s))
  }

  function ParseInt(s: string): (r: Result<int>)
    ensures r.Ok? <==> IsIntLiteral(s)
    ensures r.Err? ==> r.error == BadLiteral(s)
  {
    if |s| >= 2 && (s[0] == '-' || s[0] == '+') && AllDigits(s[1..]) then
      var magnitude: int := ValueOf(s[1..]);
      Ok(if s[0] == '-' then -magnitude else magnitude)
    else if |s| >= 1 && AllDigits(s) then
      Ok(ValueOf(s))
    else
      Err(BadLiteral(s))
  }

  lemma {:induction false} ParseFormat02(n: int)
    ensures ParseInt(Format02(n)) == Ok(n)
  {
    var s := Format02(n);
    if n < 0 {
      assert s[1..] == Digits(-n);
      ValueOfDigits(-n);
    } else if n < 10 {
      ValueOfLeadingZero(Digits(n));
      ValueOfDigits(n);
    } else {
      ValueOfDigits(n);
    }
  }

  lemma TwoDigitValue(dd: string)
    requires |dd| == 2 && AllDigits(dd)
    ensures ValueOf(dd) == DigitValue(dd[0]) * 10 + DigitValue(dd[1])
  {
    var first := dd[..1];
    assert first[..0] == [] && first[0] == dd[0];
    assert ValueOf(first) == ValueOf(first[..0]) * 10 + DigitValue(dd[0]);
    assert ValueOf(dd) == ValueOf(first) * 10 + DigitValue(dd[1]);
  }

  lemma DigitsOfTwoDigitNumber(hi: nat, lo: nat)
    requires 1 <= hi < 10 && lo < 10
    ensures Digits(hi * 10 + lo) == [DigitChar(hi), DigitChar(lo)]
  {
    var v := hi * 10 + lo;
    var q, r := v / 10, v % 10;
    assert v == 10 * q + r && 0 <= r < 10;
    assert q == hi && r == lo;
    assert Digits(v) == Digits(hi) + [DigitChar(lo)];
    assert Digits(hi) == [DigitChar(hi)];
  }

  /** Every two-digit string is what '{:02d}' prints for its value. */
  lemma TwoDigitsCanonical(dd: string)
    requires |dd| == 2 && AllDigits(dd)
    ensures ValueOf(dd) < 100 && Format02(ValueOf(dd)) == dd
  {
    var hi, lo := DigitValue(dd[0]), DigitValue(dd[1]);
    TwoDigitValue(dd);
    if hi == 0 {
      assert Format02(ValueOf(dd)) == "0" + [DigitChar(lo)];
    } else {
      DigitsOfTwoDigitNumber(hi, lo);
    }
  }

  // ---------------------------------------------------------------------
  // str.split
  // ---------------------------------------------------------------------

  /** s.split(sep) for a one-character separator: the maximal sep-free pieces. */
  function Split(s: string, sep: char): (parts: seq<string>)
    ensures |parts| >= 1
    ensures forall k :: 0 <= k < |parts| ==> sep !in parts[k]
  {
    if |s| == 0 then [""]
    else
      var rest := Split(s[1..], sep);
      if s[0] == sep then [""] + rest else [[s[0]] + rest[0]] + rest[1..]
  }

  /** sep.join(parts), the inverse of Split. */
  function Join(parts: seq<string>, sep: char): string
    requires |parts| >= 1
  {
    if |parts| == 1 then parts[0] else parts[0] + [sep] + Join(parts[1..], sep)
  }

  lemma {:induction false} JoinSplit(s: string, sep: char)
    ensures Join(Split(s, sep), sep) == s
  {
    if |s| > 0 {
      JoinSplit(s[1..], sep);
      var rest := Split(s[1..], sep);
      if s[0] != sep && |rest| > 1 {
        assert ([[s[0]] + rest[0]] + rest[1..])[1..] == rest[1..];
      }
    }
  }

  lemma {:induction false} SplitAtFirstSep(a: string, b: string, sep: char)
    requires sep !in a
    ensures Split(a + [sep] + b, sep) == [a] + Split(b, sep)
  {
    var s := a + [sep] + b;
    if |a| == 0 {
      assert s[1..] == b;
    } else {
      assert s[1..] == a[1..] + [sep] + b;
      SplitAtFirstSep(a[1..], b, sep);
      assert [a[0]] + a[1..] == a;
    }
  }

  lemma {:induction false} SplitWithoutSep(a: string, sep: char)
    requires sep !in a
    ensures Split(a, sep) == [a]
  {
    if |a| > 0 {
      assert a[1..] + [] == a[1..];
      SplitWithoutSep(a[1..], sep);
      assert [a[0]] + a[1..] == a;
    }
  }

  // ---------------------------------------------------------------------
  // name2id / id2name
  // ---------------------------------------------------------------------

  /** id2name: "srtm_%02d_%02d". */
  function Id2Name(lonId: int, latId: int): (name: string)
    ensures |name| == 6 + |Format02(lonId)| + |Format02(latId)| >= 10 && name[..5] == "srtm_"
    ensures name[5 + |Format02(lonId)|] == '_' && '_' !in name[5..5 + |Format02(lonId)|]
  {
    "srtm_" + Format02(lonId) + "_" + Format02(latId)
  }

  /** name2id: the integers in the second and third '_'-separated fields.
      The first field is not checked and fields after the third are ignored. */
  function Name2Id(name: string): (r: Result<(int, int)>)
    ensures var parts := Split(name, '_');
      r.Ok? <==> |parts| >= 3 && IsIntLiteral(parts[1]) && IsIntLiteral(parts[2])
    ensures var parts := Split(name, '_');
      r.Ok? ==> ParseInt(parts[1]) == Ok(r.value.0) && ParseInt(parts[2]) == Ok(r.value.1)
    ensures r.Err? ==> r.error == MissingField || r.error.BadLiteral?
  {
    var parts := Split(name, '_');
    if |parts| < 2 then Err(MissingField)
    else
      var lonId :- ParseInt(parts[1]);
      if |parts| < 3 then Err(MissingField)
      else
        var latId :- ParseInt(parts[2]);
        Ok((lonId, latId))
  }

  lemma SplitId2Name(lonId: int, latId: int)
    ensures Split(Id2Name(lonId, latId), '_') == ["srtm", Format02(lonId), Format02(latId)]
  {
    var lon, lat := Format02(lonId), Format02(latId);
    assert Id2Name(lonId, latId) == "srtm" + ['_'] + (lon + ['_'] + lat);
    SplitAtFirstSep("srtm", lon + ['_'] + lat, '_');
    SplitAtFirstSep(lon, lat, '_');
    SplitWithoutSep(lat, '_');
  }

  /** Tile-id round trip, for every pair of integers (so in particular for
      lon_id in 1..72 and lat_id in 1..24). */
  lemma NameRoundTrip(lonId: int, latId: int)
    ensures Name2Id(Id2Name(lonId, latId)) == Ok((lonId, latId))
  {
    SplitId2Name(lonId, latId);
    ParseFormat02(lonId);
    ParseFormat02(latId);
  }

  /** Distinct tile ids get distinct names. */
  lemma Id2NameInjective(lon1: int, lat1: int, lon2: int, lat2: int)
    requires Id2Name(lon1, lat1) == Id2Name(lon2, lat2)
    ensures lon1 == lon2 && lat1 == lat2
  {
    NameRoundTrip(lon1, lat1);
    NameRoundTrip(lon2, lat2);
  }

  /** Ids below 100 give a ten-character name: "srtm_", two digits, '_', two digits. */
  lemma CanonicalNameShape(lonId: int, latId: int)
    requires 0 <= lonId < 100 && 0 <= latId < 100
    ensures var name := Id2Name(lonId, latId);
      && |name| == 10 && name[..5] == "srtm_" && name[7] == '_'
      && AllDigits(name[5..7]) && AllDigits(name[8..])
      && ValueOf(name[5..7]) == lonId && ValueOf(name[8..]) == latId
  {
    var name := Id2Name(lonId, latId);
    var lon, lat := Format02(lonId), Format02(latId);
    assert |lon| == 2 && |lat| == 2;
    assert name == "srtm_" + lon + "_" + lat;
    assert name[5..7] == lon && name[8..] == lat;
    ParseFormat02(lonId);
    ParseFormat02(latId);
  }

  /** The other direction: a name of the canonical shape is the id2name of
      what name2id reads from it. */
  lemma CanonicalNameRoundTrip(name: string)
    requires |name| == 10 && name[..5] == "srtm_" && name[7] == '_'
    requires AllDigits(name[5..7]) && AllDigits(name[8..])
    ensures Name2Id(name).Ok?
    ensures Id2Name(Name2Id(name).value.0, Name2Id(name).value.1) == name
  {
    var lon, lat := name[5..7], name[8..];
    TwoDigitsCanonical(lon);
    TwoDigitsCanonical(lat);
    assert name == Id2Name(ValueOf(lon), ValueOf(lat));
    NameRoundTrip(ValueOf(lon), ValueOf(lat));
  }
}
