/** The few `java.lang.String` and `Integer` operations the library relies on,
    stated over `string` (a sequence of chars).

    - `IsBlank(s)` is `s.trim().isEmpty()`: `trim` strips every char whose code
      is at most U+0020 from both ends, so the trimmed string is empty exactly
      when every char is such a char.
    - `Split(s, c)` is `s.split(c)` for a one-character, non-regex-special
      pattern and no limit: without an occurrence of `c` the result is `[s]`;
      otherwise it is every field between occurrences, with trailing empty
      fields removed.
    - `ParseInt(s)` is `Integer.parseInt(s)` for ASCII input: an optional sign,
      at least one decimal digit, and a value inside the 32-bit `int` range.
 */
module Text {
  import opened Results

  const IntMin: int := -0x8000_0000
  const IntMax: int := 0x7fff_ffff

  predicate IsBlank(s: string) {
    forall i :: 0 <= i < |s| ==> s[i] <= ' '
  }

  /** `String.trim()`: drop every char whose code is at most U+0020 from
      both ends. */
  function Trim(s: string): string {
    TrimEnd(TrimStart(s))
  }

  function TrimStart(s: string): string {
    if |s| > 0 && s[0] <= ' ' then TrimStart(s[1..]) else s
  }

  function TrimEnd(s: string): string {
    if |s| > 0 && s[|s| - 1] <= ' ' then TrimEnd(s[..|s| - 1]) else s
  }

  lemma {:induction false} TrimStartBlank(s: string)
    ensures TrimStart(s) == "" <==> IsBlank(s)
    ensures TrimStart(s) != "" ==> TrimStart(s)[0] > ' '
    decreases |s|
  {
    if |s| > 0 && s[0] <= ' ' {
      TrimStartBlank(s[1..]);
      assert forall i :: 1 <= i < |s| ==> s[i] == s[1..][i - 1];
    }
  }

  lemma {:induction false} TrimEndBlank(s: string)
    ensures TrimEnd(s) == "" <==> IsBlank(s)
    decreases |s|
  {
    if |s| > 0 && s[|s| - 1] <= ' ' {
      TrimEndBlank(s[..|s| - 1]);
      assert forall i :: 0 <= i < |s| - 1 ==> s[i] == s[..|s| - 1][i];
    }
  }

  /** `s.trim().isEmpty()` holds exactly when every char of `s` is at most
      U+0020, which is what `IsBlank` says. */
  lemma BlankIffTrimEmpty(s: string)
    ensures IsBlank(s) <==> Trim(s) == ""
  {
    TrimStartBlank(s);
    TrimEndBlank(TrimStart(s));
    if TrimStart(s) != "" {
      assert !IsBlank(TrimStart(s));
    }
  }

  // ---------------------------------------------------------------------
  // Splitting

  /** Every field between occurrences of `c`, empty fields included. */
  function Fields(s: string, c: char): (r: seq<string>)
    ensures |r| >= 1
    ensures forall i :: 0 <= i < |r| ==> c !in r[i]
  {
    if |s| == 0 then [""]
    else
      var rest := Fields(s[1..], c);
      if s[0] == c then [""] + rest
      else [[s[0]] + rest[0]] + rest[1..]
  }

  /** The fields glued back together with `c` between neighbours. */
  function Join(parts: seq<string>, c: char): string
    requires |parts| >= 1
  {
    if |parts| == 1 then parts[0] else parts[0] + [c] + Join(parts[1..], c)
  }

  function DropTrailingEmpty(fields: seq<string>): (r: seq<string>)
    ensures r <= fields
    ensures |r| > 0 ==> r[|r| - 1] != ""
    ensures forall i :: |r| <= i < |fields| ==> fields[i] == ""
  {
    if |fields| > 0 && fields[|fields| - 1] == "" then DropTrailingEmpty(fields[..|fields| - 1])
    else fields
  }

  function Split(s: string, c: char): seq<string>
  {
    if c !in s then [s] else DropTrailingEmpty(Fields(s, c))
  }

  /** What `split` yields: no field holds the separator; without a separator
      the whole string; otherwise every field between separators, only empty
      trailing ones dropped, so that the last one kept is not empty. */
  lemma SplitIsFields(s: string, c: char)
    ensures forall i :: 0 <= i < |Split(s, c)| ==> c !in Split(s, c)[i]
    ensures c !in s ==> Split(s, c) == [s]
    ensures c in s ==> Split(s, c) <= Fields(s, c) && (|Split(s, c)| > 0 ==> Split(s, c)[|Split(s, c)| - 1] != "") &&
                       forall i :: |Split(s, c)| <= i < |Fields(s, c)| ==> Fields(s, c)[i] == ""
  {
    if c in s {
      var f := Fields(s, c);
      var r := DropTrailingEmpty(f);
      assert Split(s, c) == r;
      assert forall i :: 0 <= i < |r| ==> r[i] == f[i];
    }
  }

  /** Splitting undoes joining when no field contains the separator. */
  lemma {:induction false} FieldsOfJoin(parts: seq<string>, c: char)
    requires |parts| >= 1
    requires forall i :: 0 <= i < |parts| ==> c !in parts[i]
    ensures Fields(Join(parts, c), c) == parts
    decreases |parts|
  {
    if |parts| == 1 {
      FieldsOfPlain(parts[0], [], c);
      assert parts[0] + [] == parts[0];
    } else {
      var tail := Join(parts[1..], c);
      FieldsOfJoin(parts[1..], c);
      var s := [c] + tail;
      assert s[0] == c && s[1..] == tail;
      assert Fields(s, c) == [""] + parts[1..];
      FieldsOfPlain(parts[0], s, c);
      assert parts[0] + [c] + tail == parts[0] + s;
      assert Fields(s, c)[0] == "" && Fields(s, c)[1..] == parts[1..];
      assert parts[0] + "" == parts[0];
      assert parts == [parts[0]] + parts[1..];
    }
  }

  /** A separator-free head is glued onto the first field of what follows. */
  lemma {:induction false} FieldsOfPlain(a: string, t: string, c: char)
    requires c !in a
    ensures Fields(a + t, c) == [a + Fields(t, c)[0]] + Fields(t, c)[1..]
    decreases |a|
  {
    if |a| > 0 {
      var s := a + t;
      assert s[0] == a[0] && s[1..] == a[1..] + t;
      FieldsOfPlain(a[1..], t, c);
      assert [a[0]] + (a[1..] + Fields(t, c)[0]) == a + Fields(t, c)[0];
    } else {
      var f := Fields(t, c);
      assert a + t == t && a + f[0] == f[0];
      assert f == [f[0]] + f[1..];
    }
  }

  /** Joining the fields of a string gives the string back. */
  lemma {:induction false} JoinOfFields(s: string, c: char)
    ensures Join(Fields(s, c), c) == s
    decreases |s|
  {
    if |s| > 0 {
      var rest := Fields(s[1..], c);
      JoinOfFields(s[1..], c);
      if s[0] == c {
        assert ([""] + rest)[1..] == rest;
      } else {
        var r := [[s[0]] + rest[0]] + rest[1..];
        if |rest| == 1 {
          assert s == [s[0]] + s[1..];
        } else {
          assert r[1..] == rest[1..];
          assert Join(rest, c) == rest[0] + [c] + Join(rest[1..], c);
          assert s == [s[0]] + s[1..];
        }
      }
    }
  }

  /** `split` gives back the fields of a joined string when none is empty
      and none contains the separator. */
  lemma SplitOfJoin(parts: seq<string>, c: char)
    requires |parts| >= 1
    requires forall i :: 0 <= i < |parts| ==> c !in parts[i] && parts[i] != ""
    ensures Split(Join(parts, c), c) == parts
  {
    FieldsOfJoin(parts, c);
    if |parts| > 1 {
      var s := Join(parts, c);
      assert s == parts[0] + [c] + Join(parts[1..], c);
      assert s[|parts[0]|] == c;
    }
  }

  /** A separator at the very end only adds an empty last field. */
  lemma {:induction false} FieldsSnoc(s: string, c: char)
    ensures Fields(s + [c], c) == Fields(s, c) + [""]
    decreases |s|
  {
    if |s| == 0 {
      assert Fields([c], c) == [""] + Fields([], c);
    } else {
      assert (s + [c])[1..] == s[1..] + [c];
      FieldsSnoc(s[1..], c);
    }
  }

  /** `split` ignores a separator at the end of a non-empty string: trailing
      empty fields are dropped. */
  lemma SplitSnoc(s: string, c: char)
    requires s != ""
    ensures Split(s + [c], c) == Split(s, c)
  {
    FieldsSnoc(s, c);
    var f := Fields(s, c);
    assert c in s + [c];
    assert (f + [""])[..|f|] == f;
    assert DropTrailingEmpty(f + [""]) == DropTrailingEmpty(f);
    if c !in s {
      FieldsOfPlain(s, [], c);
      assert s + [] == s && s + "" == s;
      assert f == [s];
      assert DropTrailingEmpty(f) == f;
    }
  }

  // ---------------------------------------------------------------------
  // Decimal numbers

  predicate IsDigit(ch: char) {
    '0' <= ch <= '9'
  }

  predicate AllDigits(s: string) {
    forall i :: 0 <= i < |s| ==> IsDigit(s[i])
  }

  /** The value of a string of decimal digits, most significant first. */
  function DigitsValue(ds: string): nat
    requires AllDigits(ds)
  {
    if |ds| == 0 then 0
    else 10 * DigitsValue(ds[..|ds| - 1]) + (ds[|ds| - 1] as int - '0' as int)
  }

  function ParseInt(s: string): (r: Option<int>)
    ensures r.Some? ==> IntMin <= r.value <= IntMax
  {
    if |s| == 0 then None
    else
      var signed := s[0] == '-' || s[0] == '+';
      var digits := if signed then s[1..] else s;
      if |digits| == 0 || !AllDigits(digits) then None
      else
        var v: int := if s[0] == '-' then -(DigitsValue(digits) as int) else DigitsValue(digits);
        if IntMin <= v <= IntMax then Some(v) else None
  }

  /** A leading zero does not change the value of a digit string. */
  lemma {:induction false} DigitsValueLeadingZero(ds: string)
    requires AllDigits(ds)
    ensures AllDigits("0" + ds) && DigitsValue("0" + ds) == DigitsValue(ds)
    decreases |ds|
  {
    var z := "0" + ds;
    assert forall i :: 1 <= i < |z| ==> z[i] == ds[i - 1];
    if |ds| > 0 {
      var init := ds[..|ds| - 1];
      DigitsValueLeadingZero(init);
      assert z[..|z| - 1] == "0" + init;
      assert z[|z| - 1] == ds[|ds| - 1];
    }
  }

  /** `Integer.parseInt` accepts leading zeros: "007" reads as 7. */
  lemma ParseIntLeadingZero(ds: string)
    requires ds != "" && AllDigits(ds)
    ensures ParseInt("0" + ds) == ParseInt(ds)
  {
    DigitsValueLeadingZero(ds);
    assert ("0" + ds)[0] == '0';
    assert IsDigit(ds[0]);
  }

  /** An explicit '+' changes nothing and a '-' negates: "+1" reads as 1,
      "-0" as 0, and "-5" as -5. */
  lemma ParseIntSign(ds: string)
    requires ds != "" && AllDigits(ds) && DigitsValue(ds) <= IntMax
    ensures ParseInt("+" + ds) == ParseInt(ds) == Some(DigitsValue(ds))
    ensures ParseInt("-" + ds) == Some(-(DigitsValue(ds) as int))
  {
    assert ("+" + ds)[1..] == ds;
    assert ("-" + ds)[1..] == ds;
    assert IsDigit(ds[0]);
  }

  /** The decimal digits of n, without sign or leading zeros. */
  function Decimal(n: nat): (s: string)
    ensures |s| >= 1 && AllDigits(s)
    ensures DigitsValue(s) == n
  {
    var last := ('0' as int + n % 10) as char;
    if n < 10 then [last]
    else
      var s := Decimal(n / 10) + [last];
      assert s[..|s| - 1] == Decimal(n / 10);
      s
  }

  /** `Integer.parseInt` reads back the decimal form of every `int` that is
      not negative. */
  lemma ParseDecimal(n: nat)
    requires n <= IntMax
    ensures ParseInt(Decimal(n)) == Some(n)
  {
    var s := Decimal(n);
    assert IsDigit(s[0]);
  }
}
