/** The string operations the pages call: lower-casing (ASCII only),
    `includes`, `split('.').pop()`, `parseInt` and the decimal rendering of
    a number inside a template string. */
module Text {
  import opened Basics

  /** `toLowerCase` restricted to ASCII letters. */
  function LowerChar(c: char): char
  {
    if 'A' <= c <= 'Z' then (c as int + 32) as char else c
  }

  function Lower(s: string): (r: string)
    ensures |r| == |s|
    ensures forall i :: 0 <= i < |s| ==> r[i] == LowerChar(s[i])
  {
    if s == [] then [] else [LowerChar(s[0])] + Lower(s[1..])
  }

  /** `q` occurs in `s` starting at index `i`. */
  predicate OccursAt(s: string, q: string, i: int)
  {
    0 <= i && i + |q| <= |s| && s[i..i + |q|] == q
  }

  /** `s.includes(q)`, scanning the start positions from left to right. */
  function Includes(s: string, q: string): (r: bool)
    ensures r <==> exists i :: OccursAt(s, q, i)
    decreases |s|
  {
    if |q| > |s| then false
    else if s[..|q|] == q then assert OccursAt(s, q, 0); true
    else
      var rest := Includes(s[1..], q);
      assert forall j :: OccursAt(s[1..], q, j) <==> OccursAt(s, q, j + 1) by {
        forall j ensures OccursAt(s[1..], q, j) <==> OccursAt(s, q, j + 1) {
          if 0 <= j && j + |q| <= |s| - 1 {
            assert s[1..][j..j + |q|] == s[j + 1..j + 1 + |q|];
          }
        }
      }
      assert !OccursAt(s, q, 0);
      assert forall i :: OccursAt(s, q, i) ==> OccursAt(s[1..], q, i - 1);
      rest
  }

  /** The empty string occurs in every string. */
  lemma IncludesEmpty(s: string)
    ensures Includes(s, "")
  {
    assert OccursAt(s, "", 0);
  }

  // ---------------------------------------------------------------------
  // `name.split('.')` and the last element that `.pop()` returns

  function Split(s: string, sep: char): (parts: seq<string>)
    ensures |parts| >= 1
    decreases |s|
  {
    if s == [] then [""]
    else
      var rest := Split(s[1..], sep);
      if s[0] == sep then [""] + rest
      else [[s[0]] + rest[0]] + rest[1..]
  }

  /** `parts.join(sep)`. */
  function Join(parts: seq<string>, sep: char): string
    requires |parts| >= 1
  {
    if |parts| == 1 then parts[0] else parts[0] + [sep] + Join(parts[1..], sep)
  }

  /** Splitting then joining gives back the string, and no piece holds the
      separator. */
  lemma {:induction false} SplitJoin(s: string, sep: char)
    ensures Join(Split(s, sep), sep) == s
    ensures forall k :: 0 <= k < |Split(s, sep)| ==> sep !in Split(s, sep)[k]
    decreases |s|
  {
    if s != [] {
      var rest := Split(s[1..], sep);
      SplitJoin(s[1..], sep);
      if s[0] == sep {
        assert ([""] + rest)[1..] == rest;
      } else {
        var parts := [[s[0]] + rest[0]] + rest[1..];
        assert parts[1..] == rest[1..];
        if |rest| > 1 {
          assert Join(rest, sep) == rest[0] + [sep] + Join(rest[1..], sep);
        }
        assert forall k :: 1 <= k < |parts| ==> parts[k] == rest[k];
      }
    }
  }

  /** `name.split('.').pop()`: the text after the last dot of the file name. */
  function Extension(name: string): string
  {
    var parts := Split(name, '.');
    parts[|parts| - 1]
  }

  /** The extension is the dot-free tail of the name that follows its last
      dot, and the whole name when the name has no dot. */
  lemma {:induction false} ExtensionIsLastSegment(name: string)
    ensures '.' !in Extension(name)
    ensures |Extension(name)| <= |name|
    ensures name[|name| - |Extension(name)|..] == Extension(name)
    ensures |Extension(name)| == |name| || name[|name| - |Extension(name)| - 1] == '.'
    ensures '.' !in name ==> Extension(name) == name
    decreases |name|
  {
    SplitJoin(name, '.');
    if name != [] {
      var t := name[1..];
      var rest := Split(t, '.');
      ExtensionIsLastSegment(t);
      SplitJoin(t, '.');
      if name[0] == '.' {
        assert Split(name, '.') == [""] + rest;
        assert Extension(name) == Extension(t);
      } else if |rest| == 1 {
        assert Join(rest, '.') == rest[0];
        assert Extension(name) == [name[0]] + t;
        assert [name[0]] + t == name;
      } else {
        assert Extension(name) == Extension(t);
        assert name == [name[0]] + t;
      }
    }
  }

  /** A name made of anything, a dot and a dot-free tail has that tail as
      its extension. */
  lemma ExtensionAfterDot(s: string, t: string)
    requires '.' !in t
    ensures Extension(s + "." + t) == t
  {
    var x := s + "." + t;
    var e := Extension(x);
    ExtensionIsLastSegment(x);
    assert x[|s|] == '.';
    assert |e| == |t|;
    assert x[|x| - |t|..] == t;
  }

  // ---------------------------------------------------------------------
  // Decimal numbers: `${Date.now()}` and `parseInt`

  predicate IsDigit(c: char)
  {
    '0' <= c <= '9'
  }

  predicate AllDigits(s: string)
  {
    forall i :: 0 <= i < |s| ==> IsDigit(s[i])
  }

  function DigitChar(d: nat): (c: char)
    requires d < 10
  {
    (d + '0' as int) as char
  }

  function DigitValue(c: char): nat
    requires IsDigit(c)
  {
    c as int - '0' as int
  }

  /** The decimal rendering of a natural number, without leading zeros. */
  function Decimal(n: nat): string
  {
    if n < 10 then [DigitChar(n)] else Decimal(n / 10) + [DigitChar(n % 10)]
  }

  /** The value of a string of decimal digits. */
  function DigitsValue(d: string): nat
    requires AllDigits(d)
  {
    if d == [] then 0 else DigitsValue(d[..|d| - 1]) * 10 + DigitValue(d[|d| - 1])
  }

  /** The longest prefix of `s` made of digits. */
  function LeadingDigits(s: string): (r: string)
    ensures |r| <= |s| && r == s[..|r|] && AllDigits(r)
    ensures |r| == |s| || !IsDigit(s[|r|])
  {
    if s == [] || !IsDigit(s[0]) then [] else [s[0]] + LeadingDigits(s[1..])
  }

  /** `parseInt(s)` in base ten: an optional sign, then the run of digits
      that follows; `None` stands for `NaN`, when that run is empty. */
  function ParseInt(s: string): (r: Option<int>)
    ensures r.None? <==>
      (if |s| > 0 && (s[0] == '-' || s[0] == '+') then |s| == 1 || !IsDigit(s[1])
       else s == [] || !IsDigit(s[0]))
  {
    var signed := |s| > 0 && (s[0] == '-' || s[0] == '+');
    var digits := LeadingDigits(if signed then s[1..] else s);
    var value: int := DigitsValue(digits);
    if digits == [] then None
    else if signed && s[0] == '-' then Some(-value)
    else Some(value)
  }

  lemma {:induction false} DecimalDigits(n: nat)
    ensures |Decimal(n)| >= 1 && AllDigits(Decimal(n))
    ensures DigitsValue(Decimal(n)) == n
  {
    if n >= 10 {
      DecimalDigits(n / 10);
      var d := Decimal(n);
      assert d[..|d| - 1] == Decimal(n / 10);
    }
  }

  lemma {:induction false} LeadingDigitsOfDigits(s: string)
    requires AllDigits(s)
    ensures LeadingDigits(s) == s
  {
    if s != [] {
      LeadingDigitsOfDigits(s[1..]);
    }
  }

  /** A string of digits parses to its value. */
  lemma ParseDigits(s: string)
    requires s != [] && AllDigits(s)
    ensures ParseInt(s) == Some(DigitsValue(s))
  {
    LeadingDigitsOfDigits(s);
  }

  /** `parseInt` reads back what the decimal rendering wrote, with or
      without a minus sign. */
  lemma DecimalRoundTrip(n: nat)
    ensures ParseInt(Decimal(n)) == Some(n)
    ensures ParseInt("-" + Decimal(n)) == Some(-(n as int))
  {
    DecimalDigits(n);
    ParseDigits(Decimal(n));
    LeadingDigitsOfDigits(Decimal(n));
    assert ("-" + Decimal(n))[1..] == Decimal(n);
  }

  /** `${prefix}${Date.now()}.${fileExt}`: the storage name of an uploaded
      file, from the clock reading and the chosen file's name. */
  function UploadName(prefix: string, millis: nat, fileName: string): string
  {
    prefix + Decimal(millis) + "." + Extension(fileName)
  }

  /** The uploaded object keeps the chosen file's extension, and its name
      is the prefix followed by the time stamp. */
  lemma UploadNameKeepsExtension(prefix: string, millis: nat, fileName: string)
    ensures Extension(UploadName(prefix, millis, fileName)) == Extension(fileName)
    ensures UploadName(prefix, millis, fileName)[..|prefix| + |Decimal(millis)|] == prefix + Decimal(millis)
  {
    ExtensionIsLastSegment(fileName);
    ExtensionAfterDot(prefix + Decimal(millis), Extension(fileName));
  }
}
