/** The parts of Go's `strings` and `strconv` packages the adapters rely on,
    over strings as sequences of characters. Separators are single characters
    everywhere the program uses them (`,`, `.`, `/`, `=`, `_`). */
module Strings {
  import opened Base

  /** Number of occurrences of `c` in `s`. */
  function Count(s: string, c: char): nat
  {
    if |s| == 0 then 0 else (if s[0] == c then 1 else 0) + Count(s[1..], c)
  }

  /** `strings.Split(s, sep)`: the maximal pieces of `s` between separators.
      The empty string splits into one empty piece. */
  function Split(s: string, sep: char): (parts: seq<string>)
    ensures |parts| == Count(s, sep) + 1
    ensures forall i :: 0 <= i < |parts| ==> sep !in parts[i]
  {
    if |s| == 0 then [""]
    else
      var rest := Split(s[1..], sep);
      if s[0] == sep then [""] + rest
      else [[s[0]] + rest[0]] + rest[1..]
  }

  /** `strings.Join(parts, sep)`. */
  function Join(parts: seq<string>, sep: char): string
  {
    if |parts| == 0 then ""
    else if |parts| == 1 then parts[0]
    else parts[0] + [sep] + Join(parts[1..], sep)
  }

  /** Total number of characters in `parts`. */
  function TotalLength(parts: seq<string>): nat
  {
    if |parts| == 0 then 0 else |parts[0]| + TotalLength(parts[1..])
  }

  lemma {:induction false} TotalLengthConcat(xs: seq<string>, ys: seq<string>)
    ensures TotalLength(xs + ys) == TotalLength(xs) + TotalLength(ys)
  {
    if |xs| == 0 {
      assert xs + ys == ys;
    } else {
      assert (xs + ys)[1..] == xs[1..] + ys;
      TotalLengthConcat(xs[1..], ys);
    }
  }

  /** A join is as long as its pieces plus one separator between each pair. */
  lemma {:induction false} JoinLength(parts: seq<string>, sep: char)
    requires |parts| >= 1
    ensures |Join(parts, sep)| == TotalLength(parts) + |parts| - 1
  {
    if |parts| > 1 {
      JoinLength(parts[1..], sep);
    }
  }

  /** Joining the pieces of a split gives back the original string. */
  lemma {:induction false} JoinSplit(s: string, sep: char)
    ensures Join(Split(s, sep), sep) == s
  {
    if |s| > 0 {
      var rest := Split(s[1..], sep);
      JoinSplit(s[1..], sep);
      if s[0] == sep {
        assert Split(s, sep) == [""] + rest;
        assert ([""] + rest)[1..] == rest;
      } else {
        var parts := [[s[0]] + rest[0]] + rest[1..];
        assert Split(s, sep) == parts;
        if |rest| == 1 {
          assert Join(parts, sep) == [s[0]] + rest[0];
        } else {
          assert parts[1..] == rest[1..];
          assert Join(rest, sep) == rest[0] + [sep] + Join(rest[1..], sep);
          assert Join(parts, sep) == [s[0]] + Join(rest, sep);
        }
        assert s == [s[0]] + s[1..];
      }
    }
  }

  /** A string without the separator is a single piece. */
  lemma {:induction false} SplitWithoutSeparator(s: string, sep: char)
    requires sep !in s
    ensures Split(s, sep) == [s]
  {
    if |s| > 0 {
      assert sep !in s[1..];
      SplitWithoutSeparator(s[1..], sep);
      assert s == [s[0]] + s[1..];
    }
  }

  /** The pieces of a split hold only characters of the input. */
  lemma {:induction false} SplitPiecesWithout(s: string, sep: char, c: char)
    requires c !in s
    ensures forall i :: 0 <= i < |Split(s, sep)| ==> c !in Split(s, sep)[i]
  {
    if |s| > 0 {
      assert c !in s[1..];
      SplitPiecesWithout(s[1..], sep, c);
    }
  }

  /** Splitting at a separator between `a` and `b` splits each side on its own. */
  lemma {:induction false} SplitConcat(a: string, b: string, sep: char)
    ensures Split(a + [sep] + b, sep) == Split(a, sep) + Split(b, sep)
  {
    var s := a + [sep] + b;
    if |a| == 0 {
      assert s[1..] == b;
    } else {
      assert s[1..] == a[1..] + [sep] + b;
      SplitConcat(a[1..], b, sep);
      var ra := Split(a[1..], sep);
      var rest := Split(s[1..], sep);
      assert rest == ra + Split(b, sep);
      if a[0] != sep {
        assert rest[0] == ra[0];
        assert rest[1..] == ra[1..] + Split(b, sep);
      }
    }
  }

  /** Splitting a join of separator-free pieces recovers the pieces. */
  lemma {:induction false} SplitJoin(parts: seq<string>, sep: char)
    requires |parts| >= 1
    requires forall i :: 0 <= i < |parts| ==> sep !in parts[i]
    ensures Split(Join(parts, sep), sep) == parts
  {
    if |parts| == 1 {
      SplitWithoutSeparator(parts[0], sep);
    } else {
      SplitJoin(parts[1..], sep);
      SplitWithoutSeparator(parts[0], sep);
      SplitConcat(parts[0], Join(parts[1..], sep), sep);
      assert parts == [parts[0]] + parts[1..];
    }
  }

  /** Joining two non-empty lists puts one separator between their joins. */
  lemma {:induction false} JoinConcat(xs: seq<string>, ys: seq<string>, sep: char)
    requires |xs| >= 1 && |ys| >= 1
    ensures Join(xs + ys, sep) == Join(xs, sep) + [sep] + Join(ys, sep)
  {
    if |xs| > 1 {
      JoinConcat(xs[1..], ys, sep);
      assert (xs + ys)[1..] == xs[1..] + ys;
    } else {
      assert (xs + ys)[1..] == ys;
    }
  }

  /** The first piece of a join is a prefix of it, so a join starting with a
      non-empty piece is non-empty. */
  lemma JoinStartsWithFirst(parts: seq<string>, sep: char)
    requires |parts| >= 1
    ensures parts[0] <= Join(parts, sep)
  {
  }

  /** `strings.SplitN(s, sep, 2)`: the text before the first separator and,
      when there is a separator, the text after it. */
  function Cut(s: string, sep: char): (r: (string, Option<string>))
    ensures r.1.None? <==> sep !in s
    ensures r.1.None? ==> r.0 == s
    ensures r.1.Some? ==> s == r.0 + [sep] + r.1.value && sep !in r.0
  {
    if |s| == 0 then (s, None)
    else if s[0] == sep then ("", Some(s[1..]))
    else
      var (before, after) := Cut(s[1..], sep);
      ([s[0]] + before, after)
  }

  /** Cutting at the first separator of `a + [sep] + b` gives `a` and `b`. */
  lemma {:induction false} CutAtFirst(a: string, b: string, sep: char)
    requires sep !in a
    ensures Cut(a + [sep] + b, sep) == (a, Some(b))
  {
    var s := a + [sep] + b;
    if |a| == 0 {
      assert s[1..] == b;
    } else {
      assert s[1..] == a[1..] + [sep] + b;
      CutAtFirst(a[1..], b, sep);
      assert a == [a[0]] + a[1..];
    }
  }

  /** The sequence without its empty strings, order kept. */
  function NonEmpty(xs: seq<string>): (r: seq<string>)
    ensures |r| <= |xs|
    ensures forall i :: 0 <= i < |r| ==> r[i] != "" && r[i] in xs
  {
    if |xs| == 0 then []
    else if xs[0] == "" then NonEmpty(xs[1..])
    else [xs[0]] + NonEmpty(xs[1..])
  }

  /** A list without empty strings is kept whole. */
  lemma {:induction false} NonEmptyKeepsAll(xs: seq<string>)
    requires forall i :: 0 <= i < |xs| ==> xs[i] != ""
    ensures NonEmpty(xs) == xs
  {
    if |xs| > 0 {
      NonEmptyKeepsAll(xs[1..]);
    }
  }

  /** Joining a piece in front of a non-empty list adds one separator. */
  lemma JoinCons(x: string, rest: seq<string>, sep: char)
    requires |rest| >= 1
    ensures Join([x] + rest, sep) == x + [sep] + Join(rest, sep)
  {
    assert ([x] + rest)[1..] == rest;
  }

  /** `xs` in reverse order. */
  function Reverse<T>(xs: seq<T>): (r: seq<T>)
    ensures |r| == |xs|
    ensures forall i :: 0 <= i < |xs| ==> r[i] == xs[|xs| - 1 - i]
  {
    if |xs| == 0 then [] else Reverse(xs[1..]) + [xs[0]]
  }

  /** Reversing keeps every character. */
  lemma {:induction false} TotalLengthReverse(xs: seq<string>)
    ensures TotalLength(Reverse(xs)) == TotalLength(xs)
  {
    if |xs| > 0 {
      TotalLengthReverse(xs[1..]);
      TotalLengthConcat(Reverse(xs[1..]), [xs[0]]);
      assert TotalLength([xs[0]]) == |xs[0]| + TotalLength([xs[0]][1..]);
    }
  }

  /** Reversing twice is the identity. */
  lemma ReverseReverse<T>(xs: seq<T>)
    ensures Reverse(Reverse(xs)) == xs
  {
  }

  /** `unicode.ToLower` on the ASCII range. */
  function LowerChar(c: char): char
  {
    if 'A' <= c <= 'Z' then (c as int + 32) as char else c
  }

  /** No ASCII upper-case letter. */
  predicate NoUpper(s: string)
  {
    forall i :: 0 <= i < |s| ==> !('A' <= s[i] <= 'Z')
  }

  /** `strings.ToLower`, character by character. */
  function ToLower(s: string): (r: string)
    ensures |r| == |s| && NoUpper(r)
  {
    seq(|s|, i requires 0 <= i < |s| => LowerChar(s[i]))
  }

  /** Lower-casing commutes with concatenation. */
  lemma ToLowerConcat(a: string, b: string)
    ensures ToLower(a + b) == ToLower(a) + ToLower(b)
  {
    assert forall i :: 0 <= i < |a + b| ==> ToLower(a + b)[i] == (ToLower(a) + ToLower(b))[i];
  }

  /** Lower-casing does not move a separator that is not a letter. */
  lemma CutToLower(s: string, sep: char)
    requires !('A' <= sep <= 'Z') && !('a' <= sep <= 'z')
    ensures Cut(ToLower(s), sep).0 == ToLower(Cut(s, sep).0)
    ensures Cut(ToLower(s), sep).1.None? <==> Cut(s, sep).1.None?
    ensures Cut(s, sep).1.Some? ==> Cut(ToLower(s), sep).1 == Some(ToLower(Cut(s, sep).1.value))
  {
    var (a, b) := Cut(s, sep);
    if b.Some? {
      ToLowerConcat(a + [sep], b.value);
      ToLowerConcat(a, [sep]);
      assert ToLower([sep]) == [sep];
      assert ToLower(s) == ToLower(a) + [sep] + ToLower(b.value);
      CutAtFirst(ToLower(a), ToLower(b.value), sep);
    } else {
      assert sep !in ToLower(s);
    }
  }

  predicate IsDigit(c: char)
  {
    '0' <= c <= '9'
  }

  predicate AllDigits(s: string)
  {
    forall i :: 0 <= i < |s| ==> IsDigit(s[i])
  }

  /** A string without upper-case letters is its own lower-case form. */
  lemma ToLowerFixesDigits(s: string)
    requires forall i :: 0 <= i < |s| ==> !('A' <= s[i] <= 'Z')
    ensures ToLower(s) == s
  {
  }

  /** The value of a string of decimal digits. */
  function DigitsValue(s: string): nat
    requires AllDigits(s)
  {
    if |s| == 0 then 0
    else DigitsValue(s[..|s| - 1]) * 10 + (s[|s| - 1] as int - '0' as int)
  }

  /** `strconv.Atoi`: an optional sign followed by one or more decimal digits.
      Go also rejects values outside 64 bits; that range check is not modelled. */
  function Atoi(s: string): (r: Option<int>)
    ensures r.Some? ==> |s| >= 1 && (IsDigit(s[0]) || s[0] == '+' || s[0] == '-')
    ensures r.Some? ==> forall i :: 1 <= i < |s| ==> IsDigit(s[i])
  {
    if |s| >= 2 && s[0] == '-' && AllDigits(s[1..]) then Some(0 - DigitsValue(s[1..]) as int)
    else if |s| >= 2 && s[0] == '+' && AllDigits(s[1..]) then Some(DigitsValue(s[1..]))
    else if |s| >= 1 && AllDigits(s) then Some(DigitsValue(s))
    else None
  }

  function DigitChar(d: nat): (c: char)
    requires d < 10
    ensures IsDigit(c) && c as int - '0' as int == d
  {
    ('0' as int + d) as char
  }

  /** Decimal digits without padding: one or more digits, the first of them
      `0` only when it is the only one. */
  predicate Unpadded(d: string)
  {
    |d| >= 1 && AllDigits(d) && (d[0] == '0' ==> |d| == 1)
  }

  /** The text `%d` prints: unpadded digits, or a minus sign followed by
      unpadded digits that are not `0`. */
  predicate Decimal(s: string)
  {
    Unpadded(s) || (|s| >= 2 && s[0] == '-' && Unpadded(s[1..]) && s[1] != '0')
  }

  /** Decimal digits of a natural number, most significant first, no leading zeros. */
  function FormatNat(n: nat): (r: string)
    ensures Unpadded(r)
    ensures r[0] == '0' <==> n == 0
  {
    if n < 10 then [DigitChar(n)] else FormatNat(n / 10) + [DigitChar(n % 10)]
  }

  /** `fmt`'s `%d`: a minus sign for negative values, then the digits. */
  function FormatInt(n: int): (r: string)
    ensures Decimal(r)
    ensures r[0] == '-' <==> n < 0
  {
    if n < 0 then "-" + FormatNat(-n) else FormatNat(n)
  }

  /** Reading back the digits of a natural number gives the number. */
  lemma {:induction false} FormatNatValue(n: nat)
    ensures DigitsValue(FormatNat(n)) == n
  {
    if n >= 10 {
      FormatNatValue(n / 10);
      var s := FormatNat(n);
      assert s[..|s| - 1] == FormatNat(n / 10);
    }
  }

  /** `strconv.Atoi` reads back what `%d` printed. */
  lemma AtoiFormatInt(n: int)
    ensures Atoi(FormatInt(n)) == Some(n)
  {
    var m: nat := if n < 0 then -n else n;
    var d := FormatNat(m);
    FormatNatValue(m);
    if n < 0 {
      AtoiNegative(d);
      assert FormatInt(n) == "-" + d;
    } else {
      AtoiDigits(d);
      assert FormatInt(n) == d;
    }
  }

  lemma AtoiDigits(d: string)
    requires |d| >= 1 && AllDigits(d)
    ensures Atoi(d) == Some(DigitsValue(d))
  {
  }

  lemma AtoiNegative(d: string)
    requires |d| >= 1 && AllDigits(d)
    ensures Atoi("-" + d) == Some(0 - DigitsValue(d))
  {
    assert ("-" + d)[1..] == d;
  }

  /** Unpadded digits are what `FormatNat` prints for their value. */
  lemma {:induction false} FormatNatOfDigits(d: string)
    requires Unpadded(d)
    ensures FormatNat(DigitsValue(d)) == d
    decreases |d|
  {
    var last := |d| - 1;
    var c := d[last] as int - '0' as int;
    if |d| >= 2 {
      var p := d[..last];
      assert p[0] == d[0];
      FormatNatOfDigits(p);
      assert DigitsValue(p) != 0;
      var v := DigitsValue(d);
      assert v == DigitsValue(p) * 10 + c;
      assert v / 10 == DigitsValue(p) && v % 10 == c;
      assert d == p + [d[last]];
    }
  }

  /** `%d` has exactly one spelling per value: the only `Decimal` text that
      `Atoi` reads as `n` is `FormatInt(n)`. */
  lemma FormatIntUnique(t: string, n: int)
    requires Decimal(t) && Atoi(t) == Some(n)
    ensures t == FormatInt(n)
  {
    if Unpadded(t) {
      AtoiDigits(t);
      FormatNatOfDigits(t);
    } else {
      var d := t[1..];
      assert t == "-" + d;
      AtoiNegative(d);
      FormatNatOfDigits(d);
      assert DigitsValue(d) != 0;
    }
  }
}
