/** Splitting and joining strings at a separator, and decimal numerals. */
module Text {

  /** Go's `strings.Split` for a one-character separator. */
  function Split(s: string, sep: char): (parts: seq<string>)
    ensures |parts| >= 1
  {
    if s == [] then [[]]
    else
      var rest := Split(s[1..], sep);
      if s[0] == sep then [[]] + rest else [[s[0]] + rest[0]] + rest[1..]
  }

  function Join(parts: seq<string>, sep: char): string
    requires |parts| >= 1
  {
    if |parts| == 1 then parts[0] else parts[0] + [sep] + Join(parts[1..], sep)
  }

  ghost predicate Free(s: string, sep: char) {
    sep !in s
  }

  ghost predicate AllFree(parts: seq<string>, sep: char) {
    forall i :: 0 <= i < |parts| ==> Free(parts[i], sep)
  }

  lemma {:induction false} SplitPiece(p: string, sep: char)
    requires Free(p, sep)
    ensures Split(p, sep) == [p]
  {
    if p == [] {
    } else {
      SplitPiece(p[1..], sep);
      assert p[0] in p && [p[0]] + p[1..] == p;
    }
  }

  /** A separator-free piece followed by the separator is always the first piece. */
  lemma {:induction false} SplitCons(p: string, rest: string, sep: char)
    requires Free(p, sep)
    ensures Split(p + [sep] + rest, sep) == [p] + Split(rest, sep)
  {
    var s := p + [sep] + rest;
    if p == [] {
      assert s[1..] == rest;
    } else {
      SplitCons(p[1..], rest, sep);
      assert s[1..] == p[1..] + [sep] + rest;
      assert s[0] == p[0] && p[0] in p;
      assert [p[0]] + p[1..] == p;
    }
  }

  lemma {:induction false} SplitJoin(parts: seq<string>, sep: char)
    requires |parts| >= 1 && AllFree(parts, sep)
    ensures Split(Join(parts, sep), sep) == parts
  {
    assert Free(parts[0], sep);
    if |parts| == 1 {
      SplitPiece(parts[0], sep);
    } else {
      forall i | 0 <= i < |parts[1..]| ensures Free(parts[1..][i], sep) {
        assert Free(parts[i + 1], sep);
      }
      SplitJoin(parts[1..], sep);
      SplitCons(parts[0], Join(parts[1..], sep), sep);
    }
  }

  /** The decimal numeral of `n`, without leading zeros. */
  function Decimal(n: nat): (s: string)
    ensures |s| >= 1 && forall i :: 0 <= i < |s| ==> '0' <= s[i] <= '9'
  {
    var digit := [('0' as int + n % 10) as char];
    if n < 10 then digit else Decimal(n / 10) + digit
  }

  function NumeralValue(s: string): int {
    if s == [] then 0
    else 10 * NumeralValue(s[..|s| - 1]) + (s[|s| - 1] as int - '0' as int)
  }

  lemma {:induction false} DecimalValue(n: nat)
    ensures NumeralValue(Decimal(n)) == n
  {
    var s := Decimal(n);
    if n < 10 {
      assert s[..|s| - 1] == [];
    } else {
      DecimalValue(n / 10);
      assert s[..|s| - 1] == Decimal(n / 10);
    }
  }

  /** `s` is how `n` is written: digits without a leading zero. */
  ghost predicate Numeral(s: string, n: int) {
    && s != [] && (forall i :: 0 <= i < |s| ==> '0' <= s[i] <= '9')
    && (|s| > 1 ==> s[0] != '0')
    && NumeralValue(s) == n
  }

  lemma {:induction false} NumeralIsPositive(s: string)
    requires s != [] && (forall i :: 0 <= i < |s| ==> '0' <= s[i] <= '9') && s[0] != '0'
    ensures NumeralValue(s) >= 1
  {
    if |s| > 1 {
      NumeralIsPositive(s[..|s| - 1]);
    } else {
      assert s[..0] == [];
    }
  }

  /** A number is written in one way, as `Decimal` writes it. */
  lemma {:induction false} NumeralIff(s: string, n: nat)
    ensures Numeral(s, n) <==> s == Decimal(n)
  {
    if s == Decimal(n) {
      DecimalIsNumeral(n);
    } else if Numeral(s, n) {
      NumeralIsDecimal(s, n);
    }
  }

  lemma {:induction false} DecimalIsNumeral(n: nat)
    ensures Numeral(Decimal(n), n) && (n > 0 ==> Decimal(n)[0] != '0')
  {
    DecimalValue(n);
    if n >= 10 {
      DecimalIsNumeral(n / 10);
    }
  }

  lemma {:induction false} NumeralIsDecimal(s: string, n: nat)
    requires Numeral(s, n)
    ensures s == Decimal(n)
  {
    var front, d := s[..|s| - 1], s[|s| - 1] as int - '0' as int;
    assert 0 <= d <= 9 && n == 10 * NumeralValue(front) + d;
    if |s| == 1 {
      assert front == [] && NumeralValue(front) == 0;
    } else {
      NumeralIsPositive(front);
      NumeralIsDecimal(front, n / 10);
      assert s == front + [s[|s| - 1]];
    }
  }

  /** Splitting is the only way to cut a string into separator-free pieces that join to it again. */
  lemma {:induction false} SplitIff(s: string, parts: seq<string>, sep: char)
    ensures |parts| >= 1 && AllFree(parts, sep) && Join(parts, sep) == s <==> parts == Split(s, sep)
  {
    if |parts| >= 1 && AllFree(parts, sep) && Join(parts, sep) == s {
      SplitJoin(parts, sep);
    }
    JoinSplit(s, sep);
  }

  lemma {:induction false} JoinSplit(s: string, sep: char)
    ensures AllFree(Split(s, sep), sep) && Join(Split(s, sep), sep) == s
  {
    if s != [] {
      JoinSplit(s[1..], sep);
      var rest := Split(s[1..], sep);
      assert Free(rest[0], sep);
      assert forall i :: 1 <= i < |rest| ==> Free(rest[i], sep);
      if s[0] == sep {
        assert ([[]] + rest)[1..] == rest;
        assert [] + [sep] + s[1..] == s;
      } else {
        JoinPrepended(s[0], rest, sep);
        assert [s[0]] + s[1..] == s;
      }
    }
  }

  lemma JoinPrepended(c: char, parts: seq<string>, sep: char)
    requires |parts| >= 1
    ensures Join([[c] + parts[0]] + parts[1..], sep) == [c] + Join(parts, sep)
  {
    var longer := [[c] + parts[0]] + parts[1..];
    assert longer[1..] == parts[1..];
    if |parts| > 1 {
      var rest := Join(parts[1..], sep);
      assert [c] + (parts[0] + [sep] + rest) == [c] + parts[0] + [sep] + rest;
    }
  }
}
