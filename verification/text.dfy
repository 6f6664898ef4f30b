/** Text the program builds and takes apart: decimal numerals and separated lists. */
module Text {

  datatype Option<+T> = None | Some(value: T)

  predicate IsDigit(c: char) {
    '0' <= c <= '9'
  }

  predicate AllDigits(s: string) {
    forall i | 0 <= i < |s| :: IsDigit(s[i])
  }

  function DigitChar(d: nat): (c: char)
    requires d < 10
    ensures IsDigit(c) && DigitValue(c) == d
  {
    ['0', '1', '2', '3', '4', '5', '6', '7', '8', '9'][d]
  }

  function DigitValue(c: char): (d: nat)
    requires IsDigit(c)
    ensures d < 10
  {
    c as int - '0' as int
  }

  /** The text of a number in an f-string. */
  function Decimal(n: nat): (s: string)
    ensures s != "" && AllDigits(s)
  {
    if n < 10 then [DigitChar(n)] else Decimal(n / 10) + [DigitChar(n % 10)]
  }

  /** `int(...)` on a run of digits; leading zeros are accepted. */
  function ParseNat(s: string): nat
    requires AllDigits(s)
  {
    if s == "" then 0 else 10 * ParseNat(s[..|s| - 1]) + DigitValue(s[|s| - 1])
  }

  lemma {:induction false} ParseOfDecimal(n: nat)
    ensures ParseNat(Decimal(n)) == n
  {
    if n >= 10 {
      ParseOfDecimal(n / 10);
      assert Decimal(n)[..|Decimal(n)| - 1] == Decimal(n / 10);
    }
  }

  lemma DecimalInjective(m: nat, n: nat)
    requires Decimal(m) == Decimal(n)
    ensures m == n
  {
    ParseOfDecimal(m);
    ParseOfDecimal(n);
  }

  /** At most two digits are written exactly for the numbers below one hundred. */
  lemma TwoDigits(n: nat)
    ensures |Decimal(n)| <= 2 <==> n < 100
  {
    if n >= 100 {
      assert Decimal(n) == Decimal(n / 10) + [DigitChar(n % 10)];
    }
  }

  lemma {:induction false} ParseNatBound(s: string)
    requires AllDigits(s) && |s| <= 2
    ensures ParseNat(s) < 100
  {
    if |s| == 2 {
      assert s[..1] == [s[0]];
      assert ParseNat(s[..1]) < 10;
    }
  }

  /** `str.split(sep)`: always at least one piece. */
  function Split(s: string, sep: char): (pieces: seq<string>)
    ensures pieces != []
  {
    if s == "" then [""]
    else
      var rest := Split(s[1..], sep);
      if s[0] == sep then [""] + rest else [[s[0]] + rest[0]] + rest[1..]
  }

  function Join(pieces: seq<string>, sep: char): string
  {
    if pieces == [] then ""
    else if |pieces| == 1 then pieces[0]
    else pieces[0] + [sep] + Join(pieces[1..], sep)
  }

  lemma {:induction false} SplitFree(s: string, sep: char)
    requires sep !in s
    ensures Split(s, sep) == [s]
  {
    if s != "" {
      SplitFree(s[1..], sep);
      assert s == [s[0]] + s[1..];
    }
  }

  lemma {:induction false} SplitPrefix(s: string, sep: char, rest: string)
    requires sep !in s
    ensures Split(s + [sep] + rest, sep) == [s] + Split(rest, sep)
  {
    var t := s + [sep] + rest;
    if s == "" {
      assert t[1..] == rest;
    } else {
      SplitPrefix(s[1..], sep, rest);
      assert t[1..] == s[1..] + [sep] + rest;
      assert s == [s[0]] + s[1..];
    }
  }

  lemma {:induction false} SplitOfJoin(pieces: seq<string>, sep: char)
    requires pieces != [] && forall p | p in pieces :: sep !in p
    ensures Split(Join(pieces, sep), sep) == pieces
  {
    if |pieces| == 1 {
      SplitFree(pieces[0], sep);
    } else {
      SplitPrefix(pieces[0], sep, Join(pieces[1..], sep));
      SplitOfJoin(pieces[1..], sep);
    }
  }

  lemma {:induction false} SplitPiecesFree(s: string, sep: char)
    ensures forall p | p in Split(s, sep) :: sep !in p
  {
    if s != "" {
      SplitPiecesFree(s[1..], sep);
    }
  }

  /** Something that holds at first holds throughout exactly when every step keeps it. */
  lemma HoldsThroughout(holds: seq<bool>, keeps: seq<bool>)
    requires |holds| == |keeps| + 1 && holds[0]
    requires forall i | 0 <= i < |keeps| :: holds[i] ==> (holds[i + 1] <==> keeps[i])
    ensures (forall i | 0 <= i < |holds| :: holds[i]) <==> (forall i | 0 <= i < |keeps| :: keeps[i])
  {
    if forall i | 0 <= i < |keeps| :: keeps[i] {
      forall k | 0 <= k < |holds| ensures holds[k] {
        HoldsAt(holds, keeps, k);
      }
    } else {
      var i :| 0 <= i < |keeps| && !keeps[i];
      assert !holds[i] || !holds[i + 1];
    }
  }

  lemma {:induction false} HoldsAt(holds: seq<bool>, keeps: seq<bool>, k: nat)
    requires |holds| == |keeps| + 1 && holds[0] && k < |holds|
    requires forall i | 0 <= i < |keeps| :: keeps[i] && (holds[i] ==> holds[i + 1])
    ensures holds[k]
  {
    if k > 0 {
      HoldsAt(holds, keeps, k - 1);
      assert keeps[k - 1];
    }
  }
}
