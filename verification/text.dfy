/**
 * The string operations the image serialiser relies on: decimal rendering of
 * a number (`format!("{}")`), joining with a single space (`join(" ")`), and
 * the inverse reading, splitting on a space and parsing the decimals back.
 */
module Text {
  import opened Options

  predicate IsDigit(ch: char)
  {
    '0' <= ch <= '9'
  }

  predicate AllDigits(s: string)
  {
    forall i :: 0 <= i < |s| ==> IsDigit(s[i])
  }

  predicate NoSpace(s: string)
  {
    forall i :: 0 <= i < |s| ==> s[i] != ' '
  }

  function Digit(d: nat): (ch: char)
    requires d < 10
    ensures IsDigit(ch)
  {
    (48 + d) as char
  }

  function DigitValue(ch: char): (d: nat)
    requires IsDigit(ch)
    ensures d < 10 && Digit(d) == ch
  {
    ch as int - 48
  }

  /** The decimal form of `n`, most significant digit first, without leading zeros. */
  function Dec(n: nat): (s: string)
    ensures 1 <= |s| && AllDigits(s) && NoSpace(s)
    ensures n < 10 ==> |s| == 1
    ensures n < 100 ==> |s| <= 2
    ensures n < 1000 ==> |s| <= 3
    decreases n
  {
    if n < 10 then [Digit(n)] else Dec(n / 10) + [Digit(n % 10)]
  }

  function ParseDigits(s: string): nat
    requires AllDigits(s)
    decreases |s|
  {
    if s == [] then 0 else ParseDigits(s[..|s| - 1]) * 10 + DigitValue(s[|s| - 1])
  }

  /** Reads a decimal number; anything that is not a non-empty run of digits is rejected. */
  function ParseDec(s: string): Option<nat>
  {
    if s != [] && AllDigits(s) then Some(ParseDigits(s)) else None
  }

  /** Reading back what Dec wrote gives the number. */
  lemma {:induction false} ParseDecOfDec(n: nat)
    ensures ParseDec(Dec(n)) == Some(n)
    decreases n
  {
    var s := Dec(n);
    if n < 10 {
      assert s == [Digit(n)] && s[..|s| - 1] == [];
      assert DigitValue(s[0]) == n;
      assert ParseDigits(s) == ParseDigits([]) * 10 + n;
    } else {
      ParseDecOfDec(n / 10);
      assert s[..|s| - 1] == Dec(n / 10);
      assert DigitValue(s[|s| - 1]) == n % 10;
    }
  }

  /** `join(" ")`: the strings with one space between neighbours. */
  function Join(ss: seq<string>): string
  {
    if |ss| == 0 then "" else if |ss| == 1 then ss[0] else ss[0] + " " + Join(ss[1..])
  }

  lemma {:induction false} JoinAppend(a: seq<string>, b: seq<string>)
    requires a != [] && b != []
    ensures Join(a + b) == Join(a) + " " + Join(b)
    decreases |a|
  {
    if |a| == 1 {
      assert (a + b)[1..] == b;
    } else {
      assert (a + b)[1..] == a[1..] + b;
      JoinAppend(a[1..], b);
    }
  }

  /** Splitting on every space, as `str::split(" ")`: always at least one part. */
  function Split(s: string): (parts: seq<string>)
    ensures 1 <= |parts|
    decreases |s|
  {
    if s == [] then [""]
    else if s[0] == ' ' then [""] + Split(s[1..])
    else
      var rest := Split(s[1..]);
      [[s[0]] + rest[0]] + rest[1..]
  }

  lemma {:induction false} SplitNoSpace(s: string)
    requires NoSpace(s)
    ensures Split(s) == [s]
    decreases |s|
  {
    if s != [] {
      SplitNoSpace(s[1..]);
      assert [s[0]] + s[1..] == s;
    }
  }

  /** A space in the middle splits the parts of either side apart. */
  lemma {:induction false} SplitAppend(a: string, b: string)
    ensures Split(a + " " + b) == Split(a) + Split(b)
    decreases |a|
  {
    if a == [] {
      assert a + " " + b == " " + b;
      assert (" " + b)[1..] == b;
    } else {
      var s := a + " " + b;
      assert s[0] == a[0];
      assert s[1..] == a[1..] + " " + b;
      SplitAppend(a[1..], b);
    }
  }

  /** Joining words without spaces and splitting again gives the words back. */
  lemma {:induction false} SplitJoin(ts: seq<string>)
    requires ts != []
    requires forall i :: 0 <= i < |ts| ==> NoSpace(ts[i])
    ensures Split(Join(ts)) == ts
    decreases |ts|
  {
    SplitNoSpace(ts[0]);
    if 1 < |ts| {
      SplitAppend(ts[0], Join(ts[1..]));
      SplitJoin(ts[1..]);
    }
  }
}
