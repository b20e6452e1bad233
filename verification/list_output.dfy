/**
 The stream output of an integer list (`operator<<` in `cpp/data/list.hpp`)
 and the program of `cpp/data/list.cpp` that fills a list with 0 to 9 and
 writes it. Text is a `string`; the stream's formatting of one `int` is
 `Decimal`, and `Parse` reads a list's text back.
 */
module ListOutput {
  import opened Wrappers
  import opened LinkedList

  // ---------------------------------------------------------------------
  // One integer in decimal
  // ---------------------------------------------------------------------

  /** The text consists of decimal digits only. */
  predicate IsDigits(s: string) {
    forall i :: 0 <= i < |s| ==> '0' <= s[i] <= '9'
  }

  /** The character of a digit. */
  function DigitChar(d: int): (c: char)
    requires 0 <= d < 10
    ensures '0' <= c <= '9' && c as int - '0' as int == d
  {
    (d + '0' as int) as char
  }

  /** The decimal digits of `n`, most significant first, without leading
      zeros. */
  function Digits(n: nat): (s: string)
    ensures |s| > 0 && IsDigits(s)
    ensures s[0] == '0' ==> n == 0
  {
    if n < 10 then [DigitChar(n)] else Digits(n / 10) + [DigitChar(n % 10)]
  }

  /** The number a string of decimal digits denotes. */
  function DigitsValue(s: string): nat
    requires IsDigits(s)
  {
    if |s| == 0 then 0
    else DigitsValue(s[..|s| - 1]) * 10 + (s[|s| - 1] as int - '0' as int)
  }

  /** Reading the digits of `n` gives `n` back. */
  lemma {:induction false} DigitsRoundTrip(n: nat)
    ensures DigitsValue(Digits(n)) == n
  {
    if n >= 10 {
      DigitsRoundTrip(n / 10);
      var s := Digits(n);
      assert s[..|s| - 1] == Digits(n / 10);
    }
  }

  /** How the stream writes an `int`: a minus sign before the digits of a
      negative number. The text never holds a comma or a space. */
  function Decimal(x: int): (s: string)
    ensures |s| > 0
    ensures forall i :: 0 <= i < |s| ==> s[i] != ',' && s[i] != ' '
  {
    if x < 0 then "-" + Digits(-x) else Digits(x)
  }

  /** Reads a number as `Decimal` writes it; text of any other shape
      reads as 0. */
  function ParseDecimal(s: string): int {
    if |s| > 0 && s[0] == '-' && IsDigits(s[1..]) then 0 - DigitsValue(s[1..])
    else if IsDigits(s) then DigitsValue(s)
    else 0
  }

  /** Reading what `Decimal` writes gives the number back. */
  lemma DecimalRoundTrip(x: int)
    ensures ParseDecimal(Decimal(x)) == x
  {
    if x < 0 {
      DigitsRoundTrip(-x);
      assert Decimal(x)[1..] == Digits(-x);
    } else {
      DigitsRoundTrip(x);
    }
  }

  // ---------------------------------------------------------------------
  // A list of integers
  // ---------------------------------------------------------------------

  /** The numbers of `xs` in decimal, separated by ", ". The text is empty
      exactly for no numbers. */
  function Join(xs: seq<int>): (s: string)
    ensures s == "" <==> |xs| == 0
  {
    if |xs| == 0 then ""
    else if |xs| == 1 then Decimal(xs[0])
    else Decimal(xs[0]) + ", " + Join(xs[1..])
  }

  /** The text of a list holds a comma exactly when the list has two numbers
      or more: the numbers themselves never write one. */
  lemma JoinSeparates(xs: seq<int>)
    ensures (exists i :: 0 <= i < |Join(xs)| && Join(xs)[i] == ',') <==> |xs| >= 2
  {
    if |xs| >= 2 {
      var d := Decimal(xs[0]);
      assert Join(xs)[|d|] == ',';
    }
  }

  /** Text written piece by piece is the same however the pieces are
      grouped. */
  lemma Regroup(a: string, b: string, c: string, d: string)
    ensures a + b + c + d == a + (b + c + d)
  {
  }

  /** Writing one more number after a non-empty text adds a separator and
      the number. */
  lemma {:induction false} JoinAppend(xs: seq<int>, x: int)
    requires |xs| > 0
    ensures Join(xs + [x]) == Join(xs) + ", " + Decimal(x)
    decreases |xs|
  {
    var d, e := Decimal(xs[0]), Decimal(x);
    if |xs| > 1 {
      var r := Join(xs[1..]);
      JoinAppend(xs[1..], x);
      assert (xs + [x])[1..] == xs[1..] + [x];
      assert Join(xs + [x]) == d + ", " + (r + ", " + e);
      Regroup(d + ", ", r, ", ", e);
    } else {
      assert (xs + [x])[1..] == [x];
      assert Join(xs + [x]) == d + ", " + e;
    }
  }

  /** The position of the first comma in `s`, or `|s|` when it has none. */
  function FirstComma(s: string): (k: nat)
    ensures k <= |s|
    ensures forall j :: 0 <= j < k ==> s[j] != ','
    ensures k < |s| ==> s[k] == ','
  {
    if |s| == 0 || s[0] == ',' then 0 else 1 + FirstComma(s[1..])
  }

  /** Reads the numbers back out of text written by `Join`: each one runs
      up to the next comma, and a comma is followed by one space. */
  function Parse(s: string): seq<int>
    decreases |s|
  {
    if |s| == 0 then []
    else
      var k := FirstComma(s);
      [ParseDecimal(s[..k])] + (if k + 2 <= |s| then Parse(s[k + 2..]) else [])
  }

  /** A number followed by a separator reads as that number, then
      whatever follows the separator. */
  lemma ParseSeparated(d: string, rest: string)
    requires |d| > 0 && forall i :: 0 <= i < |d| ==> d[i] != ','
    ensures Parse(d + ", " + rest) == [ParseDecimal(d)] + Parse(rest)
  {
    var s := d + ", " + rest;
    assert s[|d|] == ',';
    assert FirstComma(s) == |d|;
    assert s[..|d|] == d;
    assert s[|d| + 2..] == rest;
  }

  /** A number with no separator after it reads as that number alone. */
  lemma ParseSingle(d: string)
    requires |d| > 0 && forall i :: 0 <= i < |d| ==> d[i] != ','
    ensures Parse(d) == [ParseDecimal(d)]
  {
    assert FirstComma(d) == |d|;
    assert d[..|d|] == d;
  }

  /** The text of a list determines the list: `Parse` undoes `Join`. */
  lemma {:induction false} ParseJoin(xs: seq<int>)
    ensures Parse(Join(xs)) == xs
    decreases |xs|
  {
    if |xs| > 0 {
      var d := Decimal(xs[0]);
      DecimalRoundTrip(xs[0]);
      if |xs| == 1 {
        ParseSingle(d);
      } else {
        assert Join(xs) == d + ", " + Join(xs[1..]);
        ParseSeparated(d, Join(xs[1..]));
        ParseJoin(xs[1..]);
        assert xs == [xs[0]] + xs[1..];
      }
    }
  }

  /** Reads the numbers back out of text written by `Show`: the text
      between the brackets; anything not in brackets holds none. */
  function ParseShown(s: string): seq<int> {
    if |s| >= 2 && s[0] == '[' && s[|s| - 1] == ']' then Parse(s[1..|s| - 1]) else []
  }

  /** Reading the brackets' contents undoes `Join`. */
  lemma ShownParses(xs: seq<int>)
    ensures ParseShown("[" + Join(xs) + "]") == xs
  {
    var s := "[" + Join(xs) + "]";
    assert s[1..|s| - 1] == Join(xs);
    ParseJoin(xs);
  }

  /** One step of `operator<<`: writing entry `i` after the text of the
      entries before it (and a separator when there are some) gives the
      text of the entries up to `i`. */
  lemma WriteNext(c: seq<int>, i: nat, s: string)
    requires i < |c| && s == "[" + Join(c[..i]) + (if 0 < i then ", " else "")
    ensures s + Decimal(c[i]) == "[" + Join(c[..i + 1])
  {
    if i > 0 {
      var j, d := Join(c[..i]), Decimal(c[i]);
      assert s == "[" + j + ", ";
      assert c[..i + 1] == c[..i] + [c[i]];
      JoinAppend(c[..i], c[i]);
      assert Join(c[..i + 1]) == j + ", " + d;
      Regroup("[", j, ", ", d);
    } else {
      assert c[..1] == [c[i]];
    }
  }

  /** `operator<<` for a list of `int`: an opening bracket, each node's
      value from the head along the links with ", " after every node that
      has a successor, and a closing bracket. The text reads back as the
      list's contents. */
  method Show(l: List<int>) returns (s: string)
    requires Valid(l)
    ensures s == "[" + Join(Contents(l)) + "]"
    ensures ParseShown(s) == Contents(l)
  {
    ghost var c := Contents(l);
    s := "[";
    var current := l.head;
    ghost var i := 0;
    while current != None
      invariant 0 <= i <= |c| == |l.order|
      invariant current == if i < |c| then Some(l.order[i]) else None
      invariant s == "[" + Join(c[..i]) + (if 0 < i < |c| then ", " else "")
      decreases |c| - i
    {
      assert l.nodes[l.order[i]].next == Successor(l.order, i);
      var x := l.nodes[current.value].data;
      WriteNext(c, i, s);
      s := s + Decimal(x);
      current := l.nodes[current.value].next;
      i := i + 1;
      if current != None {
        s := s + ", ";
      }
    }
    assert c[..i] == c;
    s := s + "]";
    ShownParses(c);
  }

  /** The numbers below `n`, in increasing order. */
  function Upto(n: nat): (r: seq<int>)
    ensures |r| == n && forall k :: 0 <= k < n ==> r[k] == k
  {
    seq(n, k => k)
  }

  /** The text of the entries from `k` on, when entry `k` is the digit
      `d`: the digit, a separator, and the text of the entries after it. */
  lemma JoinDigit(xs: seq<int>, k: nat, d: char, rest: string)
    requires k + 1 < |xs| && 0 <= xs[k] < 10 && d == DigitChar(xs[k])
    requires Join(xs[k + 1..]) == rest
    ensures Join(xs[k..]) == [d] + ", " + rest
  {
    assert xs[k..][1..] == xs[k + 1..];
  }

  /** The text of the numbers 0 to 9, piece by piece. */
  lemma JoinToNine(xs: seq<int>)
    requires |xs| == 10 && forall k :: 0 <= k < 10 ==> xs[k] == k
    ensures Join(xs) == "0" + ", " + ("1" + ", " + ("2" + ", " + ("3" + ", " + ("4" + ", " + ("5" + ", " + ("6" + ", " + ("7" + ", " + ("8" + ", " + ("9")))))))))
  {
    assert Join(xs[9..]) == "9" by { assert xs[9..] == [9]; }
    JoinDigit(xs, 8, '8', "9");
    JoinDigit(xs, 7, '7', "8" + ", " + ("9"));
    JoinDigit(xs, 6, '6', "7" + ", " + ("8" + ", " + ("9")));
    JoinDigit(xs, 5, '5', "6" + ", " + ("7" + ", " + ("8" + ", " + ("9"))));
    JoinDigit(xs, 4, '4', "5" + ", " + ("6" + ", " + ("7" + ", " + ("8" + ", " + ("9")))));
    JoinDigit(xs, 3, '3', "4" + ", " + ("5" + ", " + ("6" + ", " + ("7" + ", " + ("8" + ", " + ("9"))))));
    JoinDigit(xs, 2, '2', "3" + ", " + ("4" + ", " + ("5" + ", " + ("6" + ", " + ("7" + ", " + ("8" + ", " + ("9")))))));
    JoinDigit(xs, 1, '1', "2" + ", " + ("3" + ", " + ("4" + ", " + ("5" + ", " + ("6" + ", " + ("7" + ", " + ("8" + ", " + ("9"))))))));
    JoinDigit(xs, 0, '0', "1" + ", " + ("2" + ", " + ("3" + ", " + ("4" + ", " + ("5" + ", " + ("6" + ", " + ("7" + ", " + ("8" + ", " + ("9")))))))));
    assert xs[0..] == xs;
  }

  /** What `list.cpp` writes, with the list's text in pieces. */
  lemma DemoText()
    ensures "l: " + ("[" + ("0" + ", " + ("1" + ", " + ("2" + ", " + ("3" + ", " + ("4" + ", " + ("5" + ", " + ("6" + ", " + ("7" + ", " + ("8" + ", " + ("9")))))))))) + "]") == "l: [0, 1, 2, 3, 4, 5, 6, 7, 8, 9]"
  {
  }

  /** The program of `list.cpp`: push 0 to 9 onto the back of an empty list
      of `int`, then write "l: " and the list. */
  method Demo() returns (out: string)
    ensures out == "l: [0, 1, 2, 3, 4, 5, 6, 7, 8, 9]"
  {
    var l: List<int> := Empty();
    var i := 0;
    while i < 10
      invariant 0 <= i <= 10 && Valid(l)
      invariant Contents(l) == Upto(i)
    {
      l := PushBack(l, i);
      i := i + 1;
    }
    var text := Show(l);
    JoinToNine(Contents(l));
    DemoText();
    out := "l: " + text;
  }
}
