/**
  The textual form of the tree: each element in decimal, as Integer.toString
  renders it, separated by ", " and enclosed in brackets.
 */
module Rendering {

  function DigitChar(d: int): (c: char)
    requires 0 <= d < 10
    ensures '0' <= c <= '9'
  {
    (d + '0' as int) as char
  }

  function DigitValue(c: char): (d: int)
    requires '0' <= c <= '9'
    ensures 0 <= d < 10
  {
    c as int - '0' as int
  }

  ghost predicate AllDigits(s: string) {
    forall i :: 0 <= i < |s| ==> '0' <= s[i] <= '9'
  }

  /** The decimal digits of a natural number, most significant first, with no leading zero. */
  function NatToString(n: nat): (s: string)
    ensures |s| > 0 && AllDigits(s)
    ensures |s| > 1 ==> s[0] != '0'
  {
    if n < 10 then [DigitChar(n)] else NatToString(n / 10) + [DigitChar(n % 10)]
  }

  /** The decimal form of an integer, with a leading '-' exactly when it is negative. */
  function IntToString(n: int): (s: string)
    ensures |s| > 0
    ensures (s[0] == '-') <==> n < 0
    ensures AllDigits(if n < 0 then s[1..] else s)
  {
    if n < 0 then "-" + NatToString(-n) else NatToString(n)
  }

  /** Reads a string of digits back as a number. */
  function ParseNat(s: string): nat
    requires AllDigits(s)
  {
    if s == [] then 0 else ParseNat(s[..|s| - 1]) * 10 + DigitValue(s[|s| - 1])
  }

  function ParseInt(s: string): int
    requires |s| > 0
    requires AllDigits(if s[0] == '-' then s[1..] else s)
  {
    if s[0] == '-' then 0 - ParseNat(s[1..]) as int else ParseNat(s)
  }

  lemma {:induction false} ParseNatToString(n: nat)
    ensures ParseNat(NatToString(n)) == n
  {
    var last := DigitChar(n % 10);
    assert DigitValue(last) == n % 10;
    if n >= 10 {
      var prefix := NatToString(n / 10);
      var s := prefix + [last];
      assert NatToString(n) == s;
      assert s[..|s| - 1] == prefix && s[|s| - 1] == last;
      ParseNatToString(n / 10);
    } else {
      assert NatToString(n) == [last];
    }
  }

  /** The decimal form determines the number, so distinct elements render distinctly. */
  lemma {:induction false} ParseIntToString(n: int)
    ensures ParseInt(IntToString(n)) == n
  {
    if n < 0 {
      var digits := NatToString(-n);
      var s := "-" + digits;
      assert IntToString(n) == s;
      assert s[0] == '-' && s[1..] == digits;
      ParseNatToString(-n);
      assert ParseInt(s) == 0 - ParseNat(digits) as int;
    } else {
      var digits := NatToString(n);
      assert IntToString(n) == digits;
      assert |digits| > 1 ==> digits[0] != '-';
      ParseNatToString(n);
    }
  }

  /** Each element of a sequence in decimal. */
  function Decimals(xs: seq<int>): (parts: seq<string>)
    ensures |parts| == |xs|
    ensures forall i :: 0 <= i < |xs| ==> parts[i] == IntToString(xs[i])
  {
    if xs == [] then [] else Decimals(xs[..|xs| - 1]) + [IntToString(xs[|xs| - 1])]
  }

  /** Distinct element sequences render to distinct lists of decimal strings. */
  lemma DecimalsInjective(a: seq<int>, b: seq<int>)
    ensures Decimals(a) == Decimals(b) ==> a == b
  {
    if Decimals(a) == Decimals(b) {
      forall i | 0 <= i < |a| ensures a[i] == b[i] {
        ParseIntToString(a[i]);
        ParseIntToString(b[i]);
      }
    }
  }

  /** The parts separated by ", ". */
  function Joined(parts: seq<string>): string {
    if |parts| == 0 then ""
    else if |parts| == 1 then parts[0]
    else parts[0] + ", " + Joined(parts[1..])
  }

  /** The bracketed list form of a sequence of elements. */
  function Render(xs: seq<int>): (s: string)
    ensures |s| >= 2 && s[0] == '[' && s[|s| - 1] == ']'
    ensures xs == [] <==> s == "[]"
  {
    var parts := Decimals(xs);
    assert xs != [] ==> |parts[0]| > 0 && |Joined(parts)| > 0;
    "[" + Joined(parts) + "]"
  }

  /** Every part followed by ", ", the text a builder holds before its last
      separator is replaced by the closing bracket. */
  function Terminated(parts: seq<string>): string {
    if parts == [] then "" else parts[0] + ", " + Terminated(parts[1..])
  }

  lemma {:induction false} TerminatedSnoc(parts: seq<string>, p: string)
    ensures Terminated(parts + [p]) == Terminated(parts) + p + ", "
  {
    if parts != [] {
      var head := parts[0] + ", ";
      assert (parts + [p])[0] == parts[0] && (parts + [p])[1..] == parts[1..] + [p];
      calc {
        Terminated(parts + [p]);
        head + Terminated(parts[1..] + [p]);
        { TerminatedSnoc(parts[1..], p); }
        head + (Terminated(parts[1..]) + p + ", ");
        (head + Terminated(parts[1..])) + p + ", ";
      }
    } else {
      assert [p][1..] == [];
    }
  }

  lemma {:induction false} TerminatedIsJoined(parts: seq<string>)
    requires parts != []
    ensures Terminated(parts) == Joined(parts) + ", "
  {
    if |parts| > 1 {
      TerminatedIsJoined(parts[1..]);
    }
  }

  /** One step of the builder loop: appending the next element and a separator. */
  lemma AppendedOne(xs: seq<int>, i: nat, builder: string)
    requires i < |xs| && builder == "[" + Terminated(Decimals(xs[..i]))
    ensures builder + IntToString(xs[i]) + ", " == "[" + Terminated(Decimals(xs[..i + 1]))
  {
    DecimalsSnoc(xs, i);
    AppendedPart(Decimals(xs[..i]), IntToString(xs[i]), builder);
  }

  lemma AppendedPart(before: seq<string>, piece: string, builder: string)
    requires builder == "[" + Terminated(before)
    ensures builder + piece + ", " == "[" + Terminated(before + [piece])
  {
    TerminatedSnoc(before, piece);
  }

  lemma DecimalsSnoc(xs: seq<int>, i: nat)
    requires i < |xs|
    ensures Decimals(xs[..i + 1]) == Decimals(xs[..i]) + [IntToString(xs[i])]
  {
    var longer := xs[..i + 1];
    assert longer[..|longer| - 1] == xs[..i] && longer[|longer| - 1] == xs[i];
  }

  /** Replacing the last separator by the closing bracket gives the rendering. */
  lemma ClosedBracket(xs: seq<int>, builder: string)
    requires xs != [] && builder == "[" + Terminated(Decimals(xs))
    ensures |builder| >= 2 && builder[..|builder| - 2] + "]" == Render(xs)
  {
    TerminatedIsJoined(Decimals(xs));
    var body := "[" + Joined(Decimals(xs));
    assert builder == body + ", ";
    assert builder[..|builder| - 2] == body;
  }
}
