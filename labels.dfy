/** Curve labels (`SW_label`, `Elabel` in ComputePairs.py): a curve's
    Cremona label when the database has one, otherwise a Stein-Watkins
    style label `"<conductor>.(<a1>, <a2>, <a3>, <a4>, <a6>)"` built from
    Python's `str` of the conductor and of the coefficient tuple. */
module Labels {
  import opened Base

  /** The Weierstrass coefficients `E.ainvs()`, always five of them. */
  datatype Ainvs = Ainvs(a1: int, a2: int, a3: int, a4: int, a6: int)

  /** A curve as far as labels go: its conductor, its coefficients and,
      when the curve is in the Cremona database, its label there. */
  datatype Curve = Curve(conductor: Pos, ainvs: Ainvs, cremonaLabel: Option<Label>)

  predicate IsDigit(c: char) {
    '0' as int <= c as int <= '9' as int
  }

  function DigitChar(d: nat): (c: char)
    requires d < 10
    ensures IsDigit(c)
  {
    ('0' as int + d) as char
  }

  /** `str(n)` for a natural number. */
  function NatToString(n: nat): (s: string)
    ensures |s| >= 1
    ensures forall i :: 0 <= i < |s| ==> IsDigit(s[i])
  {
    if n < 10 then [DigitChar(n)] else NatToString(n / 10) + [DigitChar(n % 10)]
  }

  /** `str(i)` for an integer: a minus sign, then the digits. */
  function IntToString(i: int): (s: string)
    ensures |s| >= 1
    ensures forall k :: 0 <= k < |s| ==> IsDigit(s[k]) || (k == 0 && s[k] == '-')
  {
    if i < 0 then "-" + NatToString(-i) else NatToString(i)
  }

  /** The numbers of a tuple, separated as Python's `str` separates them. */
  function JoinInts(xs: seq<int>): string
    requires |xs| >= 1
  {
    if |xs| == 1 then IntToString(xs[0]) else IntToString(xs[0]) + ", " + JoinInts(xs[1..])
  }

  function AinvsList(a: Ainvs): seq<int> {
    [a.a1, a.a2, a.a3, a.a4, a.a6]
  }

  /** `SW_label(E)`: `".".join([str(E.conductor()), str(E.ainvs())])`. */
  function SWLabel(E: Curve): Label {
    NatToString(E.conductor) + "." + "(" + JoinInts(AinvsList(E.ainvs)) + ")"
  }

  /** `Elabel(E)`: the database label when `E.label()` succeeds, and the
      Stein-Watkins label otherwise. A Stein-Watkins label always names its
      curve: conductor and coefficients can be read back from it. */
  function Elabel(E: Curve): (r: Label)
    ensures E.cremonaLabel.Some? ==> r == E.cremonaLabel.value
    ensures E.cremonaLabel.None? ==> ParseSW(r) == Some((E.conductor, E.ainvs))
  {
    match E.cremonaLabel
    case Some(lab) => lab
    case None => SWRoundTrip(E); SWLabel(E)
  }

  /* Reading labels back. */

  /** The value of a string of decimal digits. */
  function DigitsValue(s: string): nat
    requires forall i :: 0 <= i < |s| ==> IsDigit(s[i])
  {
    if s == [] then 0 else DigitsValue(s[..|s| - 1]) * 10 + DigitValue(s[|s| - 1])
  }

  function DigitValue(c: char): nat
    requires IsDigit(c)
  {
    c as int - '0' as int
  }

  function ParseNat(s: string): Option<nat> {
    if s != [] && forall i :: 0 <= i < |s| ==> IsDigit(s[i]) then Some(DigitsValue(s)) else None
  }

  function ParseInt(s: string): Option<int> {
    if s != [] && s[0] == '-' then
      match ParseNat(s[1..])
      case Some(n) => Some(0 - n as int)
      case None => None
    else
      match ParseNat(s)
      case Some(n) => Some(n)
      case None => None
  }

  /** Reads `"x, y, z"` back into `[x, y, z]`. */
  function ParseInts(s: string): Option<seq<int>>
    decreases |s|
  {
    var i := IndexOf(s, ',');
    if i == |s| then
      match ParseInt(s)
      case Some(x) => Some([x])
      case None => None
    else if i + 1 < |s| && s[i + 1] == ' ' then
      match (ParseInt(s[..i]), ParseInts(s[i + 2..]))
      case (Some(x), Some(xs)) => Some([x] + xs)
      case _ => None
    else None
  }

  /** Reads a Stein-Watkins label back into conductor and coefficients. */
  function ParseSW(s: string): Option<(nat, Ainvs)> {
    var i := IndexOf(s, '.');
    if i == |s| then None
    else
      var rest := s[i + 1..];
      if |rest| >= 2 && rest[0] == '(' && rest[|rest| - 1] == ')' then
        match (ParseNat(s[..i]), ParseInts(rest[1..|rest| - 1]))
        case (Some(n), Some(xs)) =>
          if |xs| == 5 then Some((n, Ainvs(xs[0], xs[1], xs[2], xs[3], xs[4]))) else None
        case _ => None
      else None
  }

  lemma {:induction false} NatRoundTrip(n: nat)
    ensures DigitsValue(NatToString(n)) == n
  {
    if n >= 10 {
      var s := NatToString(n);
      assert s[..|s| - 1] == NatToString(n / 10);
      NatRoundTrip(n / 10);
    }
  }

  /** `str` of an integer reads back as that integer. */
  lemma IntRoundTrip(x: int)
    ensures ParseInt(IntToString(x)) == Some(x)
  {
    if x < 0 {
      NatRoundTrip(-x);
      assert IntToString(x)[1..] == NatToString(-x);
    } else {
      NatRoundTrip(x);
    }
  }

  lemma {:induction false} JoinRoundTrip(xs: seq<int>)
    requires |xs| >= 1
    ensures ParseInts(JoinInts(xs)) == Some(xs)
    decreases |xs|
  {
    var head := IntToString(xs[0]);
    IntRoundTrip(xs[0]);
    if |xs| == 1 {
      ParseIntsOne(head, xs[0]);
      assert xs == [xs[0]];
    } else {
      JoinRoundTrip(xs[1..]);
      ParseIntsCons(head, JoinInts(xs[1..]), xs[0], xs[1..]);
      assert [xs[0]] + xs[1..] == xs;
    }
  }

  /** A number without a comma is read as a one-element list. */
  lemma ParseIntsOne(head: string, x: int)
    requires ',' !in head && ParseInt(head) == Some(x)
    ensures ParseInts(head) == Some([x])
  {
    IndexOfAfter(head, [], ',');
    assert head + [] == head;
  }

  /** A number, a comma and a space, then more numbers. */
  lemma ParseIntsCons(head: string, rest: string, x: int, xs: seq<int>)
    requires ',' !in head && ParseInt(head) == Some(x) && ParseInts(rest) == Some(xs)
    ensures ParseInts(head + ", " + rest) == Some([x] + xs)
  {
    SplitAtComma(head, rest);
  }

  lemma SplitAtComma(head: string, rest: string)
    requires ',' !in head
    ensures var s := head + ", " + rest;
      && IndexOf(s, ',') == |head| && |head| + 1 < |s| && s[|head| + 1] == ' '
      && s[..|head|] == head && s[|head| + 2..] == rest
  {
    var s := head + ", " + rest;
    assert s == head + (", " + rest);
    IndexOfAfter(head, ", " + rest, ',');
    assert s[..|head|] == head;
    assert s[|head| + 2..] == rest;
  }

  /** A Stein-Watkins label reads back as the curve's conductor and
      coefficients. */
  lemma SWRoundTrip(E: Curve)
    ensures ParseSW(SWLabel(E)) == Some((E.conductor, E.ainvs))
  {
    var xs := AinvsList(E.ainvs);
    NatRoundTrip(E.conductor);
    JoinRoundTrip(xs);
    ParseSWOf(NatToString(E.conductor), JoinInts(xs), E.conductor, xs);
  }

  /** Digits, a dot, and five numbers in parentheses. */
  lemma ParseSWOf(n: string, body: string, c: nat, xs: seq<int>)
    requires '.' !in n && ParseNat(n) == Some(c) && ParseInts(body) == Some(xs) && |xs| == 5
    ensures ParseSW(n + "." + "(" + body + ")") == Some((c, Ainvs(xs[0], xs[1], xs[2], xs[3], xs[4])))
  {
    SplitAtDot(n, body);
  }

  lemma SplitAtDot(n: string, body: string)
    requires '.' !in n
    ensures var s := n + "." + "(" + body + ")";
      var i := IndexOf(s, '.');
      && i == |n| && s[..i] == n
      && var rest := s[i + 1..];
      |rest| >= 2 && rest[0] == '(' && rest[|rest| - 1] == ')' && rest[1..|rest| - 1] == body
  {
    var s := n + "." + "(" + body + ")";
    assert s == n + ("." + "(" + body + ")");
    IndexOfAfter(n, "." + "(" + body + ")", '.');
    assert s[..|n|] == n;
    assert s[|n| + 1..] == "(" + body + ")";
  }

  /** Different curves never share a Stein-Watkins label. */
  lemma SWLabelInjective(E1: Curve, E2: Curve)
    requires SWLabel(E1) == SWLabel(E2)
    ensures E1.conductor == E2.conductor && E1.ainvs == E2.ainvs
  {
    SWRoundTrip(E1);
    SWRoundTrip(E2);
  }

  /** A label safe to write between double quotes in the output files. */
  predicate Quotable(lab: Label) {
    forall i :: 0 <= i < |lab| ==> lab[i] != '"' && lab[i] != '\\'
  }

  /** Stein-Watkins labels contain neither quotes nor backslashes. */
  lemma SWLabelQuotable(E: Curve)
    ensures Quotable(SWLabel(E))
  {
    JoinQuotable(AinvsList(E.ainvs));
  }

  lemma {:induction false} JoinQuotable(xs: seq<int>)
    requires |xs| >= 1
    ensures Quotable(JoinInts(xs))
    decreases |xs|
  {
    if |xs| > 1 {
      JoinQuotable(xs[1..]);
    }
  }
}
