/** The two writers of ComputePairs.py that save pair lists as Magma source,
    `pairs := [ ... ];` with a line continuation after each line, and a
    reader that recovers the pairs from such text once the continuations are
    removed, as Magma does when it reads the file. */
module Writers {
  import opened Base
  import opened Labels
  import StarField

  type Pair = StarField.Pair

  /** A backslash followed by a newline: Magma's line continuation. */
  const Continuation: string := "\\\n"

  /** `pairs := [` followed by a continuation. */
  const Opening: string := "pairs := ["
  const Header: string := Opening + Continuation

  /** The closing line. */
  const Footer: string := "];\n"

  /** `'["{}", "{}"]'.format(a, b)`. */
  function Entry(pr: Pair): string {
    "[\"" + pr.0 + "\", \"" + pr.1 + "\"]"
  }

  /** A comma when another entry follows. */
  function Comma(more: bool): string {
    if more then "," else ""
  }

  /** Entry `k` of `pairs` as written: with a comma unless it is the last. */
  function Item(pairs: seq<Pair>, k: nat): string
    requires k < |pairs|
  {
    Entry(pairs[k]) + Comma(k < |pairs| - 1)
  }

  /* The reducible writer. */

  /** The lines of the first `n` entries: each entry with its comma, then a
      continuation. */
  function RedLines(pairs: seq<Pair>, n: nat): string
    requires n <= |pairs|
  {
    if n == 0 then "" else RedLines(pairs, n - 1) + Item(pairs, n - 1) + Continuation
  }

  /** The whole text of `pairs_mod5_red.m`. */
  function ReducibleText(pairs: seq<Pair>): string {
    Header + RedLines(pairs, |pairs|) + Footer
  }

  /** The writing loop over `enumerate(pairs)`; `out.write` appends to `out`. */
  method WriteReducible(pairs: seq<Pair>) returns (out: string)
    ensures out == ReducibleText(pairs)
  {
    out := Header;
    for i := 0 to |pairs|
      invariant out == Header + RedLines(pairs, i)
    {
      out := out + Entry(pairs[i]);
      if i < |pairs| - 1 {
        out := out + ",";
      }
      out := out + Continuation;
    }
    out := out + Footer;
  }

  /* The irreducible writer. */

  /** The pairs written for one group: its first label with each later one. */
  function Fan(s: seq<Label>): (r: seq<Pair>)
    ensures |s| >= 1 ==> |r| == |s| - 1
  {
    if |s| <= 1 then [] else FanUpTo(s, |s| - 1)
  }

  function FanUpTo(s: seq<Label>, n: nat): (r: seq<Pair>)
    requires n < |s|
    ensures |r| == n
  {
    if n == 0 then [] else FanUpTo(s, n - 1) + [(s[0], s[n])]
  }

  lemma {:induction false} FanUpToAt(s: seq<Label>, n: nat, j: nat)
    requires 1 <= j <= n < |s|
    ensures FanUpTo(s, n)[j - 1] == (s[0], s[j])
  {
    if j < n {
      FanUpToAt(s, n - 1, j);
    }
  }

  lemma FanAt(s: seq<Label>, j: nat)
    requires 1 <= j < |s|
    ensures Fan(s)[j - 1] == (s[0], s[j])
  {
    FanUpToAt(s, |s| - 1, j);
  }

  /** The pairs written for groups `a <= i < b`, group after group. */
  function Fans(groups: seq<seq<Label>>, a: nat, b: nat): seq<Pair>
    requires a <= b <= |groups|
    decreases b
  {
    if a == b then [] else Fans(groups, a, b - 1) + Fan(groups[b - 1])
  }

  /** The pairs written for all the groups. */
  function IrredPairs(groups: seq<seq<Label>>): seq<Pair> {
    Fans(groups, 0, |groups|)
  }

  /** Entry `j >= 1` of group `s`, with a comma unless `j` is the last
      index of the group and no group follows (`more` is false). */
  function GroupEntry(s: seq<Label>, j: nat, more: bool): string
    requires 1 <= j < |s|
  {
    Entry((s[0], s[j])) + Comma(j < |s| - 1 || more)
  }

  /** The entries `1 <= j < n` of group `s`. */
  function GroupEntries(s: seq<Label>, more: bool, n: nat): string
    requires n <= |s|
  {
    if n <= 1 then "" else GroupEntries(s, more, n - 1) + GroupEntry(s, n - 1, more)
  }

  /** The lines of the first `n` groups: each group's entries, then a
      continuation. */
  function IrredLines(groups: seq<seq<Label>>, n: nat): string
    requires n <= |groups|
  {
    if n == 0 then "" else IrredLines(groups, n - 1) + GroupEntries(groups[n - 1], n - 1 < |groups| - 1, |groups[n - 1]|) + Continuation
  }

  /** The whole text of `pairs_mod5_irred.m`. */
  function IrreducibleText(groups: seq<seq<Label>>): string {
    Header + IrredLines(groups, |groups|) + Footer
  }

  /** The writing loops over `enumerate(isom_sets_irred)` and
      `enumerate(s)`, skipping `j == 0`. */
  method WriteIrreducible(groups: seq<seq<Label>>) returns (out: string)
    ensures out == IrreducibleText(groups)
  {
    out := Header;
    for i := 0 to |groups|
      invariant out == Header + IrredLines(groups, i)
    {
      out := WriteGroup(out, groups[i], i < |groups| - 1);
      out := out + Continuation;
    }
    out := out + Footer;
  }

  /** The line of one group `s`, appended to `out0`; `more` says whether
      another group follows. */
  method WriteGroup(out0: string, s: seq<Label>, more: bool) returns (out: string)
    ensures out == out0 + GroupEntries(s, more, |s|)
  {
    out := out0;
    for j := 0 to |s|
      invariant out == out0 + GroupEntries(s, more, j)
    {
      if j == 0 {
        continue;
      }
      ghost var before := out;
      var e := Entry((s[0], s[j]));
      out := out + e;
      if j < |s| - 1 || more {
        out := out + ",";
      } else {
        assert out == before + e + "";
      }
      EntryStep(out0, before, e, out, s, more, j);
    }
  }

  /** Writing entry `j` and its comma extends the group's entries by one. */
  lemma EntryStep(out0: string, before: string, e: string, out: string, s: seq<Label>, more: bool, j: nat)
    requires 1 <= j < |s| && e == Entry((s[0], s[j]))
    requires before == out0 + GroupEntries(s, more, j)
    requires out == before + e + Comma(j < |s| - 1 || more)
    ensures out == out0 + GroupEntries(s, more, j + 1)
  {
    Assoc(before, e, Comma(j < |s| - 1 || more));
    Assoc(out0, GroupEntries(s, more, j), GroupEntry(s, j, more));
  }

  /* Reading the files back. */

  /** The text with every backslash-newline removed. */
  function Strip(s: string): string {
    if s == [] then []
    else if |s| >= 2 && s[0] == '\\' && s[1] == '\n' then Strip(s[2..])
    else [s[0]] + Strip(s[1..])
  }

  /** The entries separated by commas: the text between the brackets. */
  function Joined(pairs: seq<Pair>): string {
    if pairs == [] then ""
    else if |pairs| == 1 then Entry(pairs[0])
    else Entry(pairs[0]) + "," + Joined(pairs[1..])
  }

  /** Reads one entry `["a", "b"]` off the front of `s`. */
  function ParseEntry(s: string): (r: Option<(Pair, string)>)
    ensures r.Some? ==> |r.value.1| < |s|
  {
    if |s| < 2 || s[..2] != "[\"" then None
    else
      var t := s[2..];
      var k := IndexOf(t, '"');
      if |t| < k + 4 || t[k..k + 4] != "\", \"" then None
      else
        var u := t[k + 4..];
        var m := IndexOf(u, '"');
        if |u| < m + 2 || u[m..m + 2] != "\"]" then None
        else Some(((t[..k], u[..m]), u[m + 2..]))
  }

  /** Reads one or more entries separated by commas, up to the end of `s`;
      a comma must be followed by another entry. */
  function ParseEntries(s: string): Option<seq<Pair>>
    decreases |s|
  {
    match ParseEntry(s)
    case None => None
    case Some((pr, rest)) =>
      if rest == "" then Some([pr])
      else if rest[0] != ',' then None
      else
        match ParseEntries(rest[1..])
        case None => None
        case Some(prs) => Some([pr] + prs)
  }

  /** Reads a whole file whose continuations have been removed. */
  function ParseFile(s: string): Option<seq<Pair>> {
    if |s| < |Opening| + |Footer| || s[..|Opening|] != Opening || s[|s| - |Footer|..] != Footer then None
    else
      var body := s[|Opening|..|s| - |Footer|];
      if body == "" then Some([]) else ParseEntries(body)
  }

  /** Both labels of every pair can be written between double quotes. */
  predicate AllQuotable(pairs: seq<Pair>) {
    forall i :: 0 <= i < |pairs| ==> Quotable(pairs[i].0) && Quotable(pairs[i].1)
  }

  /** Every label of every group can be written between double quotes. */
  predicate GroupsQuotable(groups: seq<seq<Label>>) {
    forall i, k :: 0 <= i < |groups| && 0 <= k < |groups[i]| ==> Quotable(groups[i][k])
  }

  /** Every group has a first label and at least one more. */
  predicate NoSmallGroups(groups: seq<seq<Label>>) {
    forall i :: 0 <= i < |groups| ==> |groups[i]| >= 2
  }

  /** The file text as Magma reads it: the entries of the first `n` pairs,
      each followed by a comma unless it is the last pair. */
  function Listed(pairs: seq<Pair>, n: nat): string
    requires n <= |pairs|
  {
    if n == 0 then "" else Listed(pairs, n - 1) + Item(pairs, n - 1)
  }

  /* Stripping continuations. */

  /** `s` is empty or does not end in a backslash. */
  predicate CleanEnd(s: string) {
    s == [] || s[|s| - 1] != '\\'
  }

  lemma Assoc<T>(x: seq<T>, y: seq<T>, z: seq<T>)
    ensures x + (y + z) == (x + y) + z
  {
  }

  lemma CleanEndAppend(x: string, y: string)
    requires CleanEnd(y) && (y != [] || CleanEnd(x))
    ensures CleanEnd(x + y)
  {
    if y == [] {
      assert x + y == x;
    } else {
      assert (x + y)[|x + y| - 1] == y[|y| - 1];
    }
  }

  /** A character that does not start a continuation is kept. */
  lemma StripCons(c: char, s: string)
    requires c != '\\' || s == [] || s[0] != '\n'
    ensures Strip([c] + s) == [c] + Strip(s)
  {
    assert ([c] + s)[1..] == s;
  }

  /** A continuation disappears. */
  lemma StripContinuation(s: string)
    ensures Strip(Continuation + s) == Strip(s)
  {
    assert (Continuation + s)[2..] == s;
  }

  /** Stripping works piece by piece when no continuation straddles the cut. */
  lemma {:induction false} StripAppend(a: string, b: string)
    requires CleanEnd(a)
    ensures Strip(a + b) == Strip(a) + Strip(b)
    decreases |a|
  {
    if a == [] {
      assert a + b == b;
    } else if |a| >= 2 && a[0] == '\\' && a[1] == '\n' {
      assert a == Continuation + a[2..];
      Assoc(Continuation, a[2..], b);
      StripContinuation(a[2..]);
      StripContinuation(a[2..] + b);
      StripAppend(a[2..], b);
    } else {
      var c, a' := a[0], a[1..];
      assert a == [c] + a';
      Assoc([c], a', b);
      StripCons(c, a');
      StripCons(c, a' + b);
      StripAppend(a', b);
      Assoc([c], Strip(a'), Strip(b));
    }
  }

  /** Text without backslashes is left as it is. */
  lemma {:induction false} StripPlain(s: string)
    requires '\\' !in s
    ensures Strip(s) == s
  {
    if s != [] {
      assert s == [s[0]] + s[1..];
      StripCons(s[0], s[1..]);
      StripPlain(s[1..]);
    }
  }

  /** A piece without backslashes, then a continuation, strips to the piece. */
  lemma StripLine(x: string)
    requires '\\' !in x
    ensures Strip(x + Continuation) == x && CleanEnd(x + Continuation)
  {
    StripAppend(x, Continuation);
    StripPlain(x);
    StripContinuation([]);
    assert Continuation + [] == Continuation;
    assert x + [] == x;
    CleanEndAppend(x, Continuation);
  }

  lemma EntryPlain(pr: Pair)
    requires Quotable(pr.0) && Quotable(pr.1)
    ensures '\\' !in Entry(pr)
  {
  }

  /** Stripping a whole file leaves the opening, the stripped body and the
      closing line. */
  lemma StripFile(body: string)
    requires CleanEnd(body)
    ensures Strip(Header + body + Footer) == Opening + Strip(body) + Footer
  {
    StripLine(Opening);
    CleanEndAppend(Header, body);
    StripAppend(Header, body);
    StripAppend(Header + body, Footer);
    StripPlain(Footer);
  }

  /** The reducible file's lines, stripped, are the listed entries. */
  lemma {:induction false} StripRedLines(pairs: seq<Pair>, n: nat)
    requires n <= |pairs| && AllQuotable(pairs)
    ensures Strip(RedLines(pairs, n)) == Listed(pairs, n)
    ensures CleanEnd(RedLines(pairs, n))
  {
    if n > 0 {
      StripRedLines(pairs, n - 1);
      EntryPlain(pairs[n - 1]);
      LinesStep(RedLines(pairs, n - 1), Item(pairs, n - 1), RedLines(pairs, n), Listed(pairs, n - 1), Listed(pairs, n));
    }
  }

  /** The listed entries followed by the rest, comma-joined, are all the
      entries comma-joined. */
  lemma {:induction false} ListedJoined(pairs: seq<Pair>, n: nat)
    requires n <= |pairs|
    ensures Listed(pairs, n) + Joined(pairs[n..]) == Joined(pairs)
  {
    if n == 0 {
      assert pairs[0..] == pairs;
    } else {
      ListedJoined(pairs, n - 1);
      var q := pairs[n - 1..];
      var rest := Joined(pairs[n..]);
      assert q[0] == pairs[n - 1] && q[1..] == pairs[n..];
      assert Item(pairs, n - 1) + rest == Joined(q) by {
        if n == |pairs| {
          assert pairs[n..] == [];
          assert Item(pairs, n - 1) + rest == Entry(pairs[n - 1]);
        }
      }
      Assoc(Listed(pairs, n - 1), Item(pairs, n - 1), rest);
    }
  }

  /* Reading back. */

  /** Cutting `x + y + z` at the seams gives the three pieces back. */
  lemma Pieces(x: string, y: string, z: string)
    ensures (x + y + z)[..|x|] == x
    ensures (x + y + z)[|x|..|x| + |y|] == y
    ensures (x + y + z)[|x| + |y|..] == z
  {
  }

  /** The first `c` after a text free of `c`. */
  lemma IndexPast(a: string, rest: string, c: char)
    requires c !in a && rest != [] && rest[0] == c
    ensures IndexOf(a + rest, c) == |a|
  {
    IndexOfAfter(a, rest, c);
  }

  lemma QuotableNoQuote(lab: Label)
    requires Quotable(lab)
    ensures '"' !in lab
  {
  }

  /** One entry is read back whole, and reading stops right after it. */
  lemma EntryRoundTrip(pr: Pair, rest: string)
    requires Quotable(pr.0) && Quotable(pr.1)
    ensures ParseEntry(Entry(pr) + rest) == Some((pr, rest))
  {
    var u := pr.1 + "\"]" + rest;
    var t := pr.0 + "\", \"" + u;
    assert Entry(pr) + rest == "[\"" + t;
    QuotableNoQuote(pr.0);
    QuotableNoQuote(pr.1);
    ParseEntryOf(pr.0, pr.1, rest, t, u);
  }

  lemma ParseEntryOf(a: string, b: string, rest: string, t: string, u: string)
    requires u == b + "\"]" + rest && t == a + "\", \"" + u
    requires '"' !in a && '"' !in b
    ensures ParseEntry("[\"" + t) == Some(((a, b), rest))
  {
    Pieces("[\"", t, []);
    IndexPast(a, "\", \"" + u, '"');
    IndexPast(b, "\"]" + rest, '"');
    Pieces(a, "\", \"", u);
    Pieces(b, "\"]", rest);
  }

  /** Reading the comma-joined entries gives the pairs back. */
  lemma {:induction false} JoinedRoundTrip(pairs: seq<Pair>)
    requires pairs != [] && AllQuotable(pairs)
    ensures ParseEntries(Joined(pairs)) == Some(pairs)
  {
    if |pairs| == 1 {
      JoinedOne(pairs);
    } else {
      assert AllQuotable(pairs[1..]);
      JoinedRoundTrip(pairs[1..]);
      JoinedStep(pairs);
    }
  }

  lemma JoinedOne(pairs: seq<Pair>)
    requires |pairs| == 1 && AllQuotable(pairs)
    ensures ParseEntries(Joined(pairs)) == Some(pairs)
  {
    var e := Entry(pairs[0]);
    EntryRoundTrip(pairs[0], "");
    assert e + "" == e;
    ParseLast(e, pairs[0]);
    assert pairs == [pairs[0]];
  }

  lemma JoinedStep(pairs: seq<Pair>)
    requires |pairs| >= 2 && AllQuotable(pairs)
    requires ParseEntries(Joined(pairs[1..])) == Some(pairs[1..])
    ensures ParseEntries(Joined(pairs)) == Some(pairs)
  {
    var e := Entry(pairs[0]);
    var tail := Joined(pairs[1..]);
    EntryRoundTrip(pairs[0], "," + tail);
    Assoc(e, ",", tail);
    ParseCons(e + "," + tail, pairs[0], tail, pairs[1..]);
    assert [pairs[0]] + pairs[1..] == pairs;
  }

  lemma ParseLast(s: string, pr: Pair)
    requires ParseEntry(s) == Some((pr, ""))
    ensures ParseEntries(s) == Some([pr])
  {
  }

  lemma ParseCons(s: string, pr: Pair, tail: string, prs: seq<Pair>)
    requires ParseEntry(s) == Some((pr, "," + tail))
    requires ParseEntries(tail) == Some(prs)
    ensures ParseEntries(s) == Some([pr] + prs)
  {
    assert ("," + tail)[1..] == tail;
  }

  /** Reading a file made of the opening, the comma-joined entries and the
      closing line gives the pairs back. */
  lemma FileRoundTrip(pairs: seq<Pair>)
    requires AllQuotable(pairs)
    ensures ParseFile(Opening + Joined(pairs) + Footer) == Some(pairs)
  {
    Pieces(Opening, Joined(pairs), Footer);
    if pairs != [] {
      JoinedRoundTrip(pairs);
    }
  }

  /** The reducible file, read back by Magma, holds exactly `pairs`, in
      order: commas stand only between entries. */
  lemma ReducibleRoundTrip(pairs: seq<Pair>)
    requires AllQuotable(pairs)
    ensures Strip(ReducibleText(pairs)) == Opening + Joined(pairs) + Footer
    ensures ParseFile(Strip(ReducibleText(pairs))) == Some(pairs)
  {
    StripRedLines(pairs, |pairs|);
    StripFile(RedLines(pairs, |pairs|));
    ListedJoined(pairs, |pairs|);
    assert pairs[|pairs|..] == [];
    assert Listed(pairs, |pairs|) + "" == Listed(pairs, |pairs|);
    FileRoundTrip(pairs);
  }

  /* The irreducible file read back. */

  /** The pairs of a range of groups are those of its two halves. */
  lemma {:induction false} FansSplit(groups: seq<seq<Label>>, a: nat, b: nat, c: nat)
    requires a <= b <= c <= |groups|
    ensures Fans(groups, a, c) == Fans(groups, a, b) + Fans(groups, b, c)
    decreases c
  {
    if c == b {
      assert Fans(groups, a, b) + [] == Fans(groups, a, b);
    } else {
      FansSplit(groups, a, b, c - 1);
      Assoc(Fans(groups, a, b), Fans(groups, b, c - 1), Fan(groups[c - 1]));
    }
  }

  /** A range of groups that ends in a group of two or more labels has
      pairs. */
  lemma FansNonempty(groups: seq<seq<Label>>, a: nat, b: nat)
    requires a < b <= |groups| && |groups[b - 1]| >= 2
    ensures |Fans(groups, a, b)| > 0
  {
    FanGrows(Fans(groups, a, b - 1), groups[b - 1]);
  }

  lemma FanGrows(x: seq<Pair>, s: seq<Label>)
    requires |s| >= 2
    ensures |x + Fan(s)| == |x| + |s| - 1 > |x|
  {
  }

  /** Where the pairs of group `i` sit among all the pairs. */
  lemma IrredLayout(groups: seq<seq<Label>>, i: nat)
    requires i < |groups| && NoSmallGroups(groups)
    ensures IrredPairs(groups) == Fans(groups, 0, i) + Fan(groups[i]) + Fans(groups, i + 1, |groups|)
    ensures |Fans(groups, i + 1, |groups|)| > 0 <==> i < |groups| - 1
  {
    FansSplit(groups, 0, i + 1, |groups|);
    assert Fans(groups, 0, i + 1) == Fans(groups, 0, i) + Fan(groups[i]);
    if i < |groups| - 1 {
      FansNonempty(groups, i + 1, |groups|);
    }
  }

  lemma IndexMiddle(all: seq<Pair>, x: seq<Pair>, y: seq<Pair>, z: seq<Pair>, j: nat)
    requires all == x + y + z && j < |y|
    ensures all[|x| + j] == y[j] && |all| == |x| + |y| + |z|
  {
  }

  /** The entries of a group whose pairs sit between `x` and `z` continue
      the listing of `all` where `x` ends; the last one has a comma exactly
      when pairs follow in `z`. */
  lemma {:induction false} GroupListed(all: seq<Pair>, x: seq<Pair>, s: seq<Label>, z: seq<Pair>, more: bool, t: nat)
    requires all == x + Fan(s) + z && (|z| > 0 <==> more) && 1 <= t <= |s|
    ensures |x| + t - 1 <= |all|
    ensures Listed(all, |x|) + GroupEntries(s, more, t) == Listed(all, |x| + t - 1)
  {
    assert |all| == |x| + |Fan(s)| + |z|;
    if t == 1 {
      assert Listed(all, |x|) + "" == Listed(all, |x|);
    } else {
      GroupListed(all, x, s, z, more, t - 1);
      var k := |x| + t - 2;
      IndexMiddle(all, x, Fan(s), z, t - 2);
      FanAt(s, t - 1);
      ItemOf(all, k, (s[0], s[t - 1]), t - 1 < |s| - 1 || more);
      ListedExtend(all, |x|, GroupEntries(s, more, t - 1), GroupEntries(s, more, t), k);
    }
  }

  /** Entry `k` of `pairs` is the entry of the pair there, with a comma
      exactly when it is not the last. */
  lemma ItemOf(pairs: seq<Pair>, k: nat, pr: Pair, more: bool)
    requires k < |pairs| && pairs[k] == pr && (k < |pairs| - 1 <==> more)
    ensures Item(pairs, k) == Entry(pr) + Comma(more)
  {
  }

  /** Text that continues the listing up to entry `k` continues it up to
      entry `k + 1` once entry `k` is added. */
  lemma ListedExtend(pairs: seq<Pair>, m: nat, a: string, b: string, k: nat)
    requires m <= k < |pairs| && Listed(pairs, m) + a == Listed(pairs, k)
    requires b == a + Item(pairs, k)
    ensures Listed(pairs, m) + b == Listed(pairs, k + 1)
  {
    Assoc(Listed(pairs, m), a, Item(pairs, k));
  }

  lemma {:induction false} GroupPlain(s: seq<Label>, more: bool, n: nat)
    requires n <= |s| && forall k :: 0 <= k < |s| ==> Quotable(s[k])
    ensures '\\' !in GroupEntries(s, more, n)
  {
    if n > 1 {
      GroupPlain(s, more, n - 1);
      EntryPlain((s[0], s[n - 1]));
    }
  }

  /** The irreducible file's lines, stripped, list the pairs of all groups. */
  lemma {:induction false} StripIrredLines(groups: seq<seq<Label>>, n: nat)
    requires n <= |groups| && NoSmallGroups(groups) && GroupsQuotable(groups)
    ensures |Fans(groups, 0, n)| <= |IrredPairs(groups)|
    ensures Strip(IrredLines(groups, n)) == Listed(IrredPairs(groups), |Fans(groups, 0, n)|)
    ensures CleanEnd(IrredLines(groups, n))
  {
    if n > 0 {
      var g := groups[n - 1];
      var all := IrredPairs(groups);
      var es := GroupEntries(g, n - 1 < |groups| - 1, |g|);
      IrredLineFacts(groups, n);
      StripIrredLines(groups, n - 1);
      LinesStep(IrredLines(groups, n - 1), es, IrredLines(groups, n),
        Listed(all, |Fans(groups, 0, n - 1)|), Listed(all, |Fans(groups, 0, n)|));
    }
  }

  /** What line `n - 1` of the irreducible file adds. */
  lemma IrredLineFacts(groups: seq<seq<Label>>, n: nat)
    requires 1 <= n <= |groups| && NoSmallGroups(groups) && GroupsQuotable(groups)
    ensures |Fans(groups, 0, n)| <= |IrredPairs(groups)|
    ensures '\\' !in GroupEntries(groups[n - 1], n - 1 < |groups| - 1, |groups[n - 1]|)
    ensures Listed(IrredPairs(groups), |Fans(groups, 0, n - 1)|)
        + GroupEntries(groups[n - 1], n - 1 < |groups| - 1, |groups[n - 1]|)
      == Listed(IrredPairs(groups), |Fans(groups, 0, n)|)
  {
    var i, g := n - 1, groups[n - 1];
    IrredLayout(groups, i);
    assert |Fans(groups, 0, n)| == |Fans(groups, 0, i)| + |g| - 1 by {
      FanGrows(Fans(groups, 0, i), g);
    }
    GroupListed(IrredPairs(groups), Fans(groups, 0, i), g, Fans(groups, n, |groups|), i < |groups| - 1, |g|);
    GroupPlain(g, i < |groups| - 1, |g|);
  }

  /** Adding a line of plain text and a continuation extends the stripped
      text by that line. */
  lemma LinesStep(prev: string, line: string, lines: string, before: string, after: string)
    requires CleanEnd(prev) && Strip(prev) == before && '\\' !in line
    requires before + line == after && lines == prev + line + Continuation
    ensures Strip(lines) == after && CleanEnd(lines)
  {
    StripLine(line);
    Assoc(prev, line, Continuation);
    StripAppend(prev, line + Continuation);
    CleanEndAppend(prev, line + Continuation);
  }

  lemma {:induction false} FansQuotable(groups: seq<seq<Label>>, a: nat, b: nat, k: nat)
    requires a <= b <= |groups| && GroupsQuotable(groups) && k < |Fans(groups, a, b)|
    ensures Quotable(Fans(groups, a, b)[k].0) && Quotable(Fans(groups, a, b)[k].1)
    decreases b
  {
    var init, g := Fans(groups, a, b - 1), groups[b - 1];
    if k < |init| {
      FansQuotable(groups, a, b - 1, k);
    } else {
      var j := k - |init| + 1;
      FanAt(g, j);
      assert Fans(groups, a, b)[k] == Fan(g)[j - 1];
    }
  }

  /** When every group has at least two labels (the filter on `len(v) > 1`
      guarantees it), Magma reads the irreducible file as the list of pairs
      `[s[0], s[j]]`, group after group, with commas only between entries. */
  lemma IrreducibleRoundTrip(groups: seq<seq<Label>>)
    requires NoSmallGroups(groups) && GroupsQuotable(groups)
    ensures Strip(IrreducibleText(groups)) == Opening + Joined(IrredPairs(groups)) + Footer
    ensures ParseFile(Strip(IrreducibleText(groups))) == Some(IrredPairs(groups))
  {
    var all := IrredPairs(groups);
    StripIrredLines(groups, |groups|);
    StripFile(IrredLines(groups, |groups|));
    ListedJoined(all, |all|);
    assert all[|all|..] == [];
    assert Listed(all, |all|) + "" == Listed(all, |all|);
    assert AllQuotable(all) by {
      forall k | 0 <= k < |all|
        ensures Quotable(all[k].0) && Quotable(all[k].1)
      {
        FansQuotable(groups, 0, |groups|, k);
      }
    }
    FileRoundTrip(all);
  }

  /** Without the filter, a trailing group with a single label leaves a
      comma before the closing bracket, and the file does not read back. */
  lemma TrailingSingletonDangles()
    ensures Strip(IrreducibleText([["a", "b"], ["c"]])) == Opening + Entry(("a", "b")) + "," + Footer
    ensures ParseFile(Strip(IrreducibleText([["a", "b"], ["c"]]))) == None
  {
    var e := Entry(("a", "b"));
    var lines := IrredLines([["a", "b"], ["c"]], 2);
    DanglingLines();
    StripFile(lines);
    Assoc(Opening, e, ",");
    DanglingParse();
  }

  /** The lines written for `[["a", "b"], ["c"]]`, stripped: one entry and a
      comma. */
  lemma DanglingLines()
    ensures Strip(IrredLines([["a", "b"], ["c"]], 2)) == Entry(("a", "b")) + ","
    ensures CleanEnd(IrredLines([["a", "b"], ["c"]], 2))
  {
    var groups: seq<seq<Label>> := [["a", "b"], ["c"]];
    var e := Entry(("a", "b"));
    assert GroupEntries(["a", "b"], true, 2) == e + "," by {
      assert GroupEntries(["a", "b"], true, 1) == "";
      assert GroupEntry(["a", "b"], 1, true) == e + ",";
    }
    assert GroupEntries(["c"], false, 1) == "";
    assert IrredLines(groups, 0) == "";
    EntryPlain(("a", "b"));
    LinesStep("", e + ",", IrredLines(groups, 1), "", e + ",");
    assert (e + ",") + "" == e + ",";
    LinesStep(IrredLines(groups, 1), "", IrredLines(groups, 2), e + ",", e + ",");
  }

  /** A file whose only entry is followed by a comma does not read back. */
  lemma DanglingParse()
    ensures ParseFile(Opening + (Entry(("a", "b")) + ",") + Footer) == None
  {
    var e := Entry(("a", "b"));
    Pieces(Opening, e + ",", Footer);
    EntryRoundTrip(("a", "b"), ",");
    assert ","[1..] == "";
    assert ParseEntries("") == None;
    assert ParseEntries(e + ",") == None;
  }
}
