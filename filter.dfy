/** The text filter: the indices of the lines whose raw text contains the
    pattern, ignoring case. */
module Filter {
  import opened Common
  import Parser

  /** Case-insensitive containment of the pattern in a line's raw text. */
  predicate Matches(line: Parser.ParsedLine, pattern: string) {
    Contains(Lower(line.raw), Lower(pattern))
  }

  /** Which lines match, line by line. */
  function Mask(lines: seq<Parser.ParsedLine>, pattern: string): (m: seq<bool>)
    ensures |m| == |lines|
    ensures forall i :: 0 <= i < |lines| ==> m[i] == Matches(lines[i], pattern)
  {
    seq(|lines|, i requires 0 <= i < |lines| => Matches(lines[i], pattern))
  }

  /** The marked indices among the first `n`, ascending. */
  function Select(mask: seq<bool>, n: nat): (r: seq<nat>)
    requires n <= |mask|
    ensures |r| <= n
    ensures forall i :: i in r ==> i < n && mask[i]
    ensures forall i :: 0 <= i < n && mask[i] ==> i in r
    ensures Increasing(r)
    decreases n
  {
    if n == 0 then []
    else
      var prev := Select(mask, n - 1);
      if mask[n - 1] then IncreasingSnoc(prev, n - 1); prev + [n - 1] else prev
  }

  lemma IncreasingSnoc(s: seq<nat>, x: nat)
    requires Increasing(s) && forall y :: y in s ==> y < x
    ensures Increasing(s + [x])
  {
    forall i, j | 0 <= i < j < |s + [x]|
      ensures (s + [x])[i] < (s + [x])[j]
    {
      assert (s + [x])[i] == s[i] && s[i] in s;
    }
  }

  /** `filter_lines`: every index for an empty pattern, otherwise the lines
      whose lower-cased raw text contains the lower-cased pattern. */
  function FilterLines(lines: seq<Parser.ParsedLine>, pattern: string): (r: seq<nat>)
    ensures |r| <= |lines|
    ensures forall i :: i in r ==> i < |lines|
    ensures forall i :: 0 <= i < |lines| ==> (i in r <==> Matches(lines[i], pattern))
    ensures Increasing(r)
    ensures pattern == [] ==> r == seq(|lines|, i => i)
  {
    if pattern == [] then
      EmptyPatternMatches(lines);
      seq(|lines|, i => i)
    else Select(Mask(lines, pattern), |lines|)
  }

  /** The empty pattern is contained in every line, so the shortcut for it
      returns what the general rule would. */
  lemma EmptyPatternMatches(lines: seq<Parser.ParsedLine>)
    ensures forall i :: 0 <= i < |lines| ==> Matches(lines[i], []) && i in seq(|lines|, i => i)
    ensures Increasing(seq(|lines|, i => i))
  {
    forall i | 0 <= i < |lines|
      ensures Matches(lines[i], []) && seq(|lines|, i => i)[i] == i
    {
      ContainsEmpty(Lower(lines[i].raw));
    }
  }

  /** Only the raw text is consulted: lines with the same raw text give the
      same result, whatever their parsed fields. */
  lemma FilterReadsOnlyRaw(a: seq<Parser.ParsedLine>, b: seq<Parser.ParsedLine>, pattern: string)
    requires |a| == |b| && forall i :: 0 <= i < |a| ==> a[i].raw == b[i].raw
    ensures FilterLines(a, pattern) == FilterLines(b, pattern)
  {
    assert Mask(a, pattern) == Mask(b, pattern);
  }

  /** The pattern's case does not matter. */
  lemma FilterIgnoresPatternCase(lines: seq<Parser.ParsedLine>, p: string, q: string)
    requires Lower(p) == Lower(q)
    ensures FilterLines(lines, p) == FilterLines(lines, q)
  {
    var r, s := FilterLines(lines, p), FilterLines(lines, q);
    if p == [] || q == [] {
      assert |Lower(p)| == |p| && |Lower(q)| == |q|;
    }
    IncreasingUnique(r, s);
  }

  /** Two ascending sequences with the same members are equal. */
  lemma {:induction false} IncreasingUnique(r: seq<nat>, s: seq<nat>)
    requires Increasing(r) && Increasing(s)
    requires forall x :: x in r <==> x in s
    ensures r == s
    decreases |r| + |s|
  {
    if r != [] {
      assert r[0] in s;
    }
    if s != [] {
      assert s[0] in r;
    }
    if r != [] && s != [] {
      HeadIsLeast(r, s[0]);
      HeadIsLeast(s, r[0]);
      forall x
        ensures x in r[1..] <==> x in s[1..]
      {
        InTail(r, x);
        InTail(s, x);
      }
      IncreasingUnique(r[1..], s[1..]);
      assert r == [r[0]] + r[1..] && s == [s[0]] + s[1..];
    }
  }

  /** The head of an ascending sequence is its least member. */
  lemma HeadIsLeast(r: seq<nat>, x: nat)
    requires Increasing(r) && r != [] && x in r
    ensures r[0] <= x
  {
  }

  /** The tail of an ascending sequence holds its members other than the head. */
  lemma InTail(r: seq<nat>, x: nat)
    requires Increasing(r) && r != []
    ensures x in r[1..] <==> x in r && x != r[0]
  {
    if x in r[1..] {
      var k :| 1 <= k < |r| && r[k] == x;
    }
    if x in r && x != r[0] {
      var k :| 0 <= k < |r| && r[k] == x;
      assert r[1..][k - 1] == x;
    }
  }
}
