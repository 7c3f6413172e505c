/** The per-line time index behind the timeline sparkline: one resolved
    instant per line, forward-filled from the nearest earlier line that has
    one, with the smallest and largest instant parsed. */
module TimeIndexing {
  import opened Common
  import Parser
  import opened Timestamp

  // ---------------------------------------------------------------------------
  // Specification of the slots
  // ---------------------------------------------------------------------------

  /** The instant of one line's timestamp field, and the remembered format
      afterwards; a line without the field is not read. */
  function LineTimestamp(ch: Chrono, year: int, cache: Option<nat>, line: Parser.ParsedLine): (r: (Option<int>, Option<nat>))
    requires ValidCache(cache)
    ensures ValidCache(r.1)
    ensures line.timestamp.None? ==> r == (None, cache)
  {
    match line.timestamp
    case None => (None, cache)
    case Some(s) => ParseTimestampSpec(ch, year, cache, s)
  }

  /** The instants of the lines, read in order with the remembered format
      carried from line to line, and the remembered format at the end. */
  function ResolveAll(ch: Chrono, year: int, cache: Option<nat>, lines: seq<Parser.ParsedLine>): (r: (seq<Option<int>>, Option<nat>))
    requires ValidCache(cache)
    ensures |r.0| == |lines| && ValidCache(r.1)
    decreases |lines|
  {
    if lines == [] then ([], cache)
    else
      var prev := ResolveAll(ch, year, cache, lines[..|lines| - 1]);
      var last := LineTimestamp(ch, year, prev.1, lines[|lines| - 1]);
      (prev.0 + [last.0], last.1)
  }

  /** Reading two batches one after the other, carrying the remembered format
      across, reads their concatenation. */
  lemma {:induction false} ResolveAllAppend(ch: Chrono, year: int, cache: Option<nat>,
                                            a: seq<Parser.ParsedLine>, b: seq<Parser.ParsedLine>)
    requires ValidCache(cache)
    ensures ResolveAll(ch, year, cache, a + b)
            == (ResolveAll(ch, year, cache, a).0 + ResolveAll(ch, year, ResolveAll(ch, year, cache, a).1, b).0,
                ResolveAll(ch, year, ResolveAll(ch, year, cache, a).1, b).1)
    decreases |b|
  {
    if b == [] {
      assert a + b == a;
      var ra := ResolveAll(ch, year, cache, a);
      assert ResolveAll(ch, year, ra.1, b) == ([], ra.1);
      assert ra.0 + [] == ra.0;
    } else {
      var b' := b[..|b| - 1];
      assert (a + b)[..|a + b| - 1] == a + b';
      assert (a + b)[|a + b| - 1] == b[|b| - 1];
      ResolveAllAppend(ch, year, cache, a, b');
      var ra := ResolveAll(ch, year, cache, a);
      var rb' := ResolveAll(ch, year, ra.1, b');
      var last := LineTimestamp(ch, year, rb'.1, b[|b| - 1]);
      assert ResolveAll(ch, year, ra.1, b) == (rb'.0 + [last.0], last.1);
      assert ResolveAll(ch, year, cache, a + b) == (ra.0 + rb'.0 + [last.0], last.1);
      assert ra.0 + rb'.0 + [last.0] == ra.0 + (rb'.0 + [last.0]);
    }
  }

  lemma ResolveAllSnoc(ch: Chrono, year: int, cache: Option<nat>, lines: seq<Parser.ParsedLine>, i: nat)
    requires ValidCache(cache) && i < |lines|
    ensures var prev := ResolveAll(ch, year, cache, lines[..i]);
            var last := LineTimestamp(ch, year, prev.1, lines[i]);
            ResolveAll(ch, year, cache, lines[..i + 1]) == (prev.0 + [last.0], last.1)
  {
    assert lines[..i + 1][..i] == lines[..i];
  }

  /** The last slot, or `seed` when there are none. */
  function LastOr(seed: Option<int>, p: seq<Option<int>>): Option<int> {
    if p == [] then seed else p[|p| - 1]
  }

  /** Forward filling: a slot without an instant takes the previous slot's
      (the `seed` before the first). */
  function ForwardFill(seed: Option<int>, xs: seq<Option<int>>): (r: seq<Option<int>>)
    ensures |r| == |xs|
    ensures forall i :: 0 <= i < |xs| && xs[i].Some? ==> r[i] == xs[i]
    ensures forall i {:trigger xs[i]} :: 0 <= i < |xs| && xs[i].None? ==> r[i] == (if i == 0 then seed else r[i - 1])
    decreases |xs|
  {
    if xs == [] then []
    else
      var xs' := xs[..|xs| - 1];
      var p := ForwardFill(seed, xs');
      var r := p + [if xs[|xs| - 1].Some? then xs[|xs| - 1] else LastOr(seed, p)];
      assert forall i :: 0 <= i < |xs'| ==> r[i] == p[i] && xs'[i] == xs[i];
      assert xs[|xs'|].None? ==> r[|xs'|] == (if |xs'| == 0 then seed else r[|xs'| - 1]);
      r
  }

  lemma ForwardFillSnoc(seed: Option<int>, xs: seq<Option<int>>, x: Option<int>)
    ensures ForwardFill(seed, xs + [x])
            == ForwardFill(seed, xs) + [if x.Some? then x else LastOr(seed, ForwardFill(seed, xs))]
  {
    assert (xs + [x])[..|xs|] == xs;
  }

  /** With no seed, a slot is resolved exactly when some line up to it has
      its own instant: slots before the first parsed line stay empty. */
  lemma {:induction false} ForwardFillResolved(xs: seq<Option<int>>, i: nat)
    requires i < |xs|
    ensures ForwardFill(None, xs)[i].Some? <==> exists j :: 0 <= j <= i && xs[j].Some?
  {
    if xs[i].Some? {
      assert 0 <= i <= i && xs[i].Some?;
    } else if i > 0 {
      ForwardFillResolved(xs, i - 1);
      assert ForwardFill(None, xs)[i] == ForwardFill(None, xs)[i - 1];
      if exists j :: 0 <= j <= i && xs[j].Some? {
        var j :| 0 <= j <= i && xs[j].Some?;
        assert j <= i - 1;
      }
      if ForwardFill(None, xs)[i - 1].Some? {
        var j :| 0 <= j <= i - 1 && xs[j].Some?;
        assert 0 <= j <= i && xs[j].Some?;
      }
    } else {
      assert ForwardFill(None, xs)[0] == None;
    }
  }

  /** A filled slot holds the instant of the nearest line at or before it
      that has one. */
  lemma {:induction false} ForwardFillNearest(seed: Option<int>, xs: seq<Option<int>>, i: nat, j: nat)
    requires j <= i < |xs| && xs[j].Some?
    requires forall k :: j < k <= i ==> xs[k].None?
    ensures ForwardFill(seed, xs)[i] == xs[j]
    decreases i
  {
    if i > j {
      ForwardFillNearest(seed, xs, i - 1, j);
    }
  }

  lemma {:induction false} ForwardFillAppend(seed: Option<int>, a: seq<Option<int>>, b: seq<Option<int>>)
    ensures ForwardFill(seed, a + b) == ForwardFill(seed, a) + ForwardFill(LastOr(seed, ForwardFill(seed, a)), b)
    decreases |b|
  {
    if b == [] {
      assert a + b == a;
    } else {
      var b' := b[..|b| - 1];
      assert (a + b)[..|a + b| - 1] == a + b';
      ForwardFillAppend(seed, a, b');
      var s2 := LastOr(seed, ForwardFill(seed, a));
      assert LastOr(seed, ForwardFill(seed, a + b')) == LastOr(s2, ForwardFill(s2, b'));
    }
  }

  /** The instants held by some slot. */
  function Values(xs: seq<Option<int>>): set<int>
    decreases |xs|
  {
    if xs == [] then {} else Values(xs[..|xs| - 1]) + SeedValues(xs[|xs| - 1])
  }

  lemma {:induction false} ValuesAppend(a: seq<Option<int>>, b: seq<Option<int>>)
    ensures Values(a + b) == Values(a) + Values(b)
    decreases |b|
  {
    if b == [] {
      assert a + b == a;
    } else {
      var b', t := b[..|b| - 1], b[|b| - 1];
      assert b' + [t] == b && (a + b') + [t] == a + b;
      ValuesAppend(a, b');
      ValuesSnoc(a + b', t);
      ValuesSnoc(b', t);
    }
  }

  /** Every slot's instant is one of the values. */
  lemma {:induction false} InValues(xs: seq<Option<int>>, i: nat)
    requires i < |xs| && xs[i].Some?
    ensures xs[i].value in Values(xs)
    decreases |xs|
  {
    if i < |xs| - 1 {
      InValues(xs[..|xs| - 1], i);
    }
  }

  /** Some slot holds an instant when there are values at all. */
  lemma {:induction false} ValuesWitness(xs: seq<Option<int>>)
    requires Values(xs) != {}
    ensures exists i :: 0 <= i < |xs| && xs[i].Some?
    decreases |xs|
  {
    var xs' := xs[..|xs| - 1];
    if xs[|xs| - 1].None? {
      ValuesWitness(xs');
      var i :| 0 <= i < |xs'| && xs'[i].Some?;
      assert xs[i] == xs'[i];
    }
  }

  function SeedValues(seed: Option<int>): set<int> {
    if seed.Some? then {seed.value} else {}
  }

  /** Filling adds no instant but the seed's, and loses none. */
  lemma {:induction false} ForwardFillValues(seed: Option<int>, xs: seq<Option<int>>)
    ensures Values(xs) <= Values(ForwardFill(seed, xs)) <= Values(xs) + SeedValues(seed)
    ensures LastOr(seed, ForwardFill(seed, xs)).Some? ==>
              LastOr(seed, ForwardFill(seed, xs)).value in Values(xs) + SeedValues(seed)
    decreases |xs|
  {
    if xs != [] {
      var xs', x := xs[..|xs| - 1], xs[|xs| - 1];
      assert xs' + [x] == xs;
      ForwardFillValues(seed, xs');
      ForwardFillSnoc(seed, xs', x);
      var p := ForwardFill(seed, xs');
      ValuesSnoc(xs', x);
      ValuesSnoc(p, if x.Some? then x else LastOr(seed, p));
    }
  }

  /** Without a seed, filling keeps exactly the instants held. */
  lemma UnseededValues(xs: seq<Option<int>>)
    ensures Values(ForwardFill(None, xs)) == Values(xs)
  {
    ForwardFillValues(None, xs);
  }

  /** `m` is the least of `s`, and absent exactly when `s` is empty. */
  predicate IsMinOf(m: Option<int>, s: set<int>) {
    (m.None? <==> s == {}) && (m.Some? ==> m.value in s && forall v :: v in s ==> m.value <= v)
  }

  predicate IsMaxOf(m: Option<int>, s: set<int>) {
    (m.None? <==> s == {}) && (m.Some? ==> m.value in s && forall v :: v in s ==> v <= m.value)
  }

  /** Once a slot is resolved, every later slot is. */
  predicate ResolvedAfterFirst(ts: seq<Option<int>>) {
    forall i :: 0 < i < |ts| && ts[i - 1].Some? ==> ts[i].Some?
  }

  lemma ForwardFillKeepsResolved(seed: Option<int>, xs: seq<Option<int>>)
    ensures ResolvedAfterFirst(ForwardFill(seed, xs))
    ensures seed.Some? ==> forall i :: 0 <= i < |xs| ==> ForwardFill(seed, xs)[i].Some?
  {
    var r := ForwardFill(seed, xs);
    if seed.Some? {
      forall i | 0 <= i < |xs|
        ensures r[i].Some?
      {
        ForwardFillSeeded(seed, xs, i);
      }
    }
  }

  lemma {:induction false} ForwardFillSeeded(seed: Option<int>, xs: seq<Option<int>>, i: nat)
    requires seed.Some? && i < |xs|
    ensures ForwardFill(seed, xs)[i].Some?
  {
    if i > 0 && xs[i].None? {
      ForwardFillSeeded(seed, xs, i - 1);
      assert ForwardFill(seed, xs)[i] == ForwardFill(seed, xs)[i - 1];
    } else if xs[i].None? {
      assert ForwardFill(seed, xs)[0] == seed;
    } else {
      assert ForwardFill(seed, xs)[i] == xs[i];
    }
  }

  /** The slots a fresh index holds for `lines`. */
  function IndexSlots(ch: Chrono, year: int, lines: seq<Parser.ParsedLine>): seq<Option<int>> {
    ForwardFill(None, ResolveAll(ch, year, None, lines).0)
  }

  /** Appending to the index of `a` gives the index of `a + b`: the slots are
      those a single build over all the lines would hold. */
  lemma AppendMatchesRebuild(ch: Chrono, year: int, a: seq<Parser.ParsedLine>, b: seq<Parser.ParsedLine>)
    ensures var (pa, ca) := ResolveAll(ch, year, None, a);
            var slots := IndexSlots(ch, year, a);
            slots + ForwardFill(LastOr(None, slots), ResolveAll(ch, year, ca, b).0)
            == IndexSlots(ch, year, a + b)
  {
    ResolveAllAppend(ch, year, None, a, b);
    var (pa, ca) := ResolveAll(ch, year, None, a);
    ForwardFillAppend(None, pa, ResolveAll(ch, year, ca, b).0);
  }

  function MinWith(m: Option<int>, t: int): Option<int> {
    if m.None? || t < m.value then Some(t) else m
  }

  function MaxWith(m: Option<int>, t: int): Option<int> {
    if m.None? || t > m.value then Some(t) else m
  }

  /** Folding one more instant into the running min and max. */
  lemma ExtremesStep(lo: Option<int>, hi: Option<int>, s: set<int>, t: Option<int>)
    requires IsMinOf(lo, s) && IsMaxOf(hi, s)
    ensures t.Some? ==> IsMinOf(MinWith(lo, t.value), s + SeedValues(t))
                        && IsMaxOf(MaxWith(hi, t.value), s + SeedValues(t))
    ensures t.None? ==> s + SeedValues(t) == s
  {
  }

  lemma ValuesSnoc(xs: seq<Option<int>>, t: Option<int>)
    ensures Values(xs + [t]) == Values(xs) + SeedValues(t)
  {
    assert (xs + [t])[..|xs|] == xs;
  }

  /** `timestamp_at`: the slot, or nothing past the end. */
  function At(ts: seq<Option<int>>, i: nat): Option<int> {
    if i < |ts| then ts[i] else None
  }

  // ---------------------------------------------------------------------------
  // The index
  // ---------------------------------------------------------------------------

  class TimeIndex {
    var timestamps: seq<Option<int>>
    var minTs: Option<int>
    var maxTs: Option<int>

    /** min and max are the extremes of the instants held, and the slots are
        empty only before the first resolved one. */
    ghost predicate Valid()
      reads this
    {
      IsMinOf(minTs, Values(timestamps)) && IsMaxOf(maxTs, Values(timestamps))
      && ResolvedAfterFirst(timestamps)
    }

    /** `build_time_index`: forget the remembered format, read every line's
        timestamp, then forward-fill in place. */
    constructor Build(ch: Chrono, year: int, cache: FormatCache, lines: seq<Parser.ParsedLine>)
      modifies cache
      ensures Valid() && cache.Valid()
      ensures timestamps == IndexSlots(ch, year, lines)
      ensures cache.last == ResolveAll(ch, year, None, lines).1
      ensures IsMinOf(minTs, Values(ResolveAll(ch, year, None, lines).0))
      ensures IsMaxOf(maxTs, Values(ResolveAll(ch, year, None, lines).0))
    {
      cache.Reset();
      var parsed, lo, hi := ReadLines(ch, year, cache, lines);
      var filled := FillForward(parsed);
      UnseededValues(parsed);
      ForwardFillKeepsResolved(None, parsed);
      timestamps := filled;
      minTs := lo;
      maxTs := hi;
    }

    /** `has_timestamps`. */
    function HasTimestamps(): (r: bool)
      reads this
      ensures Valid() ==> (r <==> exists i :: 0 <= i < |timestamps| && timestamps[i].Some?)
    {
      ValuesNonEmpty(timestamps);
      minTs.Some? && maxTs.Some?
    }

    /** `timestamp_at`: a held instant, within the extremes. */
    function TimestampAt(idx: nat): (r: Option<int>)
      reads this
      ensures idx >= |timestamps| ==> r.None?
      ensures idx < |timestamps| ==> r == timestamps[idx]
      ensures r.Some? ==> r.value in Values(timestamps)
      ensures Valid() && r.Some? ==> minTs.Some? && maxTs.Some? && minTs.value <= r.value <= maxTs.value
    {
      if idx < |timestamps| && timestamps[idx].Some? then InValues(timestamps, idx); At(timestamps, idx)
      else At(timestamps, idx)
    }

    /** `append` (follow mode): read the new lines' timestamps with the
        remembered format as it stands, fill them forward from the last slot,
        and extend min and max. */
    method Append(ch: Chrono, year: int, cache: FormatCache, lines: seq<Parser.ParsedLine>)
      requires Valid() && cache.Valid()
      modifies this, cache
      ensures Valid() && cache.Valid()
      ensures timestamps == old(timestamps)
                            + ForwardFill(LastOr(None, old(timestamps)), ResolveAll(ch, year, old(cache.last), lines).0)
      ensures cache.last == ResolveAll(ch, year, old(cache.last), lines).1
      ensures IsMinOf(minTs, Values(old(timestamps)) + Values(ResolveAll(ch, year, old(cache.last), lines).0))
      ensures IsMaxOf(maxTs, Values(old(timestamps)) + Values(ResolveAll(ch, year, old(cache.last), lines).0))
    {
      ghost var start, c0 := timestamps, cache.last;
      var stamps, lo, hi := ExtendSlots(ch, year, cache, timestamps, minTs, maxTs, lines);
      AppendValid(start, ResolveAll(ch, year, c0, lines).0, lo, hi);
      timestamps, minTs, maxTs := stamps, lo, hi;
    }
  }

  /** The loop of `append`: resolve each new line's timestamp through the
      cache, fill it forward from the last slot, and widen the extremes. */
  method ExtendSlots(ch: Chrono, year: int, cache: FormatCache, start: seq<Option<int>>,
                     lo0: Option<int>, hi0: Option<int>, lines: seq<Parser.ParsedLine>)
      returns (stamps: seq<Option<int>>, lo: Option<int>, hi: Option<int>)
    requires cache.Valid()
    requires IsMinOf(lo0, Values(start)) && IsMaxOf(hi0, Values(start))
    modifies cache
    ensures cache.Valid()
    ensures stamps == start + ForwardFill(LastOr(None, start), ResolveAll(ch, year, old(cache.last), lines).0)
    ensures cache.last == ResolveAll(ch, year, old(cache.last), lines).1
    ensures IsMinOf(lo, Values(start) + Values(ResolveAll(ch, year, old(cache.last), lines).0))
    ensures IsMaxOf(hi, Values(start) + Values(ResolveAll(ch, year, old(cache.last), lines).0))
  {
    var seed := LastOr(None, start);
    var filled: seq<Option<int>> := [];
    lo, hi := lo0, hi0;
    ghost var c0 := cache.last;
    ghost var parsed: seq<Option<int>> := [];
    var lastTs := seed;
    var i := 0;
    while i < |lines|
      invariant 0 <= i <= |lines| && cache.Valid()
      invariant (parsed, cache.last) == ResolveAll(ch, year, c0, lines[..i])
      invariant Extending(seed, parsed, filled, lastTs, lo0, hi0, lo, hi)
    {
      ResolveAllSnoc(ch, year, c0, lines, i);
      var ts, resolved, nextTs, nextLo, nextHi := AppendLine(ch, year, cache, lines[i], lastTs, lo, hi, seed, parsed, filled, lo0, hi0);
      lastTs, lo, hi := nextTs, nextLo, nextHi;
      parsed := parsed + [ts];
      filled := filled + [resolved];
      i := i + 1;
    }
    assert lines[..|lines|] == lines;
    FoldExtremes(lo0, hi0, Values(start), parsed);
    stamps := start + filled;
  }

  /** The body of the `append` loop for one line: its instant, the slot it
      gets, the carried instant and the widened extremes. */
  method AppendLine(ch: Chrono, year: int, cache: FormatCache, line: Parser.ParsedLine,
                    lastTs: Option<int>, lo: Option<int>, hi: Option<int>,
                    ghost seed: Option<int>, ghost parsed: seq<Option<int>>, ghost filled: seq<Option<int>>,
                    ghost lo0: Option<int>, ghost hi0: Option<int>)
      returns (ts: Option<int>, resolved: Option<int>, nextTs: Option<int>, nextLo: Option<int>, nextHi: Option<int>)
    requires cache.Valid() && Extending(seed, parsed, filled, lastTs, lo0, hi0, lo, hi)
    modifies cache
    ensures cache.Valid()
    ensures (ts, cache.last) == LineTimestamp(ch, year, old(cache.last), line)
    ensures Extending(seed, parsed + [ts], filled + [resolved], nextTs, lo0, hi0, nextLo, nextHi)
  {
    ts := ReadLine(ch, year, cache, line);
    resolved := if ts.Some? then ts else lastTs;
    nextTs, nextLo, nextHi := lastTs, lo, hi;
    if ts.Some? {
      nextLo := MinWith(lo, ts.value);
      nextHi := MaxWith(hi, ts.value);
    }
    if resolved.Some? {
      nextTs := resolved;
    }
    AppendStep(seed, parsed, filled, lastTs, lo0, hi0, lo, hi, ts, resolved, nextTs, nextLo, nextHi);
  }

  /** One line's timestamp field, read through the format cache. */
  method ReadLine(ch: Chrono, year: int, cache: FormatCache, line: Parser.ParsedLine) returns (ts: Option<int>)
    requires cache.Valid()
    modifies cache
    ensures cache.Valid()
    ensures (ts, cache.last) == LineTimestamp(ch, year, old(cache.last), line)
  {
    ts := None;
    match line.timestamp {
      case Some(s) =>
        ts := cache.ParseTimestamp(ch, year, s);
      case None =>
    }
  }

  /** The first pass of `build_time_index`: read each line's timestamp,
      tracking the least and greatest instant. */
  method ReadLines(ch: Chrono, year: int, cache: FormatCache, lines: seq<Parser.ParsedLine>)
      returns (parsed: seq<Option<int>>, lo: Option<int>, hi: Option<int>)
    requires cache.Valid()
    modifies cache
    ensures cache.Valid()
    ensures (parsed, cache.last) == ResolveAll(ch, year, old(cache.last), lines)
    ensures IsMinOf(lo, Values(parsed)) && IsMaxOf(hi, Values(parsed))
  {
    ghost var c0 := cache.last;
    parsed, lo, hi := [], None, None;
    var i := 0;
    while i < |lines|
      invariant 0 <= i <= |lines| && cache.Valid()
      invariant (parsed, cache.last) == ResolveAll(ch, year, c0, lines[..i])
      invariant IsMinOf(lo, Values(parsed)) && IsMaxOf(hi, Values(parsed))
    {
      ResolveAllSnoc(ch, year, c0, lines, i);
      var ts := ReadLine(ch, year, cache, lines[i]);
      ExtremesStep(lo, hi, Values(parsed), ts);
      ValuesSnoc(parsed, ts);
      if ts.Some? {
        lo := MinWith(lo, ts.value);
        hi := MaxWith(hi, ts.value);
      }
      parsed := parsed + [ts];
      i := i + 1;
    }
    assert lines[..|lines|] == lines;
  }

  /** The second pass of `build_time_index`: forward-fill the slots in
      place. */
  method FillForward(parsed: seq<Option<int>>) returns (filled: seq<Option<int>>)
    ensures filled == ForwardFill(None, parsed)
  {
    filled := parsed;
    var lastTs: Option<int> := None;
    var k := 0;
    while k < |filled|
      invariant 0 <= k <= |filled| == |parsed|
      invariant filled[..k] == ForwardFill(None, parsed[..k]) && filled[k..] == parsed[k..]
      invariant lastTs == LastOr(None, filled[..k])
    {
      FillStep(parsed, filled, k);
      if filled[k].Some? {
        lastTs := filled[k];
      } else if lastTs.Some? {
        filled := filled[k := lastTs];
      }
      k := k + 1;
    }
    assert parsed[..|parsed|] == parsed && filled[..|filled|] == filled;
  }

  /** One slot of the filling pass: the prefix filled so far grows by the
      slot's own instant or the carried one. */
  lemma FillStep(parsed: seq<Option<int>>, filled: seq<Option<int>>, k: nat)
    requires k < |filled| == |parsed|
    requires filled[..k] == ForwardFill(None, parsed[..k]) && filled[k..] == parsed[k..]
    ensures var v := if parsed[k].Some? then parsed[k] else LastOr(None, filled[..k]);
            && ForwardFill(None, parsed[..k + 1]) == filled[..k] + [v]
            && (filled[k := v])[..k + 1] == filled[..k] + [v]
            && (filled[k := v])[k + 1..] == parsed[k + 1..]
            && filled[k] == parsed[k]
  {
    assert filled[k] == filled[k..][0] == parsed[k..][0];
    assert parsed[..k + 1] == parsed[..k] + [parsed[k]];
    ForwardFillSnoc(None, parsed[..k], parsed[k]);
    var v := if parsed[k].Some? then parsed[k] else LastOr(None, filled[..k]);
    assert (filled[k := v])[k + 1..] == filled[k + 1..] == filled[k..][1..];
  }

  /** What the loop of `append` holds after the lines in `parsed`: the new
      slots are those lines filled forward from `seed`, `lastTs` is the last
      of them, and `lo` and `hi` are `lo0` and `hi0` widened by their instants. */
  ghost predicate Extending(seed: Option<int>, parsed: seq<Option<int>>, filled: seq<Option<int>>,
                            lastTs: Option<int>, lo0: Option<int>, hi0: Option<int>, lo: Option<int>, hi: Option<int>)
  {
    && filled == ForwardFill(seed, parsed) && lastTs == LastOr(seed, filled)
    && lo == FoldMin(lo0, parsed) && hi == FoldMax(hi0, parsed)
  }

  /** One line of `append` keeps the loop's invariant. */
  lemma AppendStep(seed: Option<int>, parsed: seq<Option<int>>, filled: seq<Option<int>>, lastTs: Option<int>,
                   lo0: Option<int>, hi0: Option<int>, lo: Option<int>, hi: Option<int>,
                   ts: Option<int>, resolved: Option<int>, nextTs: Option<int>, nextLo: Option<int>, nextHi: Option<int>)
    requires Extending(seed, parsed, filled, lastTs, lo0, hi0, lo, hi)
    requires resolved == (if ts.Some? then ts else lastTs)
    requires nextTs == (if resolved.Some? then resolved else lastTs)
    requires nextLo == (if ts.Some? then MinWith(lo, ts.value) else lo)
    requires nextHi == (if ts.Some? then MaxWith(hi, ts.value) else hi)
    ensures Extending(seed, parsed + [ts], filled + [resolved], nextTs, lo0, hi0, nextLo, nextHi)
  {
    ForwardFillSnoc(seed, parsed, ts);
    assert (parsed + [ts])[..|parsed|] == parsed;
  }

  /** The running minimum and maximum widened by each instant in turn. */
  function FoldMin(m: Option<int>, ts: seq<Option<int>>): Option<int>
    decreases |ts|
  {
    if ts == [] then m
    else
      var p := FoldMin(m, ts[..|ts| - 1]);
      if ts[|ts| - 1].Some? then MinWith(p, ts[|ts| - 1].value) else p
  }

  function FoldMax(m: Option<int>, ts: seq<Option<int>>): Option<int>
    decreases |ts|
  {
    if ts == [] then m
    else
      var p := FoldMax(m, ts[..|ts| - 1]);
      if ts[|ts| - 1].Some? then MaxWith(p, ts[|ts| - 1].value) else p
  }

  /** Widening the extremes of `s` by the instants of `ts` gives the
      extremes of both together. */
  lemma {:induction false} FoldExtremes(lo: Option<int>, hi: Option<int>, s: set<int>, ts: seq<Option<int>>)
    requires IsMinOf(lo, s) && IsMaxOf(hi, s)
    ensures IsMinOf(FoldMin(lo, ts), s + Values(ts)) && IsMaxOf(FoldMax(hi, ts), s + Values(ts))
    decreases |ts|
  {
    if ts == [] {
      assert s + Values(ts) == s;
    } else {
      var ts', t := ts[..|ts| - 1], ts[|ts| - 1];
      assert ts' + [t] == ts;
      FoldExtremes(lo, hi, s, ts');
      ExtremesStep(FoldMin(lo, ts'), FoldMax(hi, ts'), s + Values(ts'), t);
      ValuesSnoc(ts', t);
      assert s + Values(ts') + SeedValues(t) == s + Values(ts);
    }
  }

  /** Appending slots filled from the last one keeps the instants held
      those of the old slots and the new lines, and keeps the empty slots
      leading. */
  lemma AppendKeepsShape(start: seq<Option<int>>, parsed: seq<Option<int>>)
    requires ResolvedAfterFirst(start)
    ensures var seed := LastOr(None, start);
            && Values(start + ForwardFill(seed, parsed)) == Values(start) + Values(parsed)
            && ResolvedAfterFirst(start + ForwardFill(seed, parsed))
  {
    var seed := LastOr(None, start);
    var filled := ForwardFill(seed, parsed);
    LastInValues(start);
    ForwardFillValues(seed, parsed);
    ValuesAppend(start, filled);
    ForwardFillKeepsResolved(seed, parsed);
    var all := start + filled;
    forall i | 0 < i < |all| && all[i - 1].Some?
      ensures all[i].Some?
    {
      if i < |start| {
        assert all[i - 1] == start[i - 1] && all[i] == start[i];
      } else if i == |start| {
        assert seed == start[i - 1];
        assert all[i] == filled[0];
      } else {
        assert all[i - 1] == filled[i - 1 - |start|] && all[i] == filled[i - |start|];
      }
    }
  }

  /** The extremes tracked by `append` are those of the extended index. */
  lemma AppendValid(start: seq<Option<int>>, parsed: seq<Option<int>>, lo: Option<int>, hi: Option<int>)
    requires ResolvedAfterFirst(start)
    requires IsMinOf(lo, Values(start) + Values(parsed)) && IsMaxOf(hi, Values(start) + Values(parsed))
    ensures var all := start + ForwardFill(LastOr(None, start), parsed);
            IsMinOf(lo, Values(all)) && IsMaxOf(hi, Values(all)) && ResolvedAfterFirst(all)
  {
    AppendKeepsShape(start, parsed);
  }

  lemma ValuesNonEmpty(ts: seq<Option<int>>)
    ensures Values(ts) != {} <==> exists i :: 0 <= i < |ts| && ts[i].Some?
  {
    if exists i :: 0 <= i < |ts| && ts[i].Some? {
      var i :| 0 <= i < |ts| && ts[i].Some?;
      InValues(ts, i);
    }
    if Values(ts) != {} {
      ValuesWitness(ts);
    }
  }

  lemma LastInValues(ts: seq<Option<int>>)
    ensures LastOr(None, ts).Some? ==> LastOr(None, ts).value in Values(ts)
  {
  }

  // ---------------------------------------------------------------------------
  // Sparkline buckets
  // ---------------------------------------------------------------------------

  /** Counts per equal-width time bucket, the instant each bucket starts at,
      and the common width in seconds. */
  datatype Sparkline = Sparkline(buckets: seq<nat>, bucketStarts: seq<int>, bucketDuration: int, numBuckets: nat)

  /** A closed interval of instants. */
  datatype TimeRange = TimeRange(start: int, end: int)

  /** Integer ceiling of `a / b`. */
  function CeilDiv(a: nat, b: nat): (r: nat)
    requires b > 0
    ensures r * b >= a
    ensures r > 0 ==> (r - 1) * b < a
  {
    var q := (a + b - 1) / b;
    assert q * b <= a + b - 1 < q * b + b;
    q
  }

  /** The bucket width: the span (at least one second) divided by the number
      of buckets, rounded up, and at least one second. */
  function BucketDuration(lo: int, hi: int, n: nat): (d: int)
    requires n > 0
    ensures d >= 1
    ensures d * n >= Max(hi - lo, 1)
    ensures d == 1 || (d - 1) * n < Max(hi - lo, 1)
  {
    Max(CeilDiv(Max(hi - lo, 1), n), 1)
  }

  /** The bucket an instant is counted in: whole widths past the start,
      instants before the start in the first bucket, those past the end in
      the last. */
  function BucketOf(t: int, lo: int, d: int, n: nat): (b: nat)
    requires d >= 1 && n > 0
    ensures b < n
  {
    Min(Max(t - lo, 0) / d, n - 1)
  }

  /** An instant from the start onwards lies in its bucket's interval, the
      right end excluded except in the last bucket. */
  lemma BucketOfBounds(t: int, lo: int, d: int, n: nat)
    requires d >= 1 && n > 0 && lo <= t
    ensures var b := BucketOf(t, lo, d, n);
            && lo + d * b <= t
            && (b < n - 1 ==> t < lo + d * (b + 1))
            && (t - lo < d * n ==> t < lo + d * (b + 1))
  {
    var q := (t - lo) / d;
    assert d * q <= t - lo < d * q + d;
    var b := BucketOf(t, lo, d, n);
    if q > n - 1 {
      assert b == n - 1;
      assert d * b <= d * q;
    }
  }

  /** Instants that lie in a bucket's interval are counted in that bucket. */
  lemma BucketOfInterval(t: int, lo: int, d: int, n: nat, b: nat)
    requires d >= 1 && b < n
    requires lo + d * b <= t < lo + d * (b + 1)
    ensures BucketOf(t, lo, d, n) == b
  {
    MulMono(d, 0, b);
    DivWithin(t - lo, d, b);
  }

  /** A number between `d * b` and `d * (b + 1)` has quotient `b` by `d`. */
  lemma DivWithin(x: int, d: int, b: int)
    requires d >= 1 && d * b <= x < d * (b + 1)
    ensures x / d == b
  {
    var q := x / d;
    assert d * q <= x < d * q + d;
    if q < b {
      MulMono(d, q + 1, b);
    } else if q > b {
      MulMono(d, b + 1, q);
    }
  }

  lemma MulMono(d: int, x: int, y: int)
    requires d >= 0 && x <= y
    ensures d * x <= d * y
  {
    assert d * y - d * x == d * (y - x);
  }

  /** An instant between the extremes lies in the closed interval of its
      bucket when the buckets together span the extremes. */
  lemma BucketCoversInstant(t: int, lo: int, hi: int, d: int, n: nat)
    requires d >= 1 && n > 0 && lo <= t <= hi && d * n >= hi - lo
    ensures var b := BucketOf(t, lo, d, n);
            && lo + d * b <= t <= lo + d * b + d
            && (b < n - 1 ==> t < lo + d * b + d)
  {
    BucketOfBounds(t, lo, d, n);
    var b := BucketOf(t, lo, d, n);
    if b == n - 1 {
      assert d * b + d == d * n;
    }
  }

  /** Every bucket's start instant: the first instant plus whole widths. */
  function Starts(lo: int, d: int, n: nat): (r: seq<int>)
    ensures |r| == n
    ensures forall i :: 0 <= i < n ==> r[i] == lo + i * d
  {
    seq(n, i => lo + d * i)
  }

  /** Bucket counts of the resolved slots, slot by slot. */
  function Hist(ts: seq<Option<int>>, lo: int, d: int, n: nat): (h: seq<nat>)
    requires d >= 1 && n > 0
    ensures |h| == n
    decreases |ts|
  {
    if ts == [] then seq(n, _ => 0)
    else
      var h := Hist(ts[..|ts| - 1], lo, d, n);
      match ts[|ts| - 1]
      case None => h
      case Some(t) =>
        var b := BucketOf(t, lo, d, n);
        h[b := h[b] + 1]
  }

  /** The number of resolved slots whose instant falls in bucket `b`. */
  function CountInBucket(ts: seq<Option<int>>, lo: int, d: int, n: nat, b: nat): nat
    requires d >= 1 && n > 0
    decreases |ts|
  {
    if ts == [] then 0
    else
      var last := ts[|ts| - 1];
      CountInBucket(ts[..|ts| - 1], lo, d, n, b) + (if last.Some? && BucketOf(last.value, lo, d, n) == b then 1 else 0)
  }

  /** The number of resolved slots. */
  function CountSome(ts: seq<Option<int>>): (r: nat)
    ensures r <= |ts|
    decreases |ts|
  {
    if ts == [] then 0 else CountSome(ts[..|ts| - 1]) + (if ts[|ts| - 1].Some? then 1 else 0)
  }

  function Sum(s: seq<nat>): nat
    decreases |s|
  {
    if s == [] then 0 else s[0] + Sum(s[1..])
  }

  /** `compute_sparkline` as a value: nothing without both extremes or
      without buckets; otherwise the histogram of every resolved slot,
      forward-filled ones included. */
  function SparklineOf(ts: seq<Option<int>>, minTs: Option<int>, maxTs: Option<int>, n: nat): (r: Option<Sparkline>)
    ensures r.None? <==> minTs.None? || maxTs.None? || n == 0
    ensures r.Some? ==> && r.value.numBuckets == n
                        && |r.value.buckets| == n && |r.value.bucketStarts| == n
                        && r.value.bucketDuration >= 1
                        && r.value.bucketDuration == BucketDuration(minTs.value, maxTs.value, n)
                        && r.value.bucketStarts[0] == minTs.value
                        && forall i :: 0 <= i < n ==> r.value.bucketStarts[i] == minTs.value + i * r.value.bucketDuration
  {
    if minTs.None? || maxTs.None? || n == 0 then None
    else
      var d := BucketDuration(minTs.value, maxTs.value, n);
      Some(Sparkline(Hist(ts, minTs.value, d, n), Starts(minTs.value, d, n), d, n))
  }

  /** Each bucket holds exactly the resolved slots whose instant falls in it. */
  lemma {:induction false} HistCounts(ts: seq<Option<int>>, lo: int, d: int, n: nat)
    requires d >= 1 && n > 0
    ensures forall b :: 0 <= b < n ==> Hist(ts, lo, d, n)[b] == CountInBucket(ts, lo, d, n, b)
    decreases |ts|
  {
    if ts != [] {
      HistCounts(ts[..|ts| - 1], lo, d, n);
    }
  }

  lemma {:induction false} SumZeros(n: nat)
    ensures Sum(seq(n, _ => 0)) == 0
  {
    if n > 0 {
      assert seq(n, _ => 0)[1..] == seq(n - 1, _ => 0);
      SumZeros(n - 1);
    }
  }

  lemma {:induction false} SumIncrement(s: seq<nat>, b: nat)
    requires b < |s|
    ensures Sum(s[b := s[b] + 1]) == Sum(s) + 1
    decreases |s|
  {
    if b == 0 {
      assert s[b := s[b] + 1][1..] == s[1..];
    } else {
      assert s[b := s[b] + 1][1..] == s[1..][b - 1 := s[b] + 1];
      SumIncrement(s[1..], b - 1);
    }
  }

  /** The buckets add up to the number of resolved slots. */
  lemma {:induction false} HistSum(ts: seq<Option<int>>, lo: int, d: int, n: nat)
    requires d >= 1 && n > 0
    ensures Sum(Hist(ts, lo, d, n)) == CountSome(ts)
    decreases |ts|
  {
    if ts == [] {
      SumZeros(n);
    } else {
      HistSum(ts[..|ts| - 1], lo, d, n);
      if ts[|ts| - 1].Some? {
        SumIncrement(Hist(ts[..|ts| - 1], lo, d, n), BucketOf(ts[|ts| - 1].value, lo, d, n));
      }
    }
  }

  /** The sparkline's counts: one per bucket, summing to the resolved slots,
      each the number of slots whose instant falls in it. */
  lemma SparklineCounts(ts: seq<Option<int>>, minTs: Option<int>, maxTs: Option<int>, n: nat)
    requires SparklineOf(ts, minTs, maxTs, n).Some?
    ensures var sp := SparklineOf(ts, minTs, maxTs, n).value;
            && Sum(sp.buckets) == CountSome(ts)
            && forall b :: 0 <= b < n ==> sp.buckets[b] == CountInBucket(ts, minTs.value, sp.bucketDuration, n, b)
  {
    var d := BucketDuration(minTs.value, maxTs.value, n);
    HistSum(ts, minTs.value, d, n);
    HistCounts(ts, minTs.value, d, n);
  }

  /** Every instant between the extremes lies in the closed interval of the
      bucket it is counted in. */
  lemma SparklineCovers(ts: seq<Option<int>>, minTs: Option<int>, maxTs: Option<int>, n: nat, t: int)
    requires SparklineOf(ts, minTs, maxTs, n).Some?
    requires minTs.value <= t <= maxTs.value
    ensures var sp := SparklineOf(ts, minTs, maxTs, n).value;
            var b := BucketOf(t, minTs.value, sp.bucketDuration, n);
            sp.bucketStarts[b] <= t <= sp.bucketStarts[b] + sp.bucketDuration
  {
    var d := BucketDuration(minTs.value, maxTs.value, n);
    BucketCoversInstant(t, minTs.value, maxTs.value, d, n);
  }

  /** `compute_sparkline`: bucket starts first, then one increment per
      resolved slot. */
  method ComputeSparkline(index: TimeIndex, n: nat) returns (r: Option<Sparkline>)
    ensures r == SparklineOf(index.timestamps, index.minTs, index.maxTs, n)
  {
    if index.minTs.None? || index.maxTs.None? || n == 0 {
      return None;
    }
    var lo, hi := index.minTs.value, index.maxTs.value;
    var d := BucketDuration(lo, hi, n);
    var buckets := new nat[n](_ => 0);
    var starts: seq<int> := [];
    var i := 0;
    while i < n
      invariant 0 <= i <= n
      invariant starts == Starts(lo, d, i)
    {
      starts := starts + [lo + d * i];
      i := i + 1;
    }
    var ts := index.timestamps;
    var k := 0;
    while k < |ts|
      invariant 0 <= k <= |ts|
      invariant buckets[..] == Hist(ts[..k], lo, d, n)
    {
      assert ts[..k + 1][..k] == ts[..k];
      match ts[k] {
        case Some(t) =>
          var b := BucketOf(t, lo, d, n);
          buckets[b] := buckets[b] + 1;
        case None =>
      }
      k := k + 1;
    }
    assert ts[..|ts|] == ts;
    return Some(Sparkline(buckets[..], starts, d, n));
  }

  /** `bucket_range_to_time_range`: nothing for an inverted range or one
      starting past the last bucket; otherwise from the first bucket's start
      to the end of the last bucket, the last clamped to the final bucket. */
  function BucketRangeToTimeRange(sp: Sparkline, start: nat, end: nat): (r: Option<TimeRange>)
    requires |sp.bucketStarts| == sp.numBuckets
    ensures r.None? <==> start > end || start >= sp.numBuckets
    ensures r.Some? ==> && r.value.start == sp.bucketStarts[start]
                        && r.value.end == sp.bucketStarts[Min(end, sp.numBuckets - 1)] + sp.bucketDuration
  {
    if start > end || start >= sp.numBuckets then None
    else
      var last := Min(end, sp.numBuckets - 1);
      Some(TimeRange(sp.bucketStarts[start], sp.bucketStarts[last] + sp.bucketDuration))
  }

  /** The inclusive membership test of `filter_by_time_range`. */
  predicate InRange(range: TimeRange, t: Option<int>) {
    t.Some? && range.start <= t.value <= range.end
  }

  /** Selecting buckets `start..end` of a sparkline selects every instant
      counted in them; an instant in the range is counted in one of them, or
      sits exactly on the start of the bucket after the last one. */
  lemma BucketRangeSelects(ts: seq<Option<int>>, minTs: Option<int>, maxTs: Option<int>, n: nat,
                           start: nat, end: nat, t: int)
    requires SparklineOf(ts, minTs, maxTs, n).Some?
    requires BucketRangeToTimeRange(SparklineOf(ts, minTs, maxTs, n).value, start, end).Some?
    requires minTs.value <= t <= maxTs.value
    ensures var sp := SparklineOf(ts, minTs, maxTs, n).value;
            var range := BucketRangeToTimeRange(sp, start, end).value;
            var b := BucketOf(t, minTs.value, sp.bucketDuration, n);
            && (start <= b <= end ==> InRange(range, Some(t)))
            && (InRange(range, Some(t)) ==> start <= b && (b <= end || t == sp.bucketStarts[b]))
  {
    var d := BucketDuration(minTs.value, maxTs.value, n);
    BucketCoversInstant(t, minTs.value, maxTs.value, d, n);
    RangeArith(t, minTs.value, d, BucketOf(t, minTs.value, d, n), start, Min(end, n - 1), end);
  }

  /** The integer core of `BucketRangeSelects`, for an instant in bucket `b`
      and buckets `start..last`, `last` being `end` clamped to the final
      bucket. */
  lemma RangeArith(t: int, lo: int, d: int, b: nat, start: nat, last: nat, end: nat)
    requires d >= 1 && start <= last
    requires b <= end ==> b <= last
    requires b > end ==> last == end
    requires t == lo + d * b + d ==> b >= last
    requires lo + d * b <= t <= lo + d * b + d
    ensures start <= b <= end ==> lo + d * start <= t <= lo + d * last + d
    ensures lo + d * start <= t <= lo + d * last + d ==> start <= b && (b <= end || t == lo + d * b)
  {
    if start <= b <= end {
      MulMono(d, start, b);
      MulMono(d, b, last);
    }
    if lo + d * start <= t <= lo + d * last + d {
      if b < start {
        MulMono(d, b + 1, start);
      }
      if b > end {
        MulMono(d, last + 1, b);
        assert d * (last + 1) == d * last + d;
      }
    }
  }

  /** `filter_by_time_range`: the candidates, in order, whose resolved
      instant lies in the closed range; unresolved candidates are dropped. */
  function FilterByTimeRange(index: TimeIndex, range: TimeRange, indices: seq<nat>): (r: seq<nat>)
    reads index
    ensures |r| <= |indices|
    ensures forall x :: x in r <==> x in indices && InRange(range, index.TimestampAt(x))
    ensures Increasing(indices) ==> Increasing(r)
    decreases |indices|
  {
    if indices == [] then []
    else
      var rest := FilterByTimeRange(index, range, indices[1..]);
      assert Increasing(indices) ==> forall x :: x in rest ==> indices[0] < x by {
        if Increasing(indices) {
          forall x | x in rest
            ensures indices[0] < x
          {
            var k :| 0 <= k < |indices[1..]| && indices[1..][k] == x;
            assert indices[k + 1] == x;
          }
        }
      }
      if InRange(range, index.TimestampAt(indices[0])) then IncreasingCons(indices[0], rest); [indices[0]] + rest else rest
  }

  /** Filtering keeps the candidates' order: it distributes over
      concatenation. */
  lemma {:induction false} FilterByTimeRangeAppend(index: TimeIndex, range: TimeRange, a: seq<nat>, b: seq<nat>)
    ensures FilterByTimeRange(index, range, a + b)
            == FilterByTimeRange(index, range, a) + FilterByTimeRange(index, range, b)
    decreases |a|
  {
    if a != [] {
      assert (a + b)[1..] == a[1..] + b;
      FilterByTimeRangeAppend(index, range, a[1..], b);
    } else {
      assert a + b == b;
    }
  }
}
