/** The HAR exporter: `har` and its nested `visit` (importtime_waterfall.py lines 64-135). Each
    import becomes one HAR entry laid out on a fake clock that starts at 1991-07-05 00:00:00 and
    advances one millisecond per microsecond of self time. The clock is kept as a whole number
    of milliseconds after that start; the entries keep the fields that depend on the tree. */
module HarExport {
  import opened Wrappers
  import opened ImportTree

  const MsPerDay := 86_400_000
  const UsPerDay := 86_400_000_000

  /** One entry of `har_out['log']['entries']`: the request URL (the module name), the start on the
      fake clock, the entry's time, and its `wait` and `receive` timings. */
  datatype Entry = Entry(url: string, start: int, time: int, wait: int, receive: int)

  /** What `har` writes, less the constant fields: the page title and the entries. */
  datatype Har = Har(title: string, entries: seq<Entry>)

  datatype HarError = NoChildren   // `root.children[-1]` on an empty list (line 74)

  /** A datetime.timedelta in its normal form: microseconds and seconds within range, days any sign. */
  datatype TimeDelta = TimeDelta(days: int, seconds: nat, microseconds: nat)

  /** The timedelta of a number of microseconds, normalised the way Python does it. */
  function Delta(us: int): TimeDelta {
    TimeDelta(us / UsPerDay, (us % UsPerDay) / 1_000_000, us % UsPerDay % 1_000_000)
  }

  /** The normal form keeps the seconds within a day and the microseconds within a second, and
      it adds back up to the same number of microseconds. */
  lemma DeltaNormal(us: int)
    ensures Delta(us).seconds < 86400 && Delta(us).microseconds < 1_000_000
    ensures Delta(us).days * UsPerDay + Delta(us).seconds * 1_000_000 + Delta(us).microseconds == us
  {
    var r := us % UsPerDay;
    assert us == (us / UsPerDay) * UsPerDay + r;
    assert r == (r / 1_000_000) * 1_000_000 + r % 1_000_000;
  }

  /** Line 94: `diff.seconds * 1000 + diff.microseconds // 1000` for a difference of `ms` milliseconds. */
  function EntryTime(ms: int): (t: int)
    ensures 0 <= t < MsPerDay
  {
    var d := Delta(ms * 1000);
    DeltaNormal(ms * 1000);
    d.seconds * 1000 + d.microseconds / 1000
  }

  /** The entry time drops whole days: it is the difference modulo one day, so any difference
      between zero and a day is kept exactly and a negative one wraps around. */
  lemma EntryTimeModDay(ms: int)
    ensures EntryTime(ms) == ms % MsPerDay
    ensures 0 <= ms < MsPerDay ==> EntryTime(ms) == ms
  {
    var q, r := ms / MsPerDay, ms % MsPerDay;
    assert ms * 1000 == q * UsPerDay + r * 1000;
    assert (ms * 1000) % UsPerDay == r * 1000;
    assert (r * 1000) % 1_000_000 == (r % 1000) * 1000;
  }

  /** The sum of the self times of some modules. */
  function SelfTotal(ns: seq<Import>): int {
    if ns == [] then 0 else ns[0].selfTime + SelfTotal(ns[1..])
  }

  lemma {:induction false} SelfTotalAppend(a: seq<Import>, b: seq<Import>)
    ensures SelfTotal(a + b) == SelfTotal(a) + SelfTotal(b)
  {
    if a != [] {
      assert (a + b)[1..] == a[1..] + b;
      SelfTotalAppend(a[1..], b);
    } else {
      assert a + b == b;
    }
  }

  /** How far `visit(x)` moves the clock: one millisecond, then the children, then self time less one. */
  function Duration(x: Import): int
    decreases x, 1
  {
    x.selfTime + ForestDuration(x.children)
  }

  function ForestDuration(xs: seq<Import>): int
    decreases xs, 0
  {
    if xs == [] then 0 else Duration(xs[0]) + ForestDuration(xs[1..])
  }

  /** In all, visiting a module moves the clock by the total self time of its subtree. */
  lemma {:induction false} DurationIsSelfTotal(x: Import)
    ensures Duration(x) == SelfTotal(Nodes(x))
    decreases x, 1
  {
    ForestDurationIsSelfTotal(x.children);
    SelfTotalAppend([x], ForestNodes(x.children));
  }

  lemma {:induction false} ForestDurationIsSelfTotal(xs: seq<Import>)
    ensures ForestDuration(xs) == SelfTotal(ForestNodes(xs))
    decreases xs, 0
  {
    if xs != [] {
      DurationIsSelfTotal(xs[0]);
      ForestDurationIsSelfTotal(xs[1..]);
      SelfTotalAppend(Nodes(xs[0]), ForestNodes(xs[1..]));
    }
  }

  /** The entry `visit` appends for x when it started at `start`: the module's name, its start,
      and a time within one day that the `wait` and `receive` timings add up to, `receive`
      being the self time. */
  function EntryOf(x: Import, start: int): (e: Entry)
    ensures e.url == x.name && e.start == start && e.receive == x.selfTime
    ensures e.wait + e.receive == e.time && 0 <= e.time < MsPerDay
  {
    var time := EntryTime(Duration(x));
    Entry(x.name, start, time, time - x.selfTime, x.selfTime)
  }

  /** The entries `visit(x)` appends when the clock reads `start`: the children's entries, each
      child starting where the previous one ended and the first one millisecond after x, and
      then x's own entry. */
  function VisitEntries(x: Import, start: int): (es: seq<Entry>)
    ensures |es| == Size(x)
    decreases x, 1
  {
    ForestEntries(x.children, start + 1) + [EntryOf(x, start)]
  }

  function ForestEntries(xs: seq<Import>, start: int): (es: seq<Entry>)
    ensures |es| == ForestSize(xs)
    decreases xs, 0
  {
    if xs == [] then [] else VisitEntries(xs[0], start) + ForestEntries(xs[1..], start + Duration(xs[0]))
  }

  lemma {:induction false} ForestDurationAppend(a: seq<Import>, b: seq<Import>)
    ensures ForestDuration(a + b) == ForestDuration(a) + ForestDuration(b)
  {
    if a != [] {
      assert (a + b)[1..] == a[1..] + b;
      ForestDurationAppend(a[1..], b);
    } else {
      assert a + b == b;
    }
  }

  /** Visiting two runs of siblings one after the other: the second run starts when the first ends. */
  lemma {:induction false} ForestEntriesAppend(a: seq<Import>, b: seq<Import>, start: int)
    ensures ForestEntries(a + b, start) == ForestEntries(a, start) + ForestEntries(b, start + ForestDuration(a))
  {
    if a != [] {
      var next := start + Duration(a[0]);
      assert (a + b)[0] == a[0] && (a + b)[1..] == a[1..] + b;
      var own, more, last := VisitEntries(a[0], start), ForestEntries(a[1..], next), ForestEntries(b, next + ForestDuration(a[1..]));
      assert ForestEntries(a + b, start) == own + ForestEntries(a[1..] + b, next);
      ForestEntriesAppend(a[1..], b, next);
      assert ForestEntries(a, start) == own + more;
      assert next + ForestDuration(a[1..]) == start + ForestDuration(a);
      ConcatAssoc(own, more, last);
    } else {
      assert a + b == b;
    }
  }

  lemma ConcatAssoc<T>(p: seq<T>, q: seq<T>, r: seq<T>)
    ensures p + (q + r) == (p + q) + r
  {
  }

  lemma OneMoreChild(xs: seq<Import>, i: nat, start: int)
    requires i < |xs|
    ensures ForestDuration(xs[..i + 1]) == ForestDuration(xs[..i]) + Duration(xs[i])
    ensures ForestEntries(xs[..i + 1], start)
         == ForestEntries(xs[..i], start) + VisitEntries(xs[i], start + ForestDuration(xs[..i]))
  {
    assert xs[..i + 1] == xs[..i] + [xs[i]];
    ForestDurationAppend(xs[..i], [xs[i]]);
    ForestEntriesAppend(xs[..i], [xs[i]], start);
    assert [xs[i]][1..] == [];
  }

  /** visit, lines 82-133: advance the clock through x's subtree and append its entries. */
  method Visit(x: Import, clock: int, entries: seq<Entry>) returns (clock': int, entries': seq<Entry>)
    ensures clock' == clock + Duration(x)
    ensures entries' == entries + VisitEntries(x, clock)
    decreases x
  {
    var start := clock;
    clock' := clock + 1;
    entries' := entries;
    var i := 0;
    while i < |x.children|
      invariant 0 <= i <= |x.children|
      invariant clock' == start + 1 + ForestDuration(x.children[..i])
      invariant entries' == entries + ForestEntries(x.children[..i], start + 1)
    {
      OneMoreChild(x.children, i, start + 1);
      ConcatAssoc(entries, ForestEntries(x.children[..i], start + 1), VisitEntries(x.children[i], clock'));
      clock', entries' := Visit(x.children[i], clock', entries');
      i := i + 1;
    }
    assert x.children[..i] == x.children;
    clock' := clock' + (x.selfTime - 1);
    var diff := clock' - start;
    var time := EntryTime(diff);
    ConcatAssoc(entries, ForestEntries(x.children, start + 1), [EntryOf(x, start)]);
    entries' := entries' + [Entry(x.name, start, time, time - x.selfTime, x.selfTime)];
  }

  /** har, lines 64-135: the title names the last top-level import and the interpreter version
      (a parameter here); the entries come from visiting the root's children from clock zero.
      A root without children fails on the title, before any entry is made. */
  method Export(root: Import, version: string) returns (r: Result<Har, HarError>)
    ensures r.Err? <==> root.children == []
    ensures r.Ok? ==> r.value.title == "`import " + root.children[|root.children| - 1].name + "` " + version
    ensures r.Ok? ==> r.value.entries == ForestEntries(root.children, 0)
  {
    if root.children == [] {
      return Err(NoChildren);
    }
    var title := "`import " + root.children[|root.children| - 1].name + "` " + version;
    var clock := 0;
    var entries := [];
    var i := 0;
    while i < |root.children|
      invariant 0 <= i <= |root.children|
      invariant clock == ForestDuration(root.children[..i])
      invariant entries == ForestEntries(root.children[..i], 0)
    {
      OneMoreChild(root.children, i, 0);
      clock, entries := Visit(root.children[i], clock, entries);
      assert entries == ForestEntries(root.children[..i], 0) + VisitEntries(root.children[i], ForestDuration(root.children[..i]));
      i := i + 1;
    }
    assert root.children[..i] == root.children;
    r := Ok(Har(title, entries));
  }

  /** The entries list the imports in post-order, children before their importer: entry i is
      for the i-th module of the post-order, and its `receive` timing is that module's self time. */
  lemma {:induction false} EntriesArePostOrder(xs: seq<Import>, start: int)
    ensures forall i :: 0 <= i < ForestSize(xs) ==>
      ForestEntries(xs, start)[i].url == ForestPostOrder(xs)[i].name
      && ForestEntries(xs, start)[i].receive == ForestPostOrder(xs)[i].selfTime
    decreases xs
  {
    if xs != [] {
      var x := xs[0];
      EntriesArePostOrder(x.children, start + 1);
      EntriesArePostOrder(xs[1..], start + Duration(x));
      var es, inner, rest := ForestEntries(xs, start), ForestEntries(x.children, start + 1), ForestEntries(xs[1..], start + Duration(x));
      var ps, innerPs, restPs := ForestPostOrder(xs), ForestPostOrder(x.children), ForestPostOrder(xs[1..]);
      assert VisitEntries(x, start) == inner + [EntryOf(x, start)];
      assert PostOrder(x) == innerPs + [x];
      assert es == inner + [EntryOf(x, start)] + rest;
      assert ps == innerPs + [x] + restPs;
      forall i | 0 <= i < ForestSize(xs)
        ensures es[i].url == ps[i].name && es[i].receive == ps[i].selfTime
      {
        if i < |inner| {
          assert es[i] == inner[i] && ps[i] == innerPs[i];
        } else if i == |inner| {
          assert es[i] == EntryOf(x, start) && ps[i] == x;
        } else {
          assert es[i] == rest[i - |inner| - 1] && ps[i] == restPs[i - |inner| - 1];
        }
      }
    }
  }

  /** Sibling j's own entry sits right after the entries of its earlier siblings and its own
      children, and it starts when the earlier siblings' durations have elapsed. */
  lemma {:induction false} SiblingEntry(xs: seq<Import>, start: int, j: nat)
    requires j < |xs|
    ensures ForestSize(xs[..j]) + Size(xs[j]) <= ForestSize(xs)
    ensures ForestEntries(xs, start)[ForestSize(xs[..j]) + Size(xs[j]) - 1]
         == EntryOf(xs[j], start + ForestDuration(xs[..j]))
  {
    ForestWalkAt(xs, 0, j);
    assert xs == xs[..j] + xs[j..];
    ForestEntriesAppend(xs[..j], xs[j..], start);
    var s := start + ForestDuration(xs[..j]);
    var own := VisitEntries(xs[j], s);
    assert ForestEntries(xs[j..], s) == own + ForestEntries(xs[j + 1..], s + Duration(xs[j])) by {
      assert xs[j..][1..] == xs[j + 1..];
    }
    assert own[|own| - 1] == EntryOf(xs[j], s);
  }

  /** With a duration shorter than a day and not negative, an entry's time is the whole time the
      import took and its wait is the time spent in the imports it made. */
  lemma TimingsOfEntry(x: Import, start: int)
    requires 0 <= Duration(x) < MsPerDay
    ensures EntryOf(x, start).time == Duration(x)
    ensures EntryOf(x, start).wait == ForestDuration(x.children)
    ensures EntryOf(x, start).receive == x.selfTime
  {
    EntryTimeModDay(Duration(x));
  }

  /** Every module of the tree has at least one microsecond of self time. */
  ghost predicate PositiveSelfTimes(x: Import) {
    forall y :: y in Nodes(x) ==> y.selfTime >= 1
  }

  /** The children of a tree with positive self times have positive self times, and so does
      its root. */
  lemma PositiveChildren(x: Import, i: nat)
    requires PositiveSelfTimes(x) && i < |x.children|
    ensures x.selfTime >= 1 && PositiveSelfTimes(x.children[i])
  {
    assert x in Nodes(x);
    forall y | y in Nodes(x.children[i]) ensures y.selfTime >= 1 {
      ForestNodesMember(x.children, y);
      assert y in Nodes(x);
    }
  }

  lemma {:induction false} PositiveDuration(x: Import)
    requires PositiveSelfTimes(x)
    ensures Duration(x) >= 1
    decreases x, 1
  {
    assert x in Nodes(x);
    forall i | 0 <= i < |x.children| ensures PositiveSelfTimes(x.children[i]) {
      PositiveChildren(x, i);
    }
    ForestPositiveDuration(x.children);
  }

  lemma {:induction false} ForestPositiveDuration(xs: seq<Import>)
    requires forall i :: 0 <= i < |xs| ==> PositiveSelfTimes(xs[i])
    ensures ForestDuration(xs) >= 0
    decreases xs, 0
  {
    if xs != [] {
      ForestPositiveDuration(xs[1..]);
      PositiveDuration(xs[0]);
    }
  }

  /** With positive self times, the window of child j, from its start to its start plus its
      duration, lies strictly after its parent's start and ends no later than its parent does:
      the waterfall nests each import inside the one that imported it. */
  lemma ChildWithinParent(x: Import, start: int, j: nat)
    requires PositiveSelfTimes(x) && j < |x.children|
    ensures var childStart := start + 1 + ForestDuration(x.children[..j]);
      && start < childStart
      && childStart + Duration(x.children[j]) <= start + Duration(x)
  {
    var xs := x.children;
    assert xs == xs[..j] + xs[j..];
    ForestDurationAppend(xs[..j], xs[j..]);
    assert ForestDuration(xs[j..]) == Duration(xs[j]) + ForestDuration(xs[j + 1..]) by {
      assert xs[j..][1..] == xs[j + 1..];
    }
    forall i | 0 <= i < |xs| ensures PositiveSelfTimes(xs[i]) {
      PositiveChildren(x, i);
    }
    ForestPositiveDuration(xs[..j]);
    ForestPositiveDuration(xs[j + 1..]);
    PositiveChildren(x, j);
  }
}
