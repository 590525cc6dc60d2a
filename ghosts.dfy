/** The pending-deletion registry and the index remapper. A deleted span stays
    in the visible text as a "ghost" until its expiry; visible positions
    therefore run ahead of the logical positions the diff speaks of. */
module Ghosts {
  import opened JsString
  import opened Flattener

  /** How long a deleted span stays visible, in milliseconds. */
  const DELETION_WAIT_DURATION: int := 300

  /** A span of the visible text that has been deleted but is still shown.
      `length` is the length of `text` when the entry is registered. */
  datatype PendingDeletion = PendingDeletion(start: int, length: nat, text: string, expiry: int)

  /** The visible text together with the ghost spans lying in it. */
  datatype View = View(text: string, pending: seq<PendingDeletion>)

  /** Sum of the lengths of all entries. */
  function TotalLength(ps: seq<PendingDeletion>): nat
    decreases |ps|
  {
    if ps == [] then 0 else ps[0].length + TotalLength(ps[1..])
  }

  // ---------------------------------------------------------------------------
  // Sorting a copy of the registry by start (a stable sort, as JavaScript's is)
  // ---------------------------------------------------------------------------

  ghost predicate SortedByStart(s: seq<PendingDeletion>)
  {
    forall i, j :: 0 <= i < j < |s| ==> s[i].start <= s[j].start
  }

  /** Puts `d` in front of the first entry whose start is not smaller. */
  function InsertByStart(d: PendingDeletion, s: seq<PendingDeletion>): seq<PendingDeletion>
    decreases |s|
  {
    if s == [] then [d]
    else if d.start <= s[0].start then [d] + s
    else [s[0]] + InsertByStart(d, s[1..])
  }

  function SortByStart(ps: seq<PendingDeletion>): seq<PendingDeletion>
    decreases |ps|
  {
    if ps == [] then [] else InsertByStart(ps[0], SortByStart(ps[1..]))
  }

  lemma {:induction false} InsertByStartPerm(d: PendingDeletion, s: seq<PendingDeletion>)
    ensures multiset(InsertByStart(d, s)) == multiset(s) + multiset{d}
    ensures TotalLength(InsertByStart(d, s)) == d.length + TotalLength(s)
    decreases |s|
  {
    if s != [] && d.start > s[0].start {
      InsertByStartPerm(d, s[1..]);
      assert s == [s[0]] + s[1..];
    }
  }

  /** Every entry of the result starts at or after any bound that `d` and
      all of `s` respect. */
  lemma {:induction false} InsertByStartLower(d: PendingDeletion, s: seq<PendingDeletion>, lo: int)
    requires lo <= d.start
    requires forall i :: 0 <= i < |s| ==> lo <= s[i].start
    ensures forall i :: 0 <= i < |InsertByStart(d, s)| ==> lo <= InsertByStart(d, s)[i].start
    decreases |s|
  {
    if s != [] && d.start > s[0].start {
      InsertByStartLower(d, s[1..], lo);
      var r := InsertByStart(d, s);
      assert r == [s[0]] + InsertByStart(d, s[1..]);
      forall i | 0 < i < |r| ensures lo <= r[i].start {
        assert r[i] == InsertByStart(d, s[1..])[i - 1];
      }
    }
  }

  lemma {:induction false} InsertByStartSorted(d: PendingDeletion, s: seq<PendingDeletion>)
    requires SortedByStart(s)
    ensures SortedByStart(InsertByStart(d, s))
    decreases |s|
  {
    if s == [] {
    } else if d.start <= s[0].start {
      var r := [d] + s;
      forall i, j | 0 <= i < j < |r| ensures r[i].start <= r[j].start {
        if i > 0 {
          assert r[i] == s[i - 1] && r[j] == s[j - 1];
        } else {
          assert r[j] == s[j - 1];
        }
      }
    } else {
      var tail := s[1..];
      var t := InsertByStart(d, tail);
      assert SortedByStart(tail) by {
        forall i, j | 0 <= i < j < |tail| ensures tail[i].start <= tail[j].start {
          assert tail[i] == s[i + 1] && tail[j] == s[j + 1];
        }
      }
      InsertByStartSorted(d, tail);
      assert forall i :: 0 <= i < |tail| ==> s[0].start <= tail[i].start by {
        forall i | 0 <= i < |tail| ensures s[0].start <= tail[i].start {
          assert tail[i] == s[i + 1];
        }
      }
      InsertByStartLower(d, tail, s[0].start);
      var r := [s[0]] + t;
      assert InsertByStart(d, s) == r;
      forall i, j | 0 <= i < j < |r| ensures r[i].start <= r[j].start {
        assert r[j] == t[j - 1];
        if i > 0 {
          assert r[i] == t[i - 1];
        }
      }
    }
  }

  /** The sorted copy is ordered by start, holds the same entries and so the
      same total length. */
  lemma {:induction false} SortByStartCorrect(ps: seq<PendingDeletion>)
    ensures SortedByStart(SortByStart(ps))
    ensures multiset(SortByStart(ps)) == multiset(ps)
    ensures TotalLength(SortByStart(ps)) == TotalLength(ps)
    decreases |ps|
  {
    if ps != [] {
      var rest := SortByStart(ps[1..]);
      SortByStartCorrect(ps[1..]);
      InsertByStartPerm(ps[0], rest);
      InsertByStartSorted(ps[0], rest);
      assert SortByStart(ps) == InsertByStart(ps[0], rest);
      assert ps == [ps[0]] + ps[1..];
      assert multiset(ps) == multiset(ps[1..]) + multiset{ps[0]};
      assert TotalLength(ps) == ps[0].length + TotalLength(ps[1..]);
    }
  }

  // ---------------------------------------------------------------------------
  // The index remapper
  // ---------------------------------------------------------------------------

  /** The walk over the sorted entries: each entry whose start is at or before
      the running visual index pushes that index past its own length. The
      comparison is with the running index, not the original logical one. */
  function Remap(v: int, sorted: seq<PendingDeletion>): int
    decreases |sorted|
  {
    if sorted == [] then v
    else Remap(if sorted[0].start <= v then v + sorted[0].length else v, sorted[1..])
  }

  /** Sum of the lengths of the entries that start at or before `bound`. */
  function LengthUpTo(ps: seq<PendingDeletion>, bound: int): nat
    decreases |ps|
  {
    if ps == [] then 0
    else (if ps[0].start <= bound then ps[0].length else 0) + LengthUpTo(ps[1..], bound)
  }

  /** Whatever the order of the entries, the walk never moves backwards and
      moves at most by the total ghost length; it stays put when every entry
      starts after the logical index. */
  lemma {:induction false} RemapBounds(v: int, s: seq<PendingDeletion>)
    ensures v <= Remap(v, s) <= v + TotalLength(s)
    ensures (forall j :: 0 <= j < |s| ==> v < s[j].start) ==> Remap(v, s) == v
    decreases |s|
  {
    if s != [] {
      RemapBounds(if s[0].start <= v then v + s[0].length else v, s[1..]);
    }
  }

  /** On entries sorted by start, the visual index never lands inside a ghost
      span: every span either ends at or before it (it was counted) or starts
      after it (it was not). Hence the counted spans are exactly those that
      start at or before the result, and the result is the logical index plus
      their lengths. */
  lemma {:induction false} RemapOutsideSpans(v: int, s: seq<PendingDeletion>)
    requires SortedByStart(s)
    ensures var r := Remap(v, s);
      && (forall j :: 0 <= j < |s| ==> s[j].start + s[j].length <= r || r < s[j].start)
      && r == v + LengthUpTo(s, r)
    decreases |s|
  {
    if s != [] {
      var r := Remap(v, s);
      if s[0].start <= v {
        RemapOutsideSpans(v + s[0].length, s[1..]);
        RemapBounds(v + s[0].length, s[1..]);
      } else {
        RemapBounds(v, s[1..]);
        assert r == v;
        NothingUpTo(s, v);
      }
    }
  }

  lemma {:induction false} NothingUpTo(s: seq<PendingDeletion>, bound: int)
    requires forall j :: 0 <= j < |s| ==> bound < s[j].start
    ensures LengthUpTo(s, bound) == 0
    decreases |s|
  {
    if s != [] {
      NothingUpTo(s[1..], bound);
    }
  }

  /** The visual position of a logical position, given the live registry. */
  function VisualIndex(logical: int, pending: seq<PendingDeletion>): int
  {
    Remap(logical, SortByStart(pending))
  }

  /** Visual is never before logical, equals it with an empty registry, is at
      most the logical index plus all ghost lengths, and falls outside every
      ghost span of the registry. */
  lemma VisualIndexProperties(logical: int, pending: seq<PendingDeletion>)
    ensures var v := VisualIndex(logical, pending);
      && logical <= v <= logical + TotalLength(pending)
      && (pending == [] ==> v == logical)
      && (forall d :: d in pending ==> d.start + d.length <= v || v < d.start)
  {
    var sorted := SortByStart(pending);
    SortByStartCorrect(pending);
    RemapBounds(logical, sorted);
    RemapOutsideSpans(logical, sorted);
    forall d | d in pending
      ensures d.start + d.length <= VisualIndex(logical, pending) || VisualIndex(logical, pending) < d.start
    {
      assert d in multiset(sorted);
      var j :| 0 <= j < |sorted| && sorted[j] == d;
    }
  }

  /** The remapping loop over a sorted copy of the registry. */
  method ToVisualIndex(logical: int, pending: seq<PendingDeletion>) returns (v: int)
    ensures v == VisualIndex(logical, pending)
    ensures logical <= v <= logical + TotalLength(pending)
    ensures forall d :: d in pending ==> d.start + d.length <= v || v < d.start
  {
    var sorted := SortByStart(pending);
    v := logical;
    for i := 0 to |sorted|
      invariant Remap(v, sorted[i..]) == Remap(logical, sorted)
    {
      assert sorted[i..][1..] == sorted[i + 1..];
      if sorted[i].start <= v {
        v := v + sorted[i].length;
      }
    }
    assert sorted[|sorted|..] == [];
    VisualIndexProperties(logical, pending);
  }

  // ---------------------------------------------------------------------------
  // Applying an insert or a delete action at a visual index
  // ---------------------------------------------------------------------------

  /** An insertion at or before an entry's start pushes the entry right by one. */
  function ShiftedForInsert(d: PendingDeletion, v: int): PendingDeletion
  {
    if d.start >= v then d.(start := d.start + 1) else d
  }

  function ShiftForInsertion(ps: seq<PendingDeletion>, v: int): (r: seq<PendingDeletion>)
    ensures |r| == |ps|
  {
    seq(|ps|, j requires 0 <= j < |ps| => ShiftedForInsert(ps[j], v))
  }

  /** An insert splices one character into the text at `v` and shifts the
      registry. */
  function InsertChar(view: View, v: int, c: char): View
  {
    View(Slice(view.text, 0, v) + [c] + SliceFrom(view.text, v), ShiftForInsertion(view.pending, v))
  }

  /** A delete leaves the text alone and registers a ghost entry at `v` that
      expires DELETION_WAIT_DURATION after `now`. */
  function Register(view: View, v: int, t: string, now: int): View
  {
    View(view.text, view.pending + [PendingDeletion(v, |t|, t, now + DELETION_WAIT_DURATION)])
  }

  /** A delete leaves the text and every existing entry as they are and
      appends one entry: start `v`, the deleted text and its length, expiry
      DELETION_WAIT_DURATION after `now`. */
  lemma RegisterEffect(view: View, v: int, t: string, now: int)
    ensures var r := Register(view, v, t, now);
      && r.text == view.text
      && |r.pending| == |view.pending| + 1
      && r.pending[..|view.pending|] == view.pending
      && r.pending[|view.pending|] == PendingDeletion(v, |t|, t, now + 300)
  {
  }

  /** The effect of an insert at a position inside the text: the character
      lands at `v`, the text grows by one, exactly the entries starting at or
      after `v` move right by one, and nothing else about any entry changes. */
  lemma InsertCharEffect(view: View, v: int, c: char)
    requires 0 <= v <= |view.text|
    ensures var r := InsertChar(view, v, c);
      && r.text == view.text[..v] + [c] + view.text[v..]
      && |r.text| == |view.text| + 1
      && r.text[v] == c
      && |r.pending| == |view.pending|
      && forall j :: 0 <= j < |view.pending| ==>
           var d, e := view.pending[j], r.pending[j];
           && e.start == (if d.start >= v then d.start + 1 else d.start)
           && e.length == d.length && e.text == d.text && e.expiry == d.expiry
  {
  }

  /** The insertion example: one entry at start 5, length 3, and a character
      inserted at 2 leaves the entry at start 6. */
  lemma InsertShiftExample(t: string, c: char)
    requires |t| >= 8
    ensures InsertChar(View(t, [PendingDeletion(5, 3, t[5..8], 1000)]), 2, c).pending
         == [PendingDeletion(6, 3, t[5..8], 1000)]
  {
  }

  /** `d` lies inside `text` and `text` still shows, at `d`'s span, the text
      `d` deleted. */
  ghost predicate Shows(text: string, d: PendingDeletion)
  {
    0 <= d.start && d.start + d.length <= |text| && text[d.start..d.start + d.length] == d.text
  }

  /** Every ghost entry still shows its deleted text. */
  ghost predicate Faithful(view: View)
  {
    forall d :: d in view.pending ==> Shows(view.text, d)
  }

  ghost predicate Apart(a: PendingDeletion, b: PendingDeletion)
  {
    a.start + a.length <= b.start || b.start + b.length <= a.start
  }

  /** No two ghost spans overlap. */
  ghost predicate Disjoint(ps: seq<PendingDeletion>)
  {
    forall i, j :: 0 <= i < |ps| && 0 <= j < |ps| && i != j ==> Apart(ps[i], ps[j])
  }

  /** Splicing a character in at `v` leaves a stretch of the text that does
      not straddle `v` intact, one place further right when it lies after `v`. */
  lemma SpliceKeepsSlice(text: string, v: int, c: char, a: int, n: nat)
    requires 0 <= v <= |text| && 0 <= a && a + n <= |text|
    requires a + n <= v || v <= a
    ensures var t := text[..v] + [c] + text[v..];
      var b := if a >= v then a + 1 else a;
      b + n <= |t| && t[b..b + n] == text[a..a + n]
  {
    var front, back := text[..v] + [c], text[v..];
    if a >= v {
      assert (front + back)[a + 1..a + 1 + n] == back[a - v..a - v + n];
    } else {
      assert (front + back)[a..a + n] == text[..v][a..a + n];
    }
  }

  /** An insert at a position outside every ghost span (which is where the
      remapper puts it) keeps each ghost span showing its deleted text, and
      keeps the spans apart. */
  lemma InsertKeepsGhosts(view: View, v: int, c: char)
    requires Faithful(view)
    requires 0 <= v <= |view.text|
    requires forall d :: d in view.pending ==> d.start + d.length <= v || v < d.start
    ensures Faithful(InsertChar(view, v, c))
    ensures Disjoint(view.pending) ==> Disjoint(InsertChar(view, v, c).pending)
  {
    var r := InsertChar(view, v, c);
    assert r.text == view.text[..v] + [c] + view.text[v..];
    assert r.pending == ShiftForInsertion(view.pending, v);
    ShiftKeepsShowing(view.text, view.pending, v, c);
    if Disjoint(view.pending) {
      ShiftKeepsApart(view.pending, v);
    }
  }

  /** The entries shifted for an insert at `v` show their text in the text
      with the character spliced in at `v`. */
  lemma ShiftKeepsShowing(text: string, ps: seq<PendingDeletion>, v: int, c: char)
    requires 0 <= v <= |text|
    requires forall d :: d in ps ==> Shows(text, d)
    requires forall d :: d in ps ==> d.start + d.length <= v || v < d.start
    ensures forall e :: e in ShiftForInsertion(ps, v) ==> Shows(text[..v] + [c] + text[v..], e)
  {
    var r := ShiftForInsertion(ps, v);
    forall e | e in r ensures Shows(text[..v] + [c] + text[v..], e) {
      var j :| 0 <= j < |r| && r[j] == e;
      var d := ps[j];
      assert d in ps;
      SpliceKeepsSlice(text, v, c, d.start, d.length);
    }
  }

  /** The shift for an insert keeps ghost spans that were apart still apart. */
  lemma ShiftKeepsApart(ps: seq<PendingDeletion>, v: int)
    requires Disjoint(ps)
    ensures Disjoint(ShiftForInsertion(ps, v))
  {
    var r := ShiftForInsertion(ps, v);
    forall i, j | 0 <= i < |r| && 0 <= j < |r| && i != j
      ensures Apart(r[i], r[j])
    {
      assert Apart(ps[i], ps[j]);
    }
  }

  // ---------------------------------------------------------------------------
  // Removing expired entries
  // ---------------------------------------------------------------------------

  /** When `d` is cut out, an entry starting after it moves left by its length. */
  function ShiftedForRemoval(e: PendingDeletion, d: PendingDeletion): PendingDeletion
  {
    if e.start > d.start then e.(start := e.start - d.length) else e
  }

  /** The shift over the live registry, skipping the entry being removed. */
  function ShiftForRemoval(ps: seq<PendingDeletion>, idx: nat): (r: seq<PendingDeletion>)
    requires idx < |ps|
    ensures |r| == |ps|
  {
    seq(|ps|, j requires 0 <= j < |ps| => if j != idx then ShiftedForRemoval(ps[j], ps[idx]) else ps[j])
  }

  /** The entry at array index `idx` is cut out of the text, the others that
      start after it move left, and the entry is spliced out of the registry. */
  function RemoveAt(view: View, idx: nat): (r: View)
    requires idx < |view.pending|
    ensures |r.pending| == |view.pending| - 1
  {
    var d := view.pending[idx];
    var shifted := ShiftForRemoval(view.pending, idx);
    View(Slice(view.text, 0, d.start) + SliceFrom(view.text, d.start + d.length),
         shifted[..idx] + shifted[idx + 1..])
  }

  /** The sweep over array indices k-1 down to 0: each entry that has expired
      by `now` is removed. Going downwards, a splice never moves an entry
      whose index is still to be visited. */
  function SweepDown(view: View, now: int, k: nat): View
    requires k <= |view.pending|
    decreases k
  {
    if k == 0 then view
    else if now >= view.pending[k - 1].expiry then SweepDown(RemoveAt(view, k - 1), now, k - 1)
    else SweepDown(view, now, k - 1)
  }

  /** The whole expiry sweep of one tick. */
  function Sweep(view: View, now: int): View
  {
    SweepDown(view, now, |view.pending|)
  }

  /** An entry with its position forgotten: what a shift cannot change. */
  function Erase(ps: seq<PendingDeletion>): (r: seq<PendingDeletion>)
    ensures |r| == |ps|
  {
    seq(|ps|, j requires 0 <= j < |ps| => ps[j].(start := 0))
  }

  /** The entries that have not expired by `now`, in their order. */
  function Live(es: seq<PendingDeletion>, now: int): seq<PendingDeletion>
    decreases |es|
  {
    if es == [] then []
    else Live(es[..|es| - 1], now) + (if now < es[|es| - 1].expiry then [es[|es| - 1]] else [])
  }

  /** Total length of the entries that have expired by `now`. */
  function ExpiredLength(es: seq<PendingDeletion>, now: int): nat
    decreases |es|
  {
    if es == [] then 0
    else ExpiredLength(es[..|es| - 1], now) + (if now >= es[|es| - 1].expiry then es[|es| - 1].length else 0)
  }

  /** Removing one entry: apart from positions, the registry is the old one
      without that entry; each other entry that starts after it moves left by
      its length, the rest keep their start. When the entry lies in the text,
      exactly its span is cut out. */
  lemma RemoveAtEffect(view: View, idx: nat)
    requires idx < |view.pending|
    ensures Erase(RemoveAt(view, idx).pending) == Erase(view.pending)[..idx] + Erase(view.pending)[idx + 1..]
    ensures var d, r := view.pending[idx], RemoveAt(view, idx).pending;
      forall j :: 0 <= j < |r| ==>
        var o := view.pending[if j < idx then j else j + 1];
        r[j].start == (if o.start > d.start then o.start - d.length else o.start)
    ensures var d := view.pending[idx];
      0 <= d.start && d.start + d.length <= |view.text| ==>
        RemoveAt(view, idx).text == view.text[..d.start] + view.text[d.start + d.length..]
  {
    var r := RemoveAt(view, idx);
    var shifted := ShiftForRemoval(view.pending, idx);
    assert Erase(r.pending) == Erase(view.pending)[..idx] + Erase(view.pending)[idx + 1..] by {
      assert forall j :: 0 <= j < |r.pending| ==>
        r.pending[j] == (if j < idx then shifted[j] else shifted[j + 1]);
    }
  }

  /** The sweep over indices below k removes exactly the expired entries among
      them, keeps the rest in their order, and leaves the entries at k and
      above where they are (up to position). */
  lemma {:induction false} SweepDownSurvivors(view: View, now: int, k: nat)
    requires k <= |view.pending|
    ensures Erase(SweepDown(view, now, k).pending)
         == Live(Erase(view.pending)[..k], now) + Erase(view.pending)[k..]
    decreases k
  {
    var es := Erase(view.pending);
    if k == 0 {
      assert es[..0] == [];
    } else {
      assert es[..k][..k - 1] == es[..k - 1];
      assert es[k - 1..] == [es[k - 1]] + es[k..];
      if now >= view.pending[k - 1].expiry {
        var next := RemoveAt(view, k - 1);
        RemoveAtEffect(view, k - 1);
        SweepDownSurvivors(next, now, k - 1);
        var es' := Erase(next.pending);
        assert es'[..k - 1] == es[..k - 1];
        assert es'[k - 1..] == es[k..];
      } else {
        SweepDownSurvivors(view, now, k - 1);
      }
    }
  }

  /** Every surviving entry of `Live` is one of the entries and had not
      expired. */
  lemma {:induction false} LiveNotExpired(es: seq<PendingDeletion>, now: int)
    ensures forall i :: 0 <= i < |Live(es, now)| ==> Live(es, now)[i] in es && now < Live(es, now)[i].expiry
    decreases |es|
  {
    if es != [] {
      var init, last := es[..|es| - 1], es[|es| - 1];
      LiveNotExpired(init, now);
      var li := Live(init, now);
      var tail := if now < last.expiry then [last] else [];
      var l := Live(es, now);
      assert l == li + tail;
      forall i | 0 <= i < |l| ensures l[i] in es && now < l[i].expiry {
        if i < |li| {
          assert l[i] == li[i];
          assert li[i] in init;
        } else {
          assert l[i] == last;
        }
      }
    }
  }

  /** When no entry has expired, `Live` keeps them all. */
  lemma {:induction false} LiveAll(es: seq<PendingDeletion>, now: int)
    requires forall j :: 0 <= j < |es| ==> now < es[j].expiry
    ensures Live(es, now) == es
    decreases |es|
  {
    if es != [] {
      var init := es[..|es| - 1];
      LiveAll(init, now);
      assert es == init + [es[|es| - 1]];
    }
  }

  /** The sweep removes exactly the entries that have expired by `now` (the
      expiry test is `now >= expiry`); the others survive in their original
      relative order, with only their starts adjusted. */
  lemma SweepSurvivors(view: View, now: int)
    ensures Erase(Sweep(view, now).pending) == Live(Erase(view.pending), now)
    ensures forall j :: 0 <= j < |Sweep(view, now).pending| ==> now < Sweep(view, now).pending[j].expiry
  {
    var ps := Sweep(view, now).pending;
    var es := Erase(view.pending);
    SweepDownSurvivors(view, now, |view.pending|);
    assert es[..|es|] == es && es[|es|..] == [];
    var live := Live(es, now);
    assert Erase(ps) == live;
    LiveNotExpired(es, now);
    forall j | 0 <= j < |ps| ensures now < ps[j].expiry {
      assert Erase(ps)[j] == ps[j].(start := 0);
      assert live[j].expiry == ps[j].expiry;
    }
  }

  /** A sweep in which nothing has expired changes neither the text nor the
      registry. */
  lemma {:induction false} SweepNothingExpired(view: View, now: int, k: nat)
    requires k <= |view.pending|
    requires forall j :: 0 <= j < k ==> now < view.pending[j].expiry
    ensures SweepDown(view, now, k) == view
    decreases k
  {
    if k > 0 {
      SweepNothingExpired(view, now, k - 1);
    }
  }

  /** Cutting `d` out of the text leaves an entry apart from `d` showing its
      text, once the entry is shifted. */
  lemma RemoveKeepsOther(text: string, d: PendingDeletion, e: PendingDeletion)
    requires Shows(text, d) && Shows(text, e) && Apart(d, e)
    ensures Shows(text[..d.start] + text[d.start + d.length..], ShiftedForRemoval(e, d))
  {
    var cut := text[..d.start] + text[d.start + d.length..];
    var e' := ShiftedForRemoval(e, d);
    if e.start > d.start {
      assert d.start + d.length <= e.start;
      assert cut[e'.start..e'.start + e'.length] == text[e.start..e.start + e.length];
    } else if e.start + e.length <= d.start {
      assert cut[e'.start..e'.start + e'.length] == text[e.start..e.start + e.length];
    } else {
      assert d.length == 0;
      assert cut == text;
    }
  }

  /** Two entries apart from each other and from `d` stay apart after the shift
      that removing `d` causes. */
  lemma RemoveKeepsApart(d: PendingDeletion, a: PendingDeletion, b: PendingDeletion)
    requires Apart(d, a) && Apart(d, b) && Apart(a, b)
    ensures Apart(ShiftedForRemoval(a, d), ShiftedForRemoval(b, d))
  {
  }

  /** Removing one entry of a registry whose spans are apart and show their
      text: the remaining entries still do, and the text shrinks by exactly
      the removed entry's length. */
  lemma RemoveAtKeepsGhosts(view: View, idx: nat)
    requires idx < |view.pending|
    requires Faithful(view) && Disjoint(view.pending)
    ensures Faithful(RemoveAt(view, idx)) && Disjoint(RemoveAt(view, idx).pending)
    ensures |RemoveAt(view, idx).text| == |view.text| - view.pending[idx].length
  {
    var ps := view.pending;
    var d := ps[idx];
    assert d in ps;
    var r := RemoveAt(view, idx);
    var shifted := ShiftForRemoval(ps, idx);
    RemoveAtEffect(view, idx);
    assert forall j :: 0 <= j < |r.pending| ==>
      r.pending[j] == ShiftedForRemoval(ps[if j < idx then j else j + 1], d);
    forall e | e in r.pending ensures Shows(r.text, e) {
      var j :| 0 <= j < |r.pending| && r.pending[j] == e;
      var o := if j < idx then j else j + 1;
      assert ps[o] in ps;
      RemoveKeepsOther(view.text, d, ps[o]);
    }
    forall i, j | 0 <= i < |r.pending| && 0 <= j < |r.pending| && i != j
      ensures Apart(r.pending[i], r.pending[j])
    {
      var oi := if i < idx then i else i + 1;
      var oj := if j < idx then j else j + 1;
      RemoveKeepsApart(d, ps[oi], ps[oj]);
    }
  }

  /** The sweep keeps ghost spans apart and showing their text, and the text
      shrinks by exactly the total length of the expired entries. */
  lemma {:induction false} SweepDownKeepsGhosts(view: View, now: int, k: nat)
    requires k <= |view.pending|
    requires Faithful(view) && Disjoint(view.pending)
    ensures Faithful(SweepDown(view, now, k)) && Disjoint(SweepDown(view, now, k).pending)
    ensures |SweepDown(view, now, k).text| == |view.text| - ExpiredLength(Erase(view.pending)[..k], now)
    decreases k
  {
    var es := Erase(view.pending);
    if k == 0 {
      assert es[..0] == [];
    } else {
      assert es[..k][..k - 1] == es[..k - 1];
      if now >= view.pending[k - 1].expiry {
        var next := RemoveAt(view, k - 1);
        RemoveAtKeepsGhosts(view, k - 1);
        RemoveAtEffect(view, k - 1);
        SweepDownKeepsGhosts(next, now, k - 1);
        assert Erase(next.pending)[..k - 1] == es[..k - 1];
      } else {
        SweepDownKeepsGhosts(view, now, k - 1);
      }
    }
  }

  lemma SweepKeepsGhosts(view: View, now: int)
    requires Faithful(view) && Disjoint(view.pending)
    ensures Faithful(Sweep(view, now)) && Disjoint(Sweep(view, now).pending)
    ensures |Sweep(view, now).text| == |view.text| - ExpiredLength(Erase(view.pending), now)
  {
    SweepDownKeepsGhosts(view, now, |view.pending|);
    assert Erase(view.pending)[..|view.pending|] == Erase(view.pending);
  }

  // ---------------------------------------------------------------------------
  // One queued action, remapped and applied
  // ---------------------------------------------------------------------------

  /** An action is remapped to a visual index through the live registry, then
      an insert splices its character in and a delete registers a ghost. */
  function ApplyAction(view: View, a: Action, now: int): View
  {
    var v := VisualIndex(a.logicalIndex, view.pending);
    match a
    case Insert(c, _) => InsertChar(view, v, c)
    case Delete(t, _) => Register(view, v, t, now)
  }

  /** An insert action whose remapped position lies in the text keeps every
      ghost span showing its deleted text and keeps the spans apart; the
      character lands outside every ghost span. */
  lemma InsertActionKeepsGhosts(view: View, c: char, logical: int, now: int)
    requires Faithful(view) && Disjoint(view.pending)
    requires 0 <= logical && VisualIndex(logical, view.pending) <= |view.text|
    ensures Faithful(ApplyAction(view, Insert(c, logical), now))
    ensures Disjoint(ApplyAction(view, Insert(c, logical), now).pending)
  {
    var v := VisualIndex(logical, view.pending);
    VisualIndexProperties(logical, view.pending);
    InsertKeepsGhosts(view, v, c);
  }

  /** Actions applied one after the other, in queue order. */
  function ApplyAll(view: View, actions: seq<Action>, now: int): View
    decreases |actions|
  {
    if actions == [] then view else ApplyAll(ApplyAction(view, actions[0], now), actions[1..], now)
  }

  // ---------------------------------------------------------------------------
  // How long a ghost entry lives
  // ---------------------------------------------------------------------------

  /** An entry that has not expired by `now` survives `Live`. */
  lemma {:induction false} LiveKeeps(es: seq<PendingDeletion>, now: int, d: PendingDeletion)
    requires d in es && now < d.expiry
    ensures d in Live(es, now)
    decreases |es|
  {
    var init, last := es[..|es| - 1], es[|es| - 1];
    assert es == init + [last];
    if d != last {
      assert d in init;
      LiveKeeps(init, now, d);
    }
  }

  /** A sweep at `now` keeps every entry that has not expired by `now`, with
      only its start possibly moved, and keeps no entry that has. */
  lemma SweepKeepsUnexpired(view: View, now: int, d: PendingDeletion)
    requires d in Erase(view.pending) && now < d.expiry
    ensures d in Erase(Sweep(view, now).pending)
  {
    SweepSurvivors(view, now);
    LiveKeeps(Erase(view.pending), now, d);
  }

  /** An action keeps every entry of the registry, up to its start: an insert
      only moves starts, a delete only appends. */
  lemma ApplyActionKeeps(view: View, a: Action, now: int, d: PendingDeletion)
    requires d in Erase(view.pending)
    ensures d in Erase(ApplyAction(view, a, now).pending)
  {
    var v := VisualIndex(a.logicalIndex, view.pending);
    var r := ApplyAction(view, a, now);
    var es := Erase(view.pending);
    var j :| 0 <= j < |es| && es[j] == d;
    match a
    case Insert(c, _) =>
      InsertKeepsErased(view, v, c);
    case Delete(t, _) =>
      RegisterEffect(view, v, t, now);
      assert Erase(r.pending)[j] == d;
  }

  /** Wherever it lands, an insert changes no entry except in its start. */
  lemma InsertKeepsErased(view: View, v: int, c: char)
    ensures Erase(InsertChar(view, v, c).pending) == Erase(view.pending)
  {
  }

  lemma {:induction false} ApplyAllKeeps(view: View, actions: seq<Action>, now: int, d: PendingDeletion)
    requires d in Erase(view.pending)
    ensures d in Erase(ApplyAll(view, actions, now).pending)
    decreases |actions|
  {
    if actions != [] {
      ApplyActionKeeps(view, actions[0], now, d);
      ApplyAllKeeps(ApplyAction(view, actions[0], now), actions[1..], now, d);
    }
  }

  /** Actions applied at `now` add only entries expiring after `now`. */
  lemma {:induction false} ApplyAllFresh(view: View, actions: seq<Action>, now: int)
    requires forall j :: 0 <= j < |view.pending| ==> now < view.pending[j].expiry
    ensures var ps := ApplyAll(view, actions, now).pending;
      forall j :: 0 <= j < |ps| ==> now < ps[j].expiry
    decreases |actions|
  {
    if actions != [] {
      var a := actions[0];
      var v := VisualIndex(a.logicalIndex, view.pending);
      var r := ApplyAction(view, a, now);
      if a.Insert? {
        InsertKeepsErased(view, v, a.ch);
        forall j | 0 <= j < |r.pending| ensures now < r.pending[j].expiry {
          assert Erase(r.pending)[j].expiry == r.pending[j].expiry;
        }
      } else {
        RegisterEffect(view, v, a.text, now);
        forall j | 0 <= j < |r.pending| ensures now < r.pending[j].expiry {
          if j < |view.pending| {
            assert r.pending[j] == r.pending[..|view.pending|][j];
          }
        }
      }
      ApplyAllFresh(r, actions[1..], now);
      var ps := ApplyAll(view, actions, now).pending;
      assert ps == ApplyAll(r, actions[1..], now).pending;
      forall j | 0 <= j < |ps| ensures now < ps[j].expiry {
        assert ps[j] == ApplyAll(r, actions[1..], now).pending[j];
      }
    }
  }

  /** Deletion linger, within the frame that registers it: a span registered
      at time `now` stays in the registry through all the actions that follow
      it; a sweep of the resulting state before `now + DELETION_WAIT_DURATION`
      keeps it, and a sweep at or after that time leaves no entry with its
      expiry or any earlier one. */
  lemma DeletionLingers(view: View, v: int, t: string, now: int, actions: seq<Action>, later: int)
    ensures var r := ApplyAll(Register(view, v, t, now), actions, now);
      var entry := PendingDeletion(0, |t|, t, now + DELETION_WAIT_DURATION);
      && entry in Erase(r.pending)
      && (later < now + DELETION_WAIT_DURATION ==> entry in Erase(Sweep(r, later).pending))
      && (later >= now + DELETION_WAIT_DURATION ==>
            forall j :: 0 <= j < |Sweep(r, later).pending| ==> now + DELETION_WAIT_DURATION < Sweep(r, later).pending[j].expiry)
  {
    var reg := Register(view, v, t, now);
    var entry := PendingDeletion(0, |t|, t, now + DELETION_WAIT_DURATION);
    RegisterEffect(view, v, t, now);
    assert Erase(reg.pending)[|view.pending|] == entry;
    var r := ApplyAll(reg, actions, now);
    ApplyAllKeeps(reg, actions, now, entry);
    if later < now + DELETION_WAIT_DURATION {
      SweepKeepsUnexpired(r, later, entry);
    }
    SweepSurvivors(r, later);
  }
}
