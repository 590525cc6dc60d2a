/** The action flattener: a revision's diff becomes a queue of atomic actions,
    one per inserted character and one per deleted span, each tagged with a
    position in the logical text (the text the diff describes, with no
    lingering deletions in it). */
module Flattener {
  import opened Manifest

  datatype Action =
    | Insert(ch: char, logicalIndex: int)
    | Delete(text: string, logicalIndex: int)

  /** The insert actions for the characters of `t`, the first at logical
      position `cursor`, each next one a position further on. */
  function InsertsAt(t: string, cursor: int): seq<Action>
    decreases |t|
  {
    if t == [] then [] else [Insert(t[0], cursor)] + InsertsAt(t[1..], cursor + 1)
  }

  /** What one diff span emits at the current cursor. */
  function SpanActions(op: Op, cursor: int): seq<Action>
  {
    if op.code == EQUAL then []
    else if op.code == INSERT then InsertsAt(op.text, cursor)
    else if op.code == DELETE then [Delete(op.text, cursor)]
    else []
  }

  /** Where one diff span leaves the cursor: equal and insert spans move it
      past their text, a delete span and an unknown opcode leave it. */
  function Advance(op: Op, cursor: int): int
  {
    if op.code == EQUAL || op.code == INSERT then cursor + |op.text| else cursor
  }

  /** The actions of a whole diff, starting at `cursor`. */
  function FlattenFrom(ops: seq<Op>, cursor: int): seq<Action>
    decreases |ops|
  {
    if ops == [] then [] else SpanActions(ops[0], cursor) + FlattenFrom(ops[1..], Advance(ops[0], cursor))
  }

  /** The cursor after the whole diff. */
  function CursorAfter(ops: seq<Op>, cursor: int): int
    decreases |ops|
  {
    if ops == [] then cursor else CursorAfter(ops[1..], Advance(ops[0], cursor))
  }

  /** The action queue of a revision: the cursor starts at 0. */
  function Flatten(ops: seq<Op>): seq<Action>
  {
    FlattenFrom(ops, 0)
  }

  /** Total number of characters in the insert spans. */
  function InsertedChars(ops: seq<Op>): nat
    decreases |ops|
  {
    if ops == [] then 0
    else (if ops[0].code == INSERT then |ops[0].text| else 0) + InsertedChars(ops[1..])
  }

  /** Number of delete spans. */
  function DeleteSpans(ops: seq<Op>): nat
    decreases |ops|
  {
    if ops == [] then 0
    else (if ops[0].code == DELETE then 1 else 0) + DeleteSpans(ops[1..])
  }

  /** The k-th insert action of a span carries the span's k-th character at
      the cursor plus k. */
  lemma {:induction false} InsertsAtIndex(t: string, cursor: int)
    ensures |InsertsAt(t, cursor)| == |t|
    ensures forall k :: 0 <= k < |t| ==> InsertsAt(t, cursor)[k] == Insert(t[k], cursor + k)
    decreases |t|
  {
    if t != [] {
      InsertsAtIndex(t[1..], cursor + 1);
    }
  }

  /** Flattening distributes over concatenation of diffs: the second part
      starts where the first part left the cursor. */
  lemma {:induction false} FlattenAppend(a: seq<Op>, b: seq<Op>, cursor: int)
    ensures FlattenFrom(a + b, cursor) == FlattenFrom(a, cursor) + FlattenFrom(b, CursorAfter(a, cursor))
    ensures CursorAfter(a + b, cursor) == CursorAfter(b, CursorAfter(a, cursor))
    decreases |a|
  {
    if a == [] {
      assert a + b == b;
    } else {
      assert (a + b)[1..] == a[1..] + b;
      FlattenAppend(a[1..], b, Advance(a[0], cursor));
    }
  }

  /** Appending one span to a diff appends that span's actions, emitted at
      the cursor the diff leaves, and moves the cursor as the span says. */
  lemma FlattenSnoc(pre: seq<Op>, op: Op, cursor: int)
    ensures FlattenFrom(pre + [op], cursor) == FlattenFrom(pre, cursor) + SpanActions(op, CursorAfter(pre, cursor))
    ensures CursorAfter(pre + [op], cursor) == Advance(op, CursorAfter(pre, cursor))
  {
    var c := CursorAfter(pre, cursor);
    FlattenAppend(pre, [op], cursor);
    assert FlattenFrom([op], c) == SpanActions(op, c);
    assert CursorAfter([op], c) == Advance(op, c);
  }

  /** An appended insert span of n characters emits n insert actions, in
      order, at the cursor, cursor + 1, ..., cursor + n - 1, after the actions
      already emitted. */
  lemma FlattenInsertSpan(pre: seq<Op>, op: Op, cursor: int)
    requires op.code == INSERT
    ensures var r, before, c := FlattenFrom(pre + [op], cursor), FlattenFrom(pre, cursor), CursorAfter(pre, cursor);
      && |r| == |before| + |op.text|
      && r[..|before|] == before
      && (forall k :: 0 <= k < |op.text| ==> r[|before| + k] == Insert(op.text[k], c + k))
  {
    FlattenSnoc(pre, op, cursor);
    var c, before := CursorAfter(pre, cursor), FlattenFrom(pre, cursor);
    assert SpanActions(op, c) == InsertsAt(op.text, c);
    AppendInserts(FlattenFrom(pre + [op], cursor), before, op.text, c);
  }

  /** Insert actions appended after `before` sit at the indices following it. */
  lemma AppendInserts(r: seq<Action>, before: seq<Action>, t: string, c: int)
    requires r == before + InsertsAt(t, c)
    ensures |r| == |before| + |t|
    ensures r[..|before|] == before
    ensures forall k :: 0 <= k < |t| ==> r[|before| + k] == Insert(t[k], c + k)
  {
    InsertsAtIndex(t, c);
    var ins := InsertsAt(t, c);
    assert r[..|before|] == before;
    forall k | 0 <= k < |t| ensures r[|before| + k] == Insert(t[k], c + k) {
      assert r[|before| + k] == ins[k];
    }
  }

  /** The effect of appending one span to a diff, span kind by span kind:
      an equal span emits nothing and moves the cursor past its text; an
      insert span of n characters emits n insert actions, in order, at the
      cursor, cursor + 1, ..., cursor + n - 1, and moves the cursor n on; a
      delete span emits one delete action with its whole text at the cursor
      and leaves the cursor; any other opcode emits nothing. */
  lemma FlattenSpan(pre: seq<Op>, op: Op, cursor: int)
    ensures var c := CursorAfter(pre, cursor);
      && (op.code == EQUAL ==>
            FlattenFrom(pre + [op], cursor) == FlattenFrom(pre, cursor)
            && CursorAfter(pre + [op], cursor) == c + |op.text|)
      && (op.code == INSERT ==>
            var r := FlattenFrom(pre + [op], cursor);
            var n := |FlattenFrom(pre, cursor)|;
            && |r| == n + |op.text|
            && r[..n] == FlattenFrom(pre, cursor)
            && (forall k :: 0 <= k < |op.text| ==> r[n + k] == Insert(op.text[k], c + k))
            && CursorAfter(pre + [op], cursor) == c + |op.text|)
      && (op.code == DELETE ==>
            FlattenFrom(pre + [op], cursor) == FlattenFrom(pre, cursor) + [Delete(op.text, c)]
            && CursorAfter(pre + [op], cursor) == c)
      && (op.code !in {EQUAL, INSERT, DELETE} ==>
            FlattenFrom(pre + [op], cursor) == FlattenFrom(pre, cursor)
            && CursorAfter(pre + [op], cursor) == c)
  {
    FlattenSnoc(pre, op, cursor);
    if op.code == INSERT {
      FlattenInsertSpan(pre, op, cursor);
    } else if op.code != DELETE {
      assert SpanActions(op, CursorAfter(pre, cursor)) == [];
      assert FlattenFrom(pre, cursor) + [] == FlattenFrom(pre, cursor);
    }
  }

  /** One action per inserted character and one per delete span. */
  lemma {:induction false} FlattenCount(ops: seq<Op>, cursor: int)
    ensures |FlattenFrom(ops, cursor)| == InsertedChars(ops) + DeleteSpans(ops)
    decreases |ops|
  {
    if ops != [] {
      InsertsAtIndex(ops[0].text, cursor);
      FlattenCount(ops[1..], Advance(ops[0], cursor));
    }
  }

  /** Every action's logical index is at least the starting cursor and at
      most the final cursor. */
  lemma {:induction false} FlattenIndexRange(ops: seq<Op>, cursor: int)
    ensures cursor <= CursorAfter(ops, cursor)
    ensures forall a :: a in FlattenFrom(ops, cursor) ==> cursor <= a.logicalIndex <= CursorAfter(ops, cursor)
    decreases |ops|
  {
    if ops != [] {
      var next := Advance(ops[0], cursor);
      FlattenIndexRange(ops[1..], next);
      InsertsAtIndex(ops[0].text, cursor);
      forall a | a in SpanActions(ops[0], cursor)
        ensures cursor <= a.logicalIndex <= next
      {
        if ops[0].code == INSERT {
          var k :| 0 <= k < |ops[0].text| && InsertsAt(ops[0].text, cursor)[k] == a;
        }
      }
    }
  }

  /** The diff `[[0,"Hello"],[1," World"],[-1,"lo"]]`: six inserts at logical
      positions 5 to 10, then the delete at 11, because the cursor has already
      moved past the six inserted characters. */
  lemma HelloWorldExample()
    ensures Flatten([Op(EQUAL, "Hello"), Op(INSERT, " World"), Op(DELETE, "lo")])
         == [Insert(' ', 5), Insert('W', 6), Insert('o', 7), Insert('r', 8),
             Insert('l', 9), Insert('d', 10), Delete("lo", 11)]
  {
    var ops := [Op(EQUAL, "Hello"), Op(INSERT, " World"), Op(DELETE, "lo")];
    assert ops[1..][1..] == [Op(DELETE, "lo")];
    assert FlattenFrom([Op(DELETE, "lo")], 11) == [Delete("lo", 11)];
    InsertsAtIndex(" World", 5);
    assert InsertsAt(" World", 5) == [Insert(' ', 5), Insert('W', 6), Insert('o', 7), Insert('r', 8),
                                     Insert('l', 9), Insert('d', 10)];
    assert FlattenFrom(ops[1..], 5) == InsertsAt(" World", 5) + FlattenFrom([Op(DELETE, "lo")], 11);
  }

  /** The inner loop over an insert span: each character is queued at the
      cursor, which then moves by one. */
  method QueueInserts(actions: seq<Action>, t: string, cursor: int) returns (queued: seq<Action>, next: int)
    ensures queued == actions + InsertsAt(t, cursor)
    ensures next == cursor + |t|
  {
    queued, next := actions, cursor;
    var j := 0;
    while j < |t|
      invariant 0 <= j <= |t|
      invariant next == cursor + j
      invariant |queued| == |actions| + j
      invariant queued[..|actions|] == actions
      invariant forall k :: 0 <= k < j ==> queued[|actions| + k] == Insert(t[k], cursor + k)
    {
      queued := queued + [Insert(t[j], next)];
      next := next + 1;
      j := j + 1;
    }
    InsertsAtIndex(t, cursor);
    assert queued == actions + InsertsAt(t, cursor);
  }

  /** One step of the outer loop: the actions of one span, and the cursor it
      leaves. */
  method EmitSpan(actions: seq<Action>, op: Op, cursor: int) returns (queued: seq<Action>, next: int)
    ensures queued == actions + SpanActions(op, cursor)
    ensures next == Advance(op, cursor)
  {
    queued, next := actions, cursor;
    if op.code == EQUAL {
      next := cursor + |op.text|;
    } else if op.code == INSERT {
      queued, next := QueueInserts(actions, op.text, cursor);
    } else if op.code == DELETE {
      queued := actions + [Delete(op.text, cursor)];
    }
  }

  lemma AppendAssoc(a: seq<Action>, b: seq<Action>, c: seq<Action>)
    ensures a + (b + c) == (a + b) + c
  {
  }

  lemma FlattenUnfold(ops: seq<Op>, i: nat, cursor: int)
    requires i < |ops|
    ensures FlattenFrom(ops[i..], cursor) == SpanActions(ops[i], cursor) + FlattenFrom(ops[i + 1..], Advance(ops[i], cursor))
  {
    assert ops[i..][1..] == ops[i + 1..];
  }

  /** The flattening loop: a cursor walks the diff; equal spans move it, each
      inserted character is queued at the cursor and moves it by one, a
      deleted span is queued whole at the cursor. */
  method FlattenOps(ops: seq<Op>) returns (actions: seq<Action>)
    ensures actions == Flatten(ops)
    ensures |actions| == InsertedChars(ops) + DeleteSpans(ops)
  {
    actions := [];
    var cursor := 0;
    var i := 0;
    while i < |ops|
      invariant 0 <= i <= |ops|
      invariant actions + FlattenFrom(ops[i..], cursor) == Flatten(ops)
    {
      ghost var was, at := actions, cursor;
      actions, cursor := EmitSpan(actions, ops[i], cursor);
      FlattenUnfold(ops, i, at);
      AppendAssoc(was, SpanActions(ops[i], at), FlattenFrom(ops[i + 1..], cursor));
      i := i + 1;
    }
    assert ops[i..] == [];
    FlattenCount(ops, 0);
  }
}
