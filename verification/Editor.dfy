/** The editor's document as a value: its lines, its edits, and what undo brings back. */
module Editor {
  import opened Bits

  const NEWLINE: byte := 10
  const UNDO_DEPTH := 64

  datatype UndoOp = Inserted(pos: nat, ch: byte) | Deleted(pos: nat, ch: byte)
  datatype Doc = Doc(text: seq<byte>, cursor: nat, undo: seq<UndoOp>)
  datatype Line = Line(start: nat, end: nat)
  datatype Action = Type(ch: byte) | Back | Left | Right | Up | Down

  predicate Sound(d: Doc) {
    d.cursor <= |d.text| && |d.undo| <= UNDO_DEPTH
  }

  // ---------------------------------------------------------------- lines

  /** The lines finished before position `i`, and where the next one starts. */
  function Finished(text: seq<byte>, i: nat): (r: (seq<Line>, nat))
    requires i <= |text|
    ensures r.1 <= i
  {
    if i == 0 then ([], 0)
    else
      var (lines, start) := Finished(text, i - 1);
      if text[i - 1] == NEWLINE then (lines + [Line(start, i - 1)], i) else (lines, start)
  }

  function LinesOf(text: seq<byte>): (lines: seq<Line>)
    ensures |lines| > 0
  {
    Finished(text, |text|).0 + [Line(Finished(text, |text|).1, |text|)]
  }

  /** Lines in order, each without a newline inside and, but for the last, with one at its end. */
  ghost predicate Tiles(text: seq<byte>, lines: seq<Line>, start: nat) {
    && (forall k :: 0 <= k < |lines| ==> lines[k].start <= lines[k].end < |text| && text[lines[k].end] == NEWLINE)
    && (forall k, i :: 0 <= k < |lines| && lines[k].start <= i < lines[k].end ==> text[i] != NEWLINE)
    && (forall k :: 0 <= k < |lines| - 1 ==> lines[k + 1].start == lines[k].end + 1)
    && (if |lines| == 0 then start == 0 else lines[0].start == 0 && start == lines[|lines| - 1].end + 1)
  }

  /** No newline from `start` up to `end`. */
  ghost predicate OneLine(text: seq<byte>, start: nat, end: nat) {
    start <= end <= |text| && forall k :: start <= k < end ==> text[k] != NEWLINE
  }

  lemma {:induction false} FinishedTiles(text: seq<byte>, i: nat)
    requires i <= |text|
    ensures var (lines, start) := Finished(text, i); Tiles(text, lines, start) && OneLine(text, start, i)
  {
    if i > 0 {
      FinishedTiles(text, i - 1);
      var (lines, start) := Finished(text, i - 1);
      if text[i - 1] == NEWLINE { TilesMore(text, lines, start, i - 1); } else { LineGrows(text, start, i - 1); }
    }
  }

  lemma LineGrows(text: seq<byte>, start: nat, end: nat)
    requires OneLine(text, start, end) && end < |text| && text[end] != NEWLINE
    ensures OneLine(text, start, end + 1)
  {
  }

  lemma TilesMore(text: seq<byte>, lines: seq<Line>, start: nat, end: nat)
    requires Tiles(text, lines, start) && OneLine(text, start, end) && end < |text| && text[end] == NEWLINE
    ensures Tiles(text, lines + [Line(start, end)], end + 1) && OneLine(text, end + 1, end + 1)
  {
  }

  /** The lines cover the whole text between newlines. */
  lemma LinesTile(text: seq<byte>)
    ensures var lines := LinesOf(text);
      && lines[0].start == 0 && lines[|lines| - 1].end == |text|
      && (forall k :: 0 <= k < |lines| ==> lines[k].start <= lines[k].end <= |text|)
      && (forall k :: 0 <= k < |lines| - 1 ==>
         lines[k].end < |text| && text[lines[k].end] == NEWLINE && lines[k + 1].start == lines[k].end + 1)
      && (forall k, i :: 0 <= k < |lines| && lines[k].start <= i < lines[k].end ==> text[i] != NEWLINE)
  {
    FinishedTiles(text, |text|);
  }

  /** The first line from `k` on that reaches the cursor, or the last. */
  function RowFrom(lines: seq<Line>, cursor: nat, k: nat): (r: nat)
    requires k < |lines|
    ensures k <= r < |lines|
    ensures r < |lines| - 1 ==> cursor <= lines[r].end
    ensures forall j :: k <= j < r ==> lines[j].end < cursor
    decreases |lines| - k
  {
    if cursor <= lines[k].end || k == |lines| - 1 then k else RowFrom(lines, cursor, k + 1)
  }

  function Row(d: Doc): (r: nat)
    ensures r < |LinesOf(d.text)|
  {
    RowFrom(LinesOf(d.text), d.cursor, 0)
  }

  function Col(d: Doc): nat {
    Max(d.cursor - LinesOf(d.text)[Row(d)].start, 0)
  }

  /** The line's start and the column give back the cursor, which is on the line. */
  lemma RowAndColumn(d: Doc)
    requires Sound(d)
    ensures var line := LinesOf(d.text)[Row(d)];
      line.start + Col(d) == d.cursor && line.start <= d.cursor <= line.end
  {
    LinesTile(d.text);
    var lines, r := LinesOf(d.text), Row(d);
    if r > 0 { assert lines[r - 1].end < d.cursor && lines[r - 1 + 1].start == lines[r - 1].end + 1; }
  }

  /** No other line is the cursor's. */
  lemma RowIsUnique(d: Doc, k: nat)
    requires Sound(d) && k < |LinesOf(d.text)| && LinesOf(d.text)[k].start <= d.cursor <= LinesOf(d.text)[k].end
    ensures Row(d) == k
  {
    RowAndColumn(d);
    LinesTile(d.text);
    LinesApart(d.text, Row(d), k);
    LinesApart(d.text, k, Row(d));
  }

  lemma {:induction false} LinesApart(text: seq<byte>, j: nat, k: nat)
    requires j < |LinesOf(text)| && k < |LinesOf(text)|
    ensures j < k ==> LinesOf(text)[j].end < LinesOf(text)[k].start
    decreases k
  {
    LinesTile(text);
    if j + 1 < k { LinesApart(text, j, k - 1); }
  }

  // ---------------------------------------------------------------- edits and motions

  function Pushed(ops: seq<UndoOp>, op: UndoOp): (r: seq<UndoOp>)
    ensures |ops| <= UNDO_DEPTH ==> |r| <= UNDO_DEPTH
  {
    (if |ops| >= UNDO_DEPTH then ops[1..] else ops) + [op]
  }

  function Typed(d: Doc, ch: byte): Doc
    requires Sound(d)
  {
    Doc(d.text[..d.cursor] + [ch] + d.text[d.cursor..], d.cursor + 1, Pushed(d.undo, Inserted(d.cursor, ch)))
  }

  function Backed(d: Doc): Doc
    requires Sound(d)
  {
    if d.cursor == 0 then d
    else
      var p := d.cursor - 1;
      Doc(d.text[..p] + d.text[p + 1..], p, Pushed(d.undo, Deleted(p, d.text[p])))
  }

  function OnLine(d: Doc, row: nat): Doc
    requires row < |LinesOf(d.text)|
  {
    var line := LinesOf(d.text)[row];
    d.(cursor := Min(line.start + Col(d), line.end))
  }

  function Done(d: Doc, a: Action): Doc
    requires Sound(d)
  {
    match a
    case Type(ch) => Typed(d, ch)
    case Back => Backed(d)
    case Left => if d.cursor > 0 then d.(cursor := d.cursor - 1) else d
    case Right => if d.cursor < |d.text| then d.(cursor := d.cursor + 1) else d
    case Up => if Row(d) > 0 then OnLine(d, Row(d) - 1) else d
    case Down => if Row(d) + 1 < |LinesOf(d.text)| then OnLine(d, Row(d) + 1) else d
  }

  lemma DoneIsSound(d: Doc, a: Action)
    requires Sound(d)
    ensures Sound(Done(d, a))
  {
    LinesTile(d.text);
  }

  /** A vertical move changes nothing but the cursor, which lands on the neighbouring line in the same
      column or at its end. */
  lemma VerticalMove(d: Doc, a: Action)
    requires Sound(d) && (a == Up || a == Down)
    ensures var e := Done(d, a); var lines := LinesOf(d.text);
      && e.text == d.text && e.undo == d.undo
      && (a == Up && Row(d) > 0 ==> Row(e) == Row(d) - 1)
      && (a == Down && Row(d) + 1 < |lines| ==> Row(e) == Row(d) + 1)
      && (Row(e) != Row(d) ==> Col(e) == Min(Col(d), lines[Row(e)].end - lines[Row(e)].start))
      && (Row(e) == Row(d) ==> e == d)
  {
    if a == Up && Row(d) > 0 { Landing(d, a, Row(d) - 1); }
    if a == Down && Row(d) + 1 < |LinesOf(d.text)| { Landing(d, a, Row(d) + 1); }
  }

  lemma Landing(d: Doc, a: Action, k: nat)
    requires Sound(d) && k < |LinesOf(d.text)| && Done(d, a) == OnLine(d, k)
    ensures var e, line := Done(d, a), LinesOf(d.text)[k];
      e.text == d.text && e.undo == d.undo && Row(e) == k && Col(e) == Min(Col(d), line.end - line.start)
  {
    DoneIsSound(d, a);
    LinesTile(d.text);
    RowIsUnique(Done(d, a), k);
  }

  /** Up and then down comes back exactly when the line above is long enough for the column. */
  lemma UpThenDown(d: Doc)
    requires Sound(d) && Row(d) > 0
    ensures Sound(Done(d, Up))
    ensures var above := LinesOf(d.text)[Row(d) - 1];
      Done(Done(d, Up), Down) == d <==> Col(d) <= above.end - above.start
  {
    DoneIsSound(d, Up);
    var e := Done(d, Up);
    VerticalMove(d, Up);
    VerticalMove(e, Down);
    DoneIsSound(e, Down);
    RowAndColumn(d);
    RowAndColumn(Done(e, Down));
    LinesTile(d.text);
  }

  // ---------------------------------------------------------------- undo

  predicate AppliesTo(op: UndoOp, t: seq<byte>) {
    if op.Inserted? then op.pos < |t| else op.pos <= |t|
  }

  /** Every operation applies to the text that the later ones, taken back first, leave. */
  predicate Replayable(t: seq<byte>, ops: seq<UndoOp>)
    decreases |ops|
  {
    |ops| == 0 || (AppliesTo(ops[|ops| - 1], t) && Replayable(Reverted(ops[|ops| - 1], t), ops[..|ops| - 1]))
  }

  lemma {:induction false} ReplayableForgets(t: seq<byte>, ops: seq<UndoOp>)
    requires Replayable(t, ops) && |ops| > 0
    ensures Replayable(t, ops[1..])
    decreases |ops|
  {
    var last := |ops| - 1;
    if last > 0 {
      EndsOfRest(ops);
      ReplayableForgets(Reverted(ops[last], t), ops[..last]);
    }
  }

  function Reverted(op: UndoOp, t: seq<byte>): seq<byte> {
    match op
    case Inserted(pos, _) => if pos < |t| then t[..pos] + t[pos + 1..] else t
    case Deleted(pos, ch) => if pos <= |t| then t[..pos] + [ch] + t[pos..] else t
  }

  function Undone(d: Doc): Doc {
    if |d.undo| == 0 then d
    else
      var n := |d.undo| - 1;
      var op := d.undo[n];
      Doc(Reverted(op, d.text), if op.Inserted? then op.pos else op.pos + 1, d.undo[..n])
  }

  /** The text after undoing the last `n` of `ops`. */
  function Rewound(t: seq<byte>, ops: seq<UndoOp>, n: nat): seq<byte>
    requires n <= |ops|
    decreases n
  {
    if n == 0 then t else Rewound(Reverted(ops[|ops| - 1], t), ops[..|ops| - 1], n - 1)
  }

  function UndoneTimes(d: Doc, n: nat): Doc
    decreases n
  {
    if n == 0 then d else UndoneTimes(Undone(d), n - 1)
  }

  lemma RewoundOnce(d: Doc, text: seq<byte>, ops: seq<UndoOp>, n: nat)
    requires 0 < n <= |d.undo| && text == Undone(d).text && ops == Undone(d).undo
    ensures Rewound(d.text, d.undo, n) == Rewound(text, ops, n - 1)
  {
  }

  lemma {:induction false} UndoneIsRewound(d: Doc, n: nat)
    requires n <= |d.undo|
    ensures UndoneTimes(d, n).text == Rewound(d.text, d.undo, n)
    decreases n
  {
    if n > 0 {
      UndoneIsRewound(Undone(d), n - 1);
      RewoundOnce(d, Undone(d).text, Undone(d).undo, n);
    }
  }

  lemma EndsOfRest(ops: seq<UndoOp>)
    requires |ops| > 1
    ensures ops[1..][|ops[1..]| - 1] == ops[|ops| - 1] && ops[1..][..|ops[1..]| - 1] == ops[..|ops| - 1][1..]
  {
  }

  lemma {:induction false} RewoundForgets(t: seq<byte>, ops: seq<UndoOp>, n: nat)
    requires n < |ops|
    ensures Rewound(t, ops[1..], n) == Rewound(t, ops, n)
    decreases n
  {
    if n > 0 {
      var last := |ops| - 1;
      EndsOfRest(ops);
      RewoundForgets(Reverted(ops[last], t), ops[..last], n - 1);
    }
  }

  /** Whether an action changes the text. */
  predicate Edits(d: Doc, a: Action) {
    a.Type? || (a.Back? && d.cursor > 0)
  }

  lemma OnlyEditsChange(d: Doc, a: Action)
    requires Sound(d)
    ensures !Edits(d, a) ==> Done(d, a).text == d.text && Done(d, a).undo == d.undo
    ensures Edits(d, a) ==> exists op ::
      Done(d, a).undo == Pushed(d.undo, op) && Reverted(op, Done(d, a).text) == d.text
  {
    if a.Type? {
      var op := Inserted(d.cursor, a.ch);
      TypeReverts(d, a.ch);
      assert Done(d, a).undo == Pushed(d.undo, op);
    } else if Edits(d, a) {
      var op := Deleted(d.cursor - 1, d.text[d.cursor - 1]);
      BackReverts(d);
      assert Done(d, a).undo == Pushed(d.undo, op);
    }
  }

  lemma TypeReverts(d: Doc, ch: byte)
    requires Sound(d)
    ensures Reverted(Inserted(d.cursor, ch), Typed(d, ch).text) == d.text
  {
    var t := Typed(d, ch).text;
    assert t[..d.cursor] == d.text[..d.cursor] && t[d.cursor + 1..] == d.text[d.cursor..];
  }

  lemma BackReverts(d: Doc)
    requires Sound(d) && d.cursor > 0
    ensures Reverted(Deleted(d.cursor - 1, d.text[d.cursor - 1]), Backed(d).text) == d.text
  {
    var p, t := d.cursor - 1, Backed(d).text;
    assert t[..p] == d.text[..p] && t[p..] == d.text[p + 1..];
  }

  /** Every action keeps the stack applicable, and so does every undo. */
  lemma DoneIsReplayable(d: Doc, a: Action)
    requires Sound(d) && Replayable(d.text, d.undo)
    ensures Replayable(Done(d, a).text, Done(d, a).undo)
  {
    OnlyEditsChange(d, a);
    if Edits(d, a) {
      var op := if a.Type? then Inserted(d.cursor, a.ch) else Deleted(d.cursor - 1, d.text[d.cursor - 1]);
      if a.Type? { TypeReverts(d, a.ch); } else { BackReverts(d); }
      var kept := if |d.undo| >= UNDO_DEPTH then d.undo[1..] else d.undo;
      if |d.undo| >= UNDO_DEPTH { ReplayableForgets(d.text, d.undo); }
      var more := Done(d, a).undo;
      assert more[|more| - 1] == op && more[..|more| - 1] == kept;
    }
  }

  lemma UndoneIsSound(d: Doc)
    requires Sound(d) && Replayable(d.text, d.undo)
    ensures Sound(Undone(d)) && Replayable(Undone(d).text, Undone(d).undo)
  {
  }

  function DoneAll(d: Doc, run: seq<Action>): (e: Doc)
    requires Sound(d)
    ensures Sound(e)
  {
    if |run| == 0 then d
    else
      var p := DoneAll(d, run[..|run| - 1]);
      DoneIsSound(p, run[|run| - 1]);
      Done(p, run[|run| - 1])
  }

  /** The texts before each edit of the run, oldest first. */
  function TextsBefore(d: Doc, run: seq<Action>): seq<seq<byte>>
    requires Sound(d)
  {
    if |run| == 0 then []
    else
      var p, a := DoneAll(d, run[..|run| - 1]), run[|run| - 1];
      TextsBefore(d, run[..|run| - 1]) + if Edits(p, a) then [p.text] else []
  }

  /** The stack takes the text back through `past`, as far as both go. */
  ghost predicate Recalls(t: seq<byte>, ops: seq<UndoOp>, past: seq<seq<byte>>) {
    forall n: nat :: 0 < n <= |ops| && n <= |past| ==> Rewound(t, ops, n) == past[|past| - n]
  }

  lemma Recalled(t: seq<byte>, ops: seq<UndoOp>, past: seq<seq<byte>>, n: nat)
    requires Recalls(t, ops, past) && 0 < n <= |ops| && n <= |past|
    ensures Rewound(t, ops, n) == past[|past| - n]
  {
  }

  lemma RecallsMore(t: seq<byte>, ops: seq<UndoOp>, past: seq<seq<byte>>, op: UndoOp, t': seq<byte>)
    requires Recalls(t, ops, past) && Reverted(op, t') == t && |ops| <= UNDO_DEPTH
    ensures Recalls(t', Pushed(ops, op), past + [t])
  {
    var more, longer := Pushed(ops, op), past + [t];
    var kept := if |ops| >= UNDO_DEPTH then ops[1..] else ops;
    assert more[..|more| - 1] == kept && more[|more| - 1] == op;
    forall n: nat | 0 < n <= |more| && n <= |longer| ensures Rewound(t', more, n) == longer[|longer| - n] {
      assert Rewound(t', more, n) == Rewound(t, kept, n - 1);
      if |ops| >= UNDO_DEPTH { RewoundForgets(t, ops, n - 1); }
      if n > 1 { assert Rewound(t, ops, n - 1) == past[|past| - (n - 1)]; }
    }
  }

  lemma {:induction false} RunRecalls(d: Doc, run: seq<Action>)
    requires Sound(d)
    ensures Recalls(DoneAll(d, run).text, DoneAll(d, run).undo, TextsBefore(d, run))
  {
    if |run| > 0 {
      var p, a := DoneAll(d, run[..|run| - 1]), run[|run| - 1];
      RunRecalls(d, run[..|run| - 1]);
      OnlyEditsChange(p, a);
      if Edits(p, a) {
        var op :| Done(p, a).undo == Pushed(p.undo, op) && Reverted(op, Done(p, a).text) == p.text;
        RecallsMore(p.text, p.undo, TextsBefore(d, run[..|run| - 1]), op, Done(p, a).text);
      }
    }
  }

  lemma {:induction false} StackGrows(d: Doc, run: seq<Action>)
    requires Sound(d)
    ensures |DoneAll(d, run).undo| >= Min(UNDO_DEPTH, |TextsBefore(d, run)|)
  {
    if |run| > 0 {
      var p, a := DoneAll(d, run[..|run| - 1]), run[|run| - 1];
      StackGrows(d, run[..|run| - 1]);
      OnlyEditsChange(p, a);
    }
  }

  /** After any mix of typing, deleting and moving, `n` undos give the text as it was `n` edits earlier. */
  lemma UndoRestores(d: Doc, run: seq<Action>, n: nat)
    requires Sound(d) && 0 < n <= UNDO_DEPTH && n <= |TextsBefore(d, run)|
    ensures UndoneTimes(DoneAll(d, run), n).text == TextsBefore(d, run)[|TextsBefore(d, run)| - n]
  {
    RunRecalls(d, run);
    StackGrows(d, run);
    UndoneRecalls(DoneAll(d, run), TextsBefore(d, run), n);
  }

  lemma UndoneRecalls(e: Doc, past: seq<seq<byte>>, n: nat)
    requires Recalls(e.text, e.undo, past) && 0 < n <= |e.undo| && n <= |past|
    ensures UndoneTimes(e, n).text == past[|past| - n]
  {
    UndoneIsRewound(e, n);
    Recalled(e.text, e.undo, past, n);
  }
}
