/** The gap buffer and the editor's methods, against the documents of Editor. */
module EditorBuffer {
  import opened Bits
  import opened Editor

  const GAP_INIT := 512
  const GAP_GROW := 512

  /** A stretch copied over another place in the same sequence, which may overlap it. */
  function CopyWithin(s: seq<byte>, from: nat, to: nat, dst: nat): (r: seq<byte>)
    requires from <= to <= |s| && dst + (to - from) <= |s|
    ensures |r| == |s|
  {
    s[..dst] + s[from..to] + s[dst + (to - from)..]
  }

  class GapBuffer {
    var buf: seq<byte>
    var gapStart: nat
    var gapEnd: nat

    predicate Valid()
      reads this
    {
      gapStart <= gapEnd <= |buf|
    }

    /** Everything but the gap. */
    function Text(): seq<byte>
      requires Valid()
      reads this
    {
      buf[..gapStart] + buf[gapEnd..]
    }

    constructor ()
      ensures Valid() && Text() == []
    {
      buf := seq(GAP_INIT, _ => 0);
      gapStart, gapEnd := 0, GAP_INIT;
    }

    function Len(): (n: nat)
      requires Valid()
      reads this
      ensures n == |Text()|
    {
      |buf| - (gapEnd - gapStart)
    }

    function Get(i: nat): (b: byte)
      requires Valid() && i < Len()
      reads this
      ensures b == Text()[i]
    {
      if i < gapStart then buf[i] else buf[i + (gapEnd - gapStart)]
    }

    /** Only the gap moves. */
    method MoveGapTo(pos: nat)
      requires Valid() && pos <= Len()
      modifies this
      ensures Valid() && Text() == old(Text()) && gapStart == pos && gapEnd - gapStart == old(gapEnd - gapStart)
    {
      if pos == gapStart {
        return;
      }
      ghost var b, s, e := buf, gapStart, gapEnd;
      if pos < gapStart {
        var d := gapStart - pos;
        GapLeft(b, s, e, pos);
        buf := CopyWithin(buf, pos, gapStart, gapEnd - d);
        gapStart := pos;
        gapEnd := gapEnd - d;
      } else {
        var d := pos - gapStart;
        GapRight(b, s, e, d);
        buf := CopyWithin(buf, gapEnd, gapEnd + d, gapStart);
        gapStart := gapStart + d;
        gapEnd := gapEnd + d;
      }
    }

    method Insert(pos: nat, ch: byte)
      requires Valid() && pos <= Len()
      modifies this
      ensures Valid() && Text() == old(Text()[..pos] + [ch] + Text()[pos..])
    {
      if gapEnd - gapStart == 0 {
        GapGrown(buf, gapEnd, seq(GAP_GROW, _ => 0));
        buf := buf[..gapEnd] + seq(GAP_GROW, _ => 0) + buf[gapEnd..];
        gapEnd := gapEnd + GAP_GROW;
      }
      MoveGapTo(pos);
      GapFilled(buf, gapStart, gapEnd, ch);
      buf := buf[gapStart := ch];
      gapStart := gapStart + 1;
    }

    method DeleteAt(pos: nat)
      requires Valid()
      modifies this
      ensures Valid() && Text() == if pos < old(Len()) then old(Text()[..pos] + Text()[pos + 1..]) else old(Text())
    {
      if pos >= Len() {
        return;
      }
      MoveGapTo(pos);
      GapSwallows(buf, gapStart, gapEnd);
      gapEnd := gapEnd + 1;
    }

    method ToVec() returns (v: seq<byte>)
      requires Valid()
      ensures v == Text()
    {
      v := [];
      var i := 0;
      while i < Len()
        invariant 0 <= i <= Len() && v == Text()[..i]
      {
        v := v + [Get(i)];
        i := i + 1;
      }
    }

    method Lines() returns (v: seq<Line>)
      requires Valid()
      ensures v == LinesOf(Text())
    {
      v := [];
      var n := Len();
      var start := 0;
      var i := 0;
      while i < n
        invariant 0 <= i <= n == Len() && (v, start) == Finished(Text(), i)
      {
        if Get(i) == NEWLINE {
          v := v + [Line(start, i)];
          start := i + 1;
        }
        i := i + 1;
      }
      v := v + [Line(start, n)];
    }
  }

  function TextOf(b: seq<byte>, s: nat, e: nat): seq<byte>
    requires s <= e <= |b|
  {
    b[..s] + b[e..]
  }

  lemma GapLeft(b: seq<byte>, s: nat, e: nat, pos: nat)
    requires pos < s <= e <= |b|
    ensures var d := s - pos; TextOf(CopyWithin(b, pos, s, e - d), pos, e - d) == TextOf(b, s, e)
  {
    var d := s - pos;
    var c := CopyWithin(b, pos, s, e - d);
    assert c[e - d..] == b[pos..s] + b[e..];
    assert c[..pos] == b[..pos];
    assert b[..s] == b[..pos] + b[pos..s];
  }

  lemma GapRight(b: seq<byte>, s: nat, e: nat, d: nat)
    requires s <= e && e + d <= |b|
    ensures TextOf(CopyWithin(b, e, e + d, s), s + d, e + d) == TextOf(b, s, e)
  {
    var c := CopyWithin(b, e, e + d, s);
    assert c[..s + d] == b[..s] + b[e..e + d];
    assert c[e + d..] == b[e + d..];
    assert b[e..] == b[e..e + d] + b[e + d..];
  }

  lemma GapGrown(b: seq<byte>, e: nat, room: seq<byte>)
    requires e <= |b|
    ensures TextOf(b[..e] + room + b[e..], e, e + |room|) == TextOf(b, e, e)
  {
  }

  lemma GapFilled(b: seq<byte>, s: nat, e: nat, ch: byte)
    requires s < e <= |b|
    ensures TextOf(b[s := ch], s + 1, e) == TextOf(b, s, e)[..s] + [ch] + TextOf(b, s, e)[s..]
  {
  }

  lemma GapSwallows(b: seq<byte>, s: nat, e: nat)
    requires s <= e < |b|
    ensures TextOf(b, s, e + 1) == TextOf(b, s, e)[..s] + TextOf(b, s, e)[s + 1..]
  {
  }

  // ---------------------------------------------------------------- the editor

  lemma BackedIsReplayable(d: Editor.Doc)
    requires Sound(d) && Replayable(d.text, d.undo)
    ensures Replayable(Backed(d).text, Backed(d).undo)
  {
    DoneIsReplayable(d, Back);
  }

  class Session {
    const text: GapBuffer
    var cursor: nat
    var undo: seq<UndoOp>
    var dirty: bool

    ghost function Doc(): Editor.Doc
      requires text.Valid()
      reads this, text
    {
      Editor.Doc(text.Text(), cursor, undo)
    }

    ghost predicate Valid()
      reads this, text
    {
      text.Valid() && Sound(Doc()) && Replayable(text.Text(), undo)
    }

    constructor ()
      ensures Valid() && Doc() == Editor.Doc([], 0, []) && fresh(text)
    {
      text := new GapBuffer();
      cursor, undo, dirty := 0, [], false;
    }

    method PushUndo(op: UndoOp)
      modifies this`undo
      ensures undo == Pushed(old(undo), op)
    {
      if |undo| >= UNDO_DEPTH {
        undo := undo[1..];
      }
      undo := undo + [op];
    }

    method InsertChar(ch: byte)
      requires Valid()
      modifies this, text
      ensures Valid() && Doc() == Typed(old(Doc()), ch) && dirty
    {
      DoneIsReplayable(Doc(), Type(ch));
      text.Insert(cursor, ch);
      PushUndo(Inserted(cursor, ch));
      cursor := cursor + 1;
      dirty := true;
    }

    method DeleteBack()
      requires Valid()
      modifies this, text
      ensures Valid() && Doc() == Backed(old(Doc())) && dirty == (old(dirty) || old(cursor) > 0)
    {
      if cursor > 0 {
        Erase();
        dirty := true;
      }
    }

    method Erase()
      requires Valid() && cursor > 0
      modifies this`cursor, this`undo, text
      ensures Valid() && Doc() == Backed(old(Doc()))
    {
      BackedIsReplayable(Doc());
      cursor := cursor - 1;
      var ch := text.Get(cursor);
      text.DeleteAt(cursor);
      PushUndo(Deleted(cursor, ch));
    }

    method Revert(op: UndoOp)
      requires text.Valid() && AppliesTo(op, text.Text())
      modifies this`cursor, text
      ensures text.Valid() && text.Text() == Reverted(op, old(text.Text()))
      ensures cursor == if op.Inserted? then op.pos else op.pos + 1
    {
      match op {
        case Inserted(pos, _) =>
          text.DeleteAt(pos);
          cursor := pos;
        case Deleted(pos, ch) =>
          text.Insert(pos, ch);
          cursor := pos + 1;
      }
    }

    /** Takes the latest edit back; on an empty stack nothing happens. */
    method UndoLatest()
      requires Valid()
      modifies this, text
      ensures Valid() && Doc() == Undone(old(Doc())) && dirty == (old(dirty) || |old(undo)| > 0)
    {
      UndoneIsSound(Doc());
      if |undo| > 0 {
        var op := undo[|undo| - 1];
        undo := undo[..|undo| - 1];
        Revert(op);
        dirty := true;
      }
    }

    method CursorLineCol() returns (row: nat, col: nat)
      requires Valid()
      ensures row == Row(Doc()) && col == Col(Doc())
      ensures LinesOf(text.Text())[row].start + col == cursor
    {
      RowAndColumn(Doc());
      var lines := text.Lines();
      row := 0;
      while !(cursor <= lines[row].end || row + 1 == |lines|)
        invariant row < |lines| && RowFrom(lines, cursor, 0) == RowFrom(lines, cursor, row)
        decreases |lines| - row
      {
        row := row + 1;
      }
      col := Max(cursor - lines[row].start, 0);
    }

    method MoveLeft()
      requires Valid()
      modifies this`cursor
      ensures Valid() && Doc() == Done(old(Doc()), Left)
    {
      if cursor > 0 {
        cursor := cursor - 1;
      }
    }

    method MoveRight()
      requires Valid()
      modifies this`cursor
      ensures Valid() && Doc() == Done(old(Doc()), Right)
    {
      if cursor < text.Len() {
        cursor := cursor + 1;
      }
    }

    method MoveUp()
      requires Valid()
      modifies this`cursor
      ensures Valid() && Doc() == Done(old(Doc()), Up)
    {
      DoneIsSound(Doc(), Up);
      var row, col := CursorLineCol();
      if row > 0 {
        var lines := text.Lines();
        cursor := Min(lines[row - 1].start + col, lines[row - 1].end);
      }
    }

    method MoveDown()
      requires Valid()
      modifies this`cursor
      ensures Valid() && Doc() == Done(old(Doc()), Down)
    {
      DoneIsSound(Doc(), Down);
      var row, col := CursorLineCol();
      var lines := text.Lines();
      if row + 1 < |lines| {
        cursor := Min(lines[row + 1].start + col, lines[row + 1].end);
      }
    }
  }
}
