/**
 * The arena map of the Discord embed: a 10 x 10 grid of black squares
 * on which every living tribute with a position is drawn as the compass
 * arrow of its heading, at row floor(z * 9) and column floor(x * 9).
 * Tributes are drawn in list order, so on a shared cell the last one wins.
 */
module ArenaMap {
  import opened Wrappers
  import JsText
  import Compass

  /** Cells per side of the grid. */
  const Size: int := 10

  /** An empty cell. */
  const Blank: string := "\U{2B1B}"

  /** A position on the arena floor; the unit square maps onto the grid. */
  datatype Position = Position(x: real, z: real)

  /** The fields of a tribute record that the map reads; `rotation` is in degrees. */
  datatype Tribute = Tribute(alive: bool, position: Option<Position>, rotation: Option<int>)

  /** `Math.floor(v * (size - 1))`: the grid index of a coordinate. */
  function Scale(v: real): int
  {
    (v * (Size - 1) as real).Floor
  }

  /** The grid index of `v` is the greatest integer not above `9v`. */
  lemma ScaleIsFloor(v: real)
    ensures Scale(v) as real <= v * 9.0 < Scale(v) as real + 1.0
  {
  }

  /** A tribute is drawn when it is alive and has a position. */
  predicate Drawn(t: Tribute)
  {
    t.alive && t.position.Some?
  }

  /** The row a drawn tribute lands on, indexed by its z coordinate. */
  function Row(t: Tribute): int
    requires t.position.Some?
  {
    Scale(t.position.value.z)
  }

  /** The column a drawn tribute lands on, indexed by its x coordinate. */
  function Column(t: Tribute): int
    requires t.position.Some?
  {
    Scale(t.position.value.x)
  }

  /** Tribute `t` writes cell (`r`, `c`). */
  predicate Targets(t: Tribute, r: int, c: int)
  {
    Drawn(t) && Row(t) == r && Column(t) == c
  }

  /** `arrow(t.rotation)`: an absent rotation takes the default 0. */
  function Heading(t: Tribute): (s: string)
    ensures s in Compass.Arrows
    ensures t.rotation.None? ==> s == Compass.Up
  {
    Compass.Arrow(t.rotation.GetOr(0))
  }

  /** Every drawn tribute lands inside the grid; outside it the source throws or writes past a row. */
  predicate InArena(ts: seq<Tribute>)
  {
    forall t :: t in ts && Drawn(t) ==> 0 <= Row(t) < Size && 0 <= Column(t) < Size
  }

  /**
   * The content of cell (`r`, `c`) after drawing `ts` in order: the heading of
   * the last tribute that targets the cell, or a blank when none does.
   */
  function CellAt(ts: seq<Tribute>, r: int, c: int): (s: string)
    ensures s == Blank || s in Compass.Arrows
  {
    if ts == [] then Blank
    else
      var t := ts[|ts| - 1];
      if Targets(t, r, c) then Heading(t) else CellAt(ts[..|ts| - 1], r, c)
  }

  /** The grid after drawing `ts`, row by row. */
  function Grid(ts: seq<Tribute>): seq<seq<string>>
  {
    seq(Size, r => seq(Size, c => CellAt(ts, r, c)))
  }

  /** `r.join("")` for each row of the grid. */
  function Rows(ts: seq<Tribute>): seq<string>
  {
    seq(Size, r requires 0 <= r < Size => JsText.Join(Grid(ts)[r], ""))
  }

  /** The map text: the rows joined with newlines. */
  function RenderText(ts: seq<Tribute>): string
  {
    JsText.Join(Rows(ts), "\n")
  }

  /** `renderMap(tributes)`: fills a grid in place, tribute by tribute, then joins it. */
  method RenderMap(ts: seq<Tribute>) returns (text: string)
    requires InArena(ts)
    ensures text == RenderText(ts)
  {
    var grid := new string[Size, Size]((r, c) => Blank);
    for i := 0 to |ts|
      invariant forall r, c :: 0 <= r < Size && 0 <= c < Size ==> grid[r, c] == CellAt(ts[..i], r, c)
    {
      var t := ts[i];
      assert ts[..i + 1][..i] == ts[..i];
      if t.alive && t.position.Some? {
        assert t in ts;
        var x := Scale(t.position.value.x);
        var z := Scale(t.position.value.z);
        grid[z, x] := Heading(t);
      }
    }
    assert ts[..|ts|] == ts;
    var rows := seq(Size, r requires 0 <= r < Size reads grid =>
      JsText.Join(seq(Size, c requires 0 <= c < Size reads grid => grid[r, c]), ""));
    forall r | 0 <= r < Size
      ensures rows[r] == Rows(ts)[r]
    {
      assert seq(Size, c requires 0 <= c < Size reads grid => grid[r, c]) == Grid(ts)[r];
    }
    assert rows == Rows(ts);
    text := JsText.Join(rows, "\n");
  }

  /** A blank is not an arrow. */
  lemma BlankIsNoArrow()
    ensures Blank !in Compass.Arrows
  {
  }

  /** Appending a tribute changes only the cell it targets, and that one to its heading. */
  lemma AppendTribute(ts: seq<Tribute>, t: Tribute, r: int, c: int)
    ensures CellAt(ts + [t], r, c) == if Targets(t, r, c) then Heading(t) else CellAt(ts, r, c)
  {
  }

  /** A cell stays blank exactly when no tribute in the list targets it. */
  lemma {:induction false} BlankIffUntargeted(ts: seq<Tribute>, r: int, c: int)
    ensures CellAt(ts, r, c) == Blank <==> forall i :: 0 <= i < |ts| ==> !Targets(ts[i], r, c)
  {
    BlankIsNoArrow();
    if ts != [] {
      var init := ts[..|ts| - 1];
      BlankIffUntargeted(init, r, c);
      assert forall i :: 0 <= i < |init| ==> init[i] == ts[i];
    }
  }

  /** Last writer wins: the cell shows the heading of the latest tribute that targets it. */
  lemma {:induction false} LastWriterWins(ts: seq<Tribute>, i: nat, r: int, c: int)
    requires i < |ts| && Targets(ts[i], r, c)
    requires forall j :: i < j < |ts| ==> !Targets(ts[j], r, c)
    ensures CellAt(ts, r, c) == Heading(ts[i])
  {
    if i < |ts| - 1 {
      var init := ts[..|ts| - 1];
      assert forall j :: 0 <= j < |init| ==> init[j] == ts[j];
      LastWriterWins(init, i, r, c);
    }
  }

  /** A dead or unplaced tribute, wherever it stands in the list, changes no cell. */
  lemma {:induction false} IgnoredTributeCell(front: seq<Tribute>, t: Tribute, back: seq<Tribute>, r: int, c: int)
    requires !Drawn(t)
    ensures CellAt(front + [t] + back, r, c) == CellAt(front + back, r, c)
  {
    if back == [] {
      assert front + [t] + back == front + [t];
      assert front + back == front;
      AppendTribute(front, t, r, c);
    } else {
      var init := back[..|back| - 1];
      var last := back[|back| - 1];
      assert back == init + [last];
      assert front + [t] + back == (front + [t] + init) + [last];
      assert front + back == (front + init) + [last];
      AppendTribute(front + [t] + init, last, r, c);
      AppendTribute(front + init, last, r, c);
      IgnoredTributeCell(front, t, init, r, c);
    }
  }

  /** A dead or unplaced tribute leaves the rendered map unchanged. */
  lemma IgnoredTributeMap(front: seq<Tribute>, t: Tribute, back: seq<Tribute>)
    requires !Drawn(t)
    ensures RenderText(front + [t] + back) == RenderText(front + back)
  {
    forall r | 0 <= r < Size
      ensures Grid(front + [t] + back)[r] == Grid(front + back)[r]
    {
      forall c | 0 <= c < Size
        ensures CellAt(front + [t] + back, r, c) == CellAt(front + back, r, c)
      {
        IgnoredTributeCell(front, t, back, r, c);
      }
    }
    assert Grid(front + [t] + back) == Grid(front + back);
  }

  /** A position in the unit square always lands inside the grid. */
  lemma UnitSquareInArena(p: Position)
    requires 0.0 <= p.x <= 1.0 && 0.0 <= p.z <= 1.0
    ensures 0 <= Scale(p.x) < Size && 0 <= Scale(p.z) < Size
  {
  }

  /** No cell contains a newline. */
  lemma CellHasNoNewline(ts: seq<Tribute>, r: int, c: int)
    ensures '\n' !in CellAt(ts, r, c)
  {
  }

  /**
   * The map text splits on newlines into exactly the grid's ten rows,
   * each of ten cells.
   */
  lemma MapShape(ts: seq<Tribute>)
    ensures JsText.Split(RenderText(ts), '\n') == Rows(ts)
    ensures |Rows(ts)| == Size
    ensures forall r :: 0 <= r < Size ==> |Grid(ts)[r]| == Size
  {
    var rows := Rows(ts);
    forall r | 0 <= r < Size
      ensures '\n' !in rows[r]
    {
      forall c | 0 <= c < Size
        ensures '\n' !in Grid(ts)[r][c]
      {
        CellHasNoNewline(ts, r, c);
      }
      JsText.JoinExcludes(Grid(ts)[r], "", '\n');
    }
    JsText.SplitJoin(rows, '\n');
  }

  /** The map text holds exactly nine newlines, one between each pair of rows. */
  lemma MapNewlines(ts: seq<Tribute>)
    ensures JsText.Count(RenderText(ts), '\n') == Size - 1
  {
    MapShape(ts);
    JsText.SplitCount(RenderText(ts), '\n');
  }
}
