/**
 * The grid component: a rectangle of `GridSize` world units centred on the object's position,
 * tiled by square cells whose side is the selected cell size.
 */
module Grid {
  import G = Geometry
  import D = Divisors
  import Decimal
  import opened Selection
  import opened Prefs
  import CellSizeEntry

  /** A cell of the grid, placed at its centre. */
  datatype Cell = Cell(WorldPosition: G.Vec3)

  class GridSystem {
    var GridSize: G.Vec2
    var GridCellStart: G.GridCellStart
    var FixedCellSizes: seq<CellSizeEntry.FixedCellSizes>
    var Cells: array2?<Cell>
    var CellSize: real
    var CellSizeX: int
    var CellSizeZ: int
    var WorldBottomLeft: G.Vec3
    var WorldBottomRight: G.Vec3
    var WorldTopLeft: G.Vec3
    var WorldTopRight: G.Vec3
    /** The grid size the list was last rebuilt for; it is not saved with the scene. */
    var TempGridSize: G.Vec2

    /**
     * The selected size is positive, and so is every entry's size; the entries are distinct
     * objects, as the list is stored by value.
     */
    ghost predicate Valid()
      reads this`CellSize, this`FixedCellSizes, FixedCellSizes
    {
      && CellSize > 0.0
      && (forall k :: 0 <= k < |FixedCellSizes| ==> FixedCellSizes[k].CellSize > 0.0)
      && (forall j, k :: 0 <= j < |FixedCellSizes| && 0 <= k < |FixedCellSizes| && j != k ==> FixedCellSizes[j] != FixedCellSizes[k])
    }

    /** The values of the size list. */
    ghost function Options(): seq<SizeOption>
      reads this`FixedCellSizes, FixedCellSizes
    {
      CellSizeEntry.Views(FixedCellSizes)
    }

    /**
     * The list is `base` with the flags the store sets, and the selected size is that of the
     * last enabled entry, or `size0` when none is enabled.
     */
    ghost predicate SelectedFrom(base: seq<SizeOption>, store: map<string, string>, size0: real)
      reads this`CellSize, this`FixedCellSizes, FixedCellSizes
    {
      && Valid()
      && Options() == Selected(base, store)
      && CellSize == LastEnabledSize(Options(), size0)
    }

    function Corners(): G.Bounds
      reads this`WorldBottomLeft, this`WorldBottomRight, this`WorldTopLeft, this`WorldTopRight
    {
      G.Bounds(WorldBottomLeft, WorldBottomRight, WorldTopLeft, WorldTopRight)
    }

    /** The centre of cell (x, z), counted from the chosen start corner. */
    function SetStartVector(x: int, z: int): G.Vec3
      reads this`GridCellStart, this`CellSize
      reads this`WorldBottomLeft, this`WorldBottomRight, this`WorldTopLeft, this`WorldTopRight
    {
      G.CellCenter(GridCellStart, Corners(), CellSize, x, z)
    }

    /** The cell counts and the corners are those of the current grid size and cell size. */
    ghost predicate Sized(position: G.Vec3)
      reads this`GridSize, this`CellSize, this`CellSizeX, this`CellSizeZ
      reads this`WorldBottomLeft, this`WorldBottomRight, this`WorldTopLeft, this`WorldTopRight
    {
      && CellSize > 0.0
      && CellSizeX == G.CellCount(GridSize.x, CellSize)
      && CellSizeZ == G.CellCount(GridSize.y, CellSize)
      && Corners() == G.ComputeBounds(position, GridSize)
    }

    /** The cell array has one cell per position of the grid, each placed at its centre. */
    ghost predicate CellsLaidOut()
      reads this, Cells
    {
      && Cells != null
      && Cells.Length0 == CellSizeX && Cells.Length1 == CellSizeZ
      && forall x, z :: 0 <= x < CellSizeX && 0 <= z < CellSizeZ ==> Cells[x, z] == Cell(SetStartVector(x, z))
    }

    /**
     * The outcome of a layout: counts and corners for the current sizes, and, exactly when both
     * counts are non-negative so that the array could be allocated, the cells laid out.
     */
    ghost predicate LaidOut(position: G.Vec3, ok: bool)
      reads this, Cells
    {
      && Sized(position)
      && (ok <==> CellSizeX >= 0 && CellSizeZ >= 0)
      && (ok ==> CellsLaidOut())
    }

    /**
     * The component as the scene loads it: the inspector's fields as saved, the size 1, no
     * cells, and a remembered grid size of zero, since that field is not saved.
     */
    constructor (gridSize: G.Vec2, start: G.GridCellStart, entries: seq<CellSizeEntry.FixedCellSizes>)
      requires forall k :: 0 <= k < |entries| ==> entries[k].CellSize > 0.0
      requires forall j, k :: 0 <= j < k < |entries| ==> entries[j] != entries[k]
      ensures Valid()
      ensures GridSize == gridSize && GridCellStart == start && FixedCellSizes == entries
      ensures CellSize == 1.0 && TempGridSize == G.Vec2(0.0, 0.0) && Cells == null
    {
      GridSize := gridSize;
      GridCellStart := start;
      FixedCellSizes := entries;
      Cells := null;
      CellSize := 1.0;
      CellSizeX, CellSizeZ := 0, 0;
      WorldBottomLeft, WorldBottomRight := G.Vec3(0.0, 0.0, 0.0), G.Vec3(0.0, 0.0, 0.0);
      WorldTopLeft, WorldTopRight := G.Vec3(0.0, 0.0, 0.0), G.Vec3(0.0, 0.0, 0.0);
      TempGridSize := G.Vec2(0.0, 0.0);
    }

    /**
     * Rebuilds the size list when the grid size differs from the one it was built for, then
     * enables every entry for which reading its name from the store (the empty string if absent)
     * gives back its name, and selects the size of the last enabled entry.
     */
    method GetBestCellSizes(store: map<string, string>)
      requires Valid()
      modifies this`FixedCellSizes, this`TempGridSize, this`CellSize, FixedCellSizes
      ensures TempGridSize == GridSize
      ensures old(GridSize == TempGridSize) ==> FixedCellSizes == old(FixedCellSizes)
      ensures old(GridSize != TempGridSize) ==>
        forall k :: 0 <= k < |FixedCellSizes| ==> fresh(FixedCellSizes[k])
      ensures old(GridSize != TempGridSize) ==> unchanged(old(FixedCellSizes))
      ensures SelectedFrom(
        if old(GridSize != TempGridSize) then D.SizeOptions(GridSize) else old(Options()),
        store, old(CellSize))
    {
      if GridSize != TempGridSize {
        RebuildCellSizes();
      }
      ApplyPreferences(store);
    }

    /** The rebuild: one fresh, disabled entry per whole number up to the width dividing both sides. */
    method RebuildCellSizes()
      requires CellSize > 0.0
      modifies this`FixedCellSizes, this`TempGridSize
      ensures Valid()
      ensures TempGridSize == GridSize
      ensures forall k :: 0 <= k < |FixedCellSizes| ==> fresh(FixedCellSizes[k])
      ensures Options() == D.SizeOptions(GridSize)
    {
      // The list is cleared and refilled; it is built up locally and stored once complete.
      var sizes := DivisorEntries();
      FixedCellSizes := sizes;
      TempGridSize := GridSize;
      D.SizeOptionsWellFormed(GridSize);
      forall k | 0 <= k < |sizes|
        ensures sizes[k].CellSize > 0.0
      {
        assert sizes[k].View() == D.SizeOptions(GridSize)[k];
      }
    }

    /** The loop of the rebuild: `i` runs over the whole numbers up to the width. */
    method DivisorEntries() returns (sizes: seq<CellSizeEntry.FixedCellSizes>)
      ensures CellSizeEntry.Views(sizes) == D.SizeOptions(GridSize)
      ensures forall k :: 0 <= k < |sizes| ==> fresh(sizes[k])
      ensures forall j, k :: 0 <= j < k < |sizes| ==> sizes[j] != sizes[k]
    {
      sizes := [];
      var i: int := 0;
      while i as real <= GridSize.x
        invariant 0 <= i
        invariant i == 0 || (i - 1) as real <= GridSize.x
        invariant CellSizeEntry.Views(sizes) == D.OptionsFor(D.CommonDivisorsUpTo(GridSize, i - 1))
        invariant forall k :: 0 <= k < |sizes| ==> fresh(sizes[k])
        invariant forall j, k :: 0 <= j < k < |sizes| ==> sizes[j] != sizes[k]
        decreases GridSize.x.Floor + 1 - i
      {
        ghost var ds := D.CommonDivisorsUpTo(GridSize, i - 1);
        ghost var extra: seq<nat> := [];
        if D.RemIsZero(GridSize.x, i) && D.RemIsZero(GridSize.y, i) {
          var entry := new CellSizeEntry.FixedCellSizes(Decimal.NatToString(i), i as real);
          sizes := sizes + [entry];
          extra := [i as nat];
          assert CellSizeEntry.Views(sizes) == D.OptionsFor(ds) + [D.SizeOptionFor(i)];
        }
        assert D.CommonDivisorsUpTo(GridSize, i) == ds + extra;
        D.OptionsForAppend(ds, extra);
        i := i + 1;
      }
      assert D.CommonDivisorsUpTo(GridSize, i - 1) == D.DivisorSizes(GridSize) by {
        if i == 0 {
          assert GridSize.x.Floor <= -1;
        } else {
          assert i - 1 == GridSize.x.Floor;
        }
      }
    }

    /** The selection pass over the list, in order: the last enabled entry's size wins. */
    method ApplyPreferences(store: map<string, string>)
      requires Valid()
      modifies this`CellSize, FixedCellSizes
      ensures SelectedFrom(old(Options()), store, old(CellSize))
    {
      ghost var base := Options();
      ScanEntries(store);
      assert Options() == Selected(base, store);
    }

    /** The loop of the selection pass: each entry is switched on from the store, then read. */
    method ScanEntries(store: map<string, string>)
      requires Valid()
      modifies this`CellSize, FixedCellSizes
      ensures CellSize > 0.0
      ensures forall k :: 0 <= k < |FixedCellSizes| ==>
        FixedCellSizes[k].View() == Enable(old(FixedCellSizes[k].View()), store)
      ensures CellSize == LastEnabledSize(Selected(old(Options()), store), old(CellSize))
    {
      ghost var base := Options();
      ghost var selected := Selected(base, store);
      ghost var entries := FixedCellSizes;
      assert forall j, k :: 0 <= j < |entries| && 0 <= k < |entries| && j != k ==> entries[j] != entries[k];
      var i := 0;
      while i < |FixedCellSizes|
        invariant 0 <= i <= |FixedCellSizes|
        invariant forall k :: 0 <= k < |entries| ==>
          entries[k].View() == (if k < i then Enable(base[k], store) else base[k])
        invariant CellSize == LastEnabledSize(selected[..i], old(CellSize))
        invariant CellSize > 0.0
      {
        var entry := FixedCellSizes[i];
        if entry.SizeName == Lookup(store, entry.SizeName) {
          entry.EnableSize := true;
        }
        assert entry.View() == selected[i];
        if entry.EnableSize {
          CellSize := entry.CellSize;
        }
        assert selected[..i + 1][..i] == selected[..i];
        i := i + 1;
      }
      assert selected[..i] == selected;
    }

    /** The cell counts along each side, clamped at the maximum, and the four corners of the grid. */
    method SetGridSizeAndBounds(position: G.Vec3)
      requires CellSize > 0.0
      modifies this`CellSizeX, this`CellSizeZ
      modifies this`WorldBottomLeft, this`WorldBottomRight, this`WorldTopLeft, this`WorldTopRight
      ensures CellSizeX == G.CellCount(GridSize.x, CellSize)
      ensures CellSizeZ == G.CellCount(GridSize.y, CellSize)
      ensures Corners() == G.ComputeBounds(position, GridSize)
    {
      CellSizeX := G.CellCount(GridSize.x, CellSize);
      CellSizeZ := G.CellCount(GridSize.y, CellSize);
      var b := G.ComputeBounds(position, GridSize);
      WorldBottomLeft, WorldBottomRight := b.bottomLeft, b.bottomRight;
      WorldTopLeft, WorldTopRight := b.topLeft, b.topRight;
    }

    /**
     * Allocates a fresh `CellSizeX` by `CellSizeZ` array and fills it, row by row, with each
     * cell's centre. A negative count makes the allocation fail: then `ok` is false and the
     * cells are left as they were.
     */
    method GenerateCells() returns (ok: bool)
      modifies this`Cells
      ensures ok <==> CellSizeX >= 0 && CellSizeZ >= 0
      ensures !ok ==> Cells == old(Cells)
      ensures ok ==> CellsLaidOut() && fresh(Cells)
    {
      if CellSizeX < 0 || CellSizeZ < 0 {
        return false;
      }
      var a := new Cell[CellSizeX, CellSizeZ];
      Cells := a;
      var x := 0;
      while x < CellSizeX
        invariant Cells == a
        invariant 0 <= x <= CellSizeX
        invariant forall i, j :: 0 <= i < x && 0 <= j < CellSizeZ ==> a[i, j] == Cell(SetStartVector(i, j))
      {
        var z := 0;
        while z < CellSizeZ
          invariant Cells == a
          invariant 0 <= z <= CellSizeZ
          invariant forall i, j :: 0 <= i < x && 0 <= j < CellSizeZ ==> a[i, j] == Cell(SetStartVector(i, j))
          invariant forall j :: 0 <= j < z ==> a[x, j] == Cell(SetStartVector(x, j))
        {
          var worldPos := SetStartVector(x, z);
          a[x, z] := Cell(worldPos);
          z := z + 1;
        }
        x := x + 1;
      }
      ok := true;
    }

    /** The layout both passes share: counts and corners, then the filled cell array. */
    method LayOutGrid(position: G.Vec3) returns (ok: bool)
      requires CellSize > 0.0
      modifies this`CellSizeX, this`CellSizeZ, this`Cells
      modifies this`WorldBottomLeft, this`WorldBottomRight, this`WorldTopLeft, this`WorldTopRight
      ensures LaidOut(position, ok)
      ensures !ok ==> Cells == old(Cells)
      ensures ok ==> fresh(Cells)
      ensures unchanged(this`FixedCellSizes, this`CellSize, this`TempGridSize, FixedCellSizes)
    {
      SetGridSizeAndBounds(position);
      ok := GenerateCells();
    }

    /**
     * Play mode: takes the size of the last enabled entry, writes every enabled name into the
     * store under itself, then lays out the grid. The list itself is not changed.
     */
    method GenerateGridOnPlay(position: G.Vec3, store: map<string, string>)
        returns (ok: bool, store': map<string, string>)
      requires Valid()
      modifies this`CellSize, this`CellSizeX, this`CellSizeZ, this`Cells
      modifies this`WorldBottomLeft, this`WorldBottomRight, this`WorldTopLeft, this`WorldTopRight
      ensures Valid() && Options() == old(Options())
      ensures CellSize == LastEnabledSize(Options(), old(CellSize))
      ensures store' == Remember(Options(), store)
      ensures LaidOut(position, ok)
      ensures !ok ==> Cells == old(Cells)
      ensures ok ==> fresh(Cells)
    {
      store' := RememberEnabledSizes(store);
      ghost var opts, size := Options(), CellSize;
      ok := LayOutGrid(position);
      // The layout touches neither the list, its entries nor the selected size.
      assert Options() == opts && CellSize == size;
    }

    /** The first loop of play mode: each enabled entry sets the size and stores its name. */
    method RememberEnabledSizes(store: map<string, string>) returns (store': map<string, string>)
      requires Valid()
      modifies this`CellSize
      ensures Valid()
      ensures CellSize == LastEnabledSize(Options(), old(CellSize))
      ensures store' == Remember(Options(), store)
    {
      ghost var opts := Options();
      store' := store;
      var i := 0;
      while i < |FixedCellSizes|
        invariant 0 <= i <= |FixedCellSizes|
        invariant CellSize == LastEnabledSize(opts[..i], old(CellSize))
        invariant store' == Remember(opts[..i], store)
        invariant CellSize > 0.0
      {
        var entry := FixedCellSizes[i];
        assert entry.View() == opts[i];
        if entry.EnableSize {
          CellSize := entry.CellSize;
          store' := store'[entry.SizeName := entry.SizeName];
        }
        assert opts[..i + 1][..i] == opts[..i];
        i := i + 1;
      }
      assert opts[..i] == opts;
    }

    /**
     * The editor pass: refreshes the list and the selected size, lays out the grid, and empties
     * the store once the cells are in place.
     */
    method GenerateEditorGrid(position: G.Vec3, store: map<string, string>)
        returns (ok: bool, store': map<string, string>)
      requires Valid()
      modifies this`FixedCellSizes, this`TempGridSize, this`CellSize, FixedCellSizes
      modifies this`CellSizeX, this`CellSizeZ, this`Cells
      modifies this`WorldBottomLeft, this`WorldBottomRight, this`WorldTopLeft, this`WorldTopRight
      ensures TempGridSize == GridSize
      ensures old(GridSize == TempGridSize) ==> FixedCellSizes == old(FixedCellSizes)
      ensures old(GridSize != TempGridSize) ==>
        forall k :: 0 <= k < |FixedCellSizes| ==> fresh(FixedCellSizes[k])
      ensures old(GridSize != TempGridSize) ==> unchanged(old(FixedCellSizes))
      ensures SelectedFrom(
        if old(GridSize != TempGridSize) then D.SizeOptions(GridSize) else old(Options()),
        store, old(CellSize))
      ensures LaidOut(position, ok)
      ensures !ok ==> Cells == old(Cells) && store' == store
      ensures ok ==> fresh(Cells) && store' == map[]
    {
      ghost var base := if GridSize != TempGridSize then D.SizeOptions(GridSize) else Options();
      ghost var size0 := CellSize;
      GetBestCellSizes(store);
      assert SelectedFrom(base, store, size0);
      ok := LayOutGrid(position);
      store' := if ok then map[] else store;
    }
  }

  /**
   * The flags survive a round trip through play mode. The editor pass leaves the store empty;
   * play mode stores the enabled names; on returning, the remembered grid size is lost, so the
   * list is rebuilt with every entry disabled, and the editor pass reading the store enables
   * exactly the entries that were enabled before.
   */
  lemma RestoreAfterReload(gs: G.Vec2, opts: seq<SizeOption>)
    requires Disabled(opts) == D.SizeOptions(gs)
    ensures Selected(D.SizeOptions(gs), Remember(opts, map[])) == opts
  {
    D.SizeOptionsWellFormed(gs);
    assert forall k :: 0 <= k < |opts| ==> opts[k].name == Disabled(opts)[k].name;
    RememberThenSelect(opts);
  }
}
