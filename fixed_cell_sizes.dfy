/** One entry of the inspector's size list. */
module CellSizeEntry {
  import opened Selection

  class FixedCellSizes {
    var SizeName: string
    var CellSize: real
    var EnableSize: bool

    /**
     * Stores the name and the size. The constructor does not touch `EnableSize`, which keeps the
     * language's default, false; Dafny has no such default, so it is written out here.
     */
    constructor (sizeName: string, cellSize: real)
      ensures SizeName == sizeName && CellSize == cellSize && !EnableSize
    {
      SizeName := sizeName;
      CellSize := cellSize;
      EnableSize := false;
    }

    /** The entry's current value. */
    function View(): SizeOption
      reads this
    {
      SizeOption(SizeName, CellSize, EnableSize)
    }
  }

  /** The values of a list of entries, index by index. */
  ghost function Views(es: seq<FixedCellSizes>): (vs: seq<SizeOption>)
    reads es
    ensures |vs| == |es|
    ensures forall k :: 0 <= k < |es| ==> vs[k] == es[k].View()
  {
    seq(|es|, k reads es requires 0 <= k < |es| => es[k].View())
  }
}
