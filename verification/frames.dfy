/**
 The part of a pandas DataFrame that the mutation summary touches: named
 columns in order, every cell a string, and column assignment `df[name] = values`,
 which changes the frame in place.
 */
module Frames {

  /** No name occurs twice. */
  ghost predicate Distinct(names: seq<string>)
  {
    forall i, j :: 0 <= i < j < |names| ==> names[i] != names[j]
  }

  class DataFrame {
    /** Column names, in display order. */
    var columns: seq<string>
    /** Each column's values, top row first. */
    var cells: map<string, seq<string>>
    /** Number of rows. */
    var height: nat

    ghost predicate Valid()
      reads this
    {
      && Distinct(columns)
      && (forall c :: c in cells <==> c in columns)
      && (forall c :: c in cells ==> |cells[c]| == height)
    }

    constructor (columns: seq<string>, cells: map<string, seq<string>>, height: nat)
      requires Distinct(columns)
      requires forall c :: c in cells <==> c in columns
      requires forall c :: c in cells ==> |cells[c]| == height
      ensures Valid()
      ensures this.columns == columns && this.cells == cells && this.height == height
    {
      this.columns := columns;
      this.cells := cells;
      this.height := height;
    }

    /**
     `df[name] = values`: an existing column keeps its place and takes the new
     values; a new column is appended after the others. No other column changes.
     */
    method Assign(name: string, values: seq<string>)
      requires Valid()
      requires |values| == height
      modifies this
      ensures Valid()
      ensures columns == if name in old(columns) then old(columns) else old(columns) + [name]
      ensures cells == old(cells)[name := values]
      ensures height == old(height)
    {
      if name !in columns {
        columns := columns + [name];
      }
      cells := cells[name := values];
    }
  }
}
