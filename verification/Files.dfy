/** A file with a cursor (moses/src/File.h).  A cell holds one scalar, whatever its width. */
module Files {
  /** What one fWrite of a scalar at position p does to the contents. */
  function Put<T>(cells: seq<T>, p: nat, x: T): seq<T>
    requires p <= |cells|
  {
    if p < |cells| then cells[p := x] else cells + [x]
  }

  class File<T> {
    var cells: seq<T>
    var pos: nat

    ghost predicate Valid()
      reads this
    {
      pos <= |cells|
    }

    constructor ()
      ensures cells == [] && pos == 0
    {
      cells, pos := [], 0;
    }

    method Tell() returns (o: nat)
      ensures o == pos
    {
      o := pos;
    }

    method Seek(o: nat)
      requires o <= |cells|
      modifies this`pos
      ensures pos == o
    {
      pos := o;
    }

    /** fWrite of one scalar. */
    method Write(x: T)
      requires Valid()
      modifies this
      ensures Valid() && pos == old(pos) + 1 && cells == Put(old(cells), old(pos), x)
    {
      cells := Put(cells, pos, x);
      pos := pos + 1;
    }

    /** fRead of one scalar. */
    method Read() returns (x: T)
      requires pos < |cells|
      modifies this`pos
      ensures pos == old(pos) + 1 && x == cells[old(pos)]
    {
      x := cells[pos];
      pos := pos + 1;
    }

    /** fwrite of s items at the end of the file. */
    method WriteAll(v: seq<T>)
      requires pos == |cells|
      modifies this
      ensures cells == old(cells) + v && pos == |cells|
    {
      for i := 0 to |v|
        invariant cells == old(cells) + v[..i] && pos == |cells|
      {
        Write(v[i]);
      }
    }

    /** fread of s items. */
    method ReadAll(s: nat) returns (v: seq<T>)
      requires pos + s <= |cells|
      modifies this`pos
      ensures v == cells[old(pos)..old(pos) + s] && pos == old(pos) + s
    {
      v := [];
      for i := 0 to s
        invariant v == cells[old(pos)..old(pos) + i] && pos == old(pos) + i
      {
        var x := Read();
        v := v + [x];
      }
    }
  }
}
