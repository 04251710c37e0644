/** Physical memory as an array of frames of table entries. */
module FrameStoreModel {
  import opened PageTree

  class FrameStore {
    const arch: Arch
    const cells: array2<nat>

    ghost predicate Valid() {
      cells.Length1 == Radix(arch)
    }

    ghost function View(): (v: seq<seq<nat>>)
      reads cells
      ensures |v| == cells.Length0
      ensures forall f :: 0 <= f < |v| ==> |v[f]| == cells.Length1
      ensures forall f, i :: 0 <= f < |v| && 0 <= i < cells.Length1 ==> v[f][i] == cells[f, i]
    {
      seq(cells.Length0, f requires 0 <= f < cells.Length0 reads cells =>
        seq(cells.Length1, i requires 0 <= i < cells.Length1 reads cells => cells[f, i]))
    }

    constructor (arch: Arch, cells: array2<nat>)
      requires cells.Length1 == Radix(arch)
      ensures Valid() && this.arch == arch && this.cells == cells
    {
      this.arch, this.cells := arch, cells;
    }

    function Read(f: nat, i: nat): (e: nat)
      requires f < cells.Length0 && i < cells.Length1
      reads cells
      ensures e == Entry(View(), f, i)
    {
      cells[f, i]
    }

    method Write(f: nat, i: nat, e: nat)
      requires f < cells.Length0 && i < cells.Length1
      modifies cells
      ensures View() == SetEntry(old(View()), f, i, e)
    {
      cells[f, i] := e;
      assert View()[f] == Put(old(View())[f], i, e);
      assert forall g :: 0 <= g < cells.Length0 && g != f ==> View()[g] == old(View())[g];
    }

    /** `MemoryHelper::zero` over one frame. */
    method Zero(f: nat)
      requires Valid() && f < cells.Length0
      modifies cells
      ensures View() == old(View())[f := EmptyTable(arch)]
    {
      var i := 0;
      while i < cells.Length1
        invariant i <= cells.Length1
        invariant forall j :: 0 <= j < i ==> cells[f, j] == 0
        invariant forall g, j :: 0 <= g < cells.Length0 && g != f && 0 <= j < cells.Length1 ==>
                    cells[g, j] == old(cells[g, j])
      {
        cells[f, i] := 0;
        i := i + 1;
      }
      assert View()[f] == EmptyTable(arch);
      assert forall g :: 0 <= g < cells.Length0 && g != f ==> View()[g] == old(View())[g];
    }
  }
}
