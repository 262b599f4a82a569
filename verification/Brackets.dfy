/**
  lab3/kern/sync/sync.h and lab3/kern/mm/pmm.c: the bracket and the calls it is put around, as they run when no
  interrupt comes.
 */
module Brackets {
  import opened Options
  import opened FreeList
  import opened PageFrames
  import opened PageAllocator

  /** The SIE bit of sstatus. */
  class Hart {
    var sie: bool

    /** __intr_save */
    method IntrSave() returns (flag: bool)
      modifies this
      ensures flag == old(sie) && !sie
    {
      if sie {
        sie := false;
        return true;
      }
      return false;
    }

    /** __intr_restore */
    method IntrRestore(flag: bool)
      modifies this
      ensures sie == (flag || old(sie))
    {
      if flag {
        sie := true;
      }
    }
  }

  /** alloc_pages, with the first-fit manager */
  method AllocPages(hart: Hart, area: FreeArea, n: nat) returns (page: Option<nat>, ghost k: nat)
    requires area.Valid() && 0 < n
    modifies hart, area, area.prev, area.next, area.property, area.flag
    ensures hart.sie == old(hart.sie) && area.Valid()
    ensures page.None? <==> !Satisfiable(old(area.Free()), n)
    ensures page.None? ==> area.Free() == old(area.Free())
    ensures page.Some? ==>
              Chosen(FirstFit, old(area.Free()), n, k) && page.value == old(area.Free())[k].start &&
              area.Free() == Take(old(area.Free()), k, n)
  {
    var flag := hart.IntrSave();
    page, k := area.FirstFitAlloc(n);
    hart.IntrRestore(flag);
  }

  /** free_pages, on every range that passes its assertions */
  method FreePages(hart: Hart, area: FreeArea, base: nat, n: nat)
    requires area.Valid() && 0 < n && base + n <= area.npage
    requires forall p :: base <= p < base + n ==> !area.reserved[p] && !area.flag[p]
    modifies hart, area, area.prev, area.next, area.property, area.flag, area.reserved, area.ref
    ensures hart.sie == old(hart.sie)
    ensures Sound(area.Now()) <==> Sheltered(old(area.order), base) && Range(base, n) !! old(Pages(area.Free()))
    ensures Sound(area.Now()) ==> area.Valid() && area.Free() == Give(old(area.Free()), base, n)
    ensures area.Now() == WrittenRelease(old(area.Now()), old(area.order), base, n)
  {
    var flag := hart.IntrSave();
    area.FreePages(base, n);
    hart.IntrRestore(flag);
  }

  /** nr_free_pages */
  method NrFreePages(hart: Hart, area: FreeArea) returns (r: int)
    requires area.Valid()
    modifies hart
    ensures hart.sie == old(hart.sie) && r == Total(area.Free())
  {
    var flag := hart.IntrSave();
    r := area.nrFree;
    hart.IntrRestore(flag);
  }
}
