/** The pool of mailbox buffers, a ring of free buffer numbers. */
module MailboxPool {
  import opened Basics

  class MbxPool {
    const size: nat
    const mbxemptylist: array<nat>
    var listhead: nat
    var listtail: nat
    var listcount: nat

    /** The free buffers, the next to be handed out first. */
    ghost function Free(): (free: seq<nat>)
      requires size == mbxemptylist.Length && listtail < size && listcount <= size
      reads this, mbxemptylist
      ensures |free| == listcount
    {
      seq(listcount, k requires 0 <= k < listcount && listtail < size && listcount <= size == mbxemptylist.Length
                       reads this, mbxemptylist
                       => mbxemptylist[Around(listtail, k, size)])
    }

    ghost predicate Valid()
      reads this, mbxemptylist
    {
      && 0 < size == mbxemptylist.Length
      && listtail < size && listcount <= size && listhead == Around(listtail, listcount, size)
      && DistinctBelow(Free(), size)
    }

    /** `ecx_initmbxpool`: every buffer is free. */
    constructor (poolsize: nat)
      requires poolsize > 0
      ensures Valid() && size == poolsize && fresh(mbxemptylist)
      ensures Free() == seq(poolsize, i => i)
    {
      size := poolsize;
      mbxemptylist := new nat[poolsize](i => i);
      listhead := 0;
      listtail := 0;
      listcount := poolsize;
    }

    /** `ecx_getmbx`. */
    method Get() returns (mbx: Option<nat>)
      requires Valid()
      modifies this
      ensures Valid()
      ensures old(Free()) == [] ==> mbx == None && Free() == []
      ensures old(Free()) != [] ==> mbx == Some(old(Free())[0]) && Free() == old(Free())[1..]
    {
      mbx := None;
      if listcount > 0 {
        mbx := Some(mbxemptylist[listtail]);
        listtail := if listtail + 1 >= size then 0 else listtail + 1;
        listcount := listcount - 1;
        assert Free() == old(Free())[1..];
      }
    }

    /** `ecx_dropmbx`: the caller owns the buffer, so it is not free already. */
    method Drop(item: int) returns (ok: bool)
      requires Valid() && item !in Free()
      modifies this, mbxemptylist
      ensures Valid()
      ensures ok == (0 <= item < size)
      ensures Free() == if ok then old(Free()) + [item] else old(Free())
    {
      ok := false;
      if 0 <= item < size {
        ghost var free := Free();
        Pigeonhole(free + [item], size);
        mbxemptylist[listhead] := item;
        listhead := if listhead + 1 >= size then 0 else listhead + 1;
        listcount := listcount + 1;
        assert Free() == free + [item];
        ok := true;
      }
    }
  }
}
