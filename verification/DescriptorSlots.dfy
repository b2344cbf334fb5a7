/** Tables of descriptors, one per slot, where a negative entry marks a free slot. */
module DescriptorSlots {
  import opened Basics

  /** Occupied slots hold different descriptors, all below the table's size. */
  ghost predicate SlotsValid(slots: seq<int>) {
    && (forall i :: 0 <= i < |slots| ==> slots[i] == -1 || 0 <= slots[i] < |slots|)
    && (forall i, j :: 0 <= i < j < |slots| && slots[i] >= 0 ==> slots[i] != slots[j])
  }

  ghost function Descriptors(slots: seq<int>): set<int> {
    set fd | fd in slots && fd >= 0
  }

  lemma {:induction false} FullTable(slots: seq<int>)
    requires forall i :: 0 <= i < |slots| ==> slots[i] >= 0
    requires forall i, j :: 0 <= i < j < |slots| ==> slots[i] != slots[j]
    ensures |Descriptors(slots)| == |slots|
  {
    if slots != [] {
      var n := |slots| - 1;
      FullTable(slots[..n]);
      assert slots[n] !in slots[..n];
      assert slots == slots[..n] + [slots[n]];
      assert Descriptors(slots) == Descriptors(slots[..n]) + {slots[n]};
    }
  }

  /** As long as one descriptor below the table's size is not in it, a slot is free. */
  lemma FreeSlotExists(slots: seq<int>, outside: int)
    requires SlotsValid(slots) && 0 <= outside < |slots| && outside !in slots
    ensures exists i :: 0 <= i < |slots| && slots[i] < 0
  {
    if forall i :: 0 <= i < |slots| ==> slots[i] >= 0 {
      FullTable(slots);
      assert Descriptors(slots) + {outside} <= Below(|slots|);
      SubsetIsNoLarger(Descriptors(slots) + {outside}, Below(|slots|));
      assert false;
    }
  }

  lemma StoreDescriptor(slots: seq<int>, i: nat, fd: int)
    requires SlotsValid(slots) && i < |slots| && slots[i] < 0 && 0 <= fd < |slots| && fd !in slots
    ensures SlotsValid(slots[i := fd]) && Descriptors(slots[i := fd]) == Descriptors(slots) + {fd}
  {
    var slots' := slots[i := fd];
    forall x | x in Descriptors(slots) + {fd} ensures x in Descriptors(slots') {
      if x != fd {
        var j :| 0 <= j < |slots| && slots[j] == x;
        assert slots'[j] == x;
      } else {
        assert slots'[i] == x;
      }
    }
  }

  lemma FreeDescriptor(slots: seq<int>, i: nat)
    requires SlotsValid(slots) && i < |slots| && slots[i] >= 0
    ensures SlotsValid(slots[i := -1]) && Descriptors(slots[i := -1]) == Descriptors(slots) - {slots[i]}
  {
    var slots' := slots[i := -1];
    forall x | x in Descriptors(slots) - {slots[i]} ensures x in Descriptors(slots') {
      var j :| 0 <= j < |slots| && slots[j] == x;
      assert slots'[j] == x;
    }
  }
}
