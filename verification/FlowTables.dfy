/** The kernel module's flow table: hash chains of entries that are updated in place.

    `entries` is the abstract table, a finite map from flows to their entries. */
module FlowTables {
  import opened Basics
  import opened FlowHash

  type U32 = x: nat | x < 0x1_0000_0000

  function ShiftRight(h: nat, n: nat): nat
    decreases n
  {
    if n == 0 then h else ShiftRight(h / 2, n - 1)
  }

  /** The list for a hash value: the value shifted right by 16 - bits. */
  function Bucket(hash: nat, bits: nat): nat
    requires bits <= 16
  {
    ShiftRight(hash, 16 - bits)
  }

  lemma {:induction false} ShiftRightBelow(h: nat, bits: nat, n: nat)
    requires h < Pow2(bits + n)
    ensures ShiftRight(h, n) < Pow2(bits)
    decreases n
  {
    if n > 0 {
      ShiftRightBelow(h / 2, bits, n - 1);
    }
  }

  /** Every flow's list exists, for every table size that init_table accepts. */
  lemma BucketInRange(hash: nat, bits: nat)
    requires bits <= 16 && hash < 0x1_0000
    ensures Bucket(hash, bits) < Pow2(bits)
  {
    assert Pow2(4) == 16;
    assert Pow2(8) == 256;
    assert Pow2(12) == 4096;
    assert Pow2(16) == 0x1_0000;
    assert bits + (16 - bits) == 16;
    ShiftRightBelow(hash, bits, 16 - bits);
  }

  // ---- chains of entries; keys never change, so this needs no heap ----

  /** Entry e sits in chain i rightly: by its hash, and as its flow's only entry. */
  ghost predicate Placed(hash: FlowKey -> nat, bits: nat, entries: map<FlowKey, FlowEntry>, i: nat, e: FlowEntry)
    requires bits <= 16
  {
    Bucket(hash(e.key), bits) == i && e.key in entries && entries[e.key] == e
  }

  ghost predicate Chained(hash: FlowKey -> nat, bits: nat, chains: seq<seq<FlowEntry>>,
                          entries: map<FlowKey, FlowEntry>, k: FlowKey)
    requires bits <= 16 && k in entries
  {
    var i := Bucket(hash(k), bits);
    i < |chains| && entries[k].key == k && entries[k] in chains[i]
  }

  ghost predicate ChainsValid(hash: FlowKey -> nat, bits: nat, chains: seq<seq<FlowEntry>>,
                              entries: map<FlowKey, FlowEntry>)
    requires bits <= 16
  {
    && (forall i, e :: 0 <= i < |chains| && e in chains[i] ==> Placed(hash, bits, entries, i, e))
    && (forall k :: k in entries ==> Chained(hash, bits, chains, entries, k))
    && (forall i :: 0 <= i < |chains| ==> Distinct(chains[i]))
  }

  lemma InsertKeepsChains(hash: FlowKey -> nat, bits: nat, chains: seq<seq<FlowEntry>>,
                          entries: map<FlowKey, FlowEntry>, index: nat, obj: FlowEntry)
    requires bits <= 16 && ChainsValid(hash, bits, chains, entries)
    requires index < |chains| && index == Bucket(hash(obj.key), bits) && obj.key !in entries
    ensures ChainsValid(hash, bits, chains[index := [obj] + chains[index]], entries[obj.key := obj])
  {
    var chains', entries' := chains[index := [obj] + chains[index]], entries[obj.key := obj];
    forall i, e | 0 <= i < |chains'| && e in chains'[i]
      ensures Placed(hash, bits, entries', i, e)
    {
      if e != obj {
        assert e in chains[i];
        assert Placed(hash, bits, entries, i, e);
      }
    }
    forall k | k in entries'
      ensures Chained(hash, bits, chains', entries', k)
    {
      if k != obj.key {
        assert Chained(hash, bits, chains, entries, k);
      }
    }
    assert obj in chains[index] ==> Placed(hash, bits, entries, index, obj);
  }

  lemma DeleteKeepsChains(hash: FlowKey -> nat, bits: nat, chains: seq<seq<FlowEntry>>,
                          entries: map<FlowKey, FlowEntry>, index: nat, pos: nat)
    requires bits <= 16 && ChainsValid(hash, bits, chains, entries)
    requires index < |chains| && pos < |chains[index]|
    ensures var flow := chains[index][pos].key;
            flow in entries &&
            ChainsValid(hash, bits, chains[index := chains[index][..pos] + chains[index][pos + 1..]], entries - {flow})
  {
    var list := chains[index];
    var obj := list[pos];
    var chains', entries' := chains[index := list[..pos] + list[pos + 1..]], entries - {obj.key};
    assert Placed(hash, bits, entries, index, obj);
    forall i, e | 0 <= i < |chains'| && e in chains'[i]
      ensures Placed(hash, bits, entries', i, e)
    {
      assert e in chains[i];
      assert Placed(hash, bits, entries, i, e);
    }
    forall k | k in entries'
      ensures Chained(hash, bits, chains', entries', k)
    {
      assert Chained(hash, bits, chains, entries, k);
      var i := Bucket(hash(k), bits);
      if i == index {
        var j :| 0 <= j < |list| && list[j] == entries[k];
        assert chains'[i][if j < pos then j else j - 1] == list[j];
      }
    }
  }

  class FlowEntry {
    const key: FlowKey
    var bytesSent: U32

    constructor (key: FlowKey, bytesSent: U32)
      ensures this.key == key && this.bytesSent == bytesSent
    {
      this.key := key;
      this.bytesSent := bytesSent;
    }
  }

  class FlowTable {
    const hash: FlowKey -> nat            // flow_hash, for the host's byte order
    var lists: array?<seq<FlowEntry>>     // null until init_table
    var bits: nat
    var numFlows: int
    ghost var entries: map<FlowKey, FlowEntry>

    ghost predicate Valid()
      reads this, lists
    {
      && (forall k :: hash(k) < 0x1_0000)
      && numFlows == |entries|
      && (lists == null ==> entries == map[])
      && (lists != null ==> bits <= 16 && lists.Length == Pow2(bits) &&
                            ChainsValid(hash, bits, lists[..], entries))
    }

    /** What the table knows: the bytes counted for every flow it holds. */
    ghost function Contents(): map<FlowKey, U32>
      reads this, entries.Values
    {
      map k | k in entries :: entries[k].bytesSent
    }

    lemma EntryKeys()
      requires Valid()
      ensures forall k :: k in entries ==> entries[k].key == k
    {
      forall k | k in entries ensures entries[k].key == k {
        assert Chained(hash, bits, lists[..], entries, k);
      }
    }

    /** Counting bytes for one flow leaves the other flows' counts as they were. */
    twostate lemma ContentsCounted(flow: FlowKey)
      requires entries == old(entries) && flow in entries
      requires forall k :: k in entries && k != flow ==> unchanged(entries[k])
      ensures Contents() == old(Contents())[flow := entries[flow].bytesSent]
    {
    }

    /** Taking entries away leaves the other flows' counts as they were. */
    twostate lemma ContentsWithout(flow: FlowKey)
      requires entries == old(entries) - {flow}
      requires forall k :: k in old(entries) ==> unchanged(old(entries)[k])
      ensures Contents() == old(Contents()) - {flow}
    {
    }

    twostate lemma ContentsWith(flow: FlowKey)
      requires flow in entries && entries == old(entries)[flow := entries[flow]]
      requires forall k :: k in old(entries) ==> unchanged(old(entries)[k])
      ensures Contents() == old(Contents())[flow := entries[flow].bytesSent]
    {
    }

    /** The zeroed global variable, on a host with the given byte order. */
    constructor (bigEndian: bool)
      ensures Valid() && lists == null && entries == map[]
      ensures forall k :: hash(k) == HashValue(k, bigEndian)
    {
      hash := (k: FlowKey) => HashValue(k, bigEndian);
      lists := null;
      bits := 0;
      numFlows := 0;
      entries := map[];
    }

    method InitTable(bits: nat, allocOk: bool) returns (ok: bool)
      requires Valid() && lists == null && bits < 256
      modifies this
      ensures Valid()
      ensures ok <==> bits <= 16 && allocOk
      ensures ok ==> lists != null && fresh(lists) && this.bits == bits && entries == map[]
      ensures !ok ==> lists == null
    {
      if bits > 16 {
        return false;
      }
      if !allocOk {
        return false;
      }
      lists := new seq<FlowEntry>[Pow2(bits)](_ => []);
      this.bits := bits;
      numFlows := 0;
      return true;
    }

    /** Walks the flow's chain; pos is the chain's length if the flow has no entry. */
    method Locate(flow: FlowKey) returns (index: nat, pos: nat)
      requires Valid() && lists != null
      ensures index == Bucket(hash(flow), bits) < lists.Length && pos <= |lists[index]|
      ensures pos < |lists[index]| <==> flow in entries
      ensures pos < |lists[index]| ==> lists[index][pos] == entries[flow] && lists[index][pos].key == flow
    {
      BucketInRange(hash(flow), bits);
      index := Bucket(hash(flow), bits);
      pos := 0;
      ghost var chains := lists[..];
      assert flow in entries ==> Chained(hash, bits, chains, entries, flow);
      while pos < |lists[index]| && lists[index][pos].key != flow
        invariant pos <= |lists[index]|
        invariant forall i :: 0 <= i < pos ==> lists[index][i].key != flow
      {
        pos := pos + 1;
      }
      if pos < |lists[index]| {
        assert chains[index] == lists[index] && chains[index][pos] in chains[index];
        assert Placed(hash, bits, entries, index, lists[index][pos]);
      }
    }

    method InsertTable(flow: FlowKey, bytesSent: U32, allocOk: bool) returns (ok: bool)
      requires Valid()
      modifies this, lists
      ensures Valid() && lists == old(lists) && bits == old(bits)
      ensures ok <==> lists != null && flow !in old(entries) && allocOk
      ensures !ok ==> entries == old(entries)
      ensures ok ==> flow in entries && fresh(entries[flow]) && entries == old(entries)[flow := entries[flow]]
      ensures Contents() == if ok then old(Contents())[flow := bytesSent] else old(Contents())
    {
      ok := false;
      if lists != null {
        var index, pos := Locate(flow);
        if pos == |lists[index]| && allocOk {
          InsertTableAt(flow, bytesSent, index);
          ContentsWith(flow);
          ok := true;
        }
      }
    }

    /** Links a new entry at the head of its chain and counts it. */
    method InsertTableAt(flow: FlowKey, bytesSent: U32, index: nat)
      requires Valid() && lists != null && flow !in entries
      requires index == Bucket(hash(flow), bits) < lists.Length
      modifies this, lists
      ensures Valid() && lists == old(lists) && bits == old(bits)
      ensures flow in entries && fresh(entries[flow]) && entries == old(entries)[flow := entries[flow]]
      ensures entries[flow].bytesSent == bytesSent
    {
      var obj := new FlowEntry(flow, bytesSent);
      InsertKeepsChains(hash, bits, lists[..], entries, index, obj);
      ghost var chains := lists[..];
      lists[index] := [obj] + lists[index];
      assert lists[..] == chains[index := [obj] + chains[index]];
      numFlows := numFlows + 1;
      entries := entries[flow := obj];
    }

    method SearchTable(flow: FlowKey) returns (entry: FlowEntry?)
      requires Valid()
      ensures entry != null <==> flow in entries
      ensures entry != null ==> entry == entries[flow]
    {
      if lists == null {
        return null;
      }
      var index, pos := Locate(flow);
      if pos < |lists[index]| {
        return lists[index][pos];
      }
      return null;
    }

    /** Takes an entry out of its chain and off the count. */
    method UnlinkEntry(index: nat, pos: nat)
      requires Valid() && lists != null && index < lists.Length && pos < |lists[index]|
      requires lists[index][pos].key in entries
      modifies this, lists
      ensures Valid() && lists == old(lists) && bits == old(bits)
      ensures entries == old(entries) - {old(lists[index][pos].key)}
    {
      ghost var chains := lists[..];
      DeleteKeepsChains(hash, bits, chains, entries, index, pos);
      entries := entries - {lists[index][pos].key};
      lists[index] := lists[index][..pos] + lists[index][pos + 1..];
      assert lists[..] == chains[index := chains[index][..pos] + chains[index][pos + 1..]];
      numFlows := numFlows - 1;
    }

    method DeleteTable(flow: FlowKey) returns (ok: bool)
      requires Valid()
      modifies this, lists
      ensures Valid() && lists == old(lists) && bits == old(bits)
      ensures ok <==> flow in old(entries)
      ensures entries == if ok then old(entries) - {flow} else old(entries)
      ensures Contents() == if ok then old(Contents()) - {flow} else old(Contents())
    {
      ok := false;
      if lists != null {
        var index, pos := Locate(flow);
        if pos < |lists[index]| {
          UnlinkEntry(index, pos);
          ContentsWithout(flow);
          ok := true;
        }
      }
    }
  }
}
