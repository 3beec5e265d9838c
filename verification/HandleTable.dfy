/**
 The chat server's handle table of `handleTable.c`: a linked list of handles and sockets,
 newest first, proved to behave as a map from handles to sockets.
 */
module HandleTable {
  import opened Bytes

  const MAX_HANDLES := 100

  type Handle = seq<byte>

  datatype Entry = Entry(handle: Handle, socket: nat)

  // ----- the table as a list of entries

  predicate Distinct(table: seq<Entry>) {
    forall i, j :: 0 <= i < j < |table| ==> table[i].handle != table[j].handle
  }

  predicate Has(table: seq<Entry>, handle: Handle) {
    exists e <- table :: e.handle == handle
  }

  function Add(table: seq<Entry>, handle: Handle, socket: nat): seq<Entry> {
    if |table| >= MAX_HANDLES || Has(table, handle) then table else [Entry(handle, socket)] + table
  }

  /** The newest entry of the socket is taken out, if there is one. */
  function Remove(table: seq<Entry>, socket: nat): seq<Entry> {
    if table == [] then []
    else if table[0].socket == socket then table[1..]
    else [table[0]] + Remove(table[1..], socket)
  }

  function Lookup(table: seq<Entry>, handle: Handle): int {
    if table == [] then -1
    else if table[0].handle == handle then table[0].socket
    else Lookup(table[1..], handle)
  }

  // ----- the table as a map

  function AsMap(table: seq<Entry>): map<Handle, nat> {
    if table == [] then map[] else AsMap(table[1..])[table[0].handle := table[0].socket]
  }

  lemma {:induction false} MapKeys(table: seq<Entry>)
    ensures forall h :: h in AsMap(table) <==> Has(table, h)
  {
    if table != [] {
      MapKeys(table[1..]);
      forall h
        ensures Has(table, h) <==> h == table[0].handle || Has(table[1..], h)
      {
        if Has(table[1..], h) {
          var e :| e in table[1..] && e.handle == h;
          assert e in table;
        }
      }
    }
  }

  lemma {:induction false} MapValue(table: seq<Entry>, e: Entry)
    requires Distinct(table) && e in table
    ensures e.handle in AsMap(table) && AsMap(table)[e.handle] == e.socket
  {
    if e != table[0] {
      MapValue(table[1..], e);
    }
  }

  lemma {:induction false} MapSize(table: seq<Entry>)
    requires Distinct(table)
    ensures |AsMap(table)| == |table|
  {
    if table != [] {
      MapSize(table[1..]);
      MapKeys(table[1..]);
      assert !Has(table[1..], table[0].handle);
    }
  }

  /** Distinct handles: the map has exactly the entries of the list. */
  lemma MapHasEntries(table: seq<Entry>)
    requires Distinct(table)
    ensures forall h :: h in AsMap(table) <==> Has(table, h)
    ensures forall e <- table :: e.handle in AsMap(table) && AsMap(table)[e.handle] == e.socket
    ensures |AsMap(table)| == |table|
  {
    MapKeys(table);
    MapSize(table);
    forall e <- table
      ensures e.handle in AsMap(table) && AsMap(table)[e.handle] == e.socket
    {
      MapValue(table, e);
    }
  }

  /** Looking a handle up is looking it up in the map. */
  lemma {:induction false} LookupIsMapLookup(table: seq<Entry>, handle: Handle)
    ensures Lookup(table, handle) == if handle in AsMap(table) then AsMap(table)[handle] else -1
  {
    if table != [] {
      LookupIsMapLookup(table[1..], handle);
    }
  }

  /** Adding extends the map by a new handle, unless it is taken or the table is full. */
  lemma AddExtendsMap(table: seq<Entry>, handle: Handle, socket: nat)
    requires Distinct(table)
    ensures Distinct(Add(table, handle, socket))
    ensures AsMap(Add(table, handle, socket)) ==
            if |AsMap(table)| < MAX_HANDLES && handle !in AsMap(table)
            then AsMap(table)[handle := socket] else AsMap(table)
  {
    MapKeys(table);
    MapSize(table);
    if |table| < MAX_HANDLES && !Has(table, handle) {
      AddedIsDistinct(table, handle, socket);
      assert ([Entry(handle, socket)] + table)[1..] == table;
    }
  }

  lemma AddedIsDistinct(table: seq<Entry>, handle: Handle, socket: nat)
    requires Distinct(table) && !Has(table, handle)
    ensures Distinct([Entry(handle, socket)] + table)
  {
    var added := [Entry(handle, socket)] + table;
    forall i, j | 0 <= i < j < |added|
      ensures added[i].handle != added[j].handle
    {
      assert table[j - 1] in table;
    }
  }

  lemma {:induction false} RemoveFirst(table: seq<Entry>, socket: nat, i: nat)
    requires i < |table| && table[i].socket == socket
    requires forall k :: 0 <= k < i ==> table[k].socket != socket
    ensures Remove(table, socket) == table[..i] + table[i + 1..]
  {
    if i > 0 {
      RemoveFirst(table[1..], socket, i - 1);
    }
  }

  lemma {:induction false} RemoveNone(table: seq<Entry>, socket: nat)
    requires forall k :: 0 <= k < |table| ==> table[k].socket != socket
    ensures Remove(table, socket) == table
  {
    if table != [] {
      RemoveNone(table[1..], socket);
    }
  }

  lemma {:induction false} FindSocket(table: seq<Entry>, socket: nat) returns (k: nat)
    ensures k <= |table| && (k < |table| ==> table[k].socket == socket)
    ensures forall i :: 0 <= i < k ==> table[i].socket != socket
  {
    if table == [] || table[0].socket == socket {
      k := 0;
    } else {
      k := FindSocket(table[1..], socket);
      k := k + 1;
    }
  }

  function Without(table: seq<Entry>, k: nat): seq<Entry>
    requires k < |table|
  {
    table[..k] + table[k + 1..]
  }

  lemma EntriesWithout(table: seq<Entry>, k: nat)
    requires Distinct(table) && k < |table|
    ensures Distinct(Without(table, k))
    ensures forall e :: e in Without(table, k) <==> e in table && e.handle != table[k].handle
  {
    var t := Without(table, k);
    forall e | e in table && e.handle != table[k].handle
      ensures e in t
    {
      var i :| 0 <= i < |table| && table[i] == e;
      assert e == if i < k then t[i] else t[i - 1];
    }
  }

  lemma UpdateThenDrop<K, V>(m: map<K, V>, k: K, v: V, drop: K)
    ensures k != drop ==> (m - {drop})[k := v] == m[k := v] - {drop}
    ensures k !in m ==> m[k := v] - {k} == m
  {
  }

  /** Taking entry k out of a table takes its handle, and no other, out of the map. */
  lemma {:induction false} MapWithoutEntry(table: seq<Entry>, k: nat)
    requires Distinct(table) && k < |table|
    ensures AsMap(Without(table, k)) == AsMap(table) - {table[k].handle}
  {
    if k == 0 {
      MapWithoutFirst(table);
    } else {
      MapWithoutEntry(table[1..], k - 1);
      MapWithoutLater(table, k);
    }
  }

  lemma MapWithoutFirst(table: seq<Entry>)
    requires Distinct(table) && table != []
    ensures AsMap(Without(table, 0)) == AsMap(table) - {table[0].handle}
  {
    assert Without(table, 0) == table[1..];
    MapKeys(table[1..]);
    assert !Has(table[1..], table[0].handle);
    UpdateThenDrop(AsMap(table[1..]), table[0].handle, table[0].socket, table[0].handle);
  }

  lemma MapWithoutLater(table: seq<Entry>, k: nat)
    requires Distinct(table) && 0 < k < |table|
    requires AsMap(Without(table[1..], k - 1)) == AsMap(table[1..]) - {table[k].handle}
    ensures AsMap(Without(table, k)) == AsMap(table) - {table[k].handle}
  {
    hide Distinct;
    DistinctHandles(table, 0, k);
    var without := Without(table, k);
    assert without[0] == table[0] && without[1..] == Without(table[1..], k - 1);
    UpdateThenDrop(AsMap(table[1..]), table[0].handle, table[0].socket, table[k].handle);
  }

  lemma DistinctHandles(table: seq<Entry>, i: nat, j: nat)
    requires Distinct(table) && i < j < |table|
    ensures table[i].handle != table[j].handle
  {
  }

  /**
   Removing a socket takes exactly one handle of that socket out of the map: the newest,
   that is, the first in the list. Without such a handle nothing changes.
   */
  lemma RemoveTakesOneHandle(table: seq<Entry>, socket: nat) returns (k: nat)
    requires Distinct(table)
    ensures Distinct(Remove(table, socket)) && |Remove(table, socket)| <= |table|
    ensures k <= |table| && forall i :: 0 <= i < k ==> table[i].socket != socket
    ensures k == |table| ==> Remove(table, socket) == table && socket !in AsMap(table).Values
    ensures k < |table| ==>
              && table[k].socket == socket
              && Remove(table, socket) == Without(table, k)
              && AsMap(Remove(table, socket)) == AsMap(table) - {table[k].handle}
  {
    k := FindSocket(table, socket);
    if k < |table| {
      RemoveFirst(table, socket, k);
      EntriesWithout(table, k);
      MapWithoutEntry(table, k);
    } else {
      RemoveNone(table, socket);
      MapHasEntries(table);
    }
  }

  datatype TableOp = AddHandle(handle: Handle, socket: nat) | RemoveHandle(socket: nat)

  function DoAll(ops: seq<TableOp>): seq<Entry> {
    if ops == [] then []
    else
      var table := DoAll(ops[..|ops| - 1]);
      match ops[|ops| - 1]
      case AddHandle(handle, socket) => Add(table, handle, socket)
      case RemoveHandle(socket) => Remove(table, socket)
  }

  /**
   After any sequence of adds and removes the handles are distinct, there are at most
   MAX_HANDLES of them, and each looks up to its own socket.
   */
  lemma {:induction false} TableIsAMap(ops: seq<TableOp>)
    ensures Distinct(DoAll(ops)) && |DoAll(ops)| == |AsMap(DoAll(ops))| <= MAX_HANDLES
    ensures forall e <- DoAll(ops) :: Lookup(DoAll(ops), e.handle) == e.socket
    decreases |ops|
  {
    if ops != [] {
      var table := DoAll(ops[..|ops| - 1]);
      TableIsAMap(ops[..|ops| - 1]);
      match ops[|ops| - 1]
      case AddHandle(handle, socket) => AddExtendsMap(table, handle, socket);
      case RemoveHandle(socket) => var k := RemoveTakesOneHandle(table, socket);
    }
    MapHasEntries(DoAll(ops));
    forall e <- DoAll(ops)
      ensures Lookup(DoAll(ops), e.handle) == e.socket
    {
      LookupIsMapLookup(DoAll(ops), e.handle);
    }
  }

  // ----- the linked list

  class HandleNode {
    const entry: Entry
    var next: HandleNode?

    constructor (handle: Handle, socket: nat, next: HandleNode?)
      ensures entry == Entry(handle, socket) && this.next == next
    {
      entry := Entry(handle, socket);
      this.next := next;
    }
  }

  class HandleList {
    var head: HandleNode?
    var handleCount: nat
    ghost var nodes: seq<HandleNode>

    ghost function NodeAt(i: nat): HandleNode?
      reads this
    {
      if i < |nodes| then nodes[i] else null
    }

    /** The nodes are linked in the order of `nodes`, without sharing, hence acyclically. */
    ghost predicate Valid()
      reads this, nodes
    {
      && head == NodeAt(0)
      && (forall i {:trigger nodes[i].next} :: 0 <= i < |nodes| ==> nodes[i].next == NodeAt(i + 1))
      && (forall i, j :: 0 <= i < j < |nodes| ==> nodes[i] != nodes[j])
      && handleCount == |nodes| <= MAX_HANDLES
      && Distinct(View())
    }

    ghost function View(): seq<Entry>
      reads this
    {
      Entries(nodes)
    }

    static ghost function Entries(nodes: seq<HandleNode>): (s: seq<Entry>)
      ensures |s| == |nodes|
    {
      seq(|nodes|, i requires 0 <= i < |nodes| => nodes[i].entry)
    }

    constructor ()
      ensures Valid() && View() == [] && nodes == []
    {
      head, handleCount, nodes := null, 0, [];
    }

    /** `lookupHandle`. */
    method LookupHandle(handle: Handle) returns (socket: int)
      requires Valid()
      ensures socket == Lookup(View(), handle)
    {
      var curr := head;
      ghost var i := 0;
      while curr != null
        invariant 0 <= i <= |nodes| && curr == NodeAt(i)
        invariant Lookup(View()[i..], handle) == Lookup(View(), handle)
        decreases |nodes| - i
      {
        if curr.entry.handle == handle {
          return curr.entry.socket;
        }
        assert View()[i..][1..] == View()[i + 1..];
        curr := curr.next;
        i := i + 1;
      }
      socket := -1;
    }

    /** `addHandle`. */
    method AddHandle(handle: Handle, socket: nat) returns (r: int)
      requires Valid()
      modifies this
      ensures Valid() && fresh(set n | n in nodes && n !in old(nodes))
      ensures View() == Add(old(View()), handle, socket)
      ensures r == if old(handleCount) < MAX_HANDLES && !Has(old(View()), handle) then 0 else -1
    {
      if handleCount >= MAX_HANDLES {
        return -1;
      }
      var curr := head;
      ghost var i := 0;
      while curr != null
        invariant 0 <= i <= |nodes| && curr == NodeAt(i)
        invariant forall k :: 0 <= k < i ==> View()[k].handle != handle
        decreases |nodes| - i
      {
        if curr.entry.handle == handle {
          assert View()[i] in View();
          return -1;
        }
        curr := curr.next;
        i := i + 1;
      }
      assert !Has(View(), handle);
      ghost var before := View();
      head := new HandleNode(handle, socket, head);
      nodes := [head] + nodes;
      handleCount := handleCount + 1;
      assert View() == [Entry(handle, socket)] + before;
      r := 0;
    }

    /** The part of `removeHandle` that takes a node out of the list. */
    method Unlink(curr: HandleNode, prev: HandleNode?, ghost i: nat)
      requires Valid() && i < |nodes| && curr == nodes[i]
      requires prev == if i == 0 then null else nodes[i - 1]
      modifies this, prev
      ensures Valid() && nodes == old(nodes)[..i] + old(nodes)[i + 1..]
      ensures View() == Without(old(View()), i)
    {
      EntriesWithout(View(), i);
      if prev == null {
        head := curr.next;
      } else {
        prev.next := curr.next;
      }
      nodes := nodes[..i] + nodes[i + 1..];
      handleCount := handleCount - 1;
      assert View() == Without(old(View()), i);
    }

    /** `removeHandle`. */
    method RemoveHandle(socket: nat) returns (r: int)
      requires Valid()
      modifies this, nodes
      ensures Valid() && forall n <- nodes :: n in old(nodes)
      ensures View() == Remove(old(View()), socket)
      ensures r == if exists e <- old(View()) :: e.socket == socket then 0 else -1
    {
      var curr, prev: HandleNode? := head, null;
      ghost var i := 0;
      while curr != null
        invariant 0 <= i <= |nodes| && curr == NodeAt(i)
        invariant prev == if i == 0 then null else nodes[i - 1]
        invariant unchanged(this) && Valid()
        invariant forall k :: 0 <= k < i ==> View()[k].socket != socket
        decreases |nodes| - i
      {
        if curr.entry.socket == socket {
          RemoveFirst(View(), socket, i);
          assert View()[i] in View();
          Unlink(curr, prev, i);
          return 0;
        }
        prev := curr;
        curr := curr.next;
        i := i + 1;
      }
      RemoveNone(View(), socket);
      r := -1;
    }

    /** `getHandles`: the handles in list order. */
    method GetHandles() returns (handleList: array<Handle>)
      requires Valid()
      ensures fresh(handleList) && handleList.Length == handleCount
      ensures forall i :: 0 <= i < handleCount ==> handleList[i] == View()[i].handle
    {
      var curr := head;
      handleList := new Handle[handleCount](_ => []);
      for i := 0 to handleCount
        invariant curr == NodeAt(i)
        invariant forall k :: 0 <= k < i ==> handleList[k] == View()[k].handle
      {
        handleList[i] := curr.entry.handle;
        curr := curr.next;
      }
    }
  }
}
