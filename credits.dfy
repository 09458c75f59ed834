/**
 * Transmit-buffer accounting for the Number Of Completed Packets event
 * (section 4.1.1 of Vol 2, Part E of the Bluetooth Core Specification):
 * pairs (handle, count) are taken in order; each frees `count` transmit
 * buffers of the connection bound to `handle`, and the first handle with no
 * connection ends the event, later pairs included.
 */
module Credits {
  import opened Types

  /** Transmit buffers freed so far for connection `id` (absent means none). */
  function Freed(f: map<nat, nat>, id: nat): nat
  {
    if id in f then f[id] else 0
  }

  /** `n` more buffers freed for connection `id`. */
  function Credit(f: map<nat, nat>, id: nat, n: nat): (r: map<nat, nat>)
    ensures Freed(r, id) == Freed(f, id) + n
    ensures forall j :: j != id ==> Freed(r, j) == Freed(f, j)
  {
    if n == 0 then f else f[id := Freed(f, id) + n]
  }

  /** What processing the pairs of `hs` and `ns` in order does to the freed counts. */
  function FreeCompleted(conns: map<Handle, Conn>, f: map<nat, nat>, hs: seq<Handle>, ns: seq<uint16>): map<nat, nat>
    requires |hs| == |ns|
    decreases |hs|
  {
    if hs == [] || hs[0] !in conns then f
    else FreeCompleted(conns, Credit(f, conns[hs[0]].id, ns[0]), hs[1..], ns[1..])
  }

  /** The index of the first handle with no connection, or |hs| when every handle has one. */
  function FirstUnknown(conns: map<Handle, Conn>, hs: seq<Handle>): (k: nat)
    ensures k <= |hs|
    ensures forall i :: 0 <= i < k ==> hs[i] in conns
    ensures k < |hs| ==> hs[k] !in conns
  {
    if hs == [] || hs[0] !in conns then 0 else 1 + FirstUnknown(conns, hs[1..])
  }

  /** The counts of all pairs whose handle is bound to connection `id`. */
  function CountFor(conns: map<Handle, Conn>, hs: seq<Handle>, ns: seq<uint16>, id: nat): nat
    requires |hs| == |ns|
  {
    if hs == [] then 0
    else (if hs[0] in conns && conns[hs[0]].id == id then ns[0] else 0) + CountFor(conns, hs[1..], ns[1..], id)
  }

  /**
   * Each connection gains exactly the counts of the pairs naming it before
   * the first unknown handle.
   */
  lemma {:induction false} FreeCompletedCounts(conns: map<Handle, Conn>, f: map<nat, nat>, hs: seq<Handle>, ns: seq<uint16>, id: nat)
    requires |hs| == |ns|
    ensures var k := FirstUnknown(conns, hs);
      Freed(FreeCompleted(conns, f, hs, ns), id) == Freed(f, id) + CountFor(conns, hs[..k], ns[..k], id)
    decreases |hs|
  {
    var k := FirstUnknown(conns, hs);
    if hs == [] || hs[0] !in conns {
      assert k == 0;
    } else {
      var f' := Credit(f, conns[hs[0]].id, ns[0]);
      FreeCompletedCounts(conns, f', hs[1..], ns[1..], id);
      assert k == 1 + FirstUnknown(conns, hs[1..]);
      assert hs[..k][1..] == hs[1..][..k - 1];
      assert ns[..k][1..] == ns[1..][..k - 1];
    }
  }

  /** Pairs after the first unknown handle have no effect. */
  lemma {:induction false} FreeCompletedStops(conns: map<Handle, Conn>, f: map<nat, nat>, hs: seq<Handle>, ns: seq<uint16>)
    requires |hs| == |ns|
    ensures var k := FirstUnknown(conns, hs);
      FreeCompleted(conns, f, hs, ns) == FreeCompleted(conns, f, hs[..k], ns[..k])
    decreases |hs|
  {
    var k := FirstUnknown(conns, hs);
    if hs == [] || hs[0] !in conns {
      assert k == 0;
    } else {
      var f' := Credit(f, conns[hs[0]].id, ns[0]);
      FreeCompletedStops(conns, f', hs[1..], ns[1..]);
      assert hs[..k][1..] == hs[1..][..k - 1];
      assert ns[..k][1..] == ns[1..][..k - 1];
    }
  }

  /** A connection named by no processed pair keeps its count. */
  lemma UntouchedConnection(conns: map<Handle, Conn>, f: map<nat, nat>, hs: seq<Handle>, ns: seq<uint16>, id: nat)
    requires |hs| == |ns|
    requires forall h :: h in hs && h in conns ==> conns[h].id != id
    ensures Freed(FreeCompleted(conns, f, hs, ns), id) == Freed(f, id)
  {
    var k := FirstUnknown(conns, hs);
    FreeCompletedCounts(conns, f, hs, ns, id);
    CountForNone(conns, hs[..k], ns[..k], id);
  }

  lemma {:induction false} CountForNone(conns: map<Handle, Conn>, hs: seq<Handle>, ns: seq<uint16>, id: nat)
    requires |hs| == |ns|
    requires forall h :: h in hs && h in conns ==> conns[h].id != id
    ensures CountFor(conns, hs, ns, id) == 0
  {
    if hs != [] {
      assert hs[0] in hs;
      CountForNone(conns, hs[1..], ns[1..], id);
    }
  }
}
