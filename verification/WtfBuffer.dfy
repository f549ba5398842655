/** wtf_buffer: a growable region of bytes with a write position. */
module WtfBuffers {
  import opened Bytes
  import opened Writer

  /** `store` is [head, end_of_storage), `size` is end - head. A buffer over raw memory without a
      reallocation handler cannot grow. */
  class WtfBuffer {
    var store: array<byte>
    var size: nat
    const growable: bool

    ghost predicate Valid()
      reads this
    {
      size <= store.Length
    }

    function Contents(): bytes
      requires Valid()
      reads this, store
    {
      store[..size]
    }

    function Capacity(): nat
      reads this
    {
      store.Length
    }

    function Available(): nat
      requires Valid()
      reads this
    {
      store.Length - size
    }

    constructor (capacity: nat, growable: bool)
      ensures Valid() && fresh(store)
      ensures Contents() == [] && Capacity() == capacity && this.growable == growable
    {
      store := new byte[capacity];
      size := 0;
      this.growable := growable;
    }

    /** Throws (ok is false) only when a raw buffer would have to grow. */
    method Reserve(n: nat) returns (ok: bool)
      requires Valid()
      modifies this`store
      ensures Valid() && Contents() == old(Contents())
      ensures ok == (n <= old(Capacity()) || growable)
      ensures Capacity() == if ok && n > old(Capacity()) then n else old(Capacity())
      ensures if ok && n > old(Capacity()) then fresh(store) else store == old(store)
    {
      if n <= store.Length { return true; }
      if !growable { return false; }
      var bigger := new byte[n];
      for i := 0 to size
        modifies bigger
        invariant bigger[..i] == store[..i]
      {
        bigger[i] := store[i];
      }
      store := bigger;
      return true;
    }

    /** The kept prefix stays; growing within the capacity exposes whatever the storage holds. */
    method Resize(n: nat) returns (ok: bool)
      requires Valid()
      modifies this
      ensures Valid() && ok == (n <= old(Capacity()) || growable)
      ensures if ok then size == n else Contents() == old(Contents())
      ensures ok && n <= old(size) ==> Contents() == old(Contents()[..n])
      ensures ok && n > old(size) ==> Contents()[..old(size)] == old(Contents())
      ensures if ok && n > old(Capacity()) then fresh(store) else store == old(store)
    {
      ok := true;
      if n > store.Length { ok := Reserve(n); }
      if ok { size := n; }
    }

    method Clear()
      modifies this`size
      ensures Valid() && Contents() == []
    {
      size := 0;
    }

    /** Bytes stored at `end` and `end` moved past them, as msgpuck's encoders and memcpy do. The
        caller guarantees the space. */
    method Append(bs: bytes)
      requires Valid() && |bs| <= Available()
      modifies this`size, store
      ensures Valid() && Contents() == old(Contents()) + bs
      ensures store == old(store)
    {
      for i := 0 to |bs|
        modifies store
        invariant store[..size] == old(store[..size])
        invariant store[size..size + i] == bs[..i]
      {
        store[size + i] := bs[i];
      }
      assert store[..size + |bs|] == store[..size] + store[size..size + |bs|];
      size := size + |bs|;
    }

    /** Bytes stored over existing content, where a header is patched. */
    method Overwrite(at: nat, bs: bytes)
      requires Valid() && at + |bs| <= size
      modifies store
      ensures Valid() && Contents() == Splice(old(Contents()), at, bs)
    {
      ghost var was := Contents();
      for i := 0 to |bs|
        modifies store
        invariant forall k | 0 <= k < size :: store[k] == if at <= k < at + i then bs[k - at] else was[k]
      {
        store[at + i] := bs[i];
      }
      SpliceIs(was, at, bs, store[..size]);
    }
  }

  lemma SpliceIs(s: bytes, at: nat, bs: bytes, r: bytes)
    requires at + |bs| <= |s| == |r|
    requires forall k | 0 <= k < |s| :: r[k] == if at <= k < at + |bs| then bs[k - at] else s[k]
    ensures r == Splice(s, at, bs)
  {
  }
}
