/** `dynamic_string_buffer` and `dynamic_vector_buffer`: a second implementation of the growable
    buffer, over a string or vector the caller owns.  The two classes of buffer.hpp differ only in
    the container's name for erasing a front, so one class stands for both. */
module DynamicBuffer {
  import opened Bytes
  import opened ByteQueue

  class DynamicBuffer {
    const maxSize: nat
    var storage: seq<byte>
    var size: nat

    ghost predicate Valid()
      reads this
    {
      size <= |storage|
    }

    /** The input sequence: what `data()` exposes. */
    function Contents(): (q: seq<byte>)
      requires Valid()
      reads this
      ensures |q| == size
    {
      storage[..size]
    }

    /** The output sequence. */
    function Prepared(): (q: seq<byte>)
      requires Valid()
      reads this
    {
      storage[size..]
    }

    function Abstract(): Queue
      requires Valid()
      reads this
    {
      Queue(Contents(), Prepared())
    }

    /** Existing bytes are the input sequence, even beyond the maximum. */
    constructor (s: seq<byte>, maximumSize: nat)
      ensures maxSize == maximumSize && Valid() && Abstract() == Queue(s, [])
    {
      maxSize, storage, size := maximumSize, s, |s|;
    }

    /** `resize` of the container: cut, or filled up with zeros. */
    function Resized(n: nat): (s: seq<byte>)
      reads this
      ensures |s| == n && s[..Min(n, |storage|)] == storage[..Min(n, |storage|)]
    {
      if n <= |storage| then storage[..n] else storage + seq(n - |storage|, _ => 0)
    }

    /** `prepare(n)`: throws exactly when `size() + n > max_size()`, and then changes nothing. */
    method Prepare(n: nat) returns (ok: bool)
      requires Valid()
      modifies this`storage
      ensures Valid() && (ok <==> size + n <= maxSize)
      ensures ok ==> Contents() == old(Contents()) && |Prepared()| == n
      ensures !ok ==> storage == old(storage)
    {
      if size > maxSize || maxSize - size < n {
        return false;
      }
      storage := Resized(size + n);
      assert storage[..size] == storage[..Min(size + n, |old(storage)|)][..size];
      ok := true;
    }

    /** A caller filling part of the prepared region. */
    method Fill(at: nat, data: seq<byte>)
      requires Valid() && at + |data| <= |Prepared()|
      modifies this`storage
      ensures Valid() && Contents() == old(Contents())
      ensures Prepared() == old(Prepared())[..at] + data + old(Prepared())[at + |data|..]
    {
      storage := storage[..size + at] + data + storage[size + at + |data|..];
      assert storage[..size] == old(storage)[..size + at][..size];
    }

    /** `commit(n)`: the front of the prepared bytes joins the contents; the rest is discarded. */
    method Commit(n: nat)
      requires Valid()
      modifies this
      ensures Valid() && Prepared() == []
      ensures Contents() == old(Contents()) + old(Prepared())[..Min(n, |old(Prepared())|)]
    {
      var m := Min(n, |storage| - size);
      assert storage[..size + m] == storage[..size] + storage[size..][..m];
      size := size + m;
      storage := Resized(size);
    }

    /** `consume(n)`: the first `n` bytes leave, all of them if there are fewer. */
    method Consume(n: nat)
      requires Valid()
      modifies this
      ensures Valid() && Contents() == old(Contents())[Min(n, old(size))..]
      ensures Prepared() == old(Prepared())
    {
      var length := Min(n, size);
      storage := storage[length..];
      size := size - length;
    }
  }
}
