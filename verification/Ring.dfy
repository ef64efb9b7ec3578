/** Bounded deque over caller-provided storage (src/queue.zig). */
module Ring {
  import opened Types

  class Ring<T(0)> {
    const buffer: array<T>
    var head: nat
    var tail: nat
    var len: nat

    ghost predicate Valid()
      reads this
    {
      && len <= buffer.Length
      && (if buffer.Length == 0 then head == 0 else head < buffer.Length)
      && tail == Slot(len)
    }

    /** The buffer index k places after the head. */
    ghost function Slot(k: nat): int
      reads this
    {
      if head + k < buffer.Length then head + k else head + k - buffer.Length
    }

    /** The abstract value: the queued items, front first. */
    ghost function Contents(): (s: seq<T>)
      requires Valid()
      reads this, buffer
      ensures |s| == len
      ensures forall k :: 0 <= k < len ==> s[k] == buffer[Slot(k)]
    {
      if head + len <= buffer.Length then buffer[head..head + len]
      else buffer[head..] + buffer[..head + len - buffer.Length]
    }

    constructor (storage: array<T>)
      ensures Valid() && buffer == storage && Contents() == []
    {
      buffer := storage;
      head, tail, len := 0, 0, 0;
    }

    method PushBack(item: T) returns (ok: bool)
      requires Valid()
      modifies `tail, `len, buffer
      ensures Valid()
      ensures ok == (old(len) < buffer.Length)
      ensures Contents() == if ok then old(Contents()) + [item] else old(Contents())
    {
      if len >= buffer.Length { return false; }
      buffer[tail] := item;
      tail := tail + 1;
      if tail == buffer.Length { tail := 0; }
      len := len + 1;
      assert Contents() == old(Contents()) + [item];
      return true;
    }

    method PushFront(item: T) returns (ok: bool)
      requires Valid()
      modifies `head, `len, buffer
      ensures Valid()
      ensures ok == (old(len) < buffer.Length)
      ensures Contents() == if ok then [item] + old(Contents()) else old(Contents())
    {
      if len >= buffer.Length { return false; }
      head := if head == 0 then buffer.Length - 1 else head - 1;
      buffer[head] := item;
      len := len + 1;
      forall k | 1 <= k < len ensures Contents()[k] == old(Contents())[k - 1] {
        assert Slot(k) == old(Slot(k - 1)) != head;
      }
      return true;
    }

    method PopFront() returns (item: Option<T>)
      requires Valid()
      modifies `head, `len
      ensures Valid()
      ensures if old(len) == 0 then item == None && Contents() == []
              else item == Some(old(Contents())[0]) && Contents() == old(Contents())[1..]
    {
      if len == 0 { return None; }
      item := Some(buffer[head]);
      head := head + 1;
      if head == buffer.Length { head := 0; }
      len := len - 1;
      assert Contents() == old(Contents())[1..];
    }

    method PopBack() returns (item: Option<T>)
      requires Valid()
      modifies `tail, `len
      ensures Valid()
      ensures if old(len) == 0 then item == None && Contents() == []
              else item == Some(old(Contents())[old(len) - 1]) && Contents() == old(Contents())[..old(len) - 1]
    {
      if len == 0 { return None; }
      tail := if tail == 0 then buffer.Length - 1 else tail - 1;
      item := Some(buffer[tail]);
      len := len - 1;
      forall k | 0 <= k < len ensures Contents()[k] == old(Contents())[k] {
        assert Slot(k) == old(Slot(k));
      }
    }

    /** The head item, as the read-only and the mutable front accessors see it. */
    method Front() returns (item: Option<T>)
      requires Valid()
      ensures item == if len == 0 then None else Some(Contents()[0])
    {
      if len == 0 { return None; }
      return Some(buffer[head]);
    }

    /** Assignment through the pointer returned by the mutable front accessor. */
    method SetFront(item: T)
      requires Valid() && len > 0
      modifies buffer
      ensures Valid()
      ensures Contents() == [item] + old(Contents())[1..]
    {
      buffer[head] := item;
      assert Contents() == [item] + old(Contents())[1..];
    }

    method DiscardFront()
      requires Valid()
      modifies `head, `len
      ensures Valid()
      ensures Contents() == if old(len) == 0 then [] else old(Contents())[1..]
    {
      if len == 0 { return; }
      head := head + 1;
      if head == buffer.Length { head := 0; }
      len := len - 1;
      assert Contents() == old(Contents())[1..];
    }

    method Clear()
      requires Valid()
      modifies `head, `tail, `len
      ensures Valid() && Contents() == []
    {
      head, tail, len := 0, 0, 0;
    }
  }
}
