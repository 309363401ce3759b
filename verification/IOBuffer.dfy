/**
 * The offset-based byte buffer.  Its layout is
 *
 *     [ headroom | data | uninitialised )     0 <= startOffset <= endOffset <= Capacity()
 *
 * where the headroom holds bytes already consumed.  Reallocation keeps them, and the parsers
 * rely on that: they look one byte behind the start offset.
 */
module IOBuffers {
  import opened Options

  class IOBuffer {
    var data: array<char>
    var startOffset: nat
    var endOffset: nat

    ghost predicate Valid()
      reads this
    {
      startOffset <= endOffset <= data.Length
    }

    // Every byte up to the end offset, headroom included
    ghost function Written(): (s: string)
      reads this, data
      requires Valid()
    {
      data[..endOffset]
    }

    // The working data
    ghost function View(): (s: string)
      reads this, data
      requires Valid()
    {
      data[startOffset..endOffset]
    }

    constructor (capacity: nat)
      ensures Valid() && fresh(data)
      ensures data.Length == capacity
      ensures startOffset == endOffset == 0
    {
      data := new char[capacity];
      startOffset, endOffset := 0, 0;
    }

    /** `reserve`: 0 asks for twice the capacity.  A smaller size truncates, as realloc does. */
    method Reserve(memSize: nat)
      modifies this
      ensures fresh(data)
      ensures data.Length == if memSize == 0 then 2 * old(data.Length) else memSize
      ensures startOffset == old(startOffset) && endOffset == old(endOffset)
      ensures forall i :: 0 <= i < data.Length && i < old(data.Length) ==> data[i] == old(data[i])
    {
      var size := if memSize == 0 then data.Length * 2 else memSize;
      var grown := new char[size];
      var kept := if size < data.Length then size else data.Length;
      forall i | 0 <= i < kept {
        grown[i] := data[i];
      }
      data := grown;
    }

    method AvailableSpace() returns (space: nat)
      requires Valid()
      ensures endOffset + space == data.Length
    {
      space := data.Length - endOffset;
    }

    method DataSize() returns (size: nat)
      requires Valid()
      ensures size == |View()|
    {
      size := endOffset - startOffset;
    }

    // memcpy to the end offset, within the block
    method CopyToEnd(bytes: string)
      requires Valid() && endOffset + |bytes| <= data.Length
      modifies this`endOffset, data
      ensures Valid()
      ensures Written() == old(Written()) + bytes
      ensures View() == old(View()) + bytes
    {
      forall i | 0 <= i < |bytes| {
        data[endOffset + i] := bytes[i];
      }
      endOffset := endOffset + |bytes|;
      assert Written() == old(Written()) + bytes;
      assert View() == old(View()) + bytes;
    }

    /** `appendRawBytes(data, size)`: writes at the end offset, growing at most once. */
    method AppendRawBytes(bytes: string)
      requires Valid()
      modifies this, data
      ensures Valid() && (data == old(data) || fresh(data))
      ensures startOffset == old(startOffset)
      ensures Written() == old(Written()) + bytes
      ensures View() == old(View()) + bytes
      ensures data.Length == if old(endOffset) + |bytes| <= old(data.Length)
                             then old(data.Length) else old(data.Length) + |bytes|
      decreases if endOffset + |bytes| <= data.Length then 0 else 1
    {
      var space := AvailableSpace();
      if space >= |bytes| {
        CopyToEnd(bytes);
      } else {
        label before:
        Reserve(data.Length + |bytes|);
        assert Written() == old@before(Written());
        assert View() == old@before(View());
        AppendRawBytes(bytes);
      }
    }

    method ModifyStartOffset(n: nat)
      requires Valid() && startOffset + n <= endOffset
      modifies this`startOffset
      ensures Valid() && startOffset == old(startOffset) + n
      ensures Written() == old(Written())
      ensures View() == old(View())[n..]
    {
      startOffset := startOffset + n;
    }

    method SetStartOffset(n: nat)
      requires Valid() && n <= endOffset
      modifies this`startOffset
      ensures Valid() && startOffset == n
      ensures Written() == old(Written())
      ensures View() == Written()[n..]
    {
      startOffset := n;
    }

    method Clear()
      modifies this
      ensures Valid() && data == old(data)
      ensures startOffset == endOffset == 0 && Written() == View() == ""
    {
      startOffset, endOffset := 0, 0;
    }

    /**
     * `appendRawBytes(const IOBuffer &)`.  It reserves the SOURCE's capacity, so when the data
     * does not fit it works only if that capacity happens to be large enough; BufferAppendIsExact
     * below says what happens otherwise.  Appending a buffer to itself is allowed.
     */
    method AppendBuffer(other: IOBuffer)
      requires Valid() && other.Valid() && (other == this || other.data != data)
      requires endOffset + |other.View()| <= data.Length || endOffset + |other.View()| <= other.data.Length
      modifies this, data
      ensures Valid() && (data == old(data) || fresh(data))
      ensures startOffset == old(startOffset)
      ensures Written() == old(Written()) + old(other.View())
      ensures View() == old(View()) + old(other.View())
      ensures other != this ==> other.Valid() && other.View() == old(other.View())
      ensures data.Length == if old(endOffset + |other.View()|) <= old(data.Length)
                             then old(data.Length) else old(other.data.Length)
      decreases if endOffset + |other.View()| <= data.Length then 0 else 1
    {
      var size := other.DataSize();
      var space := AvailableSpace();
      if size <= space {
        CopyToEnd(other.data[other.startOffset..other.endOffset]);
      } else {
        label before:
        Reserve(other.data.Length);
        assert Written() == old@before(Written());
        assert View() == old@before(View());
        AppendBuffer(other);
      }
    }
  }

  // What a call of the buffer-to-buffer append does, by capacities alone

  const SIZE_MODULUS: nat := 0x1_0000_0000_0000_0000

  datatype AppendOutcome =
    | Appended(capacity: nat)  // the bytes are in place
    | WritesPastEnd            // end offset beyond the capacity: the free space wraps around to a huge value
    | RecursesForever          // the same reserve is repeated without effect

  // `capacity_ - end_offset_` in size_t arithmetic
  function AvailableSpaceOf(capacity: nat, end: nat): nat {
    (capacity as int - end as int) % SIZE_MODULUS
  }

  // One activation of the append: finished, or the capacity its recursive call starts from
  datatype Activation = Copies(inBounds: bool) | Recurses(capacity: nat)

  function Activate(capacity: nat, end: nat, otherCapacity: nat, size: nat): Activation {
    if size <= AvailableSpaceOf(capacity, end) then
      Copies(end + size <= capacity)
    else
      Recurses(if otherCapacity == 0 then 2 * capacity else otherCapacity)
  }

  // The activation at a given recursion depth, if the recursion gets there
  function ActivationAt(depth: nat, capacity: nat, end: nat, otherCapacity: nat, size: nat): Option<Activation> {
    if depth == 0 then Some(Activate(capacity, end, otherCapacity, size))
    else
      match ActivationAt(depth - 1, capacity, end, otherCapacity, size)
      case Some(Recurses(c)) => Some(Activate(c, end, otherCapacity, size))
      case _ => None
  }

  function BufferAppend(capacity: nat, end: nat, otherCapacity: nat, size: nat): AppendOutcome {
    if end + size <= capacity then Appended(capacity)
    else if end + size <= otherCapacity then Appended(otherCapacity)
    else if otherCapacity < end then WritesPastEnd
    else RecursesForever
  }

  // Some activation copies, within bounds or not.
  ghost predicate Copied(inBounds: bool, capacity: nat, end: nat, otherCapacity: nat, size: nat) {
    exists depth: nat :: ActivationAt(depth, capacity, end, otherCapacity, size) == Some(Copies(inBounds))
  }

  predicate RecursesAt(depth: nat, capacity: nat, end: nat, otherCapacity: nat, size: nat) {
    var a := ActivationAt(depth, capacity, end, otherCapacity, size);
    a.Some? && a.value.Recurses?
  }

  ghost predicate RecursesAtEveryDepth(capacity: nat, end: nat, otherCapacity: nat, size: nat) {
    forall depth: nat :: RecursesAt(depth, capacity, end, otherCapacity, size)
  }

  /**
   * Exactly what the recursion does, for every pair of valid buffers: it copies within bounds,
   * after at most one reserve, iff the data fits or the source's capacity is at least the
   * destination's end offset plus the data size; otherwise it copies past the end of the block if
   * the source's capacity is below that end offset, and recurses at every depth if not.
   */
  lemma BufferAppendIsExact(capacity: nat, end: nat, otherCapacity: nat, size: nat)
    requires end <= capacity < SIZE_MODULUS / 2 && size <= otherCapacity < SIZE_MODULUS / 2
    ensures Copied(true, capacity, end, otherCapacity, size)
       <==> end + size <= capacity || end + size <= otherCapacity
    ensures Copied(false, capacity, end, otherCapacity, size)
       <==> capacity < end + size && otherCapacity < end
    ensures RecursesAtEveryDepth(capacity, end, otherCapacity, size)
       <==> capacity < end + size && end <= otherCapacity < end + size
    ensures BufferAppend(capacity, end, otherCapacity, size).Appended?
       <==> Copied(true, capacity, end, otherCapacity, size)
    ensures forall depth: nat, inBounds :: depth > 1 ==>
              ActivationAt(depth, capacity, end, otherCapacity, size) != Some(Copies(inBounds))
  {
    var outcome := BufferAppend(capacity, end, otherCapacity, size);
    var deepest: nat := if end + size <= capacity then 0 else 1;
    ActivationIs(deepest, capacity, end, otherCapacity, size);
    hide ActivationAt;
    forall depth: nat, inBounds
      ensures ActivationAt(depth, capacity, end, otherCapacity, size) == Some(Copies(inBounds))
         <==> !outcome.RecursesForever? && depth == deepest && inBounds == outcome.Appended?
    {
      ActivationIs(depth, capacity, end, otherCapacity, size);
    }
    if outcome.RecursesForever? {
      forall depth: nat ensures RecursesAt(depth, capacity, end, otherCapacity, size) {
        ActivationIs(depth, capacity, end, otherCapacity, size);
      }
    } else {
      assert !RecursesAt(deepest, capacity, end, otherCapacity, size);
      assert ActivationAt(deepest, capacity, end, otherCapacity, size) == Some(Copies(outcome.Appended?));
    }
  }

  // The activation at each depth, from the outcome
  function ActivationFor(outcome: AppendOutcome, depth: nat, fits: bool, otherCapacity: nat): Option<Activation> {
    if outcome.RecursesForever? || (depth == 0 && !fits) then Some(Recurses(otherCapacity))
    else if depth == if fits then 0 else 1 then Some(Copies(outcome.Appended?))
    else None
  }

  lemma {:induction false} ActivationIs(depth: nat, capacity: nat, end: nat, otherCapacity: nat, size: nat)
    requires end <= capacity < SIZE_MODULUS / 2 && size <= otherCapacity < SIZE_MODULUS / 2
    ensures var outcome := BufferAppend(capacity, end, otherCapacity, size);
            ActivationAt(depth, capacity, end, otherCapacity, size)
            == ActivationFor(outcome, depth, end + size <= capacity, otherCapacity)
  {
    if depth > 0 {
      ActivationIs(depth - 1, capacity, end, otherCapacity, size);
    }
  }

  // Both failures occur: full buffers of ten bytes, to which a small buffer is appended.
  lemma BufferAppendCanFail()
    ensures ActivationAt(1, 10, 10, 4, 2) == Some(Copies(false))
    ensures RecursesAtEveryDepth(10, 10, 11, 5)
  {
    assert ActivationAt(0, 10, 10, 4, 2) == Some(Recurses(4));
    BufferAppendIsExact(10, 10, 11, 5);
  }

  // Runs of operations: the buffer is a byte queue

  datatype Operation = Append(bytes: string) | Consume(count: nat) | Clear

  // What was appended since the last clear
  function Enqueued(run: seq<Operation>): string {
    if run == [] then ""
    else
      var before := Enqueued(run[..|run| - 1]);
      match run[|run| - 1]
      case Append(bytes) => before + bytes
      case Consume(_) => before
      case Clear => ""
  }

  // How much of it was consumed
  function Dequeued(run: seq<Operation>): nat {
    if run == [] then 0
    else
      var before := Dequeued(run[..|run| - 1]);
      match run[|run| - 1]
      case Append(_) => before
      case Consume(n) => before + n
      case Clear => 0
  }

  // No operation consumes more than is there
  predicate InRange(run: seq<Operation>) {
    run != [] ==> InRange(run[..|run| - 1]) && Dequeued(run) <= |Enqueued(run)|
  }

  lemma {:induction false} InRangePrefix(run: seq<Operation>, n: nat)
    requires InRange(run) && n <= |run|
    ensures InRange(run[..n])
  {
    if n < |run| {
      InRangePrefix(run[..|run| - 1], n);
      assert run[..|run| - 1][..n] == run[..n];
    } else {
      assert run[..n] == run;
    }
  }

  /**
   * Over any run of raw appends, in-range advances of the start offset and clears, starting from
   * any capacity, the buffer holds what was appended since the last clear, still including the
   * consumed headroom, and its view is that minus what was consumed.
   */
  method Replay(capacity: nat, run: seq<Operation>) returns (buffer: IOBuffer)
    requires InRange(run)
    ensures buffer.Valid() && fresh(buffer) && fresh(buffer.data)
    ensures buffer.Written() == Enqueued(run)
    ensures buffer.startOffset == Dequeued(run) <= |Enqueued(run)|
    ensures buffer.View() == Enqueued(run)[Dequeued(run)..]
  {
    buffer := new IOBuffer(capacity);
    for k := 0 to |run|
      invariant buffer.Valid() && fresh(buffer) && fresh(buffer.data)
      invariant buffer.Written() == Enqueued(run[..k])
      invariant buffer.startOffset == Dequeued(run[..k])
    {
      assert run[..k + 1][..k] == run[..k];
      InRangePrefix(run, k + 1);
      match run[k]
      case Append(bytes) => buffer.AppendRawBytes(bytes);
      case Consume(n) => buffer.ModifyStartOffset(n);
      case Clear => buffer.Clear();
    }
    assert run[..|run|] == run;
    assert buffer.View() == buffer.Written()[buffer.startOffset..];
  }
}
