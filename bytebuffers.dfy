/** The parts of java.nio.ByteBuffer that the header codec relies on. */
module ByteBuffers {
  import opened Bytes

  /**
   * A buffer view onto shared backing bytes: the view starts at `offset`
   * in `data`; `position` and `limit` are relative to that start, as in a
   * buffer produced by `slice()`.
   */
  datatype View = View(data: seq<byte>, offset: nat, position: nat, limit: nat, readOnly: bool)

  /** A view whose cursor and bound lie inside its backing bytes. */
  type Slice = v: View | v.position <= v.limit && v.offset + v.limit <= |v.data|
    witness View([], 0, 0, 0, false)

  /** The bytes between the view's position and its limit. */
  function Remaining(s: Slice): seq<byte>
  {
    s.data[s.offset + s.position .. s.offset + s.limit]
  }

  /** `asReadOnlyBuffer()`: a duplicate sharing the bytes, cursor and bound. */
  function AsReadOnly(s: Slice): (r: Slice)
    ensures r.readOnly && r.position == s.position && r.limit == s.limit
    ensures Remaining(r) == Remaining(s)
  {
    s.(readOnly := true)
  }

  /** The remaining bytes of every view, in order. */
  function Concat(ss: seq<Slice>): seq<byte>
  {
    if ss == [] then [] else Concat(ss[..|ss| - 1]) + Remaining(ss[|ss| - 1])
  }

  function TotalLimit(ss: seq<Slice>): nat
  {
    if ss == [] then 0 else TotalLimit(ss[..|ss| - 1]) + ss[|ss| - 1].limit
  }

  function TotalRemaining(ss: seq<Slice>): nat
  {
    if ss == [] then 0 else TotalRemaining(ss[..|ss| - 1]) + (ss[|ss| - 1].limit - ss[|ss| - 1].position)
  }

  function TotalPosition(ss: seq<Slice>): nat
  {
    if ss == [] then 0 else TotalPosition(ss[..|ss| - 1]) + ss[|ss| - 1].position
  }

  /** The concatenation is exactly as long as the views' remaining counts added up. */
  lemma {:induction false} ConcatLength(ss: seq<Slice>)
    ensures |Concat(ss)| == TotalRemaining(ss)
  {
    if ss != [] {
      ConcatLength(ss[..|ss| - 1]);
    }
  }

  /** Summing limits counts the bytes before each view's position as well. */
  lemma {:induction false} LimitSplit(ss: seq<Slice>)
    ensures TotalLimit(ss) == TotalRemaining(ss) + TotalPosition(ss)
  {
    if ss != [] {
      LimitSplit(ss[..|ss| - 1]);
    }
  }

  lemma {:induction false} TotalRemainingMonotone(ss: seq<Slice>, i: nat)
    requires i <= |ss|
    ensures TotalRemaining(ss[..i]) <= TotalRemaining(ss)
  {
    if i < |ss| {
      var init := ss[..|ss| - 1];
      assert init[..i] == ss[..i];
      TotalRemainingMonotone(init, i);
    } else {
      assert ss[..i] == ss;
    }
  }

  /** Appending a view appends its remaining bytes and adds its counts. */
  lemma ConcatSnoc(ss: seq<Slice>, s: Slice)
    ensures Concat(ss + [s]) == Concat(ss) + Remaining(s)
    ensures TotalLimit(ss + [s]) == TotalLimit(ss) + s.limit
    ensures TotalRemaining(ss + [s]) == TotalRemaining(ss) + (s.limit - s.position)
  {
    assert (ss + [s])[..|ss|] == ss;
  }

  /** One more view: its bytes follow the earlier ones. */
  lemma PrefixStep(ss: seq<Slice>, i: nat)
    requires i < |ss|
    ensures Concat(ss[..i + 1]) == Concat(ss[..i]) + Remaining(ss[i])
    ensures TotalRemaining(ss[..i + 1]) == TotalRemaining(ss[..i]) + (ss[i].limit - ss[i].position)
    ensures TotalLimit(ss[..i + 1]) == TotalLimit(ss[..i]) + ss[i].limit
  {
    assert ss[..i + 1][..i] == ss[..i];
  }

  /**
   * `get(dst, offset, length)` on a read-only duplicate: copies the view's
   * remaining bytes into `dst` at `offset` and returns the advanced duplicate.
   */
  method GetInto(s: Slice, dst: array<byte>, offset: nat) returns (advanced: Slice)
    requires offset + (s.limit - s.position) <= dst.Length
    modifies dst
    ensures dst[..offset] == old(dst[..offset])
    ensures dst[offset .. offset + (s.limit - s.position)] == Remaining(s)
    ensures dst[offset + (s.limit - s.position)..] == old(dst[offset + (s.limit - s.position)..])
    ensures advanced == s.(position := s.limit)
  {
    var n := s.limit - s.position;
    forall j | 0 <= j < n {
      dst[offset + j] := s.data[s.offset + s.position + j];
    }
    advanced := s.(position := s.limit);
  }

  /**
   * The input buffer a caller submits: its readable region is
   * `data[position..limit]`. The backing bytes are never written here.
   */
  class Buffer {
    const data: seq<byte>
    var position: nat
    var limit: nat

    ghost predicate Valid()
      reads this
    {
      position <= limit <= |data|
    }

    constructor (data: seq<byte>, position: nat, limit: nat)
      requires position <= limit <= |data|
      ensures Valid()
      ensures this.data == data && this.position == position && this.limit == limit
    {
      this.data := data;
      this.position := position;
      this.limit := limit;
    }

    predicate HasRemaining()
      reads this
    {
      position < limit
    }

    /** Relative `get()`: reads the byte at the cursor and advances it. */
    method Get() returns (b: byte)
      requires Valid() && HasRemaining()
      modifies this
      ensures Valid()
      ensures b == data[old(position)]
      ensures position == old(position) + 1 && limit == old(limit)
    {
      b := data[position];
      position := position + 1;
    }

    /** `position(p)`. */
    method SetPosition(p: nat)
      requires Valid() && p <= limit
      modifies this
      ensures Valid()
      ensures position == p && limit == old(limit)
    {
      position := p;
    }

    /**
     * `slice()`: a view from the cursor to the limit, starting at position 0.
     * Submitted buffers are taken to be writable, so the view is too; a
     * read-only input would give a read-only slice.
     */
    function ToSlice(): (s: Slice)
      reads this
      requires Valid()
      ensures s.position == 0 && !s.readOnly && s.data == data && s.offset == position
      ensures Remaining(s) == data[position..limit]
    {
      View(data, position, 0, limit - position, false)
    }
  }
}
