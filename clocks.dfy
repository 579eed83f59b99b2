/** PayloadLengthClock: the resumable parser for the DATALEN header field. */
module Clocks {
  import opened Bytes
  import opened ByteBuffers
  import opened Fragments

  /** Nine digits plus the terminator. */
  const MaximumStringLength: nat := 9 + 1

  /**
   * What one `submit` call yields: the stub (more data needed), a completed
   * fragment, or the size-limit failure the source raises as an exception.
   */
  datatype Result = Pending | Complete(fragment: Fragment) | SizeLimitExceeded

  /** A `submit` call's result together with the clock's accumulator and the input cursor afterwards. */
  datatype Step = Step(result: Result, acc: seq<Slice>, position: nat)

  /** Index of the first SP or LF in `data[pos..lim]`, or `lim` when there is none. */
  function FirstTerminator(data: seq<byte>, pos: nat, lim: nat): (t: nat)
    requires pos <= lim <= |data|
    ensures pos <= t <= lim
    decreases lim - pos
  {
    if pos == lim then lim
    else if IsTerminator(data[pos]) then pos
    else FirstTerminator(data, pos + 1, lim)
  }

  /** No terminator lies before the index, and one lies at it unless it is the bound. */
  lemma {:induction false} FirstTerminatorSpec(data: seq<byte>, pos: nat, lim: nat)
    requires pos <= lim <= |data|
    ensures forall j :: pos <= j < FirstTerminator(data, pos, lim) ==> !IsTerminator(data[j])
    ensures FirstTerminator(data, pos, lim) < lim ==> IsTerminator(data[FirstTerminator(data, pos, lim)])
    decreases lim - pos
  {
    if pos < lim && !IsTerminator(data[pos]) {
      FirstTerminatorSpec(data, pos + 1, lim);
    }
  }

  /** The first terminator is the one with no terminator before it. */
  lemma {:induction false} FirstTerminatorIs(data: seq<byte>, pos: nat, lim: nat, t: nat)
    requires pos <= t <= lim <= |data|
    requires forall j :: pos <= j < t ==> !IsTerminator(data[j])
    requires t < lim ==> IsTerminator(data[t])
    ensures FirstTerminator(data, pos, lim) == t
    decreases lim - pos
  {
    if pos < t {
      FirstTerminatorIs(data, pos + 1, lim, t);
    }
  }

  lemma {:induction false} FirstTerminatorAtLeast(data: seq<byte>, pos: nat, lim: nat, m: nat)
    requires pos <= m <= lim <= |data|
    requires forall j :: pos <= j < m ==> !IsTerminator(data[j])
    ensures FirstTerminator(data, pos, lim) >= m
    decreases lim - pos
  {
    if pos < m {
      FirstTerminatorAtLeast(data, pos + 1, lim, m);
    }
  }

  /** How many bytes a scan from `pos` consumes when the bound does not stop it: through the terminator, or all of them. */
  function Scanned(data: seq<byte>, pos: nat, lim: nat): nat
    requires pos <= lim <= |data|
  {
    var t := FirstTerminator(data, pos, lim);
    if t < lim then t - pos + 1 else lim - pos
  }

  /**
   * One `submit` on a buffer whose readable region is `data[pos..lim]`, with
   * `acc` the views gathered by earlier calls. The bound is checked after each
   * byte is consumed, before its terminator test: the call fails at the first
   * byte that takes the earlier limits plus the bytes read past the maximum.
   */
  function SubmitOutcome(acc: seq<Slice>, data: seq<byte>, pos: nat, lim: nat): (st: Step)
    requires pos <= lim <= |data|
    ensures pos <= st.position <= lim
    ensures st.result.SizeLimitExceeded? ==> st.acc == acc && pos < st.position
    ensures st.result.Complete? ==> st.acc == []
    ensures st.result.Pending? ==> st.position == lim && |st.acc| == |acc| + 1 && st.acc[..|acc|] == acc
  {
    var t := FirstTerminator(data, pos, lim);
    var n := Scanned(data, pos, lim);
    var prior := TotalLimit(acc);
    if n > 0 && prior + n > MaximumStringLength then
      var failedAt := if prior <= MaximumStringLength then MaximumStringLength - prior else 0;
      Step(SizeLimitExceeded, acc, pos + failedAt + 1)
    else if t < lim then
      Step(Complete(Fragment(acc + [View(data, pos, 0, t - pos, false)])), [], if data[t] == LF then t else t + 1)
    else
      Step(Pending, acc + [View(data, pos, 0, lim - pos, false)], lim)
  }

  /**
   * What the clock keeps between calls: views at position 0 whose bytes hold
   * no terminator and together stay within the bound.
   */
  predicate Accumulating(acc: seq<Slice>)
  {
    TotalLimit(acc) == |Concat(acc)| && NoTerminator(Concat(acc)) && TotalLimit(acc) <= MaximumStringLength
  }

  /** `checkOverSize`: true when the earlier limits plus the bytes read so far pass the bound. */
  method CheckOverSize(bytesRead: nat, bufferSliceList: seq<Slice>) returns (overSize: bool)
    ensures overSize <==> TotalLimit(bufferSliceList) + bytesRead > MaximumStringLength
  {
    var currentLength := 0;
    for i := 0 to |bufferSliceList|
      invariant currentLength == TotalLimit(bufferSliceList[..i])
    {
      assert bufferSliceList[..i + 1][..i] == bufferSliceList[..i];
      currentLength := currentLength + bufferSliceList[i].limit;
    }
    assert bufferSliceList[..|bufferSliceList|] == bufferSliceList;
    currentLength := currentLength + bytesRead;
    overSize := currentLength > MaximumStringLength;
  }

  class PayloadLengthClock {
    /** `bufferSliceList`: the views of the field gathered so far. */
    var acc: seq<Slice>

    ghost predicate Valid()
      reads this
    {
      Accumulating(acc)
    }

    constructor ()
      ensures Valid() && acc == []
    {
      acc := [];
    }

    /**
     * `submit`: scan the input from its cursor for SP or LF, keeping the
     * bytes before the terminator as a view onto the input.
     */
    method Submit(input: Buffer) returns (r: Result)
      requires Valid() && input.Valid()
      modifies this, input
      ensures Valid() && input.Valid()
      ensures input.limit == old(input.limit)
      ensures Step(r, acc, input.position) == SubmitOutcome(old(acc), input.data, old(input.position), input.limit)
    {
      ghost var start := input.position;
      ghost var data, lim, acc0 := input.data, input.limit, acc;
      ghost var prior := TotalLimit(acc0);
      var slice: Slice := input.ToSlice();
      var bytesRead := 0;
      var complete := false;
      while input.HasRemaining()
        invariant input.Valid() && input.limit == lim
        invariant input.position == start + bytesRead
        invariant forall j :: start <= j < start + bytesRead ==> !IsTerminator(data[j])
        invariant prior + bytesRead <= MaximumStringLength
        invariant slice == View(data, start, 0, lim - start, false)
        invariant !complete && acc == acc0
        decreases input.limit - input.position
      {
        var b := input.Get();
        bytesRead := bytesRead + 1;
        var overSize := CheckOverSize(bytesRead, acc);
        if overSize {
          OverSizeFails(acc0, data, start, lim, bytesRead - 1);
          r := SizeLimitExceeded;
          assert old(acc) == acc0 && old(input.position) == start && input.limit == lim;
          return;
        }
        if b == LF {
          input.SetPosition(input.position - 1);
          slice := slice.(limit := bytesRead - 1);
          complete := true;
          break;
        } else if b == SP {
          slice := slice.(limit := bytesRead - 1);
          complete := true;
          break;
        }
      }
      acc := acc + [slice];
      if complete {
        TerminatorCloses(acc0, data, start, lim, start + bytesRead - 1);
        r := Complete(Fragment(acc));
        acc := [];
      } else {
        ExhaustedAccumulates(acc0, data, start, lim);
        r := Pending;
      }
      assert old(acc) == acc0 && old(input.position) == start && input.limit == lim;
    }
  }

  /**
   * The call fails at the byte at `pos + i`, the first that takes the total
   * past the bound when no terminator comes before it; nothing is added to
   * the accumulator and the cursor stays past that byte.
   */
  lemma OverSizeFails(acc: seq<Slice>, data: seq<byte>, pos: nat, lim: nat, i: nat)
    requires pos + i < lim <= |data|
    requires forall j :: pos <= j < pos + i ==> !IsTerminator(data[j])
    requires TotalLimit(acc) + i <= MaximumStringLength < TotalLimit(acc) + i + 1
    ensures SubmitOutcome(acc, data, pos, lim) == Step(SizeLimitExceeded, acc, pos + i + 1)
  {
    FirstTerminatorAtLeast(data, pos, lim, pos + i);
  }

  /**
   * A terminator at `k` with room for it ends the field: the new view holds
   * the bytes before it, the accumulator is emptied, and the cursor is left
   * on a line feed but moved past a space.
   */
  lemma TerminatorCloses(acc: seq<Slice>, data: seq<byte>, pos: nat, lim: nat, k: nat)
    requires pos <= k < lim <= |data|
    requires forall j :: pos <= j < k ==> !IsTerminator(data[j])
    requires IsTerminator(data[k])
    requires TotalLimit(acc) + (k - pos + 1) <= MaximumStringLength
    ensures FirstTerminator(data, pos, lim) == k
    ensures SubmitOutcome(acc, data, pos, lim) ==
      Step(Complete(Fragment(acc + [View(data, pos, 0, k - pos, false)])), [], if data[k] == LF then k else k + 1)
  {
    FirstTerminatorIs(data, pos, lim, k);
  }

  /**
   * With no terminator and room left, the whole region joins the accumulator,
   * the cursor reaches the limit, and the accumulator stays in its invariant.
   */
  lemma ExhaustedAccumulates(acc: seq<Slice>, data: seq<byte>, pos: nat, lim: nat)
    requires Accumulating(acc) && pos <= lim <= |data|
    requires forall j :: pos <= j < lim ==> !IsTerminator(data[j])
    requires pos == lim || TotalLimit(acc) + (lim - pos) <= MaximumStringLength
    ensures SubmitOutcome(acc, data, pos, lim) == Step(Pending, acc + [View(data, pos, 0, lim - pos, false)], lim)
    ensures Accumulating(acc + [View(data, pos, 0, lim - pos, false)])
  {
    var slice: Slice := View(data, pos, 0, lim - pos, false);
    assert Remaining(slice) == data[pos..lim];
    FirstTerminatorIs(data, pos, lim, lim);
    ConcatSnoc(acc, slice);
    NoTerminatorSlice(data, pos, lim);
    NoTerminatorAppend(Concat(acc), data[pos..lim]);
  }

  /** A space ends the field: its bytes are the earlier views' and those before the space, which is consumed. */
  lemma SpaceTerminates(acc: seq<Slice>, data: seq<byte>, pos: nat, lim: nat, k: nat)
    requires pos <= k < lim <= |data|
    requires data[k] == SP && forall j :: pos <= j < k ==> !IsTerminator(data[j])
    requires TotalLimit(acc) + (k - pos + 1) <= MaximumStringLength
    ensures var st := SubmitOutcome(acc, data, pos, lim);
      && st == Step(Complete(Fragment(acc + [View(data, pos, 0, k - pos, false)])), [], k + 1)
      && Content(st.result.fragment) == Concat(acc) + data[pos..k]
  {
    TerminatorCloses(acc, data, pos, lim, k);
    ClosedContent(acc, data, pos, k);
  }

  /** A line feed ends the field too, but the cursor is left on it so it can be read as the end-of-transfer marker. */
  lemma LineFeedTerminates(acc: seq<Slice>, data: seq<byte>, pos: nat, lim: nat, k: nat)
    requires pos <= k < lim <= |data|
    requires data[k] == LF && forall j :: pos <= j < k ==> !IsTerminator(data[j])
    requires TotalLimit(acc) + (k - pos + 1) <= MaximumStringLength
    ensures var st := SubmitOutcome(acc, data, pos, lim);
      && st == Step(Complete(Fragment(acc + [View(data, pos, 0, k - pos, false)])), [], k)
      && Content(st.result.fragment) == Concat(acc) + data[pos..k]
      && data[st.position] == LF
  {
    TerminatorCloses(acc, data, pos, lim, k);
    ClosedContent(acc, data, pos, k);
  }

  lemma ClosedContent(acc: seq<Slice>, data: seq<byte>, pos: nat, k: nat)
    requires pos <= k <= |data|
    ensures Concat(acc + [View(data, pos, 0, k - pos, false)]) == Concat(acc) + data[pos..k]
    ensures TotalLimit(acc + [View(data, pos, 0, k - pos, false)]) == TotalLimit(acc) + (k - pos)
  {
    var slice: Slice := View(data, pos, 0, k - pos, false);
    assert Remaining(slice) == data[pos..k];
    ConcatSnoc(acc, slice);
  }

  /** The clock's observable answer, forgetting where the views point. */
  datatype Observation = NeedMore | Field(content: seq<byte>) | TooLong

  function Observe(r: Result): Observation
  {
    match r
    case Pending => NeedMore
    case Complete(f) => Field(Content(f))
    case SizeLimitExceeded => TooLong
  }

  /** The DATALEN field read from one contiguous stream of bytes. */
  function ParseField(stream: seq<byte>): (r: Observation)
    ensures r.Field? ==> |r.content| < MaximumStringLength && |r.content| < |stream| && r.content == stream[..|r.content|]
  {
    var t := FirstTerminator(stream, 0, |stream|);
    if Scanned(stream, 0, |stream|) > MaximumStringLength then TooLong
    else if t < |stream| then Field(stream[..t])
    else NeedMore
  }

  /**
   * The three outcomes of reading a field from a stream: a field of at most
   * nine bytes closed by SP or LF; a failure once eleven bytes are there and
   * the first ten hold no terminator; otherwise a wait for more bytes.
   */
  lemma ParseFieldCharacterised(stream: seq<byte>)
    ensures ParseField(stream).Field? <==>
      exists k :: 0 <= k < |stream| && k < MaximumStringLength && IsTerminator(stream[k]) && NoTerminator(stream[..k])
    ensures ParseField(stream).Field? ==>
      var c := ParseField(stream).content;
      |c| < MaximumStringLength && |c| < |stream| && c == stream[..|c|] && NoTerminator(c) && IsTerminator(stream[|c|])
    ensures ParseField(stream) == TooLong <==>
      |stream| > MaximumStringLength && NoTerminator(stream[..MaximumStringLength])
    ensures ParseField(stream) == NeedMore <==>
      |stream| <= MaximumStringLength && NoTerminator(stream)
  {
    var n := |stream|;
    var t := FirstTerminator(stream, 0, n);
    FirstTerminatorSpec(stream, 0, n);
    NoTerminatorSlice(stream, 0, t);
    assert stream[..t] == stream[0..t];
    if t < n {
      forall k | 0 <= k < n && IsTerminator(stream[k]) && NoTerminator(stream[..k]) ensures k == t { }
      if t >= MaximumStringLength {
        NoTerminatorSlice(stream, 0, MaximumStringLength);
        assert stream[..MaximumStringLength] == stream[0..MaximumStringLength];
      } else if n > MaximumStringLength {
        assert stream[..MaximumStringLength][t] == stream[t];
      }
      assert IsTerminator(stream[t]);
    } else {
      assert stream[..t] == stream;
      if n > MaximumStringLength {
        NoTerminatorSlice(stream, 0, MaximumStringLength);
        assert stream[..MaximumStringLength] == stream[0..MaximumStringLength];
      }
    }
  }

  /** Bytes before the region that hold no terminator shift the scan but do not change it. */
  lemma TerminatorAfterPrefix(p: seq<byte>, data: seq<byte>, pos: nat, lim: nat)
    requires NoTerminator(p) && pos <= lim <= |data|
    ensures |p + data[pos..lim]| == |p| + (lim - pos)
    ensures FirstTerminator(p + data[pos..lim], 0, |p + data[pos..lim]|) == |p| + (FirstTerminator(data, pos, lim) - pos)
    ensures Scanned(p + data[pos..lim], 0, |p + data[pos..lim]|) == |p| + Scanned(data, pos, lim)
  {
    var s := p + data[pos..lim];
    var t := FirstTerminator(data, pos, lim);
    FirstTerminatorSpec(data, pos, lim);
    forall j | 0 <= j < |p| + (t - pos) ensures !IsTerminator(s[j]) {
      if j < |p| {
        assert s[j] == p[j];
      } else {
        assert s[j] == data[pos + (j - |p|)];
      }
    }
    if t < lim {
      assert s[|p| + (t - pos)] == data[t];
    }
    FirstTerminatorIs(s, 0, |s|, |p| + (t - pos));
  }

  /**
   * A call on an accumulating clock answers exactly what reading the earlier
   * bytes followed by this buffer's readable bytes as one stream answers,
   * and while pending the accumulator holds all of those bytes.
   */
  lemma SubmitAgreesWithStream(acc: seq<Slice>, data: seq<byte>, pos: nat, lim: nat)
    requires Accumulating(acc) && pos <= lim <= |data|
    ensures var st := SubmitOutcome(acc, data, pos, lim);
      && Observe(st.result) == ParseField(Concat(acc) + data[pos..lim])
      && Accumulating(st.acc)
      && (st.result.Pending? ==> Concat(st.acc) == Concat(acc) + data[pos..lim])
  {
    var t := FirstTerminator(data, pos, lim);
    var n := Scanned(data, pos, lim);
    TerminatorAfterPrefix(Concat(acc), data, pos, lim);
    if n > 0 && TotalLimit(acc) + n > MaximumStringLength {
    } else if t < lim {
      CompleteAgrees(acc, data, pos, lim);
    } else {
      PendingAgrees(acc, data, pos, lim);
    }
  }

  lemma CompleteAgrees(acc: seq<Slice>, data: seq<byte>, pos: nat, lim: nat)
    requires Accumulating(acc) && pos <= lim <= |data|
    requires FirstTerminator(data, pos, lim) < lim
    requires TotalLimit(acc) + Scanned(data, pos, lim) <= MaximumStringLength
    ensures SubmitOutcome(acc, data, pos, lim).result.Complete?
    ensures Observe(SubmitOutcome(acc, data, pos, lim).result) == ParseField(Concat(acc) + data[pos..lim])
  {
    var t := FirstTerminator(data, pos, lim);
    FieldClosed(Concat(acc), data, pos, lim);
    FirstTerminatorSpec(data, pos, lim);
    TerminatorCloses(acc, data, pos, lim, t);
    ClosedContent(acc, data, pos, t);
  }

  lemma FieldClosed(p: seq<byte>, data: seq<byte>, pos: nat, lim: nat)
    requires NoTerminator(p) && pos <= lim <= |data|
    requires FirstTerminator(data, pos, lim) < lim
    requires |p| + Scanned(data, pos, lim) <= MaximumStringLength
    ensures ParseField(p + data[pos..lim]) == Field(p + data[pos..FirstTerminator(data, pos, lim)])
  {
    var t := FirstTerminator(data, pos, lim);
    TerminatorAfterPrefix(p, data, pos, lim);
    var s := p + data[pos..lim];
    assert ParseField(s) == Field(s[..|p| + (t - pos)]);
    PrefixOfJoin(p, data, pos, t, lim);
  }

  lemma PrefixOfJoin(p: seq<byte>, data: seq<byte>, pos: nat, t: nat, lim: nat)
    requires pos <= t <= lim <= |data|
    ensures (p + data[pos..lim])[..|p| + (t - pos)] == p + data[pos..t]
  {
  }

  lemma PendingAgrees(acc: seq<Slice>, data: seq<byte>, pos: nat, lim: nat)
    requires Accumulating(acc) && pos <= lim <= |data|
    requires FirstTerminator(data, pos, lim) == lim
    requires pos == lim || TotalLimit(acc) + (lim - pos) <= MaximumStringLength
    ensures var st := SubmitOutcome(acc, data, pos, lim);
      && st.result == Pending
      && ParseField(Concat(acc) + data[pos..lim]) == NeedMore
      && Concat(st.acc) == Concat(acc) + data[pos..lim]
      && Accumulating(st.acc)
  {
    NothingClosed(Concat(acc), data, pos, lim);
    ClosedContent(acc, data, pos, lim);
    FirstTerminatorSpec(data, pos, lim);
    ExhaustedAccumulates(acc, data, pos, lim);
  }

  lemma NothingClosed(p: seq<byte>, data: seq<byte>, pos: nat, lim: nat)
    requires NoTerminator(p) && pos <= lim <= |data|
    requires FirstTerminator(data, pos, lim) == lim
    requires |p| + (lim - pos) <= MaximumStringLength
    ensures ParseField(p + data[pos..lim]) == NeedMore
  {
    TerminatorAfterPrefix(p, data, pos, lim);
  }

  /** Every call leaves the clock's accumulator in its invariant. */
  lemma SubmitKeepsAccumulating(acc: seq<Slice>, data: seq<byte>, pos: nat, lim: nat)
    requires Accumulating(acc) && pos <= lim <= |data|
    ensures Accumulating(SubmitOutcome(acc, data, pos, lim).acc)
  {
    SubmitAgreesWithStream(acc, data, pos, lim);
  }

  /** Whatever the split, no completed field holds more than nine bytes, and its views' limits count exactly its bytes. */
  lemma CompletedFieldBounded(acc: seq<Slice>, data: seq<byte>, pos: nat, lim: nat)
    requires Accumulating(acc) && pos <= lim <= |data|
    ensures var r := SubmitOutcome(acc, data, pos, lim).result;
      r.Complete? ==>
        && |Content(r.fragment)| < MaximumStringLength
        && TotalLimit(r.fragment.slices) == |Content(r.fragment)|
        && NoTerminator(Content(r.fragment))
  {
    SubmitAgreesWithStream(acc, data, pos, lim);
    ParseFieldCharacterised(Concat(acc) + data[pos..lim]);
    var t := FirstTerminator(data, pos, lim);
    ClosedContent(acc, data, pos, t);
  }

  /** The bytes handed over one buffer at a time. */
  function Flatten(chunks: seq<seq<byte>>): seq<byte>
  {
    if chunks == [] then [] else chunks[0] + Flatten(chunks[1..])
  }

  /** Submit each chunk as a fresh buffer until a call completes or fails. */
  function Deliver(acc: seq<Slice>, chunks: seq<seq<byte>>): Result
    decreases |chunks|
  {
    if chunks == [] then Pending
    else
      var st := SubmitOutcome(acc, chunks[0], 0, |chunks[0]|);
      if st.result.Pending? then Deliver(st.acc, chunks[1..]) else st.result
  }

  /** Once a stream has an answer, more bytes after it do not change it. */
  lemma ParseFieldDecided(s: seq<byte>, u: seq<byte>)
    requires ParseField(s) != NeedMore
    ensures ParseField(s + u) == ParseField(s)
  {
    var t := FirstTerminator(s, 0, |s|);
    FirstTerminatorSpec(s, 0, |s|);
    if t < |s| {
      forall j | 0 <= j < t ensures !IsTerminator((s + u)[j]) {
        assert (s + u)[j] == s[j];
      }
      assert (s + u)[t] == s[t];
      FirstTerminatorIs(s + u, 0, |s + u|, t);
      assert (s + u)[..t] == s[..t];
    } else {
      NoTerminatorSlice(s, 0, |s|);
      assert s[0..|s|] == s;
      assert u[0..|u|] == u;
      TerminatorAfterPrefix(s, u, 0, |u|);
    }
  }

  lemma {:induction false} DeliverAgreesWithStream(acc: seq<Slice>, chunks: seq<seq<byte>>)
    requires Accumulating(acc)
    ensures Observe(Deliver(acc, chunks)) == ParseField(Concat(acc) + Flatten(chunks))
    decreases |chunks|
  {
    if chunks == [] {
      NothingDelivered(acc);
    } else {
      var p, c := Concat(acc), chunks[0];
      var st := SubmitOutcome(acc, c, 0, |c|);
      FirstChunk(acc, chunks);
      if st.result.Pending? {
        DeliverAgreesWithStream(st.acc, chunks[1..]);
      } else {
        ParseFieldDecided(p + c, Flatten(chunks[1..]));
      }
    }
  }

  lemma NothingDelivered(acc: seq<Slice>)
    requires Accumulating(acc)
    ensures ParseField(Concat(acc) + Flatten([])) == NeedMore
  {
    var p := Concat(acc);
    assert p + Flatten([]) == p;
    FirstTerminatorIs(p, 0, |p|, |p|);
  }

  lemma FirstChunk(acc: seq<Slice>, chunks: seq<seq<byte>>)
    requires Accumulating(acc) && chunks != []
    ensures var c := chunks[0];
      var st := SubmitOutcome(acc, c, 0, |c|);
      && Observe(st.result) == ParseField(Concat(acc) + c)
      && Accumulating(st.acc)
      && (st.result.Pending? ==> Concat(st.acc) == Concat(acc) + c)
      && Concat(acc) + Flatten(chunks) == (Concat(acc) + c) + Flatten(chunks[1..])
  {
    var c := chunks[0];
    assert Flatten(chunks) == c + Flatten(chunks[1..]);
    AppendAssociates(Concat(acc), c, Flatten(chunks[1..]));
    assert c[0..|c|] == c;
    SubmitAgreesWithStream(acc, c, 0, |c|);
  }

  lemma AppendAssociates(a: seq<byte>, b: seq<byte>, c: seq<byte>)
    ensures a + (b + c) == (a + b) + c
  {
  }

  /**
   * Split independence: handing the bytes over in any number of buffers
   * gives the same answer, and a completed field the same bytes, as handing
   * them over in one.
   */
  lemma SplitIndependence(chunks: seq<seq<byte>>)
    ensures Observe(Deliver([], chunks)) == Observe(Deliver([], [Flatten(chunks)]))
    ensures Observe(Deliver([], chunks)) == ParseField(Flatten(chunks))
  {
    EmptyAccumulating();
    DeliverAgreesWithStream([], chunks);
    var whole := Flatten(chunks);
    DeliverAgreesWithStream([], [whole]);
    FlattenSingle(whole);
  }

  lemma EmptyAccumulating()
    ensures Concat([]) == [] && Accumulating([])
  {
  }

  lemma FlattenSingle(whole: seq<byte>)
    ensures Flatten([whole]) == whole
  {
    assert [whole][1..] == [];
  }

  /** A field of at most nine bytes closed by SP or LF completes with exactly those bytes, however it is split. */
  lemma ShortFieldCompletes(chunks: seq<seq<byte>>, content: seq<byte>, t: byte, rest: seq<byte>)
    requires |content| < MaximumStringLength && NoTerminator(content) && IsTerminator(t)
    requires Flatten(chunks) == content + [t] + rest
    ensures Observe(Deliver([], chunks)) == Field(content)
  {
    SplitIndependence(chunks);
    var s := content + [t] + rest;
    forall j | 0 <= j < |content| ensures !IsTerminator(s[j]) {
      assert s[j] == content[j];
    }
    assert s[|content|] == t;
    FirstTerminatorIs(s, 0, |s|, |content|);
    assert s[..|content|] == content;
  }

  /** Ten or more bytes without a terminator fail as soon as one more byte arrives, however they are split. */
  lemma LongFieldFails(chunks: seq<seq<byte>>, content: seq<byte>, rest: seq<byte>)
    requires |content| >= MaximumStringLength && NoTerminator(content) && rest != []
    requires Flatten(chunks) == content + rest
    ensures Deliver([], chunks) == SizeLimitExceeded
  {
    SplitIndependence(chunks);
    var s := content + rest;
    ParseFieldCharacterised(s);
    assert NoTerminator(s[..MaximumStringLength]) by {
      var head := s[..MaximumStringLength];
      forall j | 0 <= j < MaximumStringLength ensures !IsTerminator(head[j]) {
        assert head[j] == content[j];
      }
    }
  }

  /** "0 " and "0\n" both complete with "0"; the space is consumed, the line feed is left unread. */
  lemma TerminatorEquivalence()
    ensures var st := SubmitOutcome([], [0x30, SP], 0, 2);
      st.result.Complete? && Content(st.result.fragment) == [0x30] && st.position == 2
    ensures var st := SubmitOutcome([], [0x30, LF], 0, 2);
      st.result.Complete? && Content(st.result.fragment) == [0x30] && st.position == 1
  {
    var sp: seq<byte> := [0x30, SP];
    var lf: seq<byte> := [0x30, LF];
    assert sp[0..1] == [0x30] && lf[0..1] == [0x30];
    assert Concat([]) == [];
    SpaceTerminates([], sp, 0, 2, 1);
    LineFeedTerminates([], lf, 0, 2, 1);
  }
}
