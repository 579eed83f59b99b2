/** FragmentImpl: one header field held as an ordered list of zero-copy views. */
module Fragments {
  import opened Bytes
  import opened ByteBuffers
  import Decimal

  /** The views are never re-sliced or advanced once stored. */
  datatype Fragment = Fragment(slices: seq<Slice>)

  /** The field's bytes: every view's remaining bytes, in list order. */
  function Content(f: Fragment): seq<byte>
  {
    Concat(f.slices)
  }

  /** The stand-in for `FragmentFactory.create`: one view over all of `b`. */
  function FromBytes(b: seq<byte>): (f: Fragment)
    ensures Content(f) == b
  {
    var v: Slice := View(b, 0, 0, |b|, false);
    assert Remaining(v) == b;
    assert [v][..0] == [];
    assert Concat([v]) == Concat([]) + Remaining(v);
    Fragment([v])
  }

  /** A real fragment is never the not-yet-complete stub. */
  function IsStub(f: Fragment): (stub: bool)
    ensures !stub
  {
    false
  }

  /** `toBytes`: size the array from the views' remaining counts, then copy each view in turn. */
  method ToBytes(f: Fragment) returns (bytes: array<byte>)
    ensures fresh(bytes)
    ensures bytes.Length == TotalRemaining(f.slices)
    ensures bytes[..] == Content(f)
  {
    var slices := f.slices;
    var totalBytes := 0;
    for i := 0 to |slices|
      invariant totalBytes == TotalRemaining(slices[..i])
    {
      PrefixStep(slices, i);
      totalBytes := totalBytes + (slices[i].limit - slices[i].position);
    }
    assert slices[..|slices|] == slices;
    bytes := new byte[totalBytes];
    ConcatLength(slices);

    var copiedBytes := 0;
    for i := 0 to |slices|
      invariant copiedBytes == TotalRemaining(slices[..i]) <= bytes.Length
      invariant bytes[..copiedBytes] == Concat(slices[..i])
    {
      var slice := slices[i];
      var remainingBytes := slice.limit - slice.position;
      PrefixStep(slices, i);
      TotalRemainingMonotone(slices, i + 1);
      var _ := GetInto(AsReadOnly(slice), bytes, copiedBytes);
      JoinAt(bytes[..], copiedBytes, remainingBytes);
      copiedBytes := copiedBytes + remainingBytes;
    }
    assert bytes[..] == bytes[..copiedBytes];
  }

  lemma JoinAt(a: seq<byte>, c: nat, n: nat)
    requires c + n <= |a|
    ensures a[..c + n] == a[..c] + a[c..c + n]
  {
  }

  /** `size`: the views' limits added up. */
  method Size(f: Fragment) returns (currentLength: nat)
    ensures currentLength == TotalLimit(f.slices)
    ensures currentLength == TotalRemaining(f.slices) + TotalPosition(f.slices)
  {
    var slices := f.slices;
    currentLength := 0;
    for i := 0 to |slices|
      invariant currentLength == TotalLimit(slices[..i])
    {
      assert slices[..i + 1][..i] == slices[..i];
      currentLength := currentLength + slices[i].limit;
    }
    assert slices[..|slices|] == slices;
    LimitSplit(slices);
  }

  predicate AtStart(ss: seq<Slice>)
  {
    forall i :: 0 <= i < |ss| ==> ss[i].position == 0
  }

  /** For views that have not been advanced, `size` is the length of `toBytes`. */
  lemma {:induction false} SizeIsByteCount(ss: seq<Slice>)
    requires AtStart(ss)
    ensures TotalLimit(ss) == |Concat(ss)|
  {
    if ss != [] {
      var init := ss[..|ss| - 1];
      assert AtStart(init);
      SizeIsByteCount(init);
    }
  }

  /** One read-only duplicate per view, in list order. */
  function WritePlan(ss: seq<Slice>): (plan: seq<Slice>)
    ensures |plan| == |ss|
  {
    seq(|ss|, i requires 0 <= i < |ss| => AsReadOnly(ss[i]))
  }

  /** Exporting the views exports exactly the field's bytes. */
  lemma {:induction false} ConcatWritePlan(ss: seq<Slice>)
    ensures Concat(WritePlan(ss)) == Concat(ss)
    ensures forall i :: 0 <= i < |ss| ==> WritePlan(ss)[i].readOnly && Remaining(WritePlan(ss)[i]) == Remaining(ss[i])
  {
    if ss != [] {
      var init := ss[..|ss| - 1];
      assert WritePlan(ss)[..|ss| - 1] == WritePlan(init);
      ConcatWritePlan(init);
    }
  }

  /** `toWriteable`: fill an array with a read-only duplicate of each view. */
  method ToWriteable(f: Fragment) returns (buffers: array<Slice>)
    ensures fresh(buffers)
    ensures buffers[..] == WritePlan(f.slices)
  {
    var slices := f.slices;
    buffers := new Slice[|slices|];
    var buffersIndex := 0;
    while buffersIndex < |slices|
      invariant 0 <= buffersIndex <= |slices|
      invariant forall j :: 0 <= j < buffersIndex ==> buffers[j] == AsReadOnly(slices[j])
    {
      buffers[buffersIndex] := AsReadOnly(slices[buffersIndex]);
      buffersIndex := buffersIndex + 1;
    }
  }

  /** `toFragmentByteStream`: the list of read-only duplicates a byte stream is built from. */
  method ToFragmentByteStream(f: Fragment) returns (bufferCopies: seq<Slice>)
    ensures bufferCopies == WritePlan(f.slices)
  {
    bufferCopies := [];
    for i := 0 to |f.slices|
      invariant bufferCopies == WritePlan(f.slices[..i])
    {
      bufferCopies := bufferCopies + [AsReadOnly(f.slices[i])];
    }
    assert f.slices[..|f.slices|] == f.slices;
  }

  /** `toInt`: the field's text read as a base-10 number, or MalformedNumeric. */
  function ToInt(f: Fragment): (r: Decimal.Numeric)
    ensures r.Value? <==> Content(f) != [] && Decimal.AllDigits(Content(f))
    ensures r.Value? ==> r.value == Decimal.DigitsValue(Content(f))
  {
    Decimal.Parse(Content(f))
  }

  /** A fragment holding the decimal text of `n` reads back as `n`. */
  lemma ToIntRoundTrip(n: nat)
    ensures ToInt(FromBytes(Decimal.Render(n))) == Decimal.Value(n)
  {
    Decimal.ParseRender(n);
  }

  /** Leading zeros do not change what a fragment reads as. */
  lemma ToIntLeadingZero(s: seq<byte>)
    requires s != [] && Decimal.AllDigits(s)
    ensures ToInt(FromBytes([Decimal.Zero] + s)) == ToInt(FromBytes(s))
  {
    Decimal.LeadingZeroIgnored(s);
  }

  /** A fragment holding "42" reads as 42, "0" as 0, "007" as 7; "4a" is malformed. */
  lemma ToIntExamples()
    ensures ToInt(FromBytes([0x34, 0x32])) == Decimal.Value(42)
    ensures ToInt(FromBytes([0x30])) == Decimal.Value(0)
    ensures ToInt(FromBytes([0x34, 0x61])) == Decimal.MalformedNumeric
    ensures ToInt(FromBytes([0x30, 0x30, 0x37])) == Decimal.Value(7)
  {
    Decimal.ParseExamples();
  }
}
