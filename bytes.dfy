/** Octets and the two RELP header terminators. */
module Bytes {

  /** A Java `byte`, taken as its unsigned value. */
  newtype byte = x: int | 0 <= x < 256

  /** ASCII space, the separator between RELP header fields. */
  const SP: byte := 0x20

  /** ASCII line feed, the RELP end-of-transfer marker. */
  const LF: byte := 0x0A

  /** The bytes that end the DATALEN field. */
  predicate IsTerminator(b: byte)
  {
    b == SP || b == LF
  }

  predicate NoTerminator(s: seq<byte>)
  {
    forall j :: 0 <= j < |s| ==> !IsTerminator(s[j])
  }

  /** A run of `data` holding no terminator, as a sequence of its own. */
  lemma NoTerminatorSlice(data: seq<byte>, pos: nat, k: nat)
    requires pos <= k <= |data|
    requires forall j :: pos <= j < k ==> !IsTerminator(data[j])
    ensures NoTerminator(data[pos..k])
  {
    var s := data[pos..k];
    forall j | 0 <= j < |s| ensures !IsTerminator(s[j]) {
      assert s[j] == data[pos + j];
    }
  }

  lemma NoTerminatorAppend(a: seq<byte>, b: seq<byte>)
    requires NoTerminator(a) && NoTerminator(b)
    ensures NoTerminator(a + b)
  {
    forall j | 0 <= j < |a + b| ensures !IsTerminator((a + b)[j]) {
      if j >= |a| { assert (a + b)[j] == b[j - |a|]; }
    }
  }
}
