/**
 The bit scan of fs/bitmap.c:25-41: whole 32-bit words first, then the bit in the word.
 */
module BitScan {

  /** The least clear bit from position from on, |bits| when there is none. */
  function FirstZero(bits: seq<bool>, from: nat): (k: nat)
    requires from <= |bits|
    ensures from <= k <= |bits| && (k < |bits| ==> !bits[k])
    ensures forall i :: from <= i < k ==> bits[i]
    decreases |bits| - from
  {
    if from == |bits| then from else if !bits[from] then from else FirstZero(bits, from + 1)
  }

  lemma FirstZeroIs(bits: seq<bool>, k: nat)
    requires k <= |bits| && (k < |bits| ==> !bits[k]) && forall i :: 0 <= i < k ==> bits[i]
    ensures FirstZero(bits, 0) == k
  {
  }

  /** notl and bsfl on one word: the least clear bit of the 32 bits from base, if any. */
  method ScanWord(bits: array<bool>, base: nat) returns (found: bool, edx: nat)
    requires base + 32 <= bits.Length
    ensures found <==> exists i :: base <= i < base + 32 && !bits[i]
    ensures found ==> edx < 32 && !bits[base + edx] && forall i :: base <= i < base + edx ==> bits[i]
  {
    edx := 0;
    while edx < 32
      invariant edx <= 32 && forall i :: base <= i < base + edx ==> bits[i]
    {
      if !bits[base + edx] {
        return true, edx;
      }
      edx := edx + 1;
    }
    found := false;
  }

  /** find_first_zero (fs/bitmap.c:25-41): the least clear bit, or the map size when it is full. */
  method FindFirstZero(bits: array<bool>) returns (ecx: nat)
    requires bits.Length % 32 == 0
    ensures ecx == FirstZero(bits[..], 0)
  {
    ecx := 0;
    while ecx < bits.Length
      invariant ecx <= bits.Length && ecx % 32 == 0 && forall i :: 0 <= i < ecx ==> bits[i]
    {
      var found, edx := ScanWord(bits, ecx);
      if found {
        ecx := ecx + edx;
        FirstZeroIs(bits[..], ecx);
        return;
      }
      ecx := ecx + 32;
    }
    FirstZeroIs(bits[..], ecx);
  }
}
