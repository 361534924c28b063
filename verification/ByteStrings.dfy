/** Sequences of bytes: C strings, and what writing into the middle of one leaves. */
module ByteStrings {
  type Byte = b: int | 0 <= b < 256

  type Bytes = seq<Byte>

  // The characters of a name field, up to the terminating zero.
  function CString(field: Bytes): Bytes {
    if field == [] || field[0] == 0 then [] else [field[0]] + CString(field[1..])
  }

  lemma {:induction false} CStringFits(field: Bytes)
    ensures |CString(field)| <= |field|
  {
    if field != [] && field[0] != 0 {
      CStringFits(field[1..]);
    }
  }

  lemma {:induction false} CStringOf(name: Bytes, rest: Bytes)
    requires 0 !in name
    ensures CString(name + [0] + rest) == name
  {
    if name == [] {
      assert name + [0] + rest == [0] + rest;
    } else {
      var field := name + [0] + rest;
      assert field[1..] == name[1..] + [0] + rest;
      CStringOf(name[1..], rest);
    }
  }

  function Zeros(n: nat): (s: Bytes)
    ensures |s| == n && forall i :: 0 <= i < n ==> s[i] == 0
  {
    seq(n, _ => 0)
  }

  // What fwrite at position at leaves behind; a gap past the end reads as zeros.
  function Overlay(data: Bytes, at: nat, bytes: Bytes): (s: Bytes)
    ensures |s| == if at + |bytes| > |data| then at + |bytes| else |data|
    ensures s[at..at + |bytes|] == bytes
    ensures forall i: nat :: i < |data| && i < at ==> s[i] == data[i]
    ensures forall i: nat :: at + |bytes| <= i < |data| ==> s[i] == data[i]
  {
    if at > |data| then data + Zeros(at - |data|) + bytes
    else if at + |bytes| < |data| then data[..at] + bytes + data[at + |bytes|..]
    else data[..at] + bytes
  }

  // Bytes behind the written stretch stay.
  lemma OverlayKeeps(data: Bytes, at: nat, bytes: Bytes, lo: nat, hi: nat)
    requires lo <= hi <= |data| && (at + |bytes| <= lo || hi <= at)
    ensures Overlay(data, at, bytes)[lo..hi] == data[lo..hi]
  {
  }

  lemma SliceOfSlice(s: Bytes, lo: nat, hi: nat, i: nat, j: nat)
    requires lo <= i <= j <= hi <= |s|
    ensures s[lo..hi][i - lo..j - lo] == s[i..j]
  {
    assert forall k :: 0 <= k < j - i ==> s[lo..hi][i - lo..j - lo][k] == s[i..j][k];
  }

  // ---- Little-endian numbers of k bytes ----

  function Le(n: nat, k: nat): (s: Bytes)
    ensures |s| == k
    decreases k
  {
    if k == 0 then [] else [n % 256] + Le(n / 256, k - 1)
  }

  function FromLe(s: Bytes): nat {
    if s == [] then 0 else s[0] + 256 * FromLe(s[1..])
  }

  function Power256(k: nat): nat {
    if k == 0 then 1 else 256 * Power256(k - 1)
  }

  lemma {:induction false} LeRoundTrip(n: nat, k: nat)
    requires n < Power256(k)
    ensures FromLe(Le(n, k)) == n
    decreases k
  {
    if k > 0 {
      LeRoundTrip(n / 256, k - 1);
      assert Le(n, k)[1..] == Le(n / 256, k - 1);
    }
  }

  lemma FourBytes(s: Bytes)
    requires |s| == 4
    ensures FromLe(s) == s[0] as nat + 0x100 * s[1] as nat + 0x1_0000 * s[2] as nat + 0x100_0000 * s[3] as nat
  {
    assert s[1..][1..] == s[2..] && s[2..][1..] == s[3..] && s[3..][1..] == [];
    assert FromLe(s[2..]) == s[2] + 256 * FromLe(s[3..]) && FromLe(s[3..]) == s[3];
  }

  lemma Powers()
    ensures Power256(2) == 0x1_0000 && Power256(4) == 0x1_0000_0000 && Power256(8) == 0x1_0000_0000_0000_0000
  {
    assert Power256(4) == 0x1_0000_0000;
  }
}
