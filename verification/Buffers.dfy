/** Writing into a caller's buffer. */
module Buffers {
  import opened BitStrings
  import opened Sequences

  /** `after` is `before` with `s` written at `pos`. */
  ghost predicate Placed(before: seq<byte>, after: seq<byte>, pos: nat, s: seq<byte>) {
    pos + |s| <= |before| && after == before[..pos] + s + before[pos + |s|..]
  }

  lemma PlacedFirst(before: seq<byte>, after: seq<byte>, s: seq<byte>)
    requires Placed(before, after, 0, s)
    ensures |after| == |before| && after[..|s|] == s
  {
  }

  /** The bytes `s` lie at `i`. */
  ghost predicate At(t: seq<byte>, i: nat, s: seq<byte>) {
    i + |s| <= |t| && t[i..i + |s|] == s
  }

  ghost predicate Agree(s: seq<byte>, t: seq<byte>, lo: nat, hi: nat) {
    |s| == |t| && lo <= hi <= |s| && s[lo..hi] == t[lo..hi]
  }

  lemma SliceAgrees(s: seq<byte>, t: seq<byte>, lo: nat, hi: nat, a: nat, b: nat)
    requires Agree(s, t, lo, hi) && lo <= a <= b <= hi
    ensures Agree(s, t, a, b)
  {
    Subslice(s, lo, hi, a, b);
    Subslice(t, lo, hi, a, b);
  }

  lemma AtAgrees(s: seq<byte>, t: seq<byte>, lo: nat, hi: nat, i: nat, bytes: seq<byte>)
    requires Agree(s, t, lo, hi) && lo <= i && i + |bytes| <= hi && At(s, i, bytes)
    ensures At(t, i, bytes)
  {
    SliceAgrees(s, t, lo, hi, i, i + |bytes|);
  }

  /** What a write leaves: its bytes, and everything before and behind. */
  lemma Parts(before: seq<byte>, after: seq<byte>, pos: nat, s: seq<byte>)
    requires Placed(before, after, pos, s)
    ensures |before| == |after| && At(after, pos, s)
    ensures Agree(before, after, 0, pos) && Agree(before, after, pos + |s|, |before|)
  {
    assert forall j :: pos + |s| <= j < |before| ==> after[j] == before[j];
  }

  /** Writing next to what was written extends it. */
  lemma PlacedNext(a: seq<byte>, b: seq<byte>, c: seq<byte>, pos: nat, s: seq<byte>, t: seq<byte>)
    requires Placed(a, b, pos, s) && Placed(b, c, pos + |s|, t)
    ensures Placed(a, c, pos, s + t)
  {
  }

  lemma Pointwise(before: seq<byte>, after: seq<byte>, pos: nat, s: seq<byte>)
    requires |before| == |after| && pos + |s| <= |before|
    requires forall j :: 0 <= j < |s| ==> after[pos + j] == s[j]
    requires forall j :: 0 <= j < |before| && !(pos <= j < pos + |s|) ==> after[j] == before[j]
    ensures Placed(before, after, pos, s)
  {
    var t := before[..pos] + s + before[pos + |s|..];
    forall j | 0 <= j < |after| ensures after[j] == t[j] {
      assert pos <= j < pos + |s| ==> after[pos + (j - pos)] == s[j - pos];
    }
  }

  /** `set2`, `set4` and `set8`: the low bytes of `v`, most significant first. */
  method SetBytes(data: array<byte>, pos: nat, v: nat, width: nat)
    requires pos + width <= data.Length
    modifies data
    ensures Placed(old(data[..]), data[..], pos, ToBytes(v, width))
    decreases width
  {
    if width > 0 {
      SetByte(data, pos, v / Pow256(width - 1) % 256);
      ghost var before := data[..];
      SetBytes(data, pos + 1, v, width - 1);
      PlacedNext(old(data[..]), before, data[..], pos, [v / Pow256(width - 1) % 256], ToBytes(v, width - 1));
    }
  }

  /** `set1`. */
  method SetByte(data: array<byte>, pos: nat, b: byte)
    requires pos < data.Length
    modifies data
    ensures Placed(old(data[..]), data[..], pos, [b])
  {
    data[pos] := b;
  }

  /** `memcpy(data+pos, bytes, |bytes|)`. */
  method Copy(data: array<byte>, pos: nat, bytes: seq<byte>)
    requires pos + |bytes| <= data.Length
    modifies data
    ensures Placed(old(data[..]), data[..], pos, bytes)
  {
    for k := 0 to |bytes|
      invariant forall j :: 0 <= j < k ==> data[pos + j] == bytes[j]
      invariant forall j :: 0 <= j < data.Length && !(pos <= j < pos + k) ==> data[j] == old(data[j])
    {
      data[pos + k] := bytes[k];
    }
    Pointwise(old(data[..]), data[..], pos, bytes);
  }
}
