/** `VLCDecoder` and `ExpGolombDecoder` (mcu/include/bitstream.h). */
module Vlc {
  import opened Arith
  import opened BitStrings
  import opened Bitstream
  import opened Wrappers
  import opened Sequences

  // ---------- code tables ----------

  type Codes<V> = map<seq<bool>, V>

  ghost predicate Prefix(p: seq<bool>, q: seq<bool>) {
    p <= q
  }

  /** `p` lies on the way from the root to some code. */
  ghost predicate OnPath<V>(codes: Codes<V>, p: seq<bool>) {
    p == [] || exists c :: c in codes && Prefix(p, c)
  }

  datatype Outcome<V> =
    | Found(value: V, used: nat)
    | NoCode(used: nat)   // the bits read so far are not the beginning of any code
    | OutOfBits

  /** What is left of the stream afterwards. */
  ghost predicate Consumed<V>(o: Outcome<V>, bits: seq<bool>, left: seq<bool>) {
    if o.OutOfBits? then left == [] else o.used <= |bits| && left == bits[o.used..]
  }

  /** Decoding by codes alone: the shortest code that is a prefix of the bits, if one is. */
  ghost function DecodeBits<V>(codes: Codes<V>, bits: seq<bool>, k: nat): Outcome<V>
    requires k <= |bits|
    decreases |bits| - k
  {
    if bits[..k] in codes then Found(codes[bits[..k]], k)
    else if k == |bits| then OutOfBits
    else if OnPath(codes, bits[..k + 1]) then DecodeBits(codes, bits, k + 1)
    else NoCode(k + 1)
  }

  lemma DecodeStep<V>(codes: Codes<V>, bits: seq<bool>, k: nat)
    requires k <= |bits|
    ensures bits[..k] in codes ==> DecodeBits(codes, bits, k) == Found(codes[bits[..k]], k)
    ensures bits[..k] !in codes && k == |bits| ==> DecodeBits(codes, bits, k) == OutOfBits
    ensures bits[..k] !in codes && k < |bits| ==>
              DecodeBits(codes, bits, k) ==
              if OnPath(codes, bits[..k + 1]) then DecodeBits(codes, bits, k + 1) else NoCode(k + 1)
  {
  }

  ghost predicate PrefixFree<V>(codes: Codes<V>) {
    forall c, d :: c in codes && d in codes && Prefix(c, d) ==> c == d
  }

  /** A stream that starts with a code decodes to its value and uses up exactly the code. */
  lemma {:induction false} CodeDecodes<V>(codes: Codes<V>, c: seq<bool>, rest: seq<bool>, k: nat)
    requires PrefixFree(codes) && c in codes && k <= |c|
    ensures DecodeBits(codes, c + rest, k) == Found(codes[c], |c|)
    decreases |c| - k
  {
    var bits := c + rest;
    assert bits[..k] == c[..k];
    if k == |c| {
      assert c[..k] == c;
    } else {
      assert Prefix(c[..k], c) && c[..k] != c;
      assert bits[..k + 1] == c[..k + 1] && Prefix(c[..k + 1], c);
      CodeDecodes(codes, c, rest, k + 1);
    }
  }

  /** The three outcomes, each with exactly the streams that lead to it. */
  lemma {:induction false} DecodeMeaning<V>(codes: Codes<V>, bits: seq<bool>, k: nat)
    requires k <= |bits| && OnPath(codes, bits[..k])
    requires forall j :: 0 <= j < k ==> bits[..j] !in codes
    ensures var o := DecodeBits(codes, bits, k);
            && (o.Found? ==> o.used <= |bits| && bits[..o.used] in codes && o.value == codes[bits[..o.used]])
            && (o.Found? <==> exists j :: 0 <= j <= |bits| && bits[..j] in codes)
            && (o.NoCode? ==> o.used <= |bits| && !OnPath(codes, bits[..o.used]) && OnPath(codes, bits[..o.used - 1]))
            && (o.OutOfBits? ==> OnPath(codes, bits) && forall j :: 0 <= j <= |bits| ==> bits[..j] !in codes)
    decreases |bits| - k
  {
    if bits[..k] in codes {
    } else if k == |bits| {
      assert bits[..k] == bits;
    } else if OnPath(codes, bits[..k + 1]) {
      DecodeMeaning(codes, bits, k + 1);
    } else {
      forall j | k < j <= |bits| ensures bits[..j] !in codes {
        assert Prefix(bits[..k + 1], bits[..j]);
      }
    }
  }

  // ---------- the trie ----------

  class Node<V> {
    var zero: Node?<V>   // childs[0]
    var one: Node?<V>    // childs[1]
    var value: Option<V>

    constructor ()
      ensures zero == null && one == null && value == None
    {
      zero, one := null, null;
      value := None;
    }

    ghost function Child(b: bool): Node?<V>
      reads this
    {
      if b then one else zero
    }
  }

  class VlcDecoder<V> {
    const table: Node<V>
    ghost var nodes: map<seq<bool>, Node<V>>   // the node at the end of each path

    /** The child of the node at `p` is the node at `p+[b]`, if there is one. */
    ghost predicate Linked(p: seq<bool>, b: bool)
      reads this, nodes.Values
      requires p in nodes
    {
      nodes[p].Child(b) == if p + [b] in nodes then nodes[p + [b]] else null
    }

    ghost predicate HasParent(p: seq<bool>)
      reads this
    {
      p != [] ==> p[..|p| - 1] in nodes
    }

    ghost predicate Apart(p: seq<bool>, q: seq<bool>)
      reads this
      requires p in nodes && q in nodes
    {
      nodes[p] == nodes[q] ==> p == q
    }

    ghost predicate Shape()
      reads this, nodes.Values
    {
      && [] in nodes && nodes[[]] == table
      && (forall p {:trigger HasParent(p)} :: p in nodes ==> HasParent(p))
      && (forall p, q {:trigger Apart(p, q)} :: p in nodes && q in nodes ==> Apart(p, q))
      && (forall p, b {:trigger Linked(p, b)} :: p in nodes ==> Linked(p, b))
    }

    ghost function Table(): Codes<V>
      reads this, nodes.Values
    {
      map p | p in nodes && nodes[p].value.Some? :: nodes[p].value.value
    }

    ghost predicate Valid()
      reads this, nodes.Values
    {
      Shape() && forall p {:trigger Reached(p)} :: Reached(p)
    }

    ghost predicate Extended(p: seq<bool>, bits: seq<bool>)
      reads this, nodes.Values
    {
      p in nodes <==> OnPath(Table(), p) || Prefix(p, bits)
    }

    /** There is a node for the path `p` exactly if it lies on the way to a code. */
    ghost predicate Reached(p: seq<bool>)
      reads this, nodes.Values
    {
      p in nodes <==> OnPath(Table(), p)
    }

    constructor ()
      ensures Valid() && fresh(nodes.Values) && Table() == map[]
    {
      var t := new Node();
      table := t;
      nodes := map[[] := t];
      new;
      assert Table() == map[];
    }

    /** A new, empty node below `n`. */
    method AddChild(n: Node<V>, ghost p: seq<bool>, b: bool)
      requires Shape() && p in nodes && nodes[p] == n && n.Child(b) == null
      modifies this, n
      ensures Shape() && p + [b] in nodes && p + [b] !in old(nodes) && n.Child(b) == nodes[p + [b]]
      ensures fresh(nodes[p + [b]]) && nodes == old(nodes)[p + [b] := nodes[p + [b]]]
      ensures n.value == old(n.value) && nodes[p + [b]].value == None
    {
      ghost var path := p + [b];
      assert Linked(p, b);
      forall c: bool ensures path + [c] !in nodes {
        assert (path + [c])[..|path + [c]| - 1] == path;
        assert path + [c] in nodes ==> HasParent(path + [c]);
      }
      var m := new Node<V>();
      if b {
        n.one := m;
      } else {
        n.zero := m;
      }
      nodes := nodes[path := m];
      forall q | q in nodes ensures HasParent(q) {
        if q == path {
          assert path[..|path| - 1] == p;
        } else {
          assert old(HasParent(q));
        }
      }
      forall q, r | q in nodes && r in nodes ensures Apart(q, r) {
        if q != path && r != path { assert old(Apart(q, r)); }
      }
      forall q, c | q in nodes ensures Linked(q, c) {
        if q != path {
          assert old(Linked(q, c)) && old(Apart(q, p));
          if q + [c] == path { SnocInjective(q, c, p, b); }
        }
      }
    }

    /** The walk of `AddValue`: the path is followed from the root, and missing nodes are created. */
    method AddPath(reader: BitReader, len: nat, ghost bits: seq<bool>) returns (n: Node<V>)
      requires Shape() && reader.Valid() && len == |bits| <= |reader.Rest()| && reader.Rest()[..len] == bits
      modifies this, nodes.Values, reader
      ensures Shape() && bits in nodes && nodes[bits] == n
      ensures forall p :: p in nodes <==> p in old(nodes) || Prefix(p, bits)
      ensures forall p :: p in old(nodes) ==> nodes[p] == old(nodes[p]) && nodes[p].value == old(nodes[p].value)
      ensures forall p :: p in nodes && p !in old(nodes) ==> nodes[p].value == None && fresh(nodes[p])
    {
      n := table;
      for i := 0 to len
        invariant reader.Valid() && reader.Rest() == old(reader.Rest())[i..]
        invariant Shape() && bits[..i] in nodes && nodes[bits[..i]] == n
        invariant forall p :: p in nodes <==> p in old(nodes) || Prefix(p, bits[..i])
        invariant forall p :: p in old(nodes) ==> nodes[p] == old(nodes[p]) && nodes[p].value == old(nodes[p].value)
        invariant forall p :: p in nodes && p !in old(nodes) ==> nodes[p].value == None && fresh(nodes[p])
      {
        PrefixStep(bits, i);
        n := FollowBit(reader, n, bits, i);
      }
      assert bits[..|bits|] == bits;
    }

    /** One turn: a bit is read and followed. */
    method FollowBit(reader: BitReader, n: Node<V>, ghost bits: seq<bool>, ghost i: nat) returns (m: Node<V>)
      requires Shape() && i < |bits| && bits[..i] in nodes && nodes[bits[..i]] == n
      requires reader.Valid() && reader.Rest() != [] && reader.Rest()[0] == bits[i]
      modifies this, n, reader
      ensures reader.Valid() && reader.Rest() == old(reader.Rest())[1..]
      ensures Shape() && bits[..i + 1] in nodes && nodes[bits[..i + 1]] == m && nodes == old(nodes)[bits[..i + 1] := m]
      ensures if bits[..i + 1] in old(nodes) then m == old(nodes[bits[..i + 1]]) else fresh(m) && m.value == None
      ensures forall q :: q in old(nodes) ==> nodes[q] == old(nodes[q]) && nodes[q].value == old(nodes[q].value)
    {
      OneFurther(bits, i);
      var b := NextBit(reader);
      m := Step(n, bits[..i], b.value);
    }

    /** Nodes without a value do not show in the table. */
    twostate lemma SameTable()
      requires forall p :: p in old(nodes) ==> p in nodes && nodes[p].value == old(nodes[p].value)
      requires forall p :: p in nodes && p !in old(nodes) ==> nodes[p].value == None
      ensures Table() == old(Table())
    {
    }

    /** `AddValue`: the path spelled by the low `len` bits of `code` gets the value. */
    method AddValue(code: nat, len: nat, value: V)
      requires Valid() && 1 <= len < WORD && code < Pow2(WORD)
      modifies this, nodes.Values
      ensures Valid() && fresh(nodes.Values - old(nodes.Values))
      ensures Table() == old(Table())[Bits(code, len) := value]
    {
      var n := AddCodePath(code, len);
      SetLeaf(n, Bits(code, len), value);
    }

    /** The nodes for the code, none of which has a value yet if it is new. */
    method AddCodePath(code: nat, len: nat) returns (n: Node<V>)
      requires Valid() && 1 <= len < WORD && code < Pow2(WORD)
      modifies this, nodes.Values
      ensures Shape() && fresh(nodes.Values - old(nodes.Values)) && Table() == old(Table())
      ensures Bits(code, len) in nodes && nodes[Bits(code, len)] == n
      ensures forall p {:trigger Extended(p, Bits(code, len))} :: Extended(p, Bits(code, len))
    {
      var reader := CodeReader(code, len);
      n := AddPath(reader, len, Bits(code, len));
      SameTable();
      forall p ensures Extended(p, Bits(code, len)) {
        assert old(Reached(p));
      }
    }

    /** The node at the end of a new path gets its value. */
    method SetLeaf(n: Node<V>, ghost bits: seq<bool>, value: V)
      requires Shape() && bits in nodes && nodes[bits] == n
      requires forall p {:trigger Extended(p, bits)} :: Extended(p, bits)
      modifies n
      ensures Valid() && Table() == old(Table())[bits := value]
    {
      ghost var before := Table();
      SetValue(n, bits, value);
      assert Table() == before[bits := value];
      forall p ensures Reached(p) {
        assert old(Extended(p, bits));
      }
    }

    method SetValue(n: Node<V>, ghost path: seq<bool>, value: V)
      requires Shape() && path in nodes && nodes[path] == n
      modifies n
      ensures Shape() && n.value == Some(value)
      ensures forall p :: p in nodes && p != path ==> nodes[p].value == old(nodes[p].value)
    {
      n.value := Some(value);
      forall p, b | p in nodes ensures Linked(p, b) { assert old(Linked(p, b)); }
      forall p, q | p in nodes && q in nodes ensures Apart(p, q) { assert old(Apart(p, q)); }
      forall p | p in nodes ensures HasParent(p) { assert old(HasParent(p)); }
      forall p | p in nodes && p != path ensures nodes[p].value == old(nodes[p].value) { assert Apart(p, path); }
    }

    /** One turn of the loop of `Decode`: a bit is read and its child looked up. */
    method Descend(reader: BitReader, n: Node<V>, ghost p: seq<bool>) returns (b: Option<bool>, c: Node?<V>)
      requires Valid() && reader.Valid() && p in nodes && nodes[p] == n
      modifies reader
      ensures reader.Valid()
      ensures old(reader.Rest()) == [] ==> b == None && reader.Rest() == []
      ensures old(reader.Rest()) != [] ==> b == Some(old(reader.Rest())[0]) && reader.Rest() == old(reader.Rest())[1..]
      ensures b.Some? ==> c == if p + [b.value] in nodes then nodes[p + [b.value]] else null
    {
      b := NextBit(reader);
      c := null;
      if b.Some? {
        assert Linked(p, b.value);
        c := if b.value then n.one else n.zero;
      }
    }

    /** One turn of the loop of `Decode` at a node without a value: it ends the loop or goes one node down. */
    method Turn(reader: BitReader, n: Node<V>, k: nat, ghost bits: seq<bool>)
      returns (end: Option<Outcome<V>>, c: Node?<V>)
      requires Valid() && reader.Valid() && k <= |bits| && reader.Rest() == bits[k..]
      requires bits[..k] in nodes && nodes[bits[..k]] == n && n.value == None
      modifies reader
      ensures reader.Valid()
      ensures end.Some? ==> end.value == DecodeBits(Table(), bits, k) && Consumed(end.value, bits, reader.Rest())
      ensures end.None? ==> k < |bits| && reader.Rest() == bits[k + 1..]
      ensures end.None? ==> c != null && bits[..k + 1] in nodes && nodes[bits[..k + 1]] == c
      ensures end.None? ==> DecodeBits(Table(), bits, k) == DecodeBits(Table(), bits, k + 1)
    {
      Advance(bits, k);
      DecodeStep(Table(), bits, k);
      assert k < |bits| ==> Reached(bits[..k + 1]);
      var b;
      b, c := Descend(reader, n, bits[..k]);
      end := if b == None then Some(OutOfBits) else if c == null then Some(NoCode(k + 1)) else None;
    }

    /** `Decode`: bits choose children until a node has a value. */
    method Decode(reader: BitReader) returns (r: Outcome<V>)
      requires Valid() && reader.Valid()
      modifies reader
      ensures reader.Valid() && r == DecodeBits(Table(), old(reader.Rest()), 0)
      ensures Consumed(r, old(reader.Rest()), reader.Rest())
    {
      var n := table;
      var k := 0;
      ghost var bits := reader.Rest();
      while n.value == None
        invariant reader.Valid() && k <= |bits| && reader.Rest() == bits[k..]
        invariant bits[..k] in nodes && nodes[bits[..k]] == n
        invariant DecodeBits(Table(), bits, 0) == DecodeBits(Table(), bits, k)
        decreases |bits| - k
      {
        var end, c := Turn(reader, n, k, bits);
        if end.Some? {
          return end.value;
        }
        n := c;
        k := k + 1;
      }
      DecodeStep(Table(), bits, k);
      r := Found(n.value.value, k);
    }

    /** One turn of the loop of `AddValue`. */
    method Step(n: Node<V>, ghost p: seq<bool>, b: bool) returns (m: Node<V>)
      requires Shape() && p in nodes && nodes[p] == n
      modifies this, n
      ensures Shape() && p + [b] in nodes && nodes[p + [b]] == m && n.value == old(n.value)
      ensures nodes == old(nodes)[p + [b] := m]
      ensures if p + [b] in old(nodes) then m == old(nodes[p + [b]]) else fresh(m) && m.value == None
      ensures forall q :: q in old(nodes) ==> nodes[q] == old(nodes[q]) && nodes[q].value == old(nodes[q].value)
    {
      var c := if b then n.one else n.zero;
      assert Linked(p, b);
      if c == null {
        AddChild(n, p, b);
      }
      m := if b then n.one else n.zero;
      assert p + [b] in old(nodes) ==> nodes == old(nodes)[p + [b] := m];
    }
  }

  lemma PrefixStep(bits: seq<bool>, i: nat)
    requires i < |bits|
    ensures bits[..i + 1] == bits[..i] + [bits[i]]
    ensures forall p :: Prefix(p, bits[..i + 1]) <==> Prefix(p, bits[..i]) || p == bits[..i] + [bits[i]]
  {
    forall p | Prefix(p, bits[..i + 1]) ensures Prefix(p, bits[..i]) || p == bits[..i + 1] {
      if |p| <= i { assert p == bits[..i][..|p|]; }
    }
  }

  /** The code written to four bytes; `n` of them carry bits. */
  method WriteCode(code: nat, len: nat) returns (aux: array<byte>, n: nat)
    requires 1 <= len < WORD && code < Pow2(WORD)
    ensures fresh(aux) && aux.Length == 4 && n <= 4 && n <= len <= 8 * n
    ensures BytesBits(aux[..n])[..len] == Bits(code, len)
  {
    aux := new byte[4];
    var writer := new BitWriter(aux, 4);
    var ok := writer.Put(len, code);
    assert writer.Written() == Bits(code, len);
    var r := writer.Flush();
    n := r.value;
    FirstOf(BytesBits(aux[..n]), Bits(code, len), Bits(0, Pad(len)), len);
    assert Bits(code, len)[..len] == Bits(code, len);
  }

  /** The written code and a reader over `len` bytes from there on. */
  method CodeReader(code: nat, len: nat) returns (reader: BitReader)
    requires 1 <= len < WORD && code < Pow2(WORD)
    ensures fresh(reader) && reader.Valid() && len <= |reader.Rest()| && reader.Rest()[..len] == Bits(code, len)
  {
    var aux, n := WriteCode(code, len);
    var past := new byte[if len > 4 then len - 4 else 0];   // memory behind the four bytes, never read
    var bytes := (aux[..] + past[..])[..len];
    reader := new BitReader(bytes);
    BytesPrefix(bytes, n);
    assert bytes[..n] == aux[..n];
    FirstOf(BytesBits(bytes), BytesBits(bytes[..n]), BytesBits(bytes[n..]), len);
  }

  // ---------- tables built by a list of AddValue calls ----------

  datatype Code<V> = Code(bits: seq<bool>, value: V)

  function TableOf<V>(cs: seq<Code<V>>): Codes<V> {
    if cs == [] then map[]
    else
      var n := |cs| - 1;
      TableOf(cs[..n])[cs[n].bits := cs[n].value]
  }

  ghost predicate NoneBegins<V>(cs: seq<Code<V>>) {
    forall i, j :: 0 <= i < |cs| && 0 <= j < |cs| && i != j ==> !Prefix(cs[i].bits, cs[j].bits)
  }

  lemma {:induction false} TableEntries<V>(cs: seq<Code<V>>)
    requires NoneBegins(cs)
    ensures forall i :: 0 <= i < |cs| ==> cs[i].bits in TableOf(cs) && TableOf(cs)[cs[i].bits] == cs[i].value
    ensures forall b :: b in TableOf(cs) ==> exists i :: 0 <= i < |cs| && cs[i].bits == b
    decreases |cs|
  {
    if cs != [] {
      var n := |cs| - 1;
      TableEntries(cs[..n]);
      forall i | 0 <= i < n ensures cs[i].bits != cs[n].bits && cs[i] == cs[..n][i] {
        assert Prefix(cs[i].bits, cs[i].bits);
      }
      forall b | b in TableOf(cs) ensures exists i :: 0 <= i < |cs| && cs[i].bits == b {
        if b in TableOf(cs[..n]) {
          var i :| 0 <= i < n && cs[..n][i].bits == b;
          assert cs[i].bits == b;
        } else {
          assert cs[n].bits == b;
        }
      }
    }
  }

  /** Whatever the order the codes of a prefix-free list were added in, each of them decodes to its value. */
  lemma EveryCodeDecodes<V>(cs: seq<Code<V>>, i: nat, rest: seq<bool>)
    requires NoneBegins(cs) && i < |cs|
    ensures DecodeBits(TableOf(cs), cs[i].bits + rest, 0) == Found(cs[i].value, |cs[i].bits|)
  {
    TableEntries(cs);
    forall c, d | c in TableOf(cs) && d in TableOf(cs) && Prefix(c, d) ensures c == d {
      var x :| 0 <= x < |cs| && cs[x].bits == c;
      var y :| 0 <= y < |cs| && cs[y].bits == d;
    }
    CodeDecodes(TableOf(cs), cs[i].bits, rest, 0);
  }

  // ---------- Exp-Golomb ----------

  function LeadingZeros(bits: seq<bool>): (z: nat)
    ensures z <= |bits| && (z < |bits| ==> bits[z])
    ensures forall i :: 0 <= i < z ==> !bits[i]
  {
    if bits == [] || bits[0] then 0 else 1 + LeadingZeros(bits[1..])
  }

  /** `floor(log2(x))`. */
  function Log2(x: nat): (l: nat)
    requires x > 0
    ensures Pow2(l) <= x < Pow2(l + 1)
  {
    if x == 1 then 0 else 1 + Log2(x / 2)
  }

  /** Section 9.1 of H.264: as many zeros as there are bits after the leading one of `codeNum+1`. */
  function GolombBits(codeNum: nat): seq<bool> {
    var l := Log2(codeNum + 1);
    Bits(0, l) + Bits(codeNum + 1, l + 1)
  }

  /** `EndOfStream` is the exception; `TooWide` a shift of 1 by 31 or more, or a read of more than 32 bits. */
  datatype Golomb = CodeNumber(value: nat) | EndOfStream | TooWide

  /** Bytes in the buffer after `k` bits were read one by one, with `cached` bits and `len` bytes at first. */
  function BufferAfter(cached: nat, len: nat, k: nat): nat {
    var loads := if k <= cached then 0 else (k - cached + 31) / 32;
    if len <= 4 * loads then 0 else len - 4 * loads
  }

  lemma BufferNext(cached: nat, len: nat, k: nat, now: nat)
    requires k < cached + 8 * len && now == BufferAfter(cached, len, k)
    ensures BufferAfter(cached, len, k + 1)
         == if cached + 8 * len - k == 8 * now then (if now > 3 then now - 4 else 0) else now
  {
  }

  /** The loop: zeros are counted, and the one behind them is read. */
  method CountZeros(reader: BitReader) returns (len: nat, ok: bool)
    requires reader.Valid()
    modifies reader
    ensures reader.Valid() && len == LeadingZeros(old(reader.Rest())) && ok == (len < |old(reader.Rest())|)
    ensures reader.Rest() == if ok then old(reader.Rest())[len + 1..] else []
    ensures ok ==> reader.bufferLen == BufferAfter(old(reader.cached), old(reader.bufferLen), len + 1)
  {
    ghost var bits, c, l := reader.Rest(), reader.cached, reader.bufferLen;
    len := 0;
    var b := ZeroOrOne(reader, bits, c, l, len);
    while b == Some(false)
      invariant reader.Valid() && len <= LeadingZeros(bits) && |bits| == c + 8 * l
      invariant b == None ==> len == LeadingZeros(bits) == |bits| && reader.Rest() == []
      invariant b.Some? ==> len < |bits| && b == Some(bits[len]) && reader.Rest() == bits[len + 1..]
      invariant b.Some? ==> reader.bufferLen == BufferAfter(c, l, len + 1)
      decreases |bits| - len, b.Some?
    {
      len := len + 1;
      b := ZeroOrOne(reader, bits, c, l, len);
    }
    ok := b.Some?;
  }

  /** One turn: bit `k` is read. */
  method ZeroOrOne(reader: BitReader, ghost bits: seq<bool>, ghost c: nat, ghost l: nat, ghost k: nat)
    returns (b: Option<bool>)
    requires reader.Valid() && k <= |bits| == c + 8 * l && reader.Rest() == bits[k..]
    requires reader.bufferLen == BufferAfter(c, l, k)
    modifies reader
    ensures reader.Valid() && b == if k < |bits| then Some(bits[k]) else None
    ensures reader.Rest() == if k < |bits| then bits[k + 1..] else []
    ensures k < |bits| ==> reader.bufferLen == BufferAfter(c, l, k + 1)
  {
    Advance(bits, k);
    if k < |bits| {
      BufferNext(c, l, k, reader.bufferLen);
    }
    b := NextBit(reader);
  }

  /** The offset is cut off by the end of the stream. */
  ghost predicate CutOff(bits: seq<bool>, z: nat) {
    z < |bits| && z <= 31 && |bits| < 2 * z + 1
  }

  /**
    `ExpGolombDecoder::Decode`, for every stream: `z` is the number of leading zeros and `left` the number of bytes
    still in the buffer behind the one.  An offset cut off by the end of the stream is noticed exactly if the buffer
    is used up by then; otherwise a number is returned and the reader is spoilt.
    */
  method DecodeGolomb(reader: BitReader) returns (r: Golomb, ghost z: nat, ghost left: nat)
    requires reader.Valid()
    modifies reader
    ensures z == LeadingZeros(old(reader.Rest()))
    ensures left == BufferAfter(old(reader.cached), old(reader.bufferLen), z + 1)
    ensures r == GolombOutcome(old(reader.Rest()), z, left)
    ensures reader.Valid() <==> !CutOff(old(reader.Rest()), z) || left == 0
    ensures 2 * z + 1 <= |old(reader.Rest())| && z <= 30 ==> reader.Rest() == old(reader.Rest())[z + 1..][z..]
  {
    ghost var c, l := reader.cached, reader.bufferLen;
    var len, ok := CountZeros(reader);
    z, left := len, BufferAfter(c, l, len + 1);
    if !ok {
      r := EndOfStream;
      return;
    }
    if len >= WORD {
      r := TooWide;
      return;
    }
    var value := reader.Get(len);
    r := if value.None? then EndOfStream
         else if len == 31 then TooWide
         else CodeNumber(Pow2(len) - 1 + value.value);
  }

  ghost function GolombOutcome(bits: seq<bool>, z: nat, left: nat): Golomb
    requires z <= |bits|
  {
    if z == |bits| || (CutOff(bits, z) && left == 0) then EndOfStream
    else if z >= 31 then TooWide
    else CodeNumber(Pow2(z) - 1 + Leading(bits[z + 1..], z))
  }

  /** Every code number below 2^31-1 is read back from its code, whatever follows. */
  lemma GolombRoundTrip(codeNum: nat, rest: seq<bool>, left: nat)
    requires codeNum + 1 < Pow2(31)
    ensures var bits := GolombBits(codeNum) + rest; var z := LeadingZeros(bits);
            && GolombOutcome(bits, z, left) == CodeNumber(codeNum)
            && 2 * z + 1 <= |bits| && z <= 30 && bits[z + 1..][z..] == rest
  {
    var x := codeNum + 1;
    var l := Log2(x);
    var bits := GolombBits(codeNum) + rest;
    LogBound(l, x, 31);
    LeadingOne(x, l);
    var low := Bits(x, l);
    assert bits == Bits(0, l) + ([true] + low) + rest;
    ZeroBits(l);
    GolombLayout(Bits(0, l), low, rest);
    ValBits(x, l);
    DivModUnique(x, Pow2(l), 1, x - Pow2(l));
  }

  lemma LogBound(l: nat, x: nat, n: nat)
    requires Pow2(l) <= x < Pow2(n)
    ensures l < n
  {
    if l >= n {
      Pow2Mono(n, l);
    }
  }

  lemma LeadingOne(x: nat, l: nat)
    requires Pow2(l) <= x < Pow2(l + 1)
    ensures Bits(x, l + 1) == [true] + Bits(x, l)
  {
    BitsSplit(x, 1, l);
    DivModUnique(x, Pow2(l), 1, x - Pow2(l));
    assert Bits(1, 1) == Bits(0, 0) + [true];
  }

  lemma GolombLayout(zeros: seq<bool>, low: seq<bool>, rest: seq<bool>)
    requires |zeros| == |low| && forall i :: 0 <= i < |zeros| ==> !zeros[i]
    ensures var bits := zeros + ([true] + low) + rest; var z := |zeros|;
            && LeadingZeros(bits) == z < |bits| && 2 * z + 1 <= |bits|
            && bits[z + 1..][..z] == low && bits[z + 1..][z..] == rest
  {
    var bits := zeros + ([true] + low) + rest;
    var z := |zeros|;
    assert bits[z] && forall i :: 0 <= i < z ==> !bits[i];
    var y := LeadingZeros(bits);
    assert bits[z + 1..] == low + rest;
  }
}
