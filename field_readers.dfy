/**
 * The primitive operand readers of ABC bytecode (section 4.1, "Primitive data
 * types", of Adobe's AVM2 Overview), each with the encoder that inverts it.
 *
 *  - u30: a variable-length unsigned integer, 7 payload bits per byte, least
 *    significant group first, the high bit of a byte saying that another byte
 *    follows; 1 to 5 bytes; the value must be below 2^30.
 *  - s24: exactly three bytes, little-endian, two's complement.
 *
 * A reader takes the buffer and a cursor and yields the decoded value together
 * with the number of bytes it consumed, or fails.
 */
module FieldReaders {
  import opened Common

  /** Values of a u30 field lie below this bound. */
  const U30Limit: nat := 0x4000_0000
  /** A u30 field never occupies more than this many bytes. */
  const MaxVarintBytes: nat := 5
  /** The smallest and one past the largest value of an s24 field. */
  const S24Min: int := -0x80_0000
  const S24Bound: int := 0x80_0000

  /** The seven payload bits of one varint byte. */
  function Payload(b: byte): (r: nat)
    ensures r < 128
  {
    b as int % 128
  }

  /** Whether the continuation (high) bit of a varint byte is set. */
  predicate Continues(b: byte) {
    b >= 128
  }

  function Pow128(k: nat): (r: nat)
    ensures r >= 1
  {
    if k == 0 then 1 else 128 * Pow128(k - 1)
  }

  /** `e` stands in `buf` from offset `pos` on. */
  predicate Occurs(buf: seq<byte>, pos: nat, e: seq<byte>)
    decreases |e|
  {
    && pos + |e| <= |buf|
    && (e != [] ==> buf[pos] == e[0] && Occurs(buf, pos + 1, e[1..]))
  }

  lemma {:induction false} OccursIndex(buf: seq<byte>, pos: nat, e: seq<byte>, j: nat)
    requires Occurs(buf, pos, e) && j < |e|
    ensures buf[pos + j] == e[j]
    decreases j
  {
    if j > 0 {
      OccursIndex(buf, pos + 1, e[1..], j - 1);
    }
  }

  lemma {:induction false} OccursOf(buf: seq<byte>, pos: nat, e: seq<byte>)
    requires pos + |e| <= |buf| && forall j :: 0 <= j < |e| ==> buf[pos + j] == e[j]
    ensures Occurs(buf, pos, e)
    decreases |e|
  {
    if e != [] {
      assert buf[pos] == e[0];
      forall j | 0 <= j < |e| - 1 ensures buf[pos + 1 + j] == e[1..][j] {
        assert buf[pos + (j + 1)] == e[j + 1];
      }
      OccursOf(buf, pos + 1, e[1..]);
    }
  }

  lemma OccursBetween(before: seq<byte>, e: seq<byte>, after: seq<byte>)
    ensures Occurs(before + e + after, |before|, e)
  {
    var buf := before + e + after;
    forall j | 0 <= j < |e| ensures buf[|before| + j] == e[j] {}
    OccursOf(buf, |before|, e);
  }

  lemma OccursWhole(buf: seq<byte>)
    ensures Occurs(buf, 0, buf)
  {
    OccursOf(buf, 0, buf);
  }

  /** The same occurrence, named by an offset that is equal to `p`. */
  lemma OccursMoved(buf: seq<byte>, p: nat, q: nat, e: seq<byte>)
    requires Occurs(buf, p, e) && p == q
    ensures Occurs(buf, q, e) && q + |e| <= |buf|
  {
  }

  /** An occurrence of `a + b` is one of `a` followed by one of `b`. */
  lemma {:induction false} OccursSplit(buf: seq<byte>, pos: nat, a: seq<byte>, b: seq<byte>)
    requires Occurs(buf, pos, a + b)
    ensures Occurs(buf, pos, a) && Occurs(buf, pos + |a|, b)
    decreases |a|
  {
    if a == [] {
      assert a + b == b;
    } else {
      assert (a + b)[0] == a[0] && (a + b)[1..] == a[1..] + b;
      OccursSplit(buf, pos + 1, a[1..], b);
    }
  }

  /**
   * Reads the 7-bit groups from offset `pos` on, at most `budget` of them:
   * the value they spell and how many bytes were read. Fails when no byte
   * with a clear continuation bit arrives before the buffer or the budget ends.
   */
  function ReadGroups(buf: seq<byte>, pos: nat, budget: nat): (r: Result<(nat, nat)>)
    requires pos <= |buf|
    ensures r.Ok? ==> 1 <= r.value.1 <= budget && pos + r.value.1 <= |buf|
    ensures r.Ok? ==> r.value.0 < Pow128(r.value.1)
    decreases budget
  {
    if budget == 0 || pos == |buf| then Err(InvalidVarint)
    else if !Continues(buf[pos]) then Ok((Payload(buf[pos]), 1))
    else
      match ReadGroups(buf, pos + 1, budget - 1)
      case Err(e) => Err(e)
      case Ok((v, k)) => Ok((Payload(buf[pos]) + 128 * v, k + 1))
  }

  /**
   * The number the `w` bytes from `pos` on spell as 7-bit groups, least
   * significant first: the sum of `Payload(buf[pos + j]) * 128^j` for `j < w`.
   */
  function GroupValue(buf: seq<byte>, pos: nat, w: nat): nat
    requires pos + w <= |buf|
    decreases w
  {
    if w == 0 then 0 else GroupValue(buf, pos, w - 1) + Payload(buf[pos + w - 1]) * Pow128(w - 1)
  }

  /** Peeling off the first group: it is the low seven bits, the rest is 128 times what follows. */
  lemma {:induction false} GroupValueFirst(buf: seq<byte>, pos: nat, w: nat)
    requires pos + w + 1 <= |buf|
    ensures GroupValue(buf, pos, w + 1) == Payload(buf[pos]) + 128 * GroupValue(buf, pos + 1, w)
    decreases w
  {
    if w > 0 {
      GroupValueFirst(buf, pos, w - 1);
      var last := Payload(buf[pos + w]);
      var inner := GroupValue(buf, pos + 1, w - 1);
      var p := Pow128(w - 1);
      assert GroupValue(buf, pos, w) == Payload(buf[pos]) + 128 * inner;
      assert GroupValue(buf, pos, w + 1) == GroupValue(buf, pos, w) + last * (128 * p);
      assert GroupValue(buf, pos + 1, w) == inner + last * p by {
        assert buf[pos + 1 + w - 1] == buf[pos + w];
      }
      ScaleSum(inner, last, p);
    }
  }

  /** Scaling a sum of a count and a product by 128. */
  lemma ScaleSum(a: int, b: int, c: int)
    ensures 128 * (a + b * c) == 128 * a + b * (128 * c)
  {
  }

  /**
   * What a successful group read consumed: every byte but the last carries
   * the continuation bit, the last does not, and the value is the payloads
   * of those bytes, least significant first.
   */
  lemma {:induction false} ReadGroupsSpells(buf: seq<byte>, pos: nat, budget: nat)
    requires pos <= |buf| && ReadGroups(buf, pos, budget).Ok?
    ensures var (v, w) := ReadGroups(buf, pos, budget).value;
            && !Continues(buf[pos + w - 1])
            && (forall j :: pos <= j < pos + w - 1 ==> Continues(buf[j]))
            && v == GroupValue(buf, pos, w)
    decreases budget
  {
    if Continues(buf[pos]) {
      ReadGroupsSpells(buf, pos + 1, budget - 1);
      var w' := ReadGroups(buf, pos + 1, budget - 1).value.1;
      GroupValueFirst(buf, pos, w');
    }
  }

  /** The u30 reader: (value, bytes consumed) of the field starting at `pos`. */
  function ReadU30(buf: seq<byte>, pos: nat): (r: Result<(nat, nat)>)
    requires pos <= |buf|
    ensures r.Ok? ==> r.value.0 < U30Limit
    ensures r.Ok? ==> 1 <= r.value.1 <= MaxVarintBytes && pos + r.value.1 <= |buf|
    ensures r.Err? ==> r.error == InvalidVarint
  {
    match ReadGroups(buf, pos, MaxVarintBytes)
    case Err(e) => Err(e)
    case Ok((v, k)) => if v < U30Limit then Ok((v, k)) else Err(InvalidVarint)
  }

  /**
   * A successful u30 read stops at the first byte whose continuation bit is
   * clear, and its value is the 7-bit payloads of the bytes read, least
   * significant first.
   */
  lemma U30Spells(buf: seq<byte>, pos: nat)
    requires pos <= |buf| && ReadU30(buf, pos).Ok?
    ensures var (v, w) := ReadU30(buf, pos).value;
            && !Continues(buf[pos + w - 1])
            && (forall j :: pos <= j < pos + w - 1 ==> Continues(buf[j]))
            && v == GroupValue(buf, pos, w)
  {
    ReadGroupsSpells(buf, pos, MaxVarintBytes);
  }

  /** The shortest varint spelling of `n`. */
  function EncodeVarint(n: nat): (r: seq<byte>)
    ensures 1 <= |r|
    decreases n
  {
    if n < 128 then [n as byte] else [(n % 128 + 128) as byte] + EncodeVarint(n / 128)
  }

  lemma {:induction false} EncodeVarintLength(n: nat, k: nat)
    requires 1 <= k && n < Pow128(k)
    ensures |EncodeVarint(n)| <= k
    decreases n
  {
    if n >= 128 {
      EncodeVarintLength(n / 128, k - 1);
    }
  }

  /** The u30 writer: the minimal encoding of a value below 2^30. */
  function EncodeU30(n: nat): (r: seq<byte>)
    requires n < U30Limit
    ensures 1 <= |r| <= MaxVarintBytes
  {
    EncodeVarintLength(n, MaxVarintBytes);
    EncodeVarint(n)
  }

  lemma {:induction false} ReadGroupsOfEncoding(n: nat, buf: seq<byte>, pos: nat, budget: nat)
    requires 1 <= budget && n < Pow128(budget)
    requires Occurs(buf, pos, EncodeVarint(n))
    ensures ReadGroups(buf, pos, budget) == Ok((n, |EncodeVarint(n)|))
    decreases n
  {
    var e := EncodeVarint(n);
    assert buf[pos] == e[0];
    if n >= 128 {
      assert budget >= 2 && n / 128 < Pow128(budget - 1);
      assert Continues(buf[pos]) && Payload(buf[pos]) == n % 128;
      OccursSplit(buf, pos, [e[0]], EncodeVarint(n / 128));
      ReadGroupsOfEncoding(n / 128, buf, pos + 1, budget - 1);
      assert n % 128 + 128 * (n / 128) == n;
    }
  }

  /** Round trip, for the encoding at a given offset. */
  lemma U30ReadsEncoding(n: nat, buf: seq<byte>, pos: nat)
    requires n < U30Limit && Occurs(buf, pos, EncodeU30(n))
    ensures ReadU30(buf, pos) == Ok((n, |EncodeU30(n)|))
  {
    ReadGroupsOfEncoding(n, buf, pos, MaxVarintBytes);
  }

  /**
   * Round trip: wherever the minimal encoding of n < 2^30 stands in a buffer,
   * the u30 reader yields n and consumes exactly that encoding.
   */
  lemma U30RoundTrip(n: nat, before: seq<byte>, after: seq<byte>)
    requires n < U30Limit
    ensures ReadU30(before + EncodeU30(n) + after, |before|) == Ok((n, |EncodeU30(n)|))
  {
    OccursBetween(before, EncodeU30(n), after);
    U30ReadsEncoding(n, before + EncodeU30(n) + after, |before|);
  }

  lemma {:induction false} ReadGroupsMinimal(buf: seq<byte>, pos: nat, budget: nat)
    requires pos <= |buf| && ReadGroups(buf, pos, budget).Ok?
    ensures |EncodeVarint(ReadGroups(buf, pos, budget).value.0)| <= ReadGroups(buf, pos, budget).value.1
    decreases budget
  {
    if Continues(buf[pos]) {
      ReadGroupsMinimal(buf, pos + 1, budget - 1);
      var w := ReadGroups(buf, pos + 1, budget - 1).value.0;
      var v := Payload(buf[pos]) + 128 * w;
      if v >= 128 {
        assert v / 128 == w;
      }
    }
  }

  /**
   * Minimality: whatever bytes the u30 reader accepts, it consumes at least as
   * many as the minimal encoding of the value it returns.
   */
  lemma U30ReadIsNoShorterThanEncoding(buf: seq<byte>, pos: nat)
    requires pos <= |buf| && ReadU30(buf, pos).Ok?
    ensures |EncodeU30(ReadU30(buf, pos).value.0)| <= ReadU30(buf, pos).value.1
  {
    ReadGroupsMinimal(buf, pos, MaxVarintBytes);
  }

  lemma {:induction false} ReadGroupsFails(buf: seq<byte>, pos: nat, budget: nat)
    requires pos <= |buf|
    ensures ReadGroups(buf, pos, budget).Err? <==>
            forall j :: pos <= j < pos + budget && j < |buf| ==> Continues(buf[j])
    decreases budget
  {
    if budget > 0 && pos < |buf| && Continues(buf[pos]) {
      ReadGroupsFails(buf, pos + 1, budget - 1);
    }
  }

  /**
   * The u30 reader fails exactly when the group bytes never terminate — the
   * buffer ends on a continuation bit, or a fifth byte still carries one — or
   * when they spell a value of 2^30 or more.
   */
  lemma U30Fails(buf: seq<byte>, pos: nat)
    requires pos <= |buf|
    ensures ReadU30(buf, pos).Err? <==>
            (forall j :: pos <= j < pos + MaxVarintBytes && j < |buf| ==> Continues(buf[j]))
            || ReadGroups(buf, pos, MaxVarintBytes).value.0 >= U30Limit
  {
    ReadGroupsFails(buf, pos, MaxVarintBytes);
  }

  /** The s24 reader: three little-endian bytes, sign-extended; always 3 bytes wide. */
  function ReadS24(buf: seq<byte>, pos: nat): (r: Result<(int, nat)>)
    requires pos <= |buf|
    ensures r.Err? <==> |buf| - pos < 3
    ensures r.Err? ==> r.error == TruncatedStream
    ensures r.Ok? ==> S24Min <= r.value.0 < S24Bound && r.value.1 == 3
  {
    if |buf| - pos < 3 then Err(TruncatedStream)
    else
      var u := buf[pos] as int + 0x100 * buf[pos + 1] as int + 0x1_0000 * buf[pos + 2] as int;
      Ok((if u < S24Bound then u else u - 0x100_0000, 3))
  }

  /** The 24-bit two's-complement pattern of `n`, read as an unsigned number. */
  function Unsigned24(n: int): (u: nat)
    requires S24Min <= n < S24Bound
    ensures u < 0x100_0000 && u == n % 0x100_0000
  {
    if n < 0 then n + 0x100_0000 else n
  }

  /** The s24 writer: the two's-complement bytes of a value in [-2^23, 2^23). */
  function EncodeS24(n: int): (r: seq<byte>)
    requires S24Min <= n < S24Bound
    ensures |r| == 3
  {
    var u := Unsigned24(n);
    [(u % 0x100) as byte, (u / 0x100 % 0x100) as byte, (u / 0x1_0000) as byte]
  }

  lemma BytesOfTriple(u: int)
    requires 0 <= u < 0x100_0000
    ensures u % 0x100 + 0x100 * (u / 0x100 % 0x100) + 0x1_0000 * (u / 0x1_0000) == u
  {
  }

  lemma TripleOfBytes(b0: int, b1: int, b2: int)
    requires 0 <= b0 < 0x100 && 0 <= b1 < 0x100 && 0 <= b2 < 0x100
    ensures var u := b0 + 0x100 * b1 + 0x1_0000 * b2;
            u % 0x100 == b0 && u / 0x100 % 0x100 == b1 && u / 0x1_0000 == b2
  {
  }

  /** Round trip: the s24 reader inverts the s24 writer wherever its bytes stand. */
  lemma S24ReadsEncoding(n: int, buf: seq<byte>, pos: nat)
    requires S24Min <= n < S24Bound && Occurs(buf, pos, EncodeS24(n))
    ensures ReadS24(buf, pos) == Ok((n, 3))
  {
    var e := EncodeS24(n);
    OccursIndex(buf, pos, e, 0);
    OccursIndex(buf, pos, e, 1);
    OccursIndex(buf, pos, e, 2);
    BytesOfTriple(Unsigned24(n));
  }

  lemma S24RoundTrip(n: int, before: seq<byte>, after: seq<byte>)
    requires S24Min <= n < S24Bound
    ensures ReadS24(before + EncodeS24(n) + after, |before|) == Ok((n, 3))
  {
    OccursBetween(before, EncodeS24(n), after);
    S24ReadsEncoding(n, before + EncodeS24(n) + after, |before|);
  }

  /** And the other way: the s24 writer recovers every three bytes the reader accepts. */
  lemma S24Bijective(buf: seq<byte>, pos: nat)
    requires pos <= |buf| && ReadS24(buf, pos).Ok?
    ensures EncodeS24(ReadS24(buf, pos).value.0) == buf[pos..pos + 3]
  {
    var b0, b1, b2 := buf[pos] as int, buf[pos + 1] as int, buf[pos + 2] as int;
    var u := b0 + 0x100 * b1 + 0x1_0000 * b2;
    TripleOfBytes(b0, b1, b2);
    var v := ReadS24(buf, pos).value.0;
    assert Unsigned24(v) == u;
  }
}
