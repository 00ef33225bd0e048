/**
 * The HilRom checksum of the mhash library: the 32-bit wrap-around sum of
 * the input read as little-endian words, optionally emitted as its negation.
 * The running sum is kept as an integer below 2^32; every addition is
 * reduced modulo 2^32, which is what the unsigned 32-bit addition does.
 */
module HilRom {
  import opened Bytes

  /** Byte position inside the current little-endian word. */
  type Lane = k: int | 0 <= k < 4

  /** The hashing context: lane of the next byte, inversion flag and running sum. */
  datatype Context = Context(offs: Lane, inverted: bool, checksum: u32)

  /** A fresh context for the plain sum. */
  function Init(): (ctx: Context)
    ensures ctx.offs == 0 && !ctx.inverted && ctx.checksum == 0
  {
    Context(0, false, 0)
  }

  /** A fresh context whose digest is the negated sum. */
  function InitInv(): (ctx: Context)
    ensures ctx.offs == 0 && ctx.inverted && ctx.checksum == 0
    ensures ctx == Init().(inverted := true)
  {
    Context(0, true, 0)
  }

  /** Unsigned 32-bit addition. */
  function Add(a: u32, b: u32): u32
  {
    Wrap32(a + b)
  }

  /** The lane after k: lanes cycle 0, 1, 2, 3, 0, ... */
  function NextLane(k: Lane): (r: Lane)
    ensures r == (k + 1) % 4
  {
    if k == 3 then 0 else k + 1
  }

  /** 2^(8n): the number of values n bytes can hold. */
  function Span(n: nat): nat
    requires n <= 4
  {
    match n
    case 0 => 1
    case 1 => 0x100
    case 2 => 0x1_0000
    case 3 => 0x100_0000
    case 4 => 0x1_0000_0000
  }

  /** Four bytes fill a 32-bit word. */
  lemma SpanFits(n: nat)
    requires n <= 4
    ensures Span(n) <= Word32
  {
  }

  /** Byte b shifted left into lane k: b * 2^(8k). */
  function LaneTerm(b: byte, k: Lane): (t: nat)
    ensures t + Span(k) <= Span(k + 1)
  {
    var v := b as int;
    match k
    case 0 => v
    case 1 => v * 0x100
    case 2 => v * 0x1_0000
    case 3 => v * 0x100_0000
  }

  /** Add one byte shifted into its lane and advance the lane. */
  function Step(ctx: Context, b: byte): (r: Context)
  {
    Context(NextLane(ctx.offs), ctx.inverted, Add(ctx.checksum, LaneTerm(b, ctx.offs)))
  }

  /** Feed a buffer to the context, byte by byte. */
  function Update(ctx: Context, buf: seq<byte>): (r: Context)
    ensures r.inverted == ctx.inverted
    ensures r.offs == (ctx.offs + |buf|) % 4
  {
    if |buf| == 0 then ctx
    else
      var before := Update(ctx, buf[..|buf| - 1]);
      LaneAdvance(ctx.offs, |buf| - 1);
      Step(before, buf[|buf| - 1])
  }

  /** Advancing the lane reached after n bytes by one more is the lane after n + 1 bytes. */
  lemma LaneAdvance(k: nat, n: nat)
    ensures ((k + n) % 4 + 1) % 4 == (k + n + 1) % 4
  {
  }

  /** The loop of the library's update routine: one lane-shifted addition per byte. */
  method UpdateLoop(ctx: Context, buf: seq<byte>) returns (r: Context)
    ensures r == Update(ctx, buf)
  {
    r := ctx;
    var i := 0;
    while i < |buf|
      invariant 0 <= i <= |buf|
      invariant r == Update(ctx, buf[..i])
    {
      assert buf[..i + 1][..i] == buf[..i];
      r := Step(r, buf[i]);
      i := i + 1;
    }
    assert buf[..i] == buf;
  }

  /**
   * The digest: the sum, or, when inverted, the sum decremented and
   * complemented, which is its two's-complement negation.
   */
  function Digest(ctx: Context): (d: u32)
    ensures ctx.inverted ==> (d + ctx.checksum) % Word32 == 0
    ensures !ctx.inverted ==> d == ctx.checksum
  {
    if ctx.inverted then
      var dec := (ctx.checksum - 1) % Word32;
      // complementing all 32 bits of dec
      (Word32 - 1) - dec
    else ctx.checksum
  }

  /** Emit the little-endian digest and clear the context. */
  function Final(ctx: Context): (r: (seq<byte>, Context))
    ensures |r.0| == 4 && WordValue(r.0) == Digest(ctx)
    ensures r.1 == Init()
  {
    (LeBytes(Digest(ctx)), Context(0, false, 0))
  }

  /** The little-endian value of up to four bytes, missing bytes read as zero. */
  function WordValue(w: seq<byte>): (v: nat)
    requires |w| <= 4
    ensures v < Span(|w|)
  {
    if |w| == 0 then 0 else WordValue(w[..|w| - 1]) + LaneTerm(w[|w| - 1], |w| - 1)
  }

  /** The value of four bytes, lane by lane. */
  lemma WordValueOfFour(r: seq<byte>)
    requires |r| == 4
    ensures WordValue(r) == LaneTerm(r[0], 0) + LaneTerm(r[1], 1) + LaneTerm(r[2], 2) + LaneTerm(r[3], 3)
  {
    assert r[..3][..2][..1][..0] == [];
    assert r[..3][..2][..1] == [r[0]];
    assert r[..3][..2] == [r[0], r[1]];
    assert r[..3] == [r[0], r[1], r[2]];
  }

  /** Base-256 digits of a 32-bit value, least significant first. */
  lemma Digits(d: u32)
    ensures var q1 := d / 0x100; var q2 := q1 / 0x100; var q3 := q2 / 0x100;
      q3 < 0x100 && d == d % 0x100 + (q1 % 0x100) * 0x100 + (q2 % 0x100) * 0x1_0000 + q3 * 0x100_0000
  {
    var q1 := d / 0x100;
    var q2 := q1 / 0x100;
    var q3 := q2 / 0x100;
    assert d == q1 * 0x100 + d % 0x100;
    assert q1 == q2 * 0x100 + q1 % 0x100;
    assert q2 == q3 * 0x100 + q2 % 0x100;
  }

  /** The four little-endian bytes of a 32-bit value. */
  function LeBytes(d: u32): (r: seq<byte>)
    ensures |r| == 4 && WordValue(r) == d
  {
    var q1 := d / 0x100;
    var q2 := q1 / 0x100;
    var q3 := q2 / 0x100;
    Digits(d);
    var r := [ByteOf(d % 0x100), ByteOf(q1 % 0x100), ByteOf(q2 % 0x100), ByteOf(q3)];
    WordValueOfFour(r);
    r
  }

  /** Two wrapped additions are one wrapped addition of the sum. */
  lemma AddAdd(a: u32, x: u32, y: u32)
    requires x + y < Word32
    ensures Add(Add(a, x), y) == Add(a, x + y)
  {
  }

  /** Reference definition: the wrap-around sum of the little-endian words of s, the last one zero-padded. */
  function WordSum(s: seq<byte>): u32
    decreases |s|
  {
    if |s| <= 4 then WordValue(s) else Add(WordSum(s[4..]), WordValue(s[..4]))
  }

  /** Wrapped addition of x then y is wrapped addition of their wrapped sum. */
  lemma AddAddWrapped(a: u32, x: u32, y: u32)
    ensures Add(Add(a, x), y) == Add(a, Add(y, x))
  {
  }

  /** Feeding a then b is feeding a ++ b. */
  lemma {:induction false} UpdateAppend(ctx: Context, a: seq<byte>, b: seq<byte>)
    ensures Update(Update(ctx, a), b) == Update(ctx, a + b)
    decreases |b|
  {
    if |b| == 0 {
      assert a + b == a;
    } else {
      UpdateAppend(ctx, a, b[..|b| - 1]);
      assert (a + b)[..|a + b| - 1] == a + b[..|b| - 1];
    }
  }

  /** Up to four bytes fed at lane 0 add their zero-padded little-endian word and reach lane |w| mod 4. */
  lemma {:induction false} PartialWord(ctx: Context, w: seq<byte>)
    requires |w| <= 4 && ctx.offs == 0
    ensures Update(ctx, w).checksum == Add(ctx.checksum, WordValue(w))
    ensures Update(ctx, w).offs == |w| % 4
  {
    if |w| > 0 {
      PartialWord(ctx, w[..|w| - 1]);
      PartialWordStep(ctx, w, Update(ctx, w[..|w| - 1]));
    }
  }

  /** The last of up to four bytes, fed at its lane, adds its lane term to the word of the bytes before it. */
  lemma PartialWordStep(ctx: Context, w: seq<byte>, prev: Context)
    requires 0 < |w| <= 4 && ctx.offs == 0
    requires prev == Update(ctx, w[..|w| - 1])
    requires prev.checksum == Add(ctx.checksum, WordValue(w[..|w| - 1]))
    ensures Update(ctx, w).checksum == Add(ctx.checksum, WordValue(w))
  {
    var n := |w| - 1;
    SpanFits(|w|);
    assert prev.offs == n;
    var t := LaneTerm(w[n], n);
    assert WordValue(w) == WordValue(w[..n]) + t;
    AddAdd(ctx.checksum, WordValue(w[..n]), t);
    assert Update(ctx, w) == Step(prev, w[n]);
  }

  /** From a context at lane 0 the running sum grows by the little-endian word sum of the input. */
  lemma {:induction false} UpdateIsWordSum(ctx: Context, s: seq<byte>)
    requires ctx.offs == 0
    ensures Update(ctx, s).checksum == Add(ctx.checksum, WordSum(s))
    decreases |s|
  {
    if |s| <= 4 {
      PartialWord(ctx, s);
    } else {
      var w, rest := s[..4], s[4..];
      assert w + rest == s;
      UpdateAppend(ctx, w, rest);
      PartialWord(ctx, w);
      UpdateIsWordSum(Update(ctx, w), rest);
      AddAddWrapped(ctx.checksum, WordValue(w), WordSum(rest));
    }
  }

  /** The plain digest of a whole message is its word sum. */
  lemma DigestIsWordSum(s: seq<byte>)
    ensures Digest(Update(Init(), s)) == WordSum(s)
  {
    UpdateIsWordSum(Init(), s);
  }

  /** The inverted digest of a whole message added to its word sum wraps to zero. */
  lemma InvertedDigestCancels(s: seq<byte>)
    ensures (Digest(Update(InitInv(), s)) + WordSum(s)) % Word32 == 0
  {
    UpdateIsWordSum(InitInv(), s);
    assert Update(InitInv(), s).checksum == WordSum(s);
  }
}
